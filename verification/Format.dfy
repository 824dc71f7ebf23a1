/** The document formatter (crates/service-core/src/format.rs), on every text.

    `None` stands for the panic the source raises when the line scanner, which moves one byte at a time,
    slices inside a character that takes more than one byte. */
module Format {

  import opened Outcomes

  const INDENT_WIDTH: nat := 4

  // ----- characters and trimming -------------------------------------------------------------

  predicate IsAscii(c: char) {
    c < '\U{80}'
  }

  /** What `trim_trailing` and the scanner take for blank. */
  predicate IsSpace(c: char) {
    c == ' ' || c == '\t'
  }

  /** What the standard library's `trim` takes for blank: Unicode's White_Space. */
  predicate IsWhitespace(c: char) {
    || '\U{9}' <= c <= '\r' || c == ' ' || c == '\U{85}' || c == '\U{A0}' || c == '\U{1680}'
    || '\U{2000}' <= c <= '\U{200A}' || c == '\U{2028}' || c == '\U{2029}' || c == '\U{202F}' || c == '\U{205F}'
    || c == '\U{3000}'
  }

  predicate IsBlank(line: string) {
    forall k :: 0 <= k < |line| ==> IsWhitespace(line[k])
  }

  function TrimStart(line: string): (r: string)
    ensures |r| <= |line|
    ensures r != "" ==> !IsWhitespace(r[0])
  {
    if line == "" || !IsWhitespace(line[0]) then line else TrimStart(line[1..])
  }

  /** What `trim_start` takes off. */
  function Margin(line: string): string {
    line[..|line| - |TrimStart(line)|]
  }

  lemma {:induction false} MarginAndContent(line: string)
    ensures line == Margin(line) + TrimStart(line) && IsBlank(Margin(line))
    ensures TrimStart(line) == "" <==> IsBlank(line)
  {
    hide IsWhitespace;
    if line != "" && IsWhitespace(line[0]) {
      var p := Margin(line[1..]);
      MarginAndContent(line[1..]);
      assert TrimStart(line) == TrimStart(line[1..]);
      assert Margin(line) == [line[0]] + p;
    } else {
      assert Margin(line) == "";
    }
  }

  function TrimTrailing(line: string): (r: string)
    ensures r <= line
    ensures r != "" ==> !IsSpace(r[|r| - 1])
    ensures forall k :: |r| <= k < |line| ==> IsSpace(line[k])
  {
    if line == "" || !IsSpace(line[|line| - 1]) then line else TrimTrailing(line[..|line| - 1])
  }

  function Spaces(n: nat): (r: string)
    ensures |r| == n && forall k :: 0 <= k < n ==> r[k] == ' '
  {
    seq(n, _ => ' ')
  }

  // ----- scanning one line -------------------------------------------------------------------

  datatype Scan = Scan(inBlock: bool, seenCode: bool, leadingCloses: nat, net: int)

  predicate StartsWith(s: string, a: char, b: char) {
    |s| >= 2 && s[0] == a && s[1] == b
  }

  predicate IsOpen(c: char) {
    c == '{' || c == '['
  }

  predicate IsClose(c: char) {
    c == '}' || c == ']'
  }

  /** One code character outside comments. */
  function Step(c: char, s: Scan): Scan {
    if IsOpen(c) then s.(seenCode := true, net := s.net + 1)
    else if IsClose(c) then
      s.(leadingCloses := if s.seenCode then s.leadingCloses else s.leadingCloses + 1,
         net := s.net - 1,
         seenCode := true)
    else if IsSpace(c) then s
    else s.(seenCode := true)
  }

  /** The scan of the rest of a line, as if every character took one byte. */
  function ScanRest(rest: string, s: Scan): Scan
    decreases |rest|
  {
    if rest == "" then s
    else if s.inBlock then
      if StartsWith(rest, '*', '/') then ScanRest(rest[2..], s.(inBlock := false)) else ScanRest(rest[1..], s)
    else if StartsWith(rest, '/', '/') then s
    else if StartsWith(rest, '/', '*') then ScanRest(rest[2..], s.(inBlock := true))
    else ScanRest(rest[1..], Step(rest[0], s))
  }

  /** How much of a line the scan looks at: all of it up to a line comment outside block comments. */
  function Scanned(rest: string, inBlock: bool): (n: nat)
    ensures n <= |rest|
    decreases |rest|
  {
    if rest == "" then 0
    else if inBlock then
      if StartsWith(rest, '*', '/') then 2 + Scanned(rest[2..], false) else 1 + Scanned(rest[1..], true)
    else if StartsWith(rest, '/', '/') then 0
    else if StartsWith(rest, '/', '*') then 2 + Scanned(rest[2..], true)
    else 1 + Scanned(rest[1..], false)
  }

  /** The scan panics on a character before the line comment that is not ASCII. */
  predicate Panics(line: string, inBlock: bool) {
    exists k :: 0 <= k < Scanned(line, inBlock) && !IsAscii(line[k])
  }

  function Fresh(inBlock: bool): Scan {
    Scan(inBlock, false, 0, 0)
  }

  /** What the loop does at one character, and by how much it moves on. */
  function LineStep(rest: string, s: Scan): (Scan, nat)
    requires rest != ""
  {
    if s.inBlock then (if StartsWith(rest, '*', '/') then (s.(inBlock := false), 2) else (s, 1))
    else if StartsWith(rest, '/', '*') then (s.(inBlock := true), 2)
    else (Step(rest[0], s), 1)
  }

  lemma StepScans(rest: string, s: Scan)
    requires rest != "" && (s.inBlock || !StartsWith(rest, '/', '/'))
    ensures var (t, k) := LineStep(rest, s);
            && 1 <= k <= |rest| && (k == 2 ==> IsAscii(rest[1]))
            && ScanRest(rest, s) == ScanRest(rest[k..], t)
            && Scanned(rest, s.inBlock) == k + Scanned(rest[k..], t.inBlock)
  {
    hide Step;
    KeepsComment(rest[0], s);
  }

  lemma KeepsComment(c: char, s: Scan)
    ensures Step(c, s).inBlock == s.inBlock
  {
  }

  lemma StepCloses(rest: string, s: Scan)
    requires rest != "" && s.leadingCloses <= (if s.seenCode then 1 else 0)
    ensures var t := LineStep(rest, s).0; t.leadingCloses <= (if t.seenCode then 1 else 0)
  {
    hide StartsWith;
  }

  lemma LineSteps(line: string, index: nat, s: Scan)
    requires index < |line| && (s.inBlock || !StartsWith(line[index..], '/', '/'))
    requires s.leadingCloses <= (if s.seenCode then 1 else 0)
    ensures var rest := line[index..]; var (t, k) := LineStep(rest, s);
            && 1 <= k && index + k <= |line| && (k == 2 ==> IsAscii(rest[1]))
            && ScanRest(rest, s) == ScanRest(line[index + k..], t)
            && Scanned(rest, s.inBlock) == k + Scanned(line[index + k..], t.inBlock)
            && t.leadingCloses <= (if t.seenCode then 1 else 0)
  {
    hide ScanRest, Scanned, LineStep, StartsWith;
    var rest := line[index..];
    var k := LineStep(rest, s).1;
    StepScans(rest, s);
    StepCloses(rest, s);
    assert rest[k..] == line[index + k..];
  }

  /** `scan_line` */
  method ScanLine(line: string, inBlock: bool) returns (r: Option<(nat, int, bool)>)
    ensures r.None? <==> Panics(line, inBlock)
    ensures r.Some? ==> var s := ScanRest(line, Fresh(inBlock)); r.value == (s.leadingCloses, s.net, s.inBlock)
  {
    hide ScanRest, Scanned, Step, StartsWith, IsAscii;
    var index := 0;
    var s := Fresh(inBlock);
    assert line[0..] == line;
    while index < |line|
      invariant index <= |line|
      invariant ScanRest(line[index..], s) == ScanRest(line, Fresh(inBlock))
      invariant index + Scanned(line[index..], s.inBlock) == Scanned(line, inBlock)
      invariant forall k :: 0 <= k < index ==> IsAscii(line[k])
      invariant s.leadingCloses <= (if s.seenCode then 1 else 0)
    {
      var rest := line[index..];
      if !s.inBlock && StartsWith(rest, '/', '/') {
        break;
      }
      LineSteps(line, index, s);
      if !IsAscii(rest[0]) {
        // The next slice starts inside this character.
        assert index < Scanned(line, inBlock) && !IsAscii(line[index]);
        return None;
      }
      if s.inBlock {
        if StartsWith(rest, '*', '/') {
          s := s.(inBlock := false);
          index := index + 2;
        } else {
          index := index + 1;
        }
      } else if StartsWith(rest, '/', '*') {
        s := s.(inBlock := true);
        index := index + 2;
      } else {
        s := Step(rest[0], s);
        index := index + 1;
      }
    }
    LineEnds(line, index, s);
    assert index == Scanned(line, inBlock);
    return Some((if s.leadingCloses <= 8 then s.leadingCloses else 8, s.net, s.inBlock));
  }

  lemma LineEnds(line: string, index: nat, s: Scan)
    requires index <= |line| && (index == |line| || (!s.inBlock && StartsWith(line[index..], '/', '/')))
    ensures ScanRest(line[index..], s) == s && Scanned(line[index..], s.inBlock) == 0
  {
  }

  // ----- one line ----------------------------------------------------------------------------

  function FirstWord(line: string): string {
    Word(TrimStart(line))
  }

  function Word(s: string): string {
    if s == "" || IsWhitespace(s[0]) then "" else [s[0]] + Word(s[1..])
  }

  function TrimColons(s: string): string {
    if s == "" || s[|s| - 1] != ':' then s else TrimColons(s[..|s| - 1])
  }

  /** `is_clause_continuation` */
  predicate IsClauseContinuation(line: string) {
    TrimColons(FirstWord(line)) in
      {"requires", "ensures", "assumes", "property", "invariant", "metamorphic", "effect", "capability",
          "authorized_by"}
  }

  /** What the formatter carries from line to line. */
  datatype State = State(depth: nat, inBlock: bool)

  const START: State := State(0, false)

  function LeadingCloses(line: string, inBlock: bool): nat {
    ScanRest(line, Fresh(inBlock)).leadingCloses
  }

  function Levels(line: string, st: State): nat {
    var closes := LeadingCloses(line, st.inBlock);
    (if st.depth < closes then 0 else st.depth - closes) + (if IsClauseContinuation(line) then 1 else 0)
  }

  function Advance(line: string, st: State): State {
    if line == "" then st
    else
      var s := ScanRest(line, Fresh(st.inBlock));
      State(if st.depth + s.net < 0 then 0 else st.depth + s.net, s.inBlock)
  }

  /** A line in canonical place; blank lines are empty. */
  function Placed(line: string, st: State): string {
    if line == "" then "" else Spaces(Levels(line, st) * INDENT_WIDTH) + TrimStart(line)
  }

  /** A line without trailing blanks, or nothing when it holds only whitespace. */
  function Trimmed(line: string): string {
    if IsBlank(TrimTrailing(line)) then "" else TrimTrailing(line)
  }

  function After(lines: seq<string>, st: State): State
    decreases |lines|
  {
    if lines == [] then st else After(lines[1..], Advance(lines[0], st))
  }

  function Indented(lines: seq<string>, st: State): (r: seq<string>)
    ensures |r| == |lines|
    decreases |lines|
  {
    if lines == [] then [] else [Placed(lines[0], st)] + Indented(lines[1..], Advance(lines[0], st))
  }

  function AllTrimmed(lines: seq<string>): (r: seq<string>)
    ensures |r| == |lines| && forall i :: 0 <= i < |r| ==> r[i] == Trimmed(lines[i])
  {
    seq(|lines|, i requires 0 <= i < |lines| => Trimmed(lines[i]))
  }

  // ----- blank lines -------------------------------------------------------------------------

  /** Runs of blank lines become one. */
  function Collapse(lines: seq<string>): (r: seq<string>)
    ensures |r| <= |lines|
  {
    if lines == [] then []
    else
      var front := Collapse(lines[..|lines| - 1]);
      if lines[|lines| - 1] == "" && |lines| > 1 && lines[|lines| - 2] == "" then front
          else front + [lines[|lines| - 1]]
  }

  function DropLeading(lines: seq<string>): seq<string> {
    if lines != [] && lines[0] == "" then DropLeading(lines[1..]) else lines
  }

  function DropTrailing(lines: seq<string>): seq<string> {
    if lines != [] && lines[|lines| - 1] == "" then DropTrailing(lines[..|lines| - 1]) else lines
  }

  function Squeezed(lines: seq<string>): seq<string> {
    DropTrailing(DropLeading(Collapse(lines)))
  }

  // ----- the text ----------------------------------------------------------------------------

  predicate HasReturnNewline(s: string) {
    exists k :: 0 <= k < |s| - 1 && s[k] == '\r' && s[k + 1] == '\n'
  }

  /** `replace("\r\n", "\n")` */
  function Strip(s: string): string
    decreases |s|
  {
    if s == "" then ""
    else if StartsWith(s, '\r', '\n') then "\n" + Strip(s[2..])
    else [s[0]] + Strip(s[1..])
  }

  /** `replace('\n', "\r\n")` */
  function Expand(s: string): string {
    if s == "" then "" else (if s[0] == '\n' then "\r\n" else [s[0]]) + Expand(s[1..])
  }

  function Split(s: string): (r: seq<string>)
    ensures |r| > 0
    ensures forall i :: 0 <= i < |r| ==> '\n' !in r[i]
  {
    if s == "" then [""]
    else
      var rest := Split(s[1..]);
      if s[0] == '\n' then [""] + rest else [[s[0]] + rest[0]] + rest[1..]
  }

  /** The lines of a text; a final newline does not open another one. */
  function Lines(text: string): seq<string> {
    var lines := Split(Strip(text));
    if lines[|lines| - 1] == "" then lines[..|lines| - 1] else lines
  }

  /** The text whose lines these are, every one ended by a newline. */
  function Lay(lines: seq<string>): string {
    if lines == [] then "" else lines[0] + "\n" + Lay(lines[1..])
  }

  /** The canonical lines of a text: trimmed, blank runs squeezed, indented. */
  function Canonical(text: string): seq<string> {
    var lines := Indented(Squeezed(AllTrimmed(Lines(text))), START);
    if lines == [] then [""] else lines
  }

  /** Some line's scan panics. */
  predicate Unscannable(lines: seq<string>, st: State)
    decreases |lines|
  {
    lines != [] && (Panics(lines[0], st.inBlock) || Unscannable(lines[1..], Advance(lines[0], st)))
  }

  function Formatted(text: string): Option<string> {
    if text == "" then Some("")
    else if Unscannable(AllTrimmed(Lines(text)), START) then None
    else Some(if HasReturnNewline(text) then Expand(Lay(Canonical(text))) else Lay(Canonical(text)))
  }

  // ----- indenting and squeezing commute -----------------------------------------------------

  /** Every line is empty or holds something. */
  predicate Tidy(lines: seq<string>) {
    forall i :: 0 <= i < |lines| ==> lines[i] == "" || !IsBlank(lines[i])
  }

  lemma TrimmedIsTidy(lines: seq<string>)
    ensures Tidy(AllTrimmed(lines))
  {
  }

  lemma PlacedBlank(line: string, st: State)
    requires line == "" || !IsBlank(line)
    ensures Placed(line, st) == "" <==> line == ""
  {
    MarginAndContent(line);
  }

  lemma {:induction false} IndentedConcat(a: seq<string>, b: seq<string>, st: State)
    ensures After(a + b, st) == After(b, After(a, st))
    ensures Indented(a + b, st) == Indented(a, st) + Indented(b, After(a, st))
    decreases |a|
  {
    if a == [] {
      assert a + b == b;
    } else {
      assert (a + b)[0] == a[0] && (a + b)[1..] == a[1..] + b;
      IndentedConcat(a[1..], b, Advance(a[0], st));
    }
  }

  lemma IndentedLast(lines: seq<string>, st: State)
    requires lines != []
    ensures var front, last := lines[..|lines| - 1], lines[|lines| - 1];
            && Indented(lines, st) == Indented(front, st) + [Placed(last, After(front, st))]
            && After(lines, st) == Advance(last, After(front, st))
  {
    var front, last := lines[..|lines| - 1], lines[|lines| - 1];
    assert lines == front + [last];
    IndentedConcat(front, [last], st);
    assert [last][1..] == [];
  }

  lemma {:induction false} IndentedAt(lines: seq<string>, st: State, i: nat)
    requires i < |lines|
    ensures Indented(lines, st)[i] == Placed(lines[i], After(lines[..i], st))
    decreases |lines|
  {
    if i > 0 {
      IndentedAt(lines[1..], Advance(lines[0], st), i - 1);
      assert lines[..i][1..] == lines[1..][..i - 1];
    }
  }

  lemma {:induction false} CollapseIndented(lines: seq<string>, st: State)
    requires Tidy(lines)
    ensures Collapse(Indented(lines, st)) == Indented(Collapse(lines), st)
    ensures After(Collapse(lines), st) == After(lines, st) && Tidy(Collapse(lines))
    decreases |lines|
  {
    hide Placed, IsBlank, ScanRest;
    if lines != [] {
      var front, last := lines[..|lines| - 1], lines[|lines| - 1];
      CollapseIndented(front, st);
      IndentedLast(lines, st);
      PlacedBlank(last, After(front, st));
      var out := Indented(lines, st);
      assert out[..|out| - 1] == Indented(front, st);
      if |lines| > 1 {
        IndentedAt(lines, st, |lines| - 2);
        PlacedBlank(lines[|lines| - 2], After(lines[..|lines| - 2], st));
      }
      if Collapse(lines) != Collapse(front) {
        IndentedConcat(Collapse(front), [last], st);
        assert [last][1..] == [];
      }
    }
  }

  lemma {:induction false} DropLeadingIndented(lines: seq<string>, st: State)
    requires Tidy(lines)
    ensures DropLeading(Indented(lines, st)) == Indented(DropLeading(lines), st) && Tidy(DropLeading(lines))
    decreases |lines|
  {
    if lines != [] {
      PlacedBlank(lines[0], st);
      if lines[0] == "" {
        DropLeadingIndented(lines[1..], st);
        assert Indented(lines, st)[1..] == Indented(lines[1..], st);
      }
    }
  }

  lemma {:induction false} DropTrailingIndented(lines: seq<string>, st: State)
    requires Tidy(lines)
    ensures DropTrailing(Indented(lines, st)) == Indented(DropTrailing(lines), st) && Tidy(DropTrailing(lines))
    decreases |lines|
  {
    if lines != [] {
      var front, last := lines[..|lines| - 1], lines[|lines| - 1];
      IndentedLast(lines, st);
      PlacedBlank(last, After(front, st));
      assert Indented(lines, st)[..|lines| - 1] == Indented(front, st);
      if last == "" {
        DropTrailingIndented(front, st);
      }
    }
  }

  lemma SqueezedIndented(lines: seq<string>, st: State)
    requires Tidy(lines)
    ensures Squeezed(Indented(lines, st)) == Indented(Squeezed(lines), st) && Tidy(Squeezed(lines))
  {
    CollapseIndented(lines, st);
    DropLeadingIndented(Collapse(lines), st);
    DropTrailingIndented(DropLeading(Collapse(lines)), st);
  }

  // ----- the source's formatter --------------------------------------------------------------

  /** The standard library's `join("\n")` */
  function Joined(lines: seq<string>): string {
    if lines == [] then "" else if |lines| == 1 then lines[0] else lines[0] + "\n" + Joined(lines[1..])
  }

  lemma {:induction false} JoinedLays(lines: seq<string>)
    ensures Joined(lines) + "\n" == Lay(if lines == [] then [""] else lines)
  {
    if |lines| > 1 {
      JoinedLays(lines[1..]);
    } else {
      assert [""][1..] == [] && (lines != [] ==> lines[1..] == []);
    }
  }

  /** The first loop: one line after the other, each placed by what the lines before it opened. */
  method IndentLines(lines: seq<string>) returns (out: Option<seq<string>>)
    ensures out.None? <==> Unscannable(AllTrimmed(lines), START)
    ensures out.Some? ==> out.value == Indented(AllTrimmed(lines), START)
  {
    hide Panics, Placed, Advance, Trimmed;
    ghost var trimmed := AllTrimmed(lines);
    var depth: nat := 0;
    var inBlock := false;
    var placed: seq<string> := [];
    assert trimmed[0..] == trimmed;
    for i := 0 to |lines|
      invariant Indented(trimmed, START) == placed + Indented(trimmed[i..], State(depth, inBlock))
      invariant Unscannable(trimmed, START) <==> Unscannable(trimmed[i..], State(depth, inBlock))
    {
      assert trimmed[i..][0] == Trimmed(lines[i]) && trimmed[i..][1..] == trimmed[i + 1..];
      var done := IndentLine(lines[i], depth, inBlock);
      if done.None? {
        return None;
      }
      placed := placed + [done.value.0];
      depth, inBlock := done.value.1, done.value.2;
    }
    return Some(placed);
  }

  /** The body of that loop. */
  method IndentLine(line: string, depth: nat, inBlock: bool) returns (r: Option<(string, nat, bool)>)
    ensures r.None? <==> Panics(Trimmed(line), inBlock)
    ensures r.Some? ==> var st := State(depth, inBlock);
              r.value.0 == Placed(Trimmed(line), st) && State(r.value.1, r.value.2) == Advance(Trimmed(line), st)
  {
    var trimmedEnd := TrimTrailing(line);
    if IsBlank(trimmedEnd) {
      return Some(("", depth, inBlock));
    }
    var scan := ScanLine(trimmedEnd, inBlock);
    if scan.None? {
      return None;
    }
    var (leadingCloses, net, blockEnd) := scan.value;
    var indent := if depth < leadingCloses then 0 else depth - leadingCloses;
    if IsClauseContinuation(trimmedEnd) {
      indent := indent + 1;
    }
    var out := Spaces(indent * INDENT_WIDTH) + TrimStart(trimmedEnd);
    var next: nat := if depth + net < 0 then 0 else depth + net;
    return Some((out, next, blockEnd));
  }

  /** The second part: blank runs collapse, and none is left at either end. */
  method SqueezeLines(out: seq<string>) returns (collapsed: seq<string>)
    ensures collapsed == Squeezed(out)
  {
    collapsed := [];
    var blanks := 0;
    for i := 0 to |out|
      invariant collapsed == Collapse(out[..i])
      invariant blanks >= 0 && (blanks > 0 <==> i > 0 && out[i - 1] == "")
    {
      assert out[..i + 1][..i] == out[..i];
      if out[i] == "" {
        blanks := blanks + 1;
        if blanks <= 1 {
          collapsed := collapsed + [out[i]];
        }
      } else {
        blanks := 0;
        collapsed := collapsed + [out[i]];
      }
    }
    assert out[..|out|] == out;
    while collapsed != [] && collapsed[0] == ""
      invariant DropLeading(collapsed) == DropLeading(Collapse(out))
      decreases |collapsed|
    {
      collapsed := collapsed[1..];
    }
    while collapsed != [] && collapsed[|collapsed| - 1] == ""
      invariant DropTrailing(collapsed) == Squeezed(out)
      decreases |collapsed|
    {
      collapsed := collapsed[..|collapsed| - 1];
    }
  }

  /** `format_text` */
  method FormatText(text: string) returns (r: Option<string>)
    ensures r == Formatted(text)
  {
    hide Squeezed, Indented, Unscannable, Lay, Joined, Expand, Strip, Split, HasReturnNewline;
    if text == "" {
      return Some("");
    }
    var crlf := HasReturnNewline(text);
    var lines := Split(Strip(text));
    if lines[|lines| - 1] == "" {
      lines := lines[..|lines| - 1];
    }
    var out := IndentLines(lines);
    if out.None? {
      return None;
    }
    TrimmedIsTidy(lines);
    SqueezedIndented(AllTrimmed(lines), START);
    var collapsed := SqueezeLines(out.value);
    var result := Joined(collapsed) + "\n";
    JoinedLays(collapsed);
    return Some(if crlf then Expand(result) else result);
  }
}
