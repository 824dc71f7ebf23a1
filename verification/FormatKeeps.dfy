/** What formatting keeps, what a formatted text looks like, and the texts on which the documentation's
    promise of idempotence holds without more ado, or fails. */
module FormatKeeps {
  import opened Outcomes
  import opened Format
  import opened FormatText
  import opened FormatLines
  import opened FormatLaws
  import opened FormatTwice

  // ----- contents ----------------------------------------------------------------------------

  function TrimEnd(line: string): string {
    if line == "" || !IsWhitespace(line[|line| - 1]) then line else TrimEnd(line[..|line| - 1])
  }

  /** What a line holds: the standard library's `trim`. */
  function Gist(line: string): string {
    TrimEnd(TrimStart(line))
  }

  /** The sequence of trimmed lines that hold something. */
  function Gists(lines: seq<string>): seq<string>
    decreases |lines|
  {
    if lines == [] then [] else (if Gist(lines[0]) == "" then [] else [Gist(lines[0])]) + Gists(lines[1..])
  }

  lemma {:induction false} TrimEndTail(d: string, w: string)
    requires IsBlank(w)
    ensures TrimEnd(d + w) == TrimEnd(d)
    decreases |w|
  {
    if w == "" {
      assert d + w == d;
    } else {
      var v := w[..|w| - 1];
      assert (d + w)[..|d + w| - 1] == d + v && (d + w)[|d + w| - 1] == w[|w| - 1];
      TrimEndTail(d, v);
    }
  }

  lemma BlankGist(line: string)
    requires IsBlank(line)
    ensures Gist(line) == ""
  {
    MarginAndContent(line);
  }

  /** Blanks around a line are not part of what it holds. */
  lemma GistWithin(p: string, d: string, w: string)
    requires IsBlank(p) && IsBlank(w)
    ensures Gist(p + d + w) == Gist(d)
  {
    hide IsWhitespace, TrimEnd, TrimStart, IsBlank, Margin, Gist;
    MarginAndContent(d);
    if TrimStart(d) == "" {
      BlankGist(d);
      BlankConcat(p, d);
      BlankConcat(p + d, w);
      BlankGist(p + d + w);
    } else {
      BlankConcat(p, Margin(d));
      assert p + d + w == (p + Margin(d)) + (TrimStart(d) + w);
      GistOf(p + Margin(d), TrimStart(d), w);
      GistIs(d);
    }
  }

  lemma GistIs(d: string)
    ensures Gist(d) == TrimEnd(TrimStart(d))
  {
  }

  lemma GistOf(p: string, c: string, w: string)
    requires IsBlank(p) && IsBlank(w) && c != "" && !IsWhitespace(c[0])
    ensures Gist(p + (c + w)) == TrimEnd(c)
  {
    hide IsWhitespace, TrimEnd, TrimStart;
    TrimStartOf(p, c + w);
    TrimEndTail(c, w);
  }

  lemma BlankConcat(p: string, q: string)
    requires IsBlank(p) && IsBlank(q)
    ensures IsBlank(p + q)
  {
  }

  lemma TrimmedGist(line: string)
    ensures Gist(Trimmed(line)) == Gist(line)
  {
    hide Gist, IsWhitespace;
    var d := TrimTrailing(line);
    assert line == d + line[|d|..] && IsBlank(line[|d|..]) by {
      SpacesAreBlank(line[|d|..]);
    }
    GistWithin("", d, line[|d|..]);
    assert "" + d + line[|d|..] == line;
    if IsBlank(d) {
      BlankGist(d);
      BlankGist("");
    }
  }

  lemma SpacesAreBlank(w: string)
    requires forall k :: 0 <= k < |w| ==> IsSpace(w[k])
    ensures IsBlank(w)
  {
  }

  lemma PlacedGist(line: string, st: State)
    ensures Gist(Placed(line, st)) == Gist(line)
  {
    hide Gist, IsWhitespace, Levels, TrimStart;
    if line != "" {
      var s := Spaces(Levels(line, st) * INDENT_WIDTH);
      MarginAndContent(line);
      SpacesAreBlank(s);
      GistWithin(s, TrimStart(line), "");
      GistWithin(Margin(line), TrimStart(line), "");
      assert s + TrimStart(line) + "" == Placed(line, st) && Margin(line) + TrimStart(line) + "" == line;
    }
  }

  lemma ChopGist(line: string)
    ensures Gist(Chop(line)) == Gist(line)
  {
    hide Gist;
    if EndsInReturn(line) {
      ReturnIsWhitespace();
      GistWithin("", Chop(line), "\r");
      assert "" + Chop(line) + "\r" == line;
    }
  }

  lemma {:induction false} GistsConcat(a: seq<string>, b: seq<string>)
    ensures Gists(a + b) == Gists(a) + Gists(b)
    decreases |a|
  {
    if a == [] {
      assert a + b == b;
    } else {
      assert (a + b)[0] == a[0] && (a + b)[1..] == a[1..] + b;
      GistsConcat(a[1..], b);
    }
  }

  /** Lines that hold the same one by one hold the same. */
  lemma {:induction false} GistsPointwise(a: seq<string>, b: seq<string>)
    requires |a| == |b| && forall i :: 0 <= i < |a| ==> Gist(a[i]) == Gist(b[i])
    ensures Gists(a) == Gists(b)
    decreases |a|
  {
    hide Gist;
    if a != [] {
      GistsPointwise(a[1..], b[1..]);
    }
  }

  lemma GistsAppend(front: seq<string>, last: string)
    ensures Gists(front + [last]) == Gists(front) + (if Gist(last) == "" then [] else [Gist(last)])
  {
    hide Gist, Gists;
    GistsConcat(front, [last]);
    OneGist(last);
  }

  lemma Unappend(lines: seq<string>)
    requires lines != []
    ensures lines == lines[..|lines| - 1] + [lines[|lines| - 1]]
  {
  }

  lemma GistsLast(lines: seq<string>)
    requires lines != []
    ensures var last := lines[|lines| - 1];
            Gists(lines) == Gists(lines[..|lines| - 1]) + (if Gist(last) == "" then [] else [Gist(last)])
  {
    hide Gist, Gists;
    Unappend(lines);
    GistsAppend(lines[..|lines| - 1], lines[|lines| - 1]);
  }

  lemma OneGist(line: string)
    ensures Gists([line]) == if Gist(line) == "" then [] else [Gist(line)]
  {
    hide Gist;
    assert [line][1..] == [];
  }

  lemma {:induction false} CollapseGists(lines: seq<string>)
    ensures Gists(Collapse(lines)) == Gists(lines)
    decreases |lines|
  {
    hide Gist, Gists;
    BlankGist("");
    if lines != [] {
      var front, last := lines[..|lines| - 1], lines[|lines| - 1];
      CollapseGists(front);
      GistsLast(lines);
      if Collapse(lines) != Collapse(front) {
        assert Collapse(lines)[..|Collapse(lines)| - 1] == Collapse(front);
        GistsLast(Collapse(lines));
      }
    }
  }

  lemma {:induction false} DropLeadingGists(lines: seq<string>)
    ensures Gists(DropLeading(lines)) == Gists(lines)
    decreases |lines|
  {
    if lines != [] && lines[0] == "" {
      BlankGist("");
      DropLeadingGists(lines[1..]);
    }
  }

  lemma {:induction false} DropTrailingGists(lines: seq<string>)
    ensures Gists(DropTrailing(lines)) == Gists(lines)
    decreases |lines|
  {
    hide Gist, Gists;
    if lines != [] && lines[|lines| - 1] == "" {
      BlankGist("");
      GistsLast(lines);
      DropTrailingGists(lines[..|lines| - 1]);
    }
  }

  lemma CanonGists(lines: seq<string>)
    ensures Gists(Canon(lines)) == Gists(lines)
  {
    hide Gist, Gists, Collapse, DropLeading, DropTrailing, Trimmed, Placed;
    var trimmed, core := AllTrimmed(lines), Core(lines);
    forall i | 0 <= i < |lines|
      ensures Gist(trimmed[i]) == Gist(lines[i])
    {
      TrimmedGist(lines[i]);
    }
    GistsPointwise(trimmed, lines);
    CollapseGists(trimmed);
    DropLeadingGists(Collapse(trimmed));
    DropTrailingGists(DropLeading(Collapse(trimmed)));
    var out := Indented(core, START);
    forall i | 0 <= i < |core|
      ensures Gist(out[i]) == Gist(core[i])
    {
      IndentedAt(core, START, i);
      PlacedGist(core[i], After(core[..i], START));
    }
    GistsPointwise(out, core);
    NoGists();
  }

  lemma NoGists()
    ensures Gists([""]) == Gists([]) == []
  {
    BlankGist("");
    hide Gist;
    assert [""][1..] == [];
  }

  /** The result has the same trimmed, non-blank lines in the same order. */
  lemma KeepsContents(text: string)
    requires Formatted(text).Some?
    ensures Gists(Lines(Formatted(text).value)) == Gists(Lines(text))
  {
    hide Gist, Gists, Lines, HasReturnNewline, Unscannable, Written, IsCanonical, Formatted, Chop;
    if text == "" {
      NothingFormatted();
    } else {
      FormattedIs(text);
      var canon := Canon(Lines(text));
      SettledCanon(text);
      CanonGists(Lines(text));
      WrittenLines(HasReturnNewline(text), canon);
      forall i | 0 <= i < |canon|
        ensures Gist(Chopped(canon)[i]) == Gist(canon[i])
      {
        ChopGist(canon[i]);
      }
      GistsPointwise(Chopped(canon), canon);
    }
  }

  lemma NothingFormatted()
    ensures Formatted("") == Some("")
  {
  }

  // ----- shape -------------------------------------------------------------------------------

  /** A formatted text is a list of lines, each ended by the line end its text used: one blank line, or
      lines with no blank one at either end nor two in a row, none with trailing blanks, all indented by
      spaces to a multiple of the indent width. */
  lemma FormattedShape(text: string) returns (lines: seq<string>)
    requires text != "" && Formatted(text).Some?
    ensures Formatted(text).value == Written(HasReturnNewline(text), lines)
    ensures NewlineFree(lines) && (lines == [""] || (lines != [] && Compact(lines)))
    ensures forall i :: 0 <= i < |lines| ==> IsTrimmed(lines[i])
    ensures forall i :: 0 <= i < |lines| ==> SpaceMargin(lines[i])
  {
    hide Margin, IsTrimmed, SpaceMargin, Lines, HasReturnNewline, Unscannable, Written, Formatted, Placed, Squeezed,
        HasCode, AllTrimmed;
    FormattedIs(text);
    lines := Canon(Lines(text));
    SettledCanon(text);
    LinesNewlineFree(text);
    CoreShape(Lines(text));
    var core := Core(Lines(text));
    forall i | 0 <= i < |lines|
      ensures SpaceMargin(lines[i])
    {
      if core == [] {
        NoMargin();
      } else {
        IndentedAt(core, START, i);
        PlacedMargin(core[i], After(core[..i], START));
      }
    }
  }

  /** The line is indented by whole levels of spaces. */
  predicate SpaceMargin(line: string) {
    |Margin(line)| % INDENT_WIDTH == 0 && Margin(line) == Spaces(|Margin(line)|)
  }

  lemma NoMargin()
    ensures SpaceMargin("")
  {
  }

  lemma PlacedMargin(line: string, st: State)
    requires IsTrimmed(line)
    ensures SpaceMargin(Placed(line, st))
  {
    hide Levels, TrimStart, IsWhitespace;
    NoMargin();
    PlacedShape(line, st);
    MarginAndContent(Placed(line, st));
    if line != "" {
      SamePrefix(Margin(Placed(line, st)), Spaces(Levels(line, st) * INDENT_WIDTH), TrimStart(line));
    }
  }

  lemma SamePrefix(p: string, q: string, c: string)
    requires p + c == q + c
    ensures p == q
  {
    assert |p| == |q|;
    assert p == (p + c)[..|p|] && q == (q + c)[..|q|];
  }

  // ----- plain texts -------------------------------------------------------------------------

  predicate PlainChar(c: char) {
    IsAscii(c) && (IsWhitespace(c) ==> IsSpace(c))
  }

  predicate PlainLine(line: string) {
    forall k :: 0 <= k < |line| ==> PlainChar(line[k])
  }

  /** ASCII whose only whitespace is space, tab, newline, and return before a newline. */
  predicate PlainText(text: string) {
    forall k :: 0 <= k < |text| ==> PlainAt(text, k)
  }

  predicate PlainAt(text: string, k: nat)
    requires k < |text|
  {
    PlainChar(text[k]) || text[k] == '\n' || (text[k] == '\r' && k + 1 < |text| && text[k + 1] == '\n')
  }

  predicate PlainOrNewlines(s: string) {
    forall k :: 0 <= k < |s| ==> PlainChar(s[k]) || s[k] == '\n'
  }

  lemma PlainSuffix(text: string, n: nat)
    requires PlainText(text) && n <= |text|
    ensures PlainText(text[n..])
  {
    hide PlainChar;
    forall k | 0 <= k < |text[n..]|
      ensures PlainAt(text[n..], k)
    {
      assert PlainAt(text, n + k);
    }
  }

  lemma PlainHead(text: string)
    requires PlainText(text) && text != "" && !StartsWith(text, '\r', '\n')
    ensures PlainChar(text[0]) || text[0] == '\n'
  {
    hide PlainChar;
    assert PlainAt(text, 0);
  }

  lemma {:induction false} StripPlain(text: string)
    requires PlainText(text)
    ensures PlainOrNewlines(Strip(text))
    decreases |text|
  {
    hide PlainChar, PlainText;
    if text == "" {
    } else if StartsWith(text, '\r', '\n') {
      PlainSuffix(text, 2);
      StripPlain(text[2..]);
    } else {
      PlainHead(text);
      PlainSuffix(text, 1);
      StripPlain(text[1..]);
    }
  }

  predicate PlainLines(lines: seq<string>) {
    forall i :: 0 <= i < |lines| ==> PlainLine(lines[i])
  }

  lemma {:induction false} SplitPlain(s: string)
    requires PlainOrNewlines(s)
    ensures PlainLines(Split(s))
  {
    hide PlainChar;
    if s == "" {
      assert PlainLine("");
    } else {
      SplitPlain(s[1..]);
      var rest := Split(s[1..]);
      assert PlainLine(rest[0]);
      assert PlainLine(if s[0] == '\n' then "" else [s[0]] + rest[0]);
    }
  }

  lemma PlainTextLines(text: string)
    requires PlainText(text)
    ensures PlainLines(Lines(text))
  {
    hide PlainLine;
    StripPlain(text);
    SplitPlain(Strip(text));
  }

  lemma PlainCore(lines: seq<string>)
    requires PlainLines(lines)
    ensures PlainLines(AllTrimmed(lines)) && PlainLines(Core(lines))
  {
    hide PlainChar, Squeezed;
    SqueezedFrom(AllTrimmed(lines));
    forall i | 0 <= i < |lines|
      ensures PlainLine(AllTrimmed(lines)[i])
    {
      PlainTrimmed(lines[i]);
    }
  }

  lemma PlainTrimmed(line: string)
    requires PlainLine(line)
    ensures PlainLine(Trimmed(line))
  {
    hide PlainChar;
  }

  lemma PlainMargin(line: string)
    requires PlainLine(line)
    ensures !HasCode(Margin(line)) && !EndsInReturn(line)
  {
    MarginAndContent(line);
    assert forall k :: 0 <= k < |Margin(line)| ==> Margin(line)[k] == line[k];
    assert !PlainChar('\r');
  }

  predicate AsciiLines(lines: seq<string>) {
    forall i, k :: 0 <= i < |lines| && 0 <= k < |lines[i]| ==> IsAscii(lines[i][k])
  }

  lemma {:induction false} AsciiScannable(lines: seq<string>, st: State)
    requires AsciiLines(lines)
    ensures !Unscannable(lines, st)
    decreases |lines|
  {
    if lines != [] {
      assert AsciiLines(lines[1..]);
      AsciiScannable(lines[1..], Advance(lines[0], st));
    }
  }

  lemma PlainAscii(lines: seq<string>)
    requires PlainLines(lines)
    ensures AsciiLines(lines)
  {
    forall i, k | 0 <= i < |lines| && 0 <= k < |lines[i]|
      ensures IsAscii(lines[i][k])
    {
      assert PlainLine(lines[i]) && PlainChar(lines[i][k]);
    }
  }

  /** On a plain text the formatter answers, and formatting the answer changes nothing. */
  lemma PlainIdempotent(text: string)
    requires PlainText(text)
    ensures Formatted(text).Some? && Formatted(Formatted(text).value) == Formatted(text)
  {
    hide PlainText, PlainLine, Lines, AllTrimmed, Squeezed, HasReturnNewline, Margin, HasCode, EndsInReturn,
        Unscannable, AsciiLines, Written;
    if text == "" {
      NothingFormatted();
    } else {
      PlainTextLines(text);
      PlainCore(Lines(text));
      PlainAscii(AllTrimmed(Lines(text)));
      AsciiScannable(AllTrimmed(Lines(text)), START);
      FormattedIs(text);
      PlainSettled(text);
      Idempotent(text);
    }
  }

  lemma PlainSettled(text: string)
    requires PlainLines(Core(Lines(text)))
    ensures Settled(text)
  {
    hide PlainLine, Lines, AllTrimmed, Squeezed, HasReturnNewline, Margin, HasCode, EndsInReturn;
    var core := Core(Lines(text));
    forall i | 0 <= i < |core|
      ensures !HasCode(Margin(core[i])) && !EndsInReturn(core[i])
    {
      PlainMargin(core[i]);
    }
    NothingHidden(core, START);
  }

  // ----- texts on which the promises fail ----------------------------------------------------

  /** A character of two bytes outside a line comment: the scanner's next slice starts inside it. */
  lemma NotAscii()
    ensures Formatted("\U{e9}") == None
  {
    var text := "\U{e9}";
    assert text[1..] == "";
    assert Strip(text) == text;
    assert Split(text) == [text] && Split(text)[0] == text;
    assert !IsWhitespace(text[0]);
    assert AllTrimmed([text])[0] == Trimmed(text) == text;
    assert !IsAscii(text[0]) && Scanned(text, false) == 1;
  }

  /** A form feed before a close bracket hides it from the first pass but not from the second. */
  lemma HiddenClose()
    ensures var text := Lay(["{", "\U{c}}"]);
            Formatted(text).Some? && Formatted(Formatted(text).value) != Formatted(text)
  {
    var lines := ["{", "\U{c}}"];
    var text := Lay(lines);
    HiddenLines();
    LinesLay(lines);
    ChoppedAlready(lines);
    SqueezeNothing(lines);
    AsciiScannable(lines, START);
    hide Lay;
    FormattedIs(text);
    Idempotent(text);
  }

  lemma CloseHidden()
    ensures SomeHidden(["{", "\U{c}}"], START)
  {
    var open, close := "{", "\U{c}}";
    assert open[1..] == "" && close[1..] == "}" && "}"[1..] == "";
    assert [open, close][1..] == [close];
    assert Advance(open, START) == State(1, false);
    assert TrimStart(close) == "}" && Margin(close) == "\U{c}";
    assert HasCode(Margin(close)) by {
      assert !IsSpace(Margin(close)[0]);
    }
    assert LeadingCloses("}", false) == 1;
  }

  lemma HiddenLines()
    ensures var lines := ["{", "\U{c}}"];
            NewlineFree(lines) && !SomeReturn(lines) && AllTrimmed(lines) == lines && Compact(lines)
            && AsciiLines(lines)
            && SomeHidden(lines, START)
  {
    var open, close := "{", "\U{c}}";
    assert open[1..] == "" && close[1..] == "}" && "}"[1..] == "";
    assert Trimmed(open) == open && Trimmed(close) == close;
    hide Advance, TrimStart, Margin, HasCode, LeadingCloses, Trimmed;
    assert [open, close][1..] == [close];
    CloseHidden();
  }

  /** A lone return at the end of a text: the first pass turns it into a line end, and only the second pass
      sees the blank before it. */
  lemma LoneReturn()
    ensures Formatted("x \r").Some? && Formatted(Formatted("x \r").value) != Formatted("x \r")
  {
    var text := "x \r";
    LoneLines();
    SqueezeNothing([text]);
    AsciiScannable([text], START);
    FormattedIs(text);
    Idempotent(text);
  }

  lemma LoneLines()
    ensures var text := "x \r";
            Lines(text) == [text] && AllTrimmed([text]) == [text] && Compact([text]) && AsciiLines([text])
            && !HasReturnNewline(text) && SomeReturn([text]) && !AllTight([text])
  {
    var text := "x \r";
    assert text[1..] == " \r" && " \r"[1..] == "\r" && "\r"[1..] == "";
    assert Strip(text) == text;
    assert Split(text) == [text];
    assert Trimmed(text) == text;
    assert EndsInReturn(text);
    assert !Tight(text);
  }
}
