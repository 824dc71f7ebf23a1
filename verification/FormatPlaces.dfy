/** What the formatter does, described without its scanner and its passes: the lines of a text, the code outside
    comments, the depth of a line as a count of brackets, and the one text these make. */
module FormatPlaces {
  import opened Outcomes
  import opened Format
  import opened FormatText
  import opened FormatLines
  import FormatLaws
  import FormatTwice

  // ----- the lines of a text -----------------------------------------------------------------

  /** How far it is to the first newline, or to the end. */
  function FirstBreak(text: string): (k: nat)
    ensures k <= |text| && '\n' !in text[..k] && (k < |text| ==> text[k] == '\n')
  {
    if text == "" || text[0] == '\n' then 0
    else
      var k := 1 + FirstBreak(text[1..]);
      assert text[..k] == [text[0]] + text[1..][..k - 1];
      k
  }

  /** The lines, each without its newline or its return and newline. */
  function CutLines(text: string): seq<string>
    decreases |text|
  {
    if text == "" then []
    else
      var k := FirstBreak(text);
      if k == |text| then [text]
      else [if k > 0 && text[k - 1] == '\r' then text[..k - 1] else text[..k]] + CutLines(text[k + 1..])
  }

  // ----- one line ----------------------------------------------------------------------------

  /** Unicode's White_Space, character by character. */
  predicate White(c: char) {
    c as int in {
      9, 10, 11, 12, 13, 32, 0x85, 0xA0, 0x1680, 0x2000, 0x2001, 0x2002, 0x2003, 0x2004, 0x2005, 0x2006, 0x2007, 0x2008,
      0x2009, 0x200A, 0x2028, 0x2029, 0x202F, 0x205F, 0x3000}
  }

  predicate Nothing(line: string) {
    forall k :: 0 <= k < |line| ==> White(line[k])
  }

  /** A line without the whitespace it starts with and the spaces and tabs it ends in. */
  function Content(line: string): string
    decreases |line|
  {
    if line != "" && (line[|line| - 1] == ' ' || line[|line| - 1] == '\t') then Content(line[..|line| - 1])
    else if line != "" && White(line[0]) then Content(line[1..])
    else line
  }

  /** The content starts with one of the nine clause words, which colons may follow. */
  ghost predicate LeadsWithClause(content: string) {
    exists word :: ClauseWord(word) && BeginsWith(content, word)
  }

  predicate ClauseWord(word: string) {
    word in {
      "requires", "ensures", "assumes", "property", "invariant", "metamorphic", "effect", "capability", "authorized_by"}
  }

  /** The first word of the content, without the colons behind it, is this one. */
  ghost predicate BeginsWith(content: string, word: string) {
    exists colons: nat :: FirstWordIs(content, word, colons)
  }

  predicate FirstWordIs(content: string, word: string, colons: nat) {
    && |word| + colons <= |content|
    && content[..|word|] == word
    && (forall k :: |word| <= k < |word| + colons ==> content[k] == ':')
    && (|content| == |word| + colons || White(content[|word| + colons]))
  }

  // ----- code outside comments ---------------------------------------------------------------

  /** The line up to a line comment, with a space for every character of a block comment. */
  function CodeOf(line: string, inComment: bool): string
    decreases |line|
  {
    if line == "" then ""
    else if inComment then
      if |line| > 1 && line[0] == '*' && line[1] == '/' then "  " + CodeOf(line[2..], false)
      else " " + CodeOf(line[1..], true)
    else if |line| > 1 && line[0] == '/' && line[1] == '/' then ""
    else if |line| > 1 && line[0] == '/' && line[1] == '*' then "  " + CodeOf(line[2..], true)
    else [line[0]] + CodeOf(line[1..], false)
  }

  /** The line leaves a block comment open. */
  predicate CommentAfter(line: string, inComment: bool)
    decreases |line|
  {
    if line == "" then inComment
    else if inComment then
      if |line| > 1 && line[0] == '*' && line[1] == '/' then CommentAfter(line[2..], false)
      else CommentAfter(line[1..], true)
    else if |line| > 1 && line[0] == '/' && line[1] == '/' then false
    else if |line| > 1 && line[0] == '/' && line[1] == '*' then CommentAfter(line[2..], true)
    else CommentAfter(line[1..], false)
  }

  /** A block comment is open before line `k`. */
  predicate InComment(lines: seq<string>, k: nat)
    requires k <= |lines|
  {
    k > 0 && CommentAfter(lines[k - 1], InComment(lines, k - 1))
  }

  /** The code of the first `k` lines. */
  function CodeBefore(lines: seq<string>, k: nat): string
    requires k <= |lines|
  {
    if k == 0 then "" else CodeBefore(lines, k - 1) + CodeOf(lines[k - 1], InComment(lines, k - 1))
  }

  /** Brackets opened, less brackets closed. */
  function Balance(code: string): int {
    var opens: int := multiset(code)['{'] + multiset(code)['['];
    opens - (multiset(code)['}'] + multiset(code)[']'])
  }

  /** Blanks and then a closing bracket. */
  predicate LeadsWithClose(code: string) {
    && code != ""
    && (code[0] == '}' || code[0] == ']' || ((code[0] == ' ' || code[0] == '\t') && LeadsWithClose(code[1..])))
  }

  // ----- depth -------------------------------------------------------------------------------

  /** The least balance any line up to `k` starts with. */
  function Lowest(lines: seq<string>, k: nat): (n: int)
    requires k <= |lines|
    ensures n <= Balance(CodeBefore(lines, k))
  {
    if k == 0 then 0
    else
      var before, here := Lowest(lines, k - 1), Balance(CodeBefore(lines, k));
      if before < here then before else here
  }

  /** How deep line `k` stands: brackets open since the balance was lowest. */
  function Depth(lines: seq<string>, k: nat): nat
    requires k <= |lines|
  {
    Balance(CodeBefore(lines, k)) - Lowest(lines, k)
  }

  /** One less for a line that leads with a closing bracket, one more for a clause. */
  ghost function Level(lines: seq<string>, k: nat): nat
    requires k < |lines|
  {
    var depth := Depth(lines, k);
    (if LeadsWithClose(CodeOf(lines[k], InComment(lines, k))) && depth > 0 then depth - 1 else depth)
    + (if LeadsWithClause(Content(lines[k])) then 1 else 0)
  }

  /** Line `k` in its place: four spaces a level. */
  ghost function PlacedLine(lines: seq<string>, k: nat): string
    requires k < |lines|
  {
    if Nothing(lines[k]) then "" else seq(4 * Level(lines, k), _ => ' ') + Content(lines[k])
  }

  ghost function PlacedLines(lines: seq<string>): (r: seq<string>)
    ensures |r| == |lines| && forall k :: 0 <= k < |r| ==> r[k] == PlacedLine(lines, k)
  {
    seq(|lines|, k requires 0 <= k < |lines| => PlacedLine(lines, k))
  }

  /** One blank line between lines where there was at least one, and none before the first or behind the last. */
  function Spaced(lines: seq<string>, some: bool, gap: bool): seq<string>
    decreases |lines|
  {
    if lines == [] then []
    else if lines[0] == "" then Spaced(lines[1..], some, true)
    else (if some && gap then [""] else []) + [lines[0]] + Spaced(lines[1..], true, false)
  }

  function Written(lines: seq<string>, end: string): string {
    if lines == [] then "" else lines[0] + end + Written(lines[1..], end)
  }

  // ----- the lines are the formatter's -------------------------------------------------------

  lemma NoBreak(text: string)
    requires '\n' !in text
    ensures Strip(text) == text && Split(text) == [text]
  {
    if text != "" {
      assert text == [text[0]] + text[1..];
      NoBreak(text[1..]);
    }
  }

  lemma {:induction false} CutIsLines(text: string)
    ensures text != "" ==> CutLines(text) == Lines(text)
    decreases |text|
  {
    hide Strip, Split;
    var k := FirstBreak(text);
    if k == |text| {
      assert text[..k] == text;
      NoBreak(text);
    } else {
      var line, rest := text[..k], text[k + 1..];
      assert text == line + "\n" + rest;
      assert Chop(line) == if k > 0 && text[k - 1] == '\r' then text[..k - 1] else text[..k];
      StripFirst(line, rest);
      SplitFirst(Chop(line), Strip(rest));
      CutIsLines(rest);
      LinesBehind(Chop(line), rest);
    }
  }

  lemma LinesBehind(line: string, rest: string)
    ensures var lines := [line] + Split(Strip(rest));
            (if lines[|lines| - 1] == "" then lines[..|lines| - 1] else lines)
            == [line] + (if rest == "" then [] else Lines(rest))
  {
    EmptyLines();
    hide Strip, Split;
    var tail := Split(Strip(rest));
    var lines := [line] + tail;
    assert lines[|lines| - 1] == tail[|tail| - 1];
    if tail[|tail| - 1] == "" {
      assert lines[..|lines| - 1] == [line] + tail[..|tail| - 1];
    }
  }

  lemma EmptyLines()
    ensures Strip("") == "" && Split("") == [""]
  {
  }

  // ----- a line's content --------------------------------------------------------------------

  lemma WhiteIs(c: char)
    ensures White(c) <==> IsWhitespace(c)
  {
  }

  lemma NothingIs(line: string)
    ensures Nothing(line) <==> Trimmed(line) == ""
  {
    hide White, IsWhitespace;
    forall c {
      WhiteIs(c);
    }
    var t := TrimTrailing(line);
    WhiteBlanks();
    assert IsBlank(t) <==> forall k :: 0 <= k < |line| ==> White(line[k]) by {
      assert forall k :: 0 <= k < |t| ==> t[k] == line[k];
      assert forall k :: |t| <= k < |line| ==> White(line[k]);
    }
  }

  lemma WhiteBlanks()
    ensures IsWhitespace(' ') && IsWhitespace('\t') && forall c :: IsSpace(c) ==> White(c)
  {
  }

  lemma {:induction false} ContentIs(line: string)
    ensures Content(line) == TrimStart(TrimTrailing(line))
    decreases |line|
  {
    hide White, IsWhitespace;
    if line != "" {
      WhiteIs(line[0]);
      WhiteBlanks();
      var n := |line| - 1;
      if IsSpace(line[n]) {
        ContentIs(line[..n]);
      } else if White(line[0]) {
        ContentIs(line[1..]);
        assert line[1..] == "" || line[1..][n - 1] == line[n];
      }
    }
  }

  lemma ContentOf(line: string)
    requires !Nothing(line)
    ensures Trimmed(line) != "" && Content(line) == TrimStart(Trimmed(line))
  {
    NothingIs(line);
    ContentIs(line);
  }

  // ----- the clause words --------------------------------------------------------------------

  lemma {:induction false} WordSplits(content: string) returns (n: nat)
    requires content == "" || !IsWhitespace(content[0])
    ensures n <= |content| && Word(content) == content[..n]
    ensures (forall k :: 0 <= k < n ==> !IsWhitespace(content[k])) && (n == |content| || IsWhitespace(content[n]))
    decreases |content|
  {
    hide IsWhitespace;
    n := 0;
    if content != "" {
      if |content| > 1 && !IsWhitespace(content[1]) {
        n := WordSplits(content[1..]);
        n := n + 1;
      } else {
        n := 1;
        assert Word(content[1..]) == "";
      }
      assert content[..n] == [content[0]] + content[1..][..n - 1];
    }
  }

  lemma {:induction false} ColonsSplit(s: string) returns (n: nat)
    ensures n <= |s| && TrimColons(s) == s[..n]
    ensures (forall k :: n <= k < |s| ==> s[k] == ':') && (n > 0 ==> s[n - 1] != ':')
  {
    n := |s|;
    if s != "" && s[|s| - 1] == ':' {
      n := ColonsSplit(s[..|s| - 1]);
      assert s[..|s| - 1][..n] == s[..n];
    } else {
      assert s[..n] == s;
    }
  }

  /** A word without colons or whitespace in it. */
  predicate PlainWord(word: string) {
    word != "" && forall k :: 0 <= k < |word| ==> word[k] != ':' && !IsWhitespace(word[k])
  }

  lemma FirstWordSplits(content: string, word: string, n: nat, m: nat)
    requires PlainWord(word) && m <= n <= |content|
    requires (forall k :: 0 <= k < n ==> !IsWhitespace(content[k])) && (n == |content| || IsWhitespace(content[n]))
    requires (forall k :: m <= k < n ==> content[k] == ':') && (m > 0 ==> content[m - 1] != ':')
    ensures content[..m] == word <==> BeginsWith(content, word)
  {
    hide White, IsWhitespace;
    forall c {
      WhiteIs(c);
    }
    if content[..m] == word {
      assert |word| == m;
      assert FirstWordIs(content, word, n - m);
    }
    if colons: nat :| FirstWordIs(content, word, colons) {
      WordEndsHere(content, word, colons, n, m);
    }
  }

  lemma WordEndsHere(content: string, word: string, colons: nat, n: nat, m: nat)
    requires PlainWord(word) && m <= n <= |content| && FirstWordIs(content, word, colons)
    requires (forall k :: 0 <= k < n ==> !IsWhitespace(content[k])) && (n == |content| || IsWhitespace(content[n]))
    requires (forall k :: m <= k < n ==> content[k] == ':') && (m > 0 ==> content[m - 1] != ':')
    ensures content[..m] == word
  {
    hide White, IsWhitespace;
    var e := |word| + colons;
    assert forall k :: 0 <= k < |word| ==> content[k] == content[..|word|][k] == word[k];
    WhiteBlanks();
    if e < |content| {
      WhiteIs(content[e]);
    }
    ColonIsCode();
    assert forall k :: 0 <= k < e ==> !IsWhitespace(content[k]);
    assert e == n;
    assert content[|word| - 1] != ':';
    assert m == |word|;
  }

  lemma ColonIsCode()
    ensures !IsWhitespace(':')
  {
  }

  lemma ClauseIs(content: string)
    requires content == "" || !IsWhitespace(content[0])
    ensures LeadsWithClause(content) <==> IsClauseContinuation(content)
  {
    hide Word, TrimColons, BeginsWith, PlainWord, IsWhitespace;
    TrimStartOf("", content);
    assert "" + content == content;
    var n := WordSplits(content);
    var m := ColonsSplit(content[..n]);
    assert TrimColons(FirstWord(content)) == content[..m] by {
      assert content[..n][..m] == content[..m];
    }
    forall k | m <= k < n
      ensures content[k] == ':'
    {
      assert content[..n][k] == content[k];
    }
    assert m > 0 ==> content[..n][m - 1] == content[m - 1];
    forall word: string
      ensures PlainWord(word) ==> (BeginsWith(content, word) <==> content[..m] == word)
    {
      if PlainWord(word) {
        FirstWordSplits(content, word, n, m);
      }
    }
    ClauseWordsPlain();
    assert PlainWord(content[..m]) ==> BeginsWith(content, content[..m]);
    assert IsClauseContinuation(content) <==> ClauseWord(content[..m]);
  }

  lemma ClauseWordsPlain()
    ensures forall word :: ClauseWord(word) ==> PlainWord(word)
  {
  }

  // ----- the scan counts brackets ------------------------------------------------------------

  function Weight(c: char): int {
    if c == '{' || c == '[' then 1 else if c == '}' || c == ']' then -1 else 0
  }

  lemma BalanceAdds(a: string, b: string)
    ensures Balance(a + b) == Balance(a) + Balance(b)
  {
    assert multiset(a + b) == multiset(a) + multiset(b);
  }

  lemma BalanceOne(c: char)
    ensures Balance([c]) == Weight(c) && Balance("  ") == 0 && Balance(" ") == 0 && Balance("") == 0
  {
    assert multiset([c]) == multiset{c};
    assert "  " == [' ', ' '] && multiset("  ") == multiset{' ', ' '} && multiset(" ") == multiset{' '};
  }

  /** What one code character does to the scan. */
  lemma StepWeighs(c: char, s: Scan)
    ensures var t := Step(c, s);
            && t.net == s.net + Weight(c) && t.inBlock == s.inBlock
            && t.seenCode == (s.seenCode || !(c == ' ' || c == '\t'))
            && t.leadingCloses == s.leadingCloses + (if !s.seenCode && (c == '}' || c == ']') then 1 else 0)
  {
  }

  /** What a scan has found: the balance of the code, whether it led with a close, the comment state. */
  ghost predicate Finds(line: string, s: Scan) {
    var t, code := ScanRest(line, s), CodeOf(line, s.inBlock);
    && t.net == s.net + Balance(code) && t.inBlock == CommentAfter(line, s.inBlock)
    && t.leadingCloses == s.leadingCloses + (if !s.seenCode && LeadsWithClose(code) then 1 else 0)
    && |code| == Scanned(line, s.inBlock)
  }

  lemma BlankFirst(n: nat, code: string)
    requires n == 1 || n == 2
    ensures var more := (if n == 1 then " " else "  ") + code;
            LeadsWithClose(more) <==> LeadsWithClose(code)
  {
    var more := (if n == 1 then " " else "  ") + code;
    if n == 1 {
      assert more[1..] == code;
    } else {
      assert more[1..][1..] == code && more[1..] != "";
    }
  }

  lemma CodeFirst(c: char, code: string)
    ensures LeadsWithClose([c] + code) <==> c == '}' || c == ']' || ((c == ' ' || c == '\t') && LeadsWithClose(code))
  {
    assert ([c] + code)[1..] == code;
  }

  lemma {:induction false} ScanFinds(line: string, s: Scan)
    ensures Finds(line, s)
    decreases |line|
  {
    hide Step, LeadsWithClose, Balance;
    BalanceOne(' ');
    if line == "" {
      NoClose();
    } else if s.inBlock {
      if StartsWith(line, '*', '/') {
        ScanFinds(line[2..], s.(inBlock := false));
        Blanked(2, CodeOf(line[2..], false));
      } else {
        ScanFinds(line[1..], s);
        Blanked(1, CodeOf(line[1..], true));
      }
    } else if StartsWith(line, '/', '/') {
      NoClose();
    } else if StartsWith(line, '/', '*') {
      ScanFinds(line[2..], s.(inBlock := true));
      Blanked(2, CodeOf(line[2..], true));
    } else {
      StepWeighs(line[0], s);
      ScanFinds(line[1..], Step(line[0], s));
      BalanceAdds([line[0]], CodeOf(line[1..], false));
      BalanceOne(line[0]);
      CodeFirst(line[0], CodeOf(line[1..], false));
    }
  }

  lemma NoClose()
    ensures !LeadsWithClose("")
  {
  }

  lemma Blanked(n: nat, code: string)
    requires n == 1 || n == 2
    ensures var more := (if n == 1 then " " else "  ") + code;
            Balance(more) == Balance(code) && (LeadsWithClose(more) <==> LeadsWithClose(code)) && |more| == n + |code|
  {
    hide LeadsWithClose, Balance;
    BalanceAdds(if n == 1 then " " else "  ", code);
    BalanceOne(' ');
    BlankFirst(n, code);
  }

  /** The scan of a line without its trailing blanks finds what the whole line holds. */
  lemma TrimmedFinds(line: string, inComment: bool)
    requires !Nothing(line)
    ensures var t, code := ScanRest(Trimmed(line), Fresh(inComment)), CodeOf(line, inComment);
            && t.net == Balance(code) && t.inBlock == CommentAfter(line, inComment)
            && t.leadingCloses == (if LeadsWithClose(code) then 1 else 0)
  {
    hide ScanRest, CodeOf, CommentAfter, LeadsWithClose, Balance, White, IsWhitespace;
    ContentOf(line);
    var w := line[|Trimmed(line)|..];
    assert line == Trimmed(line) + w;
    TrailingBlank(line);
    ScanTail(Trimmed(line), w, Fresh(inComment));
    ScanFinds(line, Fresh(inComment));
  }

  lemma TrailingBlank(line: string)
    requires Trimmed(line) != ""
    ensures Trimmed(line) <= line && IsBlank(line[|Trimmed(line)|..])
    ensures forall k :: |Trimmed(line)| <= k < |line| ==> IsSpace(line[k])
  {
    WhiteBlanks();
    forall k | 0 <= k < |line[|Trimmed(line)|..]|
      ensures IsWhitespace(line[|Trimmed(line)|..][k])
    {
      WhiteIs(line[|Trimmed(line)| + k]);
    }
  }

  /** A line of whitespace holds no bracket and changes no comment. */
  lemma {:induction false} NothingFinds(line: string, inComment: bool)
    requires Nothing(line)
    ensures Balance(CodeOf(line, inComment)) == 0 && CommentAfter(line, inComment) == inComment
    decreases |line|
  {
    hide White, Balance;
    BalanceOne(' ');
    if line != "" {
      WhitePlain(line[0]);
      NothingFinds(line[1..], inComment);
      BalanceOne(line[0]);
      BalanceAdds(if inComment then " " else [line[0]], CodeOf(line[1..], inComment));
    }
  }

  lemma WhitePlain(c: char)
    ensures White(c) ==> Weight(c) == 0 && c != '/' && c != '*' && c as int < 0x10000
  {
  }

  // ----- the state before a line -------------------------------------------------------------

  /** What a line does to the state. */
  lemma AdvanceIs(line: string, st: State)
    ensures var open := st.depth + Balance(CodeOf(line, st.inBlock));
            Advance(Trimmed(line), st) == State(if open < 0 then 0 else open, CommentAfter(line, st.inBlock))
  {
    hide Trimmed, Balance, CodeOf, CommentAfter, ScanRest;
    NothingIs(line);
    if Nothing(line) {
      NothingFinds(line, st.inBlock);
    } else {
      TrimmedFinds(line, st.inBlock);
    }
  }

  /** Taking off what lies below the lowest balance so far keeps in step with the clamped count. */
  lemma {:induction false} StateIs(lines: seq<string>, k: nat)
    requires k <= |lines|
    ensures After(AllTrimmed(lines)[..k], START) == State(Depth(lines, k), InComment(lines, k))
  {
    hide Balance, CodeOf, CommentAfter, ScanRest, Advance, Trimmed;
    if k == 0 {
      assert AllTrimmed(lines)[..0] == [];
      BalanceOne(' ');
    } else {
      StateIs(lines, k - 1);
      var t, line := AllTrimmed(lines), lines[k - 1];
      assert t[..k] == t[..k - 1] + [t[k - 1]];
      AfterOneMore(t[..k - 1], t[k - 1]);
      BalanceAdds(CodeBefore(lines, k - 1), CodeOf(line, InComment(lines, k - 1)));
      AdvanceIs(line, After(t[..k - 1], START));
    }
  }

  lemma AfterOneMore(lines: seq<string>, line: string)
    ensures After(lines + [line], START) == Advance(line, After(lines, START))
  {
    IndentedConcat(lines, [line], START);
    assert [line][1..] == [];
  }

  /** Every line goes where the formatter puts it. */
  lemma PlacedIs(lines: seq<string>, k: nat)
    requires k < |lines|
    ensures Indented(AllTrimmed(lines), START)[k] == PlacedLine(lines, k)
  {
    hide Content, White, IsWhitespace, ScanRest, CodeOf, Balance, LeadsWithClause, IsClauseContinuation;
    var t := AllTrimmed(lines);
    IndentedAt(t, START, k);
    StateIs(lines, k);
    NothingIs(lines[k]);
    if !Nothing(lines[k]) {
      TrimmedFinds(lines[k], InComment(lines, k));
      ContentOf(lines[k]);
      ClauseIs(Content(lines[k]));
      ClauseOfContent(Trimmed(lines[k]));
      LevelsIs(t[k], After(t[..k], START));
      assert Levels(t[k], After(t[..k], START)) == Level(lines, k);
      SpacesIs(Level(lines, k));
    }
  }

  lemma LevelsIs(line: string, st: State)
    ensures var closes := ScanRest(line, Fresh(st.inBlock)).leadingCloses;
            Levels(line, st) == (if st.depth < closes then 0 else st.depth - closes)
                                + (if IsClauseContinuation(line) then 1 else 0)
  {
  }

  lemma ClauseOfContent(line: string)
    ensures IsClauseContinuation(line) <==> IsClauseContinuation(TrimStart(line))
  {
    TrimStartOf("", TrimStart(line));
    assert "" + TrimStart(line) == TrimStart(line);
  }

  lemma SpacesIs(n: nat)
    ensures Spaces(n * INDENT_WIDTH) == seq(4 * n, _ => ' ')
  {
  }

  // ----- blank lines -------------------------------------------------------------------------

  /** Something is out, and a blank line stands at the end. */
  predicate GapAtEnd(lines: seq<string>) {
    Spaced(lines, false, false) != [] && lines[|lines| - 1] == ""
  }

  lemma {:induction false} SpacedLast(lines: seq<string>, last: string, some: bool, gap: bool)
    ensures var front := Spaced(lines, some, gap);
            var started := some || front != [];
            var open := if lines == [] then gap else lines[|lines| - 1] == "";
            Spaced(lines + [last], some, gap)
            == front + (if last == "" then [] else (if started && open then [""] else []) + [last])
    ensures Spaced(lines, some, gap) != [] ==> Spaced(lines, some, gap)[|Spaced(lines, some, gap)| - 1] != ""
    decreases |lines|
  {
    if lines == [] {
      assert ([] + [last])[1..] == [] && [] + [last] == [last];
    } else {
      assert (lines + [last])[0] == lines[0] && (lines + [last])[1..] == lines[1..] + [last];
      if lines[0] == "" {
        SpacedLast(lines[1..], last, some, true);
      } else {
        SpacedLast(lines[1..], last, true, false);
        var head := (if some && gap then [""] else []) + [lines[0]];
        var more := if last == "" then [] else (if |lines| > 1 && lines[|lines| - 1] == "" then [""] else []) + [last];
        SeqJoins(head, Spaced(lines[1..], true, false), more);
      }
    }
  }

  lemma SeqJoins<T>(a: seq<T>, b: seq<T>, c: seq<T>)
    ensures a + (b + c) == (a + b) + c
  {
  }

  /** The three passes over blank lines leave one blank line in every gap. */
  lemma {:induction false} SqueezeIs(lines: seq<string>)
    ensures DropLeading(Collapse(lines)) == Spaced(lines, false, false) + (if GapAtEnd(lines) then [""] else [])
    ensures Squeezed(lines) == Spaced(lines, false, false)
    decreases |lines|
  {
    hide Collapse, DropLeading, DropTrailing, Spaced;
    NothingSpaced();
    if lines != [] {
      var n := |lines| - 1;
      var front, last := lines[..n], lines[n];
      assert lines == front + [last];
      SqueezeIs(front);
      SpacedLast(front, last, false, false);
      CollapseLast(front, last);
      var out, before := Spaced(lines, false, false), Spaced(front, false, false);
      LeadingLast(Collapse(front), last);
      TrailingKept(before);
      TrailingKept(out);
      assert GapAtEnd(front) ==> front != [];
      var added := if last == "" then [] else (if GapAtEnd(front) then [""] else []) + [last];
      assert out == before + added;
      SeqJoins(before, if GapAtEnd(front) then [""] else [], [last]);
      assert before + [] == before;
    }
  }

  lemma NothingSpaced()
    ensures Spaced([], false, false) == [] && Squeezed([]) == [] && DropLeading(Collapse([])) == []
  {
  }

  lemma CollapseLast(front: seq<string>, last: string)
    ensures Collapse(front + [last]) ==
              if last == "" && front != [] && front[|front| - 1] == "" then Collapse(front)
              else Collapse(front) + [last]
  {
    assert (front + [last])[..|front|] == front;
  }

  lemma {:induction false} LeadingLast(lines: seq<string>, last: string)
    ensures DropLeading(lines + [last]) ==
              if DropLeading(lines) == [] && last == "" then [] else DropLeading(lines) + [last]
    decreases |lines|
  {
    if lines == [] {
      assert [last][1..] == [] && [] + [last] == [last];
    } else {
      assert (lines + [last])[0] == lines[0] && (lines + [last])[1..] == lines[1..] + [last];
      if lines[0] == "" {
        LeadingLast(lines[1..], last);
      }
    }
  }

  lemma TrailingKept(lines: seq<string>)
    requires lines != [] ==> lines[|lines| - 1] != ""
    ensures DropTrailing(lines) == lines && DropTrailing(lines + [""]) == lines
  {
    assert (lines + [""])[..|lines|] == lines;
  }

  lemma {:induction false} WrittenIs(lines: seq<string>)
    ensures Written(lines, "\n") == Lay(lines)
    ensures Written(lines, "\r\n") == Lay(WithReturns(lines))
    decreases |lines|
  {
    if lines == [] {
      assert WithReturns([]) == [];
    } else {
      WrittenIs(lines[1..]);
      assert WithReturns(lines)[1..] == WithReturns(lines[1..]);
      assert "\r\n" == "\r" + "\n";
      SeqJoins(lines[0], "\r", "\n");
    }
  }

  // ----- the whole text ----------------------------------------------------------------------

  /** For every text the formatter answers, its answer is the text's lines in their places, one blank line in every
      gap, each ended the way the text ends its lines. */
  lemma FormatIs(text: string)
    requires text != "" && Formatted(text).Some?
    ensures var lines := Spaced(PlacedLines(CutLines(text)), false, false);
            var end :=
              if exists k :: 0 <= k < |text| - 1 && text[k] == '\r' && text[k + 1] == '\n' then "\r\n" else "\n";
            Formatted(text).value == Written(if lines == [] then [""] else lines, end)
  {
    hide Strip, Split, Expand, Lay, Spaced, Written, PlacedLine, Squeezed, Formatted, Unscannable, AllTrimmed;
    CutIsLines(text);
    FormatTwice.FormattedIs(text);
    var raw := CutLines(text);
    forall k | 0 <= k < |raw|
      ensures Indented(AllTrimmed(raw), START)[k] == PlacedLine(raw, k)
    {
      PlacedIs(raw, k);
    }
    assert Indented(AllTrimmed(raw), START) == PlacedLines(raw);
    TrimmedIsTidy(raw);
    SqueezedIndented(AllTrimmed(raw), START);
    SqueezeIs(PlacedLines(raw));
    var lines := Spaced(PlacedLines(raw), false, false);
    var out := if lines == [] then [""] else lines;
    assert FormatTwice.Canon(Lines(text)) == out;
    WrittenIs(out);
  }

  // ----- when it panics ----------------------------------------------------------------------

  /** Line `k` holds something, and a character outside ASCII before its line comment. */
  ghost predicate WideBefore(lines: seq<string>, k: nat)
    requires k < |lines|
  {
    && !Nothing(lines[k])
    && exists i :: 0 <= i < |CodeOf(lines[k], InComment(lines, k))| && i < |lines[k]| && lines[k][i] as int >= 0x80
  }

  lemma {:induction false} ScannedTail(d: string, w: string, inBlock: bool)
    requires IsBlank(w)
    ensures Scanned(d + w, inBlock) == Scanned(d, inBlock) || Scanned(d, inBlock) == |d|
    decreases |d|
  {
    hide IsBlank;
    if d != "" {
      HeadsAgree(d, w);
      if inBlock {
        if StartsWith(d, '*', '/') {
          ScannedTail(d[2..], w, false);
        } else {
          ScannedTail(d[1..], w, true);
        }
      } else if !StartsWith(d, '/', '/') {
        if StartsWith(d, '/', '*') {
          ScannedTail(d[2..], w, true);
        } else {
          ScannedTail(d[1..], w, false);
        }
      }
    }
  }

  lemma PanicIs(lines: seq<string>, k: nat)
    requires k < |lines| && !Nothing(lines[k])
    ensures Panics(Trimmed(lines[k]), InComment(lines, k)) <==> WideBefore(lines, k)
  {
    hide Scanned, CodeOf, CommentAfter, ScanRest, White, IsWhitespace, Balance, LeadsWithClose, IsBlank;
    var line, inBlock := lines[k], InComment(lines, k);
    ContentOf(line);
    TrailingBlank(line);
    var t := Trimmed(line);
    var w := line[|t|..];
    assert line == t + w;
    ScanTail(t, w, Fresh(inBlock));
    ScannedTail(t, w, inBlock);
    ScanFinds(line, Fresh(inBlock));
    BlanksAscii();
    forall i | 0 <= i < |t|
      ensures line[i] == t[i]
    {
    }
  }

  lemma BlanksAscii()
    ensures forall c :: IsSpace(c) ==> c as int < 0x80
    ensures forall c :: IsAscii(c) <==> c as int < 0x80
  {
  }

  lemma {:induction false} UnscannableAt(lines: seq<string>, n: nat)
    requires n <= |lines|
    ensures Unscannable(AllTrimmed(lines)[..n], START) <==>
              exists k :: 0 <= k < n && WideBefore(lines, k)
  {
    hide Unscannable, WideBefore, Nothing, Trimmed, After, Depth, InComment;
    if n == 0 {
      NoneUnscannable();
      assert AllTrimmed(lines)[..0] == [];
    } else {
      var t := AllTrimmed(lines);
      UnscannableAt(lines, n - 1);
      assert t[..n] == t[..n - 1] + [t[n - 1]];
      FormatLaws.UnscannableConcat(t[..n - 1], [t[n - 1]], START);
      StateIs(lines, n - 1);
      OneUnscannable(t[n - 1], After(t[..n - 1], START));
      LinePanics(lines, n - 1);
    }
  }

  lemma LinePanics(lines: seq<string>, k: nat)
    requires k < |lines|
    ensures Panics(Trimmed(lines[k]), InComment(lines, k)) <==> WideBefore(lines, k)
  {
    hide Panics, Trimmed, Nothing, InComment;
    NothingIs(lines[k]);
    if Nothing(lines[k]) {
      NoPanic(InComment(lines, k));
    } else {
      PanicIs(lines, k);
    }
  }

  lemma NoneUnscannable()
    ensures !Unscannable([], START)
  {
  }

  lemma OneUnscannable(line: string, st: State)
    ensures Unscannable([line], st) <==> Panics(line, st.inBlock)
  {
    assert [line][1..] == [];
  }

  lemma NoPanic(inBlock: bool)
    ensures !Panics("", inBlock)
  {
  }

  /** The formatter panics exactly on a text with a line that has a character outside ASCII before its line comment,
      block comments included; lines of whitespace do not count. */
  lemma PanicsExactly(text: string)
    requires text != ""
    ensures var lines := CutLines(text);
            Formatted(text).None? <==> exists k :: 0 <= k < |lines| && WideBefore(lines, k)
  {
    hide Unscannable, WideBefore, Nothing, AllTrimmed, Lines;
    CutIsLines(text);
    var lines := CutLines(text);
    UnscannableAt(lines, |lines|);
    assert AllTrimmed(lines)[..|lines|] == AllTrimmed(lines);
  }
}
