/** Whole documents through the highlighter (crates/static-syntax/src/tokenizer.rs): the regions that run from one line
    into the next, and the name an end match carries. */
module TokenizerDocuments {
  import opened Outcomes
  import opened Utf8
  import opened Grammars
  import opened Tokenizers
  import opened TokenizerLaws
  import opened TokenizerScopes

  // ----- from line to line -------------------------------------------------------------------

  /** All steps of the lines before line `n`. */
  function Earlier(steps: seq<seq<Piece>>, n: nat): seq<Piece>
    requires n <= |steps|
  {
    if n == 0 then [] else Earlier(steps, n - 1) + steps[n - 1]
  }

  /** The rules of the regions open before line `n`. */
  function OpenBefore(steps: seq<seq<Piece>>, n: nat): seq<Rule>
    requires n <= |steps|
  {
    OpenRules([], Earlier(steps, n), |Earlier(steps, n)|)
  }

  lemma {:induction false} OpenConcat(rules: seq<Rule>, a: seq<Piece>, b: seq<Piece>, n: nat)
    requires n <= |b|
    ensures OpenRules(rules, a + b, |a| + n) == OpenRules(OpenRules(rules, a, |a|), b, n)
    decreases n
  {
    hide OpenNext;
    if n == 0 {
      OpenPrefix(rules, a, b, |a|);
    } else {
      OpenConcat(rules, a, b, n - 1);
      assert (a + b)[|a| + n - 1] == b[n - 1];
    }
  }

  lemma {:induction false} OpenPrefix(rules: seq<Rule>, a: seq<Piece>, b: seq<Piece>, n: nat)
    requires n <= |a|
    ensures OpenRules(rules, a + b, n) == OpenRules(rules, a, n)
  {
    hide OpenNext;
    if n > 0 {
      OpenPrefix(rules, a, b, n - 1);
      assert (a + b)[n - 1] == a[n - 1];
    }
  }

  /** Each line's steps are lawful for the regions the lines before it left open, and the tokens are what the steps
      say. */
  ghost predicate LineRight(g: Grammar, oracle: Oracle, line: Line, pieces: seq<Piece>, rules: seq<Rule>,
                            tokens: seq<Token>) {
    LawfulLine(g, oracle, line, pieces, rules) && tokens == Said(line, pieces, rules, 0)
  }

  /** `tokenize`, given the lines. */
  method TokenizeMeans(h: Highlighter, lines: seq<Line>) returns (out: seq<seq<Token>>, ghost steps: seq<seq<Piece>>)
    requires AllAnchored(h.oracle, lines)
    modifies h
    ensures |out| == |lines| == |steps|
    ensures forall i :: 0 <= i < |out| ==>
                          LineRight(h.grammar, h.oracle, lines[i], steps[i], OpenBefore(steps, i), out[i])
    ensures EndsMatched(Earlier(steps, |steps|))
  {
    hide LineRight, LineTokens, Lexed, Backed, OpenBefore, EndsMatched, Anchored, WellFormed;
    out := Tokenize(h, lines);
    steps := [];
    NothingBefore(steps);
    for i := 0 to |lines|
      invariant |steps| == i
      invariant forall k :: 0 <= k < i ==>
                  LineRight(h.grammar, h.oracle, lines[k], steps[k], OpenBefore(steps, k), out[k])
      invariant Backed(OpenAfter(h.grammar, h.oracle, lines, i), OpenBefore(steps, i))
      invariant EndsMatched(Earlier(steps, i))
    {
      LineStarts(lines[i]);
      ghost var stack := OpenAfter(h.grammar, h.oracle, lines, i);
      ghost var pieces := LineAfter(h.grammar, h.oracle, lines[i], stack, steps, out[i]);
      steps := steps + [pieces];
    }
  }

  lemma NothingBefore(steps: seq<seq<Piece>>)
    requires steps == []
    ensures Backed([], OpenBefore(steps, 0)) && EndsMatched(Earlier(steps, 0))
  {
  }

  lemma {:induction false} EarlierSame(steps: seq<seq<Piece>>, more: seq<seq<Piece>>, n: nat)
    requires n <= |steps|
    ensures Earlier(steps + more, n) == Earlier(steps, n)
  {
    if n > 0 {
      EarlierSame(steps, more, n - 1);
      assert (steps + more)[n - 1] == steps[n - 1];
    }
  }

  /** One line more. */
  lemma LineAfter(g: Grammar, oracle: Oracle, line: Line, stack: seq<Frame>, steps: seq<seq<Piece>>,
                  tokens: seq<Token>) returns (pieces: seq<Piece>)
    requires WellFormed(line) && Anchored(oracle, line) && Boundary(line, 0)
    requires Backed(stack, OpenBefore(steps, |steps|)) && EndsMatched(Earlier(steps, |steps|))
    requires tokens == LineTokens(line, Lexed(g, oracle, line, 0, stack).0, Lexed(g, oracle, line, 0, stack).1)
    ensures var all, n := steps + [pieces], |steps|;
            && (forall k :: 0 <= k <= n ==> OpenBefore(all, k) == OpenBefore(steps, k))
            && LineRight(g, oracle, line, pieces, OpenBefore(all, n), tokens)
            && Backed(Lexed(g, oracle, line, 0, stack).1, OpenBefore(all, n + 1))
            && EndsMatched(Earlier(all, n + 1))
  {
    hide LineTokens, Lexed, Backed, EndsMatched, Anchored, WellFormed, OpenRules, LawfulLine, Said, Boundary;
    var n, rules := |steps|, OpenBefore(steps, |steps|);
    LineMeans(g, oracle, line, stack, rules);
    pieces := Lexed(g, oracle, line, 0, stack).0;
    var all := steps + [pieces];
    forall k | 0 <= k <= n
      ensures OpenBefore(all, k) == OpenBefore(steps, k)
    {
      EarlierSame(steps, [pieces], k);
    }
    EarlierSame(steps, [pieces], n);
    assert Earlier(all, n + 1) == Earlier(steps, n) + pieces;
    OpenConcat([], Earlier(steps, n), pieces, |pieces|);
    MatchedMore(g, oracle, line, Earlier(steps, n), pieces);
  }

  lemma EndNeedsRegion(g: Grammar, oracle: Oracle, line: Line, p: Piece, rules: seq<Rule>)
    requires Lawful(g, oracle, line, p, rules)
    ensures p.choice.Ended? ==> rules != []
  {
  }

  lemma MatchedMore(g: Grammar, oracle: Oracle, line: Line, a: seq<Piece>, b: seq<Piece>)
    requires EndsMatched(a) && LawfulLine(g, oracle, line, b, OpenRules([], a, |a|))
    ensures EndsMatched(a + b)
  {
    hide OpenRules, OpenNext, Lawful;
    var all := a + b;
    forall i | 0 <= i < |all| && all[i].choice.Ended?
      ensures OpenRules([], all, i) != []
    {
      if i < |a| {
        OpenPrefix([], a, b, i);
        assert all[i] == a[i];
      } else {
        OpenConcat([], a, b, i - |a|);
        assert all[i] == b[i - |a|];
        EndNeedsRegion(g, oracle, line, b[i - |a|], OpenRules(OpenRules([], a, |a|), b, i - |a|));
      }
    }
  }

  lemma {:induction false} EarlierSplits(steps: seq<seq<Piece>>, i: nat, n: nat) returns (rest: seq<Piece>)
    requires i < n <= |steps|
    ensures Earlier(steps, n) == Earlier(steps, i) + (steps[i] + rest)
    decreases n
  {
    if i == n - 1 {
      rest := [];
      assert steps[i] + rest == steps[i];
    } else {
      var front := EarlierSplits(steps, i, n - 1);
      rest := front + steps[n - 1];
      assert Earlier(steps, i) + (steps[i] + front) + steps[n - 1] == Earlier(steps, i) + (steps[i] + rest);
    }
  }

  /** At every step of every line, the open regions are those begun by an earlier step, on this line or one before,
      that no end since has closed, in the order of those steps. */
  lemma RegionsCarryOn(steps: seq<seq<Piece>>, i: nat, k: nat) returns (at: seq<nat>)
    requires EndsMatched(Earlier(steps, |steps|)) && i < |steps| && k <= |steps[i]|
    ensures var all, n := Earlier(steps, |steps|), |Earlier(steps, i)| + k;
            && n <= |all|
            && BegunAt(all, n, at, OpenRules(OpenBefore(steps, i), steps[i], k))
            && ExactlyOpen(all, n, at)
  {
    hide OpenRules, EndsMatched, BegunAt, ExactlyOpen, Levels;
    var all, before := Earlier(steps, |steps|), Earlier(steps, i);
    var rest := EarlierSplits(steps, i, |steps|);
    var later := steps[i] + rest;
    OpenConcat([], before, later, k);
    OpenPrefix(OpenBefore(steps, i), steps[i], rest, k);
    at := OpenRegions(all, |before| + k);
  }

  // ----- the lines of a text -----------------------------------------------------------------

  /** Lines with a newline between each and the next. */
  function Joined(lines: seq<Line>): seq<Byte> {
    if lines == [] then []
    else if |lines| == 1 then lines[0]
    else Joined(lines[..|lines| - 1]) + [10] + lines[|lines| - 1]
  }

  ghost predicate GoodLines(text: seq<Byte>, lines: seq<Line>) {
    && (forall i :: 0 <= i < |lines| ==> 10 !in lines[i])
    && (WellFormed(text) ==> forall i :: 0 <= i < |lines| ==> WellFormed(lines[i]))
  }

  /** The lines found so far end with the newline before `start`. */
  ghost predicate CutTo(text: seq<Byte>, lines: seq<Line>, start: nat) {
    && start <= |text| && GoodLines(text, lines)
    && (lines == [] ==> start == 0)
    && (lines != [] ==> 0 < start && text[start - 1] == 10 && text[..start - 1] == Joined(lines))
  }

  /** `split_lines`: cut at every newline; one at the end of the text opens no further line. */
  method SplitLines(text: seq<Byte>) returns (lines: seq<Line>)
    ensures lines != [] && forall i :: 0 <= i < |lines| ==> 10 !in lines[i]
    ensures text == if text != [] && text[|text| - 1] == 10 then Joined(lines) + [10] else Joined(lines)
    ensures WellFormed(text) ==> forall i :: 0 <= i < |lines| ==> WellFormed(lines[i])
  {
    hide WellFormed, Joined;
    lines := [];
    var start := 0;
    for index := 0 to |text|
      invariant start <= index && 10 !in text[start..index] && CutTo(text, lines, start)
    {
      if text[index] == 10 {
        CutNext(text, lines, start, index);
        lines := lines + [text[start..index]];
        start := index + 1;
      }
    }
    if start < |text| || text == [] {
      CutNext(text, lines, start, |text|);
      assert text[..|text|] == text && text[start..|text|] == text[start..];
      assert text != [] ==> text[start..][|text| - start - 1] == text[|text| - 1];
      lines := lines + [text[start..]];
    } else {
      assert text == text[..start - 1] + [10];
    }
  }

  lemma CutNext(text: seq<Byte>, lines: seq<Line>, start: nat, index: nat)
    requires CutTo(text, lines, start) && start <= index <= |text| && 10 !in text[start..index]
    requires index < |text| ==> text[index] == 10
    ensures var more := lines + [text[start..index]];
            && GoodLines(text, more) && text[..index] == Joined(more)
            && (index < |text| ==> CutTo(text, more, index + 1))
  {
    hide WellFormed, Joined;
    var line := text[start..index];
    SliceWellFormed(text, start, index);
    JoinedMore(lines, line);
    assert text[..index] == text[..start] + line;
    if lines != [] {
      assert text[..start] == text[..start - 1] + [10];
    } else {
      assert text[..start] == [];
    }
  }

  lemma SliceWellFormed(text: seq<Byte>, start: nat, index: nat)
    requires start <= index <= |text| && (index < |text| ==> text[index] == 10)
    requires start > 0 ==> text[start - 1] == 10
    ensures WellFormed(text) ==> WellFormed(text[start..index])
  {
    if WellFormed(text) {
      assert start > 0 ==> ScalarAt(text, start - 1);
      assert index < |text| ==> ScalarAt(text, index);
      WellFormedSlice(text, start, index);
    }
  }

  lemma JoinedMore(lines: seq<Line>, line: Line)
    ensures Joined(lines + [line]) == if lines == [] then line else Joined(lines) + [10] + line
  {
    assert (lines + [line])[..|lines|] == lines;
  }

  /** `tokenize`: the text's lines, each from the regions the lines before it left open. */
  method TokenizeText(h: Highlighter, text: seq<Byte>)
    returns (lines: seq<Line>, out: seq<seq<Token>>, ghost steps: seq<seq<Piece>>)
    requires WellFormed(text) && forall line: Line :: WellFormed(line) ==> Anchored(h.oracle, line)
    modifies h
    ensures |out| == |lines| == |steps| > 0 && forall i :: 0 <= i < |lines| ==> 10 !in lines[i]
    ensures text == if text != [] && text[|text| - 1] == 10 then Joined(lines) + [10] else Joined(lines)
    ensures forall i :: 0 <= i < |out| ==>
                          LineRight(h.grammar, h.oracle, lines[i], steps[i], OpenBefore(steps, i), out[i])
    ensures EndsMatched(Earlier(steps, |steps|))
  {
    hide LineRight, OpenBefore, EndsMatched, Anchored, WellFormed, Joined, Earlier;
    lines := SplitLines(text);
    out, steps := TokenizeMeans(h, lines);
  }

  // ----- the name on an end match ------------------------------------------------------------

  lemma {:induction false} SameCount(line: Line, a: seq<string>, b: seq<string>, captures: Captures, spans: Spans)
    ensures |CapturesSaid(line, a, captures, spans)| == |CapturesSaid(line, b, captures, spans)|
  {
    if captures != [] {
      SameCount(line, a, b, captures[1..], spans);
    }
  }

  /** An end match says what it would with the rule's name, as its begin match does, exactly when the rule has a name
      or the region no content name: a region with a content name alone puts it on its end match. */
  lemma EndCarriesName(line: Line, start: nat, stop: nat, outer: seq<string>, rule: Rule, captures: Captures,
                       spans: Spans)
    requires start <= stop && rule.body.BeginEnd?
    ensures MatchSaid(line, start, stop, outer, EndName(rule), captures, spans)
            == MatchSaid(line, start, stop, outer, rule.name, captures, spans)
            <==> rule.name.Some? || rule.body.region.contentName.None?
  {
    hide CapturesSaid;
    SameCount(line, outer + Named(EndName(rule)), outer + Named(rule.name), captures, spans);
  }

  // ----- one line ----------------------------------------------------------------------------

  /** The bytes of a block comment: two for its opening, one character between two blanks, two for its closing. */
  function CommentLine(): Line {
    [47, 42, 32, 120, 32, 42, 47]
  }

  /** "open" matches two bytes at 0, "close" two at 5. */
  function CommentOracle(): Oracle {
    (regex: string, line: Line, pos: nat) =>
      if regex == "open" && pos == 0 && line == CommentLine() then Some([Some((0, 2))])
      else if regex == "close" && pos == 5 && line == CommentLine() then Some([Some((5, 7))])
      else None
  }

  function CommentRule(name: Option<string>): Rule {
    Rule(name, BeginEnd(Region("open", [], "close", [], Some("content"), [])))
  }

  function CommentGrammar(name: Option<string>): Grammar {
    Grammar(["comments"], map["comments" := CommentRule(name)])
  }

  lemma CommentFits()
    ensures WellFormed(CommentLine()) && Boundary(CommentLine(), 0) && Anchored(CommentOracle(), CommentLine())
  {
  }

  lemma CommentOpens(name: Option<string>)
    ensures PieceAt(CommentGrammar(name), CommentOracle(), CommentLine(), 0, [])
            == Piece(0, 2, Matched(CommentRule(name), [Some((0, 2))], 2), [])
  {
  }

  lemma CommentHolds(name: Option<string>, pos: nat)
    requires 2 <= pos < 5
    ensures var inside := [NewFrame(CommentRule(name))];
            PieceAt(CommentGrammar(name), CommentOracle(), CommentLine(), pos, inside)
            == Piece(pos, pos + 1, Held, inside)
  {
  }

  lemma CommentCloses(name: Option<string>)
    ensures var inside := [NewFrame(CommentRule(name))];
            PieceAt(CommentGrammar(name), CommentOracle(), CommentLine(), 5, inside)
            == Piece(5, 7, Ended([Some((5, 7))], 7), inside)
  {
  }

  lemma LexedStep(g: Grammar, oracle: Oracle, line: Line, pos: nat, stack: seq<Frame>)
    requires WellFormed(line) && Anchored(oracle, line) && Boundary(line, pos) && pos < |line|
    ensures var p := PieceAt(g, oracle, line, pos, stack);
            && pos <= p.stop <= |line| && Boundary(line, p.stop)
            && Lexed(g, oracle, line, pos, stack).0 == [p] + Lexed(g, oracle, line, p.stop, StackAfter(p)).0
  {
    hide PieceAt, WellFormed, Anchored;
    StepProgress(g, oracle, line, pos, stack);
  }

  function CommentSteps(name: Option<string>): seq<Piece> {
    var rule, inside := CommentRule(name), [NewFrame(CommentRule(name))];
    [Piece(0, 2, Matched(rule, [Some((0, 2))], 2), []), Piece(2, 3, Held, inside), Piece(3, 4, Held, inside),
     Piece(4, 5, Held, inside), Piece(5, 7, Ended([Some((5, 7))], 7), inside)]
  }

  lemma CommentLexed(name: Option<string>)
    requires WellFormed(CommentLine()) && Boundary(CommentLine(), 0) && Anchored(CommentOracle(), CommentLine())
    ensures Lexed(CommentGrammar(name), CommentOracle(), CommentLine(), 0, []).0 == CommentSteps(name)
  {
    hide WellFormed, Anchored, PieceAt, Lexed, Boundary, NewFrame;
    var g, oracle, line := CommentGrammar(name), CommentOracle(), CommentLine();
    var inside := [NewFrame(CommentRule(name))];
    CommentOpens(name);
    CommentHolds(name, 2);
    CommentHolds(name, 3);
    CommentHolds(name, 4);
    CommentCloses(name);
    LexedStep(g, oracle, line, 0, []);
    assert [] + inside == inside && inside[..0] == [];
    LexedStep(g, oracle, line, 2, inside);
    LexedStep(g, oracle, line, 3, inside);
    LexedStep(g, oracle, line, 4, inside);
    LexedStep(g, oracle, line, 5, inside);
    LexedEnd(g, oracle, line, []);
  }

  lemma LexedEnd(g: Grammar, oracle: Oracle, line: Line, stack: seq<Frame>)
    requires WellFormed(line) && Anchored(oracle, line) && Boundary(line, |line|)
    ensures Lexed(g, oracle, line, |line|, stack).0 == []
  {
  }

  lemma CommentOpen(name: Option<string>, n: nat)
    requires n < 5
    ensures OpenRules([], CommentSteps(name), n) == if n == 0 then [] else [CommentRule(name)]
  {
    if n > 0 {
      CommentOpen(name, n - 1);
    }
  }

  lemma CommentRun(name: Option<string>)
    ensures HeldEnd(CommentSteps(name), 1) == 4
  {
    var steps := CommentSteps(name);
    assert HeldEnd(steps, 4) == 4;
    assert HeldEnd(steps, 3) == 4 && HeldEnd(steps, 2) == 4;
  }

  lemma CommentEnds(name: Option<string>)
    ensures var steps, rule := CommentSteps(name), CommentRule(name);
            && ScopesOf([rule]) == (if name.Some? then [name.value, "content"] else ["content"])
            && StepSaid(CommentLine(), steps[0], []) == (if name.Some? then [Token(0, 2, [name.value])] else [])
            && StepSaid(CommentLine(), steps[4], [rule])
               == [Token(5, 2, if name.Some? then [name.value] else ["content"])]
  {
    hide Boundary;
    var rule := CommentRule(name);
    assert [rule][1..] == [] && [rule][..0] == [];
    assert ScopesOf([]) == [] && ScopesOf([]) + ["content"] == ["content"];
    assert name.Some? ==> ScopesOf([]) + [name.value] == [name.value];
  }

  /** A block comment on a line: the text inside has both scopes, the delimiters the rule's name; when the rule has no
      name, the end match alone carries the content name. */
  lemma CommentScopes(name: Option<string>)
    ensures WellFormed(CommentLine()) && Boundary(CommentLine(), 0) && Anchored(CommentOracle(), CommentLine())
    ensures var (pieces, after) := Lexed(CommentGrammar(name), CommentOracle(), CommentLine(), 0, []);
            LineTokens(CommentLine(), pieces, after) ==
              if name.Some?
              then [Token(0, 2, [name.value]), Token(2, 3, [name.value, "content"]), Token(5, 2, [name.value])]
              else [Token(2, 3, ["content"]), Token(5, 2, ["content"])]
  {
    hide Lexed, Anchored, WellFormed, LineTokens, Lawful, LawfulLine, StepSaid, OpenRules, ScopesOf, HeldEnd, Boundary,
        CommentRule, NewFrame;
    CommentFits();
    CommentLexed(name);
    CommentOpen(name, 0);
    CommentOpen(name, 1);
    CommentOpen(name, 4);
    CommentRun(name);
    CommentEnds(name);
    var line, steps := CommentLine(), CommentSteps(name);
    LineMeans(CommentGrammar(name), CommentOracle(), line, [], []);
    assert Said(line, steps, [], 5) == [];
    assert Said(line, steps, [], 4) == StepSaid(line, steps[4], [CommentRule(name)]);
  }
}
