/** The tokenization engine (crates/static-syntax/src/tokenizer.rs). Regexes are an arbitrary oracle that
    answers with a match starting exactly at the position asked for. */
module Tokenizers {
  import opened Outcomes
  import opened Utf8
  import opened Grammars

  const MAX_REGION_DEPTH: nat := 10000

  type Line = seq<Byte>

  type Spans = seq<Option<(nat, nat)>>

  type Oracle = (string, Line, nat) -> Option<Spans>

  datatype Grammar = Grammar(roots: seq<string>, repository: Repository)

  datatype Frame = Frame(end: string, endCaptures: Captures, patterns: seq<string>, scopes: seq<string>)

  datatype Token = Token(startByte: nat, length: nat, scopes: seq<string>)

  /** What is done at one position. */
  datatype Choice =
    | Held
    | Ended(spans: Spans, stop: nat)
    | Matched(rule: Rule, spans: Spans, stop: nat)

  /** One step over a line: from where to where, what was done, and the regions open before it. */
  datatype Piece = Piece(start: nat, stop: nat, choice: Choice, stack: seq<Frame>)

  // ----- the oracle's contract ---------------------------------------------------------------

  /** The end of the whole match at a position, if there is one. */
  function Whole(oracle: Oracle, regex: string, line: Line, pos: nat): Option<nat> {
    var spans := oracle(regex, line, pos);
    if spans.Some? && spans.value != [] && spans.value[0].Some? then Some(spans.value[0].value.1) else None
  }

  /** A match starts at the position asked for, stays in the line, and ends between characters. */
  ghost predicate Anchored(oracle: Oracle, line: Line) {
    forall regex, pos: nat :: Whole(oracle, regex, line, pos).Some? ==>
      && oracle(regex, line, pos).value[0].value.0 == pos
      && pos <= Whole(oracle, regex, line, pos).value <= |line|
      && Boundary(line, Whole(oracle, regex, line, pos).value)
  }

  // ----- scopes ------------------------------------------------------------------------------

  /** Scopes of the open regions, outermost first. */
  function BaseScopes(stack: seq<Frame>): seq<string> {
    if stack == [] then [] else BaseScopes(stack[..|stack| - 1]) + stack[|stack| - 1].scopes
  }

  function NewFrame(rule: Rule): Frame
    requires rule.body.BeginEnd?
  {
    var r := rule.body.region;
    Frame(r.end, r.endCaptures, r.patterns,
          (if rule.name.Some? then [rule.name.value] else [])
              + (if r.contentName.Some? then [r.contentName.value] else []))
  }

  // ----- what is done at one position --------------------------------------------------------

  function ActivePatterns(g: Grammar, stack: seq<Frame>): seq<string> {
    if stack == [] then g.roots else stack[|stack| - 1].patterns
  }

  /** The regex a rule is entered by. */
  function EntryRegex(rule: Rule): string
    requires !rule.body.Group?
  {
    if rule.body.Match? then rule.body.regex else rule.body.region.begin
  }

  /** The first rule, in order, that takes something at this position; a name without a rule ends the search. */
  function RuleChoice(g: Grammar, oracle: Oracle, line: Line, pos: nat, names: seq<string>, depth: nat): Choice {
    if names == [] || names[0] !in g.repository then Held
    else
      var rule := g.repository[names[0]];
      var rest := RuleChoice(g, oracle, line, pos, names[1..], depth);
      if rule.body.Group? then rest
      else
        var whole := Whole(oracle, EntryRegex(rule), line, pos);
        if whole.None? || whole.value == pos || (rule.body.BeginEnd? && depth >= MAX_REGION_DEPTH) then rest
        else Matched(rule, oracle(EntryRegex(rule), line, pos).value, whole.value)
  }

  /** The innermost region's end goes first. */
  function StepChoice(g: Grammar, oracle: Oracle, line: Line, pos: nat, stack: seq<Frame>): Choice {
    var end := if stack == [] then None else Whole(oracle, stack[|stack| - 1].end, line, pos);
    if end.Some? then Ended(oracle(stack[|stack| - 1].end, line, pos).value, end.value)
    else RuleChoice(g, oracle, line, pos, ActivePatterns(g, stack), |stack|)
  }

  function StackAfter(p: Piece): seq<Frame> {
    match p.choice
    case Held => p.stack
    case Ended(_, _) => if p.stack == [] then [] else p.stack[..|p.stack| - 1]
    case Matched(rule, _, _) => if rule.body.BeginEnd? then p.stack + [NewFrame(rule)] else p.stack
  }

  function NextCharLen(line: Line, pos: nat): nat
    requires pos < |line|
  {
    if line[pos] < 0x80 then 1 else LeadLength(line[pos])
  }

  lemma NextCharIn(line: Line, pos: nat)
    requires WellFormed(line) && pos < |line| && Boundary(line, pos)
    ensures 0 < NextCharLen(line, pos) && pos + NextCharLen(line, pos) <= |line|
            && Boundary(line, pos + NextCharLen(line, pos))
  {
    assert ScalarAt(line, pos) && CompleteAt(line, pos);
  }

  function PieceAt(g: Grammar, oracle: Oracle, line: Line, pos: nat, stack: seq<Frame>): Piece
    requires pos < |line|
  {
    var choice := StepChoice(g, oracle, line, pos, stack);
    Piece(pos, if choice.Held? then pos + NextCharLen(line, pos) else choice.stop, choice, stack)
  }

  lemma {:induction false} RuleStop(g: Grammar, oracle: Oracle, line: Line, pos: nat, names: seq<string>, depth: nat)
    requires Anchored(oracle, line)
    ensures var c := RuleChoice(g, oracle, line, pos, names, depth);
            c.Held? || (c.Matched? && pos < c.stop <= |line| && Boundary(line, c.stop))
  {
    if names != [] && names[0] in g.repository {
      RuleStop(g, oracle, line, pos, names[1..], depth);
    }
  }

  /** A step never goes back, and one that takes nothing closes a region. */
  lemma StepProgress(g: Grammar, oracle: Oracle, line: Line, pos: nat, stack: seq<Frame>)
    requires WellFormed(line) && Anchored(oracle, line) && pos < |line| && Boundary(line, pos)
    ensures var p := PieceAt(g, oracle, line, pos, stack);
            && pos <= p.stop <= |line| && Boundary(line, p.stop)
            && (p.stop > pos || |StackAfter(p)| < |stack|)
  {
    NextCharIn(line, pos);
    RuleStop(g, oracle, line, pos, ActivePatterns(g, stack), |stack|);
  }

  /** All steps over a line, and the regions left open. */
  ghost function Lexed(g: Grammar, oracle: Oracle, line: Line, pos: nat, stack: seq<Frame>): (seq<Piece>, seq<Frame>)
    requires WellFormed(line) && Anchored(oracle, line) && Boundary(line, pos)
    decreases |line| - pos, |stack|
  {
    if pos >= |line| then ([], stack)
    else
      StepProgress(g, oracle, line, pos, stack);
      var p := PieceAt(g, oracle, line, pos, stack);
      var rest := Lexed(g, oracle, line, p.stop, StackAfter(p));
      ([p] + rest.0, rest.1)
  }

  // ----- the tokens of the steps -------------------------------------------------------------

  function CaptureTokens(line: Line, scopes: seq<string>, captures: Captures, spans: Spans): seq<Token> {
    if captures == [] then []
    else
      var n := |captures| - 1;
      var (index, name) := captures[n];
      var front := CaptureTokens(line, scopes, captures[..n], spans);
      if name.None? || index >= |spans| || spans[index].None? then front
      else
        var (start, stop) := spans[index].value;
        if start >= stop || !Boundary(line, start) || !Boundary(line, stop) then front
        else front + [Token(start, stop - start, scopes + [name.value])]
  }

  /** `emit_match` */
  function MatchTokens(line: Line, start: nat, stop: nat, base: seq<string>, name: Option<string>, captures: Captures,
                       spans: Spans): seq<Token>
    requires start <= stop
  {
    var scopes := base + (if name.Some? then [name.value] else []);
    (if name.Some? then [Token(start, stop - start, scopes)] else []) + CaptureTokens(line, scopes, captures, spans)
  }

  function EntryCaptures(rule: Rule): Captures
    requires !rule.body.Group?
  {
    if rule.body.Match? then rule.body.captures else rule.body.region.beginCaptures
  }

  /** The tokens of one step that took something. */
  function PieceTokens(line: Line, p: Piece): seq<Token> {
    if p.start > p.stop then []
    else
      match p.choice
      case Held => []
      case Ended(spans, _) =>
        if p.stack == [] then []
        else
          var top := p.stack[|p.stack| - 1];
          MatchTokens(line, p.start, p.stop, BaseScopes(p.stack[..|p.stack| - 1]),
                      if top.scopes == [] then None else Some(top.scopes[0]), top.endCaptures, spans)
      case Matched(rule, spans, _) =>
        if rule.body.Group? then []
        else MatchTokens(line, p.start, p.stop, BaseScopes(p.stack), rule.name, EntryCaptures(rule), spans)
  }

  /** Where the run of held characters at the end of these steps began. */
  function Pending(pieces: seq<Piece>): Option<nat> {
    if pieces == [] || !pieces[|pieces| - 1].choice.Held? then None
    else
      var before := Pending(pieces[..|pieces| - 1]);
      if before.Some? then before else Some(pieces[|pieces| - 1].start)
  }

  /** `flush_run` */
  function RunTokens(run: Option<nat>, upto: nat, stack: seq<Frame>): seq<Token> {
    if run.Some? && upto > run.value && stack != [] then [Token(run.value, upto - run.value, BaseScopes(stack))] else []
  }

  /** The tokens out by the end of these steps; a run still pending is not. */
  function Emitted(line: Line, pieces: seq<Piece>): seq<Token> {
    if pieces == [] then []
    else
      var front, last := pieces[..|pieces| - 1], pieces[|pieces| - 1];
      if last.choice.Held? then Emitted(line, front)
      else Emitted(line, front) + RunTokens(Pending(front), last.start, last.stack) + PieceTokens(line, last)
  }

  // ----- the highlighter ---------------------------------------------------------------------

  class Highlighter {
    const grammar: Grammar
    const oracle: Oracle
    var stack: seq<Frame>

    constructor (grammar: Grammar, oracle: Oracle)
      ensures stack == [] && this.grammar == grammar && this.oracle == oracle
    {
      this.grammar, this.oracle, stack := grammar, oracle, [];
    }

    /** `flush_run` */
    method FlushRun(tokens: seq<Token>, run: Option<nat>, upto: nat) returns (out: seq<Token>)
      ensures out == tokens + RunTokens(run, upto, stack)
    {
      out := tokens;
      if run.Some? && upto > run.value && stack != [] {
        out := out + [Token(run.value, upto - run.value, BaseScopes(stack))];
      }
    }

    /** `try_region_end` */
    method TryRegionEnd(line: Line, pos: nat, tokens: seq<Token>, run: Option<nat>)
      returns (consumed: Option<nat>, out: seq<Token>)
      requires Anchored(oracle, line) && pos < |line|
      modifies this
      ensures consumed.Some? <==> StepChoice(grammar, oracle, line, pos, old(stack)).Ended?
      ensures consumed.None? ==> out == tokens && stack == old(stack)
      ensures consumed.Some? ==>
                var p := PieceAt(grammar, oracle, line, pos, old(stack));
                && pos + consumed.value == p.stop && stack == StackAfter(p)
                && out == tokens + RunTokens(run, pos, old(stack)) + PieceTokens(line, p)
    {
      hide CaptureTokens, BaseScopes;
      RuleStop(grammar, oracle, line, pos, ActivePatterns(grammar, stack), |stack|);
      if stack == [] {
        return None, tokens;
      }
      var top := stack[|stack| - 1];
      var spans := oracle(top.end, line, pos);
      if spans.None? || spans.value == [] || spans.value[0].None? {
        return None, tokens;
      }
      assert Whole(oracle, top.end, line, pos).Some?;
      var stop := spans.value[0].value.1;
      out := FlushRun(tokens, run, pos);
      out := out + MatchTokens(line, pos, stop, BaseScopes(stack[..|stack| - 1]),
                               if top.scopes == [] then None else Some(top.scopes[0]), top.endCaptures, spans.value);
      stack := stack[..|stack| - 1];
      return Some(stop - pos), out;
    }

    /** `try_rules` */
    method TryRules(line: Line, pos: nat, tokens: seq<Token>, run: Option<nat>)
      returns (consumed: Option<nat>, out: seq<Token>)
      requires Anchored(oracle, line) && pos < |line|
      requires !StepChoice(grammar, oracle, line, pos, stack).Ended?
      modifies this
      ensures consumed.Some? <==> StepChoice(grammar, oracle, line, pos, old(stack)).Matched?
      ensures consumed.None? ==> out == tokens && stack == old(stack)
      ensures consumed.Some? ==>
                var p := PieceAt(grammar, oracle, line, pos, old(stack));
                && pos + consumed.value == p.stop && stack == StackAfter(p)
                && out == tokens + RunTokens(run, pos, old(stack)) + PieceTokens(line, p)
    {
      hide CaptureTokens, BaseScopes;
      var patterns := if stack == [] then grammar.roots else stack[|stack| - 1].patterns;
      assert patterns[0..] == patterns;
      for i := 0 to |patterns|
        invariant stack == old(stack)
        invariant RuleChoice(grammar, oracle, line, pos, patterns, |stack|)
                    == RuleChoice(grammar, oracle, line, pos, patterns[i..], |stack|)
      {
        assert patterns[i..][0] == patterns[i] && patterns[i..][1..] == patterns[i + 1..];
        if patterns[i] !in grammar.repository {
          return None, tokens;
        }
        var rule := grammar.repository[patterns[i]];
        if rule.body.Group? {
          continue;
        }
        var spans := oracle(EntryRegex(rule), line, pos);
        if spans.None? || spans.value == [] || spans.value[0].None? {
          continue;
        }
        assert Whole(oracle, EntryRegex(rule), line, pos).Some?;
        var stop := spans.value[0].value.1;
        if stop == pos || (rule.body.BeginEnd? && |stack| >= MAX_REGION_DEPTH) {
          continue;
        }
        out := FlushRun(tokens, run, pos);
        out := out + MatchTokens(line, pos, stop, BaseScopes(stack), rule.name, EntryCaptures(rule), spans.value);
        if rule.body.BeginEnd? {
          stack := stack + [NewFrame(rule)];
        }
        return Some(stop - pos), out;
      }
      return None, tokens;
    }

    /** `tokenize_line`: it ends for every grammar and every oracle, since a step that takes nothing closes a
        region. */
    method TokenizeLine(line: Line) returns (tokens: seq<Token>)
      requires WellFormed(line) && Anchored(oracle, line)
      modifies this
      ensures var lexed := Lexed(grammar, oracle, line, 0, old(stack));
              && stack == lexed.1
              && tokens == Emitted(line, lexed.0) + RunTokens(Pending(lexed.0), |line|, lexed.1)
    {
      hide StepChoice, StackAfter, PieceTokens, RunTokens, NextCharLen, Anchored, WellFormed, Boundary, Emitted,
          Pending, Lexed;
      LineStarts(line);
      tokens := [];
      var pos := 0;
      var run: Option<nat> := None;
      ghost var pieces: seq<Piece> := [];
      NothingLexed(grammar, oracle, line, stack);
      while pos < |line|
        invariant pos <= |line| && Boundary(line, pos)
        invariant Resumes(grammar, oracle, line, old(stack), pieces, pos, stack)
        invariant tokens == Emitted(line, pieces) && run == Pending(pieces)
        decreases |line| - pos, |stack|
      {
        StepProgress(grammar, oracle, line, pos, stack);
        LexedNext(grammar, oracle, line, old(stack), pieces, pos, stack);
        ghost var p := PieceAt(grammar, oracle, line, pos, stack);
        EmittedNext(line, pieces, p);
        HeldKeeps(p);
        var consumed, out := TryRegionEnd(line, pos, tokens, run);
        if consumed.None? {
          consumed, out := TryRules(line, pos, tokens, run);
        }
        if consumed.Some? {
          tokens, run, pos := out, None, pos + consumed.value;
        } else {
          run := if run.None? then Some(pos) else run;
          pos := pos + NextCharLen(line, pos);
        }
        pieces := pieces + [p];
      }
      LexedDone(grammar, oracle, line, old(stack), pieces, pos, stack);
      tokens := FlushRun(tokens, run, |line|);
    }
  }

  /** These pieces lead from the start of the line to here. */
  ghost predicate Resumes(g: Grammar, oracle: Oracle, line: Line, from: seq<Frame>, pieces: seq<Piece>, pos: nat,
                          stack: seq<Frame>)
    requires WellFormed(line) && Anchored(oracle, line) && Boundary(line, pos) && Boundary(line, 0)
  {
    var rest := Lexed(g, oracle, line, pos, stack);
    Lexed(g, oracle, line, 0, from) == (pieces + rest.0, rest.1)
  }

  lemma NothingLexed(g: Grammar, oracle: Oracle, line: Line, stack: seq<Frame>)
    requires WellFormed(line) && Anchored(oracle, line) && Boundary(line, 0)
    ensures Resumes(g, oracle, line, stack, [], 0, stack) && Emitted(line, []) == [] && Pending([]) == None
  {
    hide Lexed;
    var rest := Lexed(g, oracle, line, 0, stack);
    assert [] + rest.0 == rest.0;
  }

  lemma LexedNext(g: Grammar, oracle: Oracle, line: Line, from: seq<Frame>, pieces: seq<Piece>, pos: nat,
                  stack: seq<Frame>)
    requires WellFormed(line) && Anchored(oracle, line) && Boundary(line, pos) && Boundary(line, 0) && pos < |line|
    requires Resumes(g, oracle, line, from, pieces, pos, stack)
    ensures var p := PieceAt(g, oracle, line, pos, stack);
            Boundary(line, p.stop) && Resumes(g, oracle, line, from, pieces + [p], p.stop, StackAfter(p))
  {
    hide StepChoice, StackAfter, NextCharLen, Anchored, WellFormed;
    StepProgress(g, oracle, line, pos, stack);
    var p := PieceAt(g, oracle, line, pos, stack);
    var rest := Lexed(g, oracle, line, p.stop, StackAfter(p));
    assert pieces + ([p] + rest.0) == (pieces + [p]) + rest.0;
  }

  lemma LexedDone(g: Grammar, oracle: Oracle, line: Line, from: seq<Frame>, pieces: seq<Piece>, pos: nat,
                  stack: seq<Frame>)
    requires WellFormed(line) && Anchored(oracle, line) && Boundary(line, pos) && Boundary(line, 0) && pos >= |line|
    requires Resumes(g, oracle, line, from, pieces, pos, stack)
    ensures Lexed(g, oracle, line, 0, from) == (pieces, stack)
  {
    assert pieces + [] == pieces;
  }

  lemma EmittedNext(line: Line, pieces: seq<Piece>, p: Piece)
    ensures Emitted(line, pieces + [p]) ==
              if p.choice.Held? then Emitted(line, pieces)
              else Emitted(line, pieces) + RunTokens(Pending(pieces), p.start, p.stack) + PieceTokens(line, p)
    ensures Pending(pieces + [p]) ==
              if !p.choice.Held? then None else if Pending(pieces).Some? then Pending(pieces) else Some(p.start)
  {
    hide PieceTokens, RunTokens;
    assert (pieces + [p])[..|pieces|] == pieces;
  }

  lemma LineStarts(line: Line)
    requires WellFormed(line)
    ensures Boundary(line, 0)
  {
  }

  lemma HeldKeeps(p: Piece)
    ensures p.choice.Held? ==> StackAfter(p) == p.stack
  {
  }
}
