/** What tokenization comes to, from the steps over the lines and the rules alone: which region is open where, which
    rule is taken, and the scopes of every token. No frame of the highlighter's stack appears in these laws. */
module TokenizerScopes {
  import opened Outcomes
  import opened Utf8
  import opened Grammars
  import opened Tokenizers
  import opened TokenizerLaws

  // ----- the open regions --------------------------------------------------------------------

  /** The regions open after a step: a match of a region's begin opens it, an end match closes the innermost. */
  function OpenNext(rules: seq<Rule>, p: Piece): seq<Rule> {
    match p.choice
    case Held => rules
    case Ended(_, _) => if rules == [] then [] else rules[..|rules| - 1]
    case Matched(rule, _, _) => if rule.body.BeginEnd? then rules + [rule] else rules
  }

  /** The rules of the regions open before step `n`, outermost first. */
  function OpenRules(rules: seq<Rule>, pieces: seq<Piece>, n: nat): seq<Rule>
    requires n <= |pieces|
  {
    if n == 0 then rules else OpenNext(OpenRules(rules, pieces, n - 1), pieces[n - 1])
  }

  function Named(name: Option<string>): seq<string> {
    if name.Some? then [name.value] else []
  }

  /** A frame that stands for an open region of this rule. */
  predicate StandsFor(f: Frame, rule: Rule) {
    && rule.body.BeginEnd?
    && f.end == rule.body.region.end && f.endCaptures == rule.body.region.endCaptures
    && f.patterns == rule.body.region.patterns
    && f.scopes == Named(rule.name) + Named(rule.body.region.contentName)
  }

  ghost predicate Backed(stack: seq<Frame>, rules: seq<Rule>) {
    |stack| == |rules| && forall i :: 0 <= i < |stack| ==> StandsFor(stack[i], rules[i])
  }

  predicate EndsOpen(p: Piece) {
    p.choice.Ended? ==> p.stack != []
  }

  lemma BackedNext(p: Piece, rules: seq<Rule>)
    requires Backed(p.stack, rules) && EndsOpen(p)
    ensures Backed(StackAfter(p), OpenNext(rules, p))
  {
  }

  /** Every step is the engine's step for its place and stack. */
  ghost predicate Stepped(g: Grammar, oracle: Oracle, line: Line, p: Piece) {
    p.start < |line| && p == PieceAt(g, oracle, line, p.start, p.stack)
  }

  lemma {:induction false} LexedStepped(g: Grammar, oracle: Oracle, line: Line, pos: nat, stack: seq<Frame>)
    requires WellFormed(line) && Anchored(oracle, line) && Boundary(line, pos)
    ensures forall i :: 0 <= i < |Lexed(g, oracle, line, pos, stack).0| ==>
                          Stepped(g, oracle, line, Lexed(g, oracle, line, pos, stack).0[i])
    decreases |line| - pos, |stack|
  {
    hide StepChoice, StackAfter, Anchored, WellFormed, NextCharLen;
    if pos < |line| {
      StepProgress(g, oracle, line, pos, stack);
      var p := PieceAt(g, oracle, line, pos, stack);
      LexedStepped(g, oracle, line, p.stop, StackAfter(p));
    }
  }

  /** The stack before step `n`, and after the last one. */
  function StackAt(pieces: seq<Piece>, after: seq<Frame>, n: nat): seq<Frame>
    requires n <= |pieces|
  {
    if n < |pieces| then pieces[n].stack else after
  }

  lemma {:induction false} BackedAt(line: Line, pieces: seq<Piece>, before: seq<Frame>, after: seq<Frame>,
                                    rules: seq<Rule>, n: nat)
    requires Tiles(line, pieces, 0, |line|, before, after) && n <= |pieces| && Backed(before, rules)
    requires forall i :: 0 <= i < n ==> EndsOpen(pieces[i])
    ensures Backed(StackAt(pieces, after, n), OpenRules(rules, pieces, n))
    decreases n
  {
    hide StackAfter, EndsOpen, OpenNext, Backed;
    if n > 0 {
      BackedAt(line, pieces, before, after, rules, n - 1);
      BackedNext(pieces[n - 1], OpenRules(rules, pieces, n - 1));
      if n < |pieces| {
        assert Joins(pieces[n - 1], pieces[n]);
      }
    }
  }

  // ----- which rule is taken -----------------------------------------------------------------

  ghost predicate MatchesAt(oracle: Oracle, regex: string, line: Line, pos: nat) {
    var spans := oracle(regex, line, pos);
    spans.Some? && spans.value != [] && spans.value[0].Some?
  }

  /** Takes at least one byte. */
  ghost predicate MatchesSome(oracle: Oracle, regex: string, line: Line, pos: nat) {
    MatchesAt(oracle, regex, line, pos) && oracle(regex, line, pos).value[0].value.1 != pos
  }

  /** Ten thousand regions at most are open at once. */
  ghost predicate RuleTakes(oracle: Oracle, line: Line, pos: nat, rule: Rule, depth: nat) {
    match rule.body
    case Group(_) => false
    case Match(regex, _) => MatchesSome(oracle, regex, line, pos)
    case BeginEnd(region) => MatchesSome(oracle, region.begin, line, pos) && depth < 10000
  }

  /** The names up to and with the `k`-th are rules, and none before it takes anything. */
  ghost predicate PassedOver(g: Grammar, oracle: Oracle, line: Line, pos: nat, names: seq<string>, depth: nat, k: nat)
    requires k < |names|
  {
    && (forall i :: 0 <= i <= k ==> names[i] in g.repository)
    && (forall i :: 0 <= i < k ==> !RuleTakes(oracle, line, pos, g.repository[names[i]], depth))
  }

  /** The names a step chooses from. */
  ghost function Candidates(g: Grammar, rules: seq<Rule>): seq<string> {
    if rules != [] && rules[|rules| - 1].body.BeginEnd? then rules[|rules| - 1].body.region.patterns else g.roots
  }

  ghost predicate EndsHere(oracle: Oracle, line: Line, pos: nat, rules: seq<Rule>) {
    && rules != [] && rules[|rules| - 1].body.BeginEnd?
    && MatchesAt(oracle, rules[|rules| - 1].body.region.end, line, pos)
  }

  /** The regex's own match is what was taken. */
  ghost predicate TookMatch(oracle: Oracle, line: Line, pos: nat, regex: string, spans: Spans, stop: nat) {
    MatchesAt(oracle, regex, line, pos) && spans == oracle(regex, line, pos).value && stop == spans[0].value.1
  }

  /** What a step does: the innermost region's end goes first; then the first rule of the list that takes
      something; then one character is held. */
  ghost predicate Lawful(g: Grammar, oracle: Oracle, line: Line, p: Piece, rules: seq<Rule>) {
    var names := Candidates(g, rules);
    match p.choice
    case Ended(spans, stop) =>
      && EndsHere(oracle, line, p.start, rules) && p.stop == stop
      && TookMatch(oracle, line, p.start, rules[|rules| - 1].body.region.end, spans, stop)
    case Matched(rule, spans, stop) =>
      && !EndsHere(oracle, line, p.start, rules) && p.stop == stop
      && (exists k :: 0 <= k < |names| && PassedOver(g, oracle, line, p.start, names, |rules|, k)
                      && rule == g.repository[names[k]])
      && RuleTakes(oracle, line, p.start, rule, |rules|)
      && TookMatch(oracle, line, p.start, if rule.body.Match? then rule.body.regex else rule.body.region.begin,
                   spans, stop)
    case Held =>
      && !EndsHere(oracle, line, p.start, rules)
      && (forall k :: 0 <= k < |names| && PassedOver(g, oracle, line, p.start, names, |rules|, k) ==>
                        !RuleTakes(oracle, line, p.start, g.repository[names[k]], |rules|))
      && OneCharacter(line, p.start, p.stop)
  }

  predicate OneCharacter(line: Line, start: nat, stop: nat) {
    start < stop && Boundary(line, start) && Boundary(line, stop)
    && forall k :: start < k < stop ==> !Boundary(line, k)
  }

  lemma TakesIs(oracle: Oracle, line: Line, pos: nat, rule: Rule, depth: nat)
    requires !rule.body.Group?
    ensures RuleTakes(oracle, line, pos, rule, depth) <==>
      var whole := Whole(oracle, EntryRegex(rule), line, pos);
      whole.Some? && whole.value != pos && !(rule.body.BeginEnd? && depth >= MAX_REGION_DEPTH)
  {
  }

  lemma PassedOverNext(g: Grammar, oracle: Oracle, line: Line, pos: nat, names: seq<string>, depth: nat, k: nat)
    requires 0 < k < |names|
    ensures PassedOver(g, oracle, line, pos, names, depth, k) <==>
      && names[0] in g.repository && !RuleTakes(oracle, line, pos, g.repository[names[0]], depth)
      && PassedOver(g, oracle, line, pos, names[1..], depth, k - 1)
  {
    hide RuleTakes;
    var rest := names[1..];
    assert forall i :: 0 < i < |names| ==> names[i] == rest[i - 1];
    if PassedOver(g, oracle, line, pos, rest, depth, k - 1)
       && names[0] in g.repository && !RuleTakes(oracle, line, pos, g.repository[names[0]], depth) {
      forall i | 0 <= i <= k
        ensures names[i] in g.repository
        ensures i < k ==> !RuleTakes(oracle, line, pos, g.repository[names[i]], depth)
      {
        if i > 0 {
          assert names[i] == rest[i - 1];
        }
      }
    }
    if PassedOver(g, oracle, line, pos, names, depth, k) {
      forall i | 0 <= i <= k - 1
        ensures rest[i] in g.repository
        ensures i < k - 1 ==> !RuleTakes(oracle, line, pos, g.repository[rest[i]], depth)
      {
        assert rest[i] == names[i + 1];
      }
    }
  }

  /** The engine's search ends at the first rule that takes something. */
  lemma {:induction false} SearchIs(g: Grammar, oracle: Oracle, line: Line, pos: nat, names: seq<string>, depth: nat)
    ensures var c := RuleChoice(g, oracle, line, pos, names, depth);
            && !c.Ended?
            && (c.Matched? ==> exists k :: 0 <= k < |names| && FoundAt(g, oracle, line, pos, names, depth, k, c))
            && (c.Held? ==> forall k :: 0 <= k < |names| && PassedOver(g, oracle, line, pos, names, depth, k) ==>
                                          !RuleTakes(oracle, line, pos, g.repository[names[k]], depth))
  {
    hide RuleTakes, PassedOver, Whole, TookMatch, EntryRegex;
    var c := RuleChoice(g, oracle, line, pos, names, depth);
    if names == [] {
    } else if names[0] !in g.repository {
      forall k | 0 <= k < |names|
        ensures !PassedOver(g, oracle, line, pos, names, depth, k)
      {
        FirstUnresolved(g, oracle, line, pos, names, depth, k);
      }
    } else {
      var rule, rest := g.repository[names[0]], names[1..];
      SearchIs(g, oracle, line, pos, rest, depth);
      FirstPassed(g, oracle, line, pos, names, depth);
      if rule.body.Group? {
        GroupTakesNothing(oracle, line, pos, rule, depth);
      } else {
        TakesIs(oracle, line, pos, rule, depth);
      }
      if RuleTakes(oracle, line, pos, rule, depth) {
        TookEntry(oracle, line, pos, rule);
        assert FoundAt(g, oracle, line, pos, names, depth, 0, c);
      } else {
        SearchRest(g, oracle, line, pos, names, depth, c);
      }
    }
  }

  ghost predicate FoundAt(g: Grammar, oracle: Oracle, line: Line, pos: nat, names: seq<string>, depth: nat, k: nat,
                          c: Choice)
    requires k < |names|
  {
    && PassedOver(g, oracle, line, pos, names, depth, k)
    && c.Matched? && c.rule == g.repository[names[k]] && RuleTakes(oracle, line, pos, c.rule, depth)
    && TookMatch(oracle, line, pos, if c.rule.body.Match? then c.rule.body.regex else c.rule.body.region.begin,
                 c.spans, c.stop)
  }

  lemma FirstUnresolved(g: Grammar, oracle: Oracle, line: Line, pos: nat, names: seq<string>, depth: nat, k: nat)
    requires k < |names| && names[0] !in g.repository
    ensures !PassedOver(g, oracle, line, pos, names, depth, k)
  {
  }

  lemma FirstPassed(g: Grammar, oracle: Oracle, line: Line, pos: nat, names: seq<string>, depth: nat)
    requires names != [] && names[0] in g.repository
    ensures PassedOver(g, oracle, line, pos, names, depth, 0)
  {
  }

  lemma GroupTakesNothing(oracle: Oracle, line: Line, pos: nat, rule: Rule, depth: nat)
    requires rule.body.Group?
    ensures !RuleTakes(oracle, line, pos, rule, depth)
  {
  }

  lemma TookEntry(oracle: Oracle, line: Line, pos: nat, rule: Rule)
    requires !rule.body.Group? && Whole(oracle, EntryRegex(rule), line, pos).Some?
    ensures TookMatch(oracle, line, pos, if rule.body.Match? then rule.body.regex else rule.body.region.begin,
                      oracle(EntryRegex(rule), line, pos).value, Whole(oracle, EntryRegex(rule), line, pos).value)
  {
  }

  lemma SearchRest(g: Grammar, oracle: Oracle, line: Line, pos: nat, names: seq<string>, depth: nat, c: Choice)
    requires names != [] && names[0] in g.repository
    requires !RuleTakes(oracle, line, pos, g.repository[names[0]], depth)
    requires c.Matched? ==> exists k :: 0 <= k < |names[1..]|
                                        && FoundAt(g, oracle, line, pos, names[1..], depth, k, c)
    requires c.Held? ==> forall k :: 0 <= k < |names[1..]| && PassedOver(g, oracle, line, pos, names[1..], depth, k)
                           ==> !RuleTakes(oracle, line, pos, g.repository[names[1..][k]], depth)
    ensures c.Matched? ==> exists k :: 0 <= k < |names| && FoundAt(g, oracle, line, pos, names, depth, k, c)
    ensures c.Held? ==> forall k :: 0 <= k < |names| && PassedOver(g, oracle, line, pos, names, depth, k) ==>
                                      !RuleTakes(oracle, line, pos, g.repository[names[k]], depth)
  {
    hide RuleTakes, TookMatch;
    var rest := names[1..];
    if c.Matched? {
      var k :| 0 <= k < |rest| && FoundAt(g, oracle, line, pos, rest, depth, k, c);
      PassedOverNext(g, oracle, line, pos, names, depth, k + 1);
      assert FoundAt(g, oracle, line, pos, names, depth, k + 1, c);
    }
    if c.Held? {
      forall k | 0 <= k < |names| && PassedOver(g, oracle, line, pos, names, depth, k)
        ensures !RuleTakes(oracle, line, pos, g.repository[names[k]], depth)
      {
        if k > 0 {
          PassedOverNext(g, oracle, line, pos, names, depth, k);
          assert names[k] == rest[k - 1];
        }
      }
    }
  }

  lemma NextIsCharacter(line: Line, pos: nat)
    requires WellFormed(line) && pos < |line| && Boundary(line, pos)
    ensures OneCharacter(line, pos, pos + NextCharLen(line, pos))
  {
    NextCharIn(line, pos);
    assert ScalarAt(line, pos);
  }

  /** Every step of the engine is lawful for the rules its stack stands for. */
  lemma StepIsLawful(g: Grammar, oracle: Oracle, line: Line, pos: nat, stack: seq<Frame>, rules: seq<Rule>)
    requires WellFormed(line) && Anchored(oracle, line) && pos < |line| && Boundary(line, pos) && Backed(stack, rules)
    ensures Lawful(g, oracle, line, PieceAt(g, oracle, line, pos, stack), rules)
    ensures EndsOpen(PieceAt(g, oracle, line, pos, stack))
  {
    hide RuleChoice, PassedOver, RuleTakes, NextCharLen, OneCharacter, WellFormed, Anchored;
    NextIsCharacter(line, pos);
    var names := ActivePatterns(g, stack);
    assert stack != [] ==> StandsFor(stack[|stack| - 1], rules[|rules| - 1]);
    assert names == Candidates(g, rules);
    SearchIs(g, oracle, line, pos, names, |stack|);
    var p := PieceAt(g, oracle, line, pos, stack);
    if p.choice.Matched? {
      var k :| 0 <= k < |names| && FoundAt(g, oracle, line, pos, names, |stack|, k, p.choice);
    }
  }

  // ----- scopes ------------------------------------------------------------------------------

  /** Outermost region first: its rule's name if it has one, then its content name if it has one. */
  function ScopesOf(rules: seq<Rule>): seq<string> {
    if rules == [] then []
    else
      var content := if rules[0].body.BeginEnd? then rules[0].body.region.contentName else None;
      Named(rules[0].name) + Named(content) + ScopesOf(rules[1..])
  }

  lemma {:induction false} ScopesGrow(rules: seq<Rule>, rule: Rule)
    requires rule.body.BeginEnd?
    ensures ScopesOf(rules + [rule]) == ScopesOf(rules) + (Named(rule.name) + Named(rule.body.region.contentName))
  {
    hide Named;
    var all := rules + [rule];
    if rules == [] {
      assert all[1..] == [];
    } else {
      assert all[1..] == rules[1..] + [rule];
      ScopesGrow(rules[1..], rule);
    }
  }

  lemma {:induction false} BaseIsScopes(stack: seq<Frame>, rules: seq<Rule>)
    requires Backed(stack, rules)
    ensures BaseScopes(stack) == ScopesOf(rules)
    decreases |stack|
  {
    hide ScopesOf, Named;
    if stack == [] {
      NoScopes();
    } else {
      var n := |stack| - 1;
      BaseIsScopes(stack[..n], rules[..n]);
      assert rules == rules[..n] + [rules[n]] && StandsFor(stack[n], rules[n]);
      ScopesGrow(rules[..n], rules[n]);
    }
  }

  lemma NoScopes()
    ensures ScopesOf([]) == []
  {
  }

  // ----- tokens ------------------------------------------------------------------------------

  /** A capture that has a name and matched some text, cut between characters, gives a token of its own. */
  function CapturesSaid(line: Line, outer: seq<string>, captures: Captures, spans: Spans): seq<Token> {
    if captures == [] then []
    else
      var (index, name) := captures[0];
      var said :=
        if name.Some? && index < |spans| && spans[index].Some?
           && spans[index].value.0 < spans[index].value.1
           && Boundary(line, spans[index].value.0) && Boundary(line, spans[index].value.1)
        then [Token(spans[index].value.0, spans[index].value.1 - spans[index].value.0, outer + [name.value])]
        else [];
      said + CapturesSaid(line, outer, captures[1..], spans)
  }

  /** A match carries its rule's name over the regions around it, its captures theirs over that; without a name only
      the captures give tokens. */
  function MatchSaid(line: Line, start: nat, stop: nat, outer: seq<string>, name: Option<string>, captures: Captures,
                     spans: Spans): seq<Token>
    requires start <= stop
  {
    (if name.Some? then [Token(start, stop - start, outer + [name.value])] else [])
    + CapturesSaid(line, outer + Named(name), captures, spans)
  }

  /** The name an end match carries: the first the region gave its inside. */
  function EndName(rule: Rule): Option<string>
    requires rule.body.BeginEnd?
  {
    if rule.name.Some? then rule.name else rule.body.region.contentName
  }

  function StepSaid(line: Line, p: Piece, rules: seq<Rule>): seq<Token> {
    if p.start > p.stop then []
    else
      match p.choice
      case Held => []
      case Ended(spans, _) =>
        if rules == [] || !rules[|rules| - 1].body.BeginEnd? then []
        else
          var rule := rules[|rules| - 1];
          MatchSaid(line, p.start, p.stop, ScopesOf(rules[..|rules| - 1]), EndName(rule),
                    rule.body.region.endCaptures, spans)
      case Matched(rule, spans, _) =>
        match rule.body
        case Group(_) => []
        case Match(_, captures) => MatchSaid(line, p.start, p.stop, ScopesOf(rules), rule.name, captures, spans)
        case BeginEnd(region) =>
          MatchSaid(line, p.start, p.stop, ScopesOf(rules), rule.name, region.beginCaptures, spans)
  }

  /** The first step from `i` on that holds nothing. */
  function HeldEnd(pieces: seq<Piece>, i: nat): (n: nat)
    requires i <= |pieces|
    ensures i <= n <= |pieces| && (forall k :: i <= k < n ==> pieces[k].choice.Held?)
    ensures n < |pieces| ==> !pieces[n].choice.Held?
    decreases |pieces| - i
  {
    if i == |pieces| || !pieces[i].choice.Held? then i else HeldEnd(pieces, i + 1)
  }

  /** The tokens from step `i` on: a run of held characters gives one token when a region is open, with that place's
      scopes; a step that took something gives its own. */
  function Said(line: Line, pieces: seq<Piece>, rules: seq<Rule>, i: nat): seq<Token>
    requires i <= |pieces|
    decreases |pieces| - i
  {
    if i == |pieces| then []
    else
      var open := OpenRules(rules, pieces, i);
      if pieces[i].choice.Held? then
        var n := HeldEnd(pieces, i);
        var start, stop := pieces[i].start, pieces[n - 1].stop;
        (if open == [] || stop < start then [] else [Token(start, stop - start, ScopesOf(open))])
        + Said(line, pieces, rules, n)
      else StepSaid(line, pieces[i], open) + Said(line, pieces, rules, i + 1)
  }

  lemma {:induction false} CapturesLast(line: Line, outer: seq<string>, captures: Captures, spans: Spans)
    requires captures != []
    ensures var n := |captures| - 1;
            CapturesSaid(line, outer, captures, spans)
            == CapturesSaid(line, outer, captures[..n], spans) + CapturesSaid(line, outer, [captures[n]], spans)
  {
    hide Boundary;
    var n := |captures| - 1;
    if n == 0 {
      assert captures[..n] == [] && captures == [captures[n]];
    } else {
      CapturesLast(line, outer, captures[1..], spans);
      assert captures[1..][..n - 1] == captures[..n][1..] && captures[1..][n - 1] == captures[n];
    }
  }

  lemma {:induction false} CapturesAre(line: Line, outer: seq<string>, captures: Captures, spans: Spans)
    ensures CaptureTokens(line, outer, captures, spans) == CapturesSaid(line, outer, captures, spans)
  {
    hide Boundary;
    if captures != [] {
      var n := |captures| - 1;
      CapturesAre(line, outer, captures[..n], spans);
      CapturesLast(line, outer, captures, spans);
      var last := [captures[n]];
      assert last[1..] == [] && last[0] == captures[n];
      assert CapturesSaid(line, outer, last[1..], spans) == [];
    }
  }

  lemma StepSaysIt(line: Line, p: Piece, rules: seq<Rule>)
    requires Backed(p.stack, rules) && EndsOpen(p)
    ensures PieceTokens(line, p) == StepSaid(line, p, rules)
  {
    hide CaptureTokens, CapturesSaid, BaseScopes, ScopesOf;
    BaseIsScopes(p.stack, rules);
    match p.choice
    case Held =>
    case Ended(spans, _) =>
      var n := |rules| - 1;
      var top, rule := p.stack[n], rules[n];
      assert StandsFor(top, rule);
      assert Backed(p.stack[..n], rules[..n]);
      BaseIsScopes(p.stack[..n], rules[..n]);
      CapturesAre(line, ScopesOf(rules[..n]) + Named(EndName(rule)), top.endCaptures, spans);
      assert (if top.scopes == [] then None else Some(top.scopes[0])) == EndName(rule);
    case Matched(rule, spans, _) =>
      if !rule.body.Group? {
        CapturesAre(line, ScopesOf(rules) + Named(rule.name), EntryCaptures(rule), spans);
      }
  }

  lemma EmittedAt(line: Line, pieces: seq<Piece>, i: nat)
    requires i < |pieces|
    ensures Emitted(line, pieces[..i + 1]) ==
              if pieces[i].choice.Held? then Emitted(line, pieces[..i])
              else Emitted(line, pieces[..i]) + RunTokens(Pending(pieces[..i]), pieces[i].start, pieces[i].stack)
                   + PieceTokens(line, pieces[i])
  {
    hide PieceTokens, RunTokens, Pending, Emitted;
    assert pieces[..i + 1] == pieces[..i] + [pieces[i]];
    EmittedNext(line, pieces[..i], pieces[i]);
  }

  lemma {:induction false} HeldSaysNothing(line: Line, pieces: seq<Piece>, i: nat, n: nat)
    requires i <= n <= |pieces| && forall k :: i <= k < n ==> pieces[k].choice.Held?
    ensures Emitted(line, pieces[..n]) == Emitted(line, pieces[..i])
    decreases n
  {
    hide PieceTokens, RunTokens, Pending, Emitted;
    if i < n {
      HeldSaysNothing(line, pieces, i, n - 1);
      EmittedAt(line, pieces, n - 1);
    }
  }

  /** What the run that starts at step `i` puts out. */
  lemma RunSaid(line: Line, pieces: seq<Piece>, before: seq<Frame>, after: seq<Frame>, rules: seq<Rule>, i: nat)
    requires Tiles(line, pieces, 0, |line|, before, after) && i < |pieces| && pieces[i].choice.Held?
    requires i > 0 ==> !pieces[i - 1].choice.Held?
    requires Backed(pieces[i].stack, OpenRules(rules, pieces, i))
    ensures var n, open := HeldEnd(pieces, i), OpenRules(rules, pieces, i);
            var upto, stack := if n < |pieces| then pieces[n].start else |line|, StackAt(pieces, after, n);
            && i < n && pieces[i].start <= pieces[n - 1].stop
            && RunTokens(Pending(pieces[..n]), upto, stack) ==
                 if open == [] then []
                 else [Token(pieces[i].start, pieces[n - 1].stop - pieces[i].start, ScopesOf(open))]
  {
    hide Tiles, RunTokens, Pending, OpenRules, ScopesOf, BaseScopes, StackAfter;
    var n := HeldEnd(pieces, i);
    RunStartFrom(pieces, i, n);
    FlushIs(line, pieces, 0, |line|, before, after, n);
    BaseIsScopes(pieces[i].stack, OpenRules(rules, pieces, i));
  }

  ghost predicate Readable(line: Line, pieces: seq<Piece>, before: seq<Frame>, after: seq<Frame>, rules: seq<Rule>) {
    && Tiles(line, pieces, 0, |line|, before, after) && Backed(before, rules)
    && forall k :: 0 <= k < |pieces| ==> EndsOpen(pieces[k])
  }

  /** A step that took something, with nothing pending before it. */
  lemma StepNext(line: Line, pieces: seq<Piece>, before: seq<Frame>, after: seq<Frame>, rules: seq<Rule>, i: nat)
    requires Readable(line, pieces, before, after, rules) && i < |pieces| && !pieces[i].choice.Held?
    requires i > 0 ==> !pieces[i - 1].choice.Held?
    ensures Emitted(line, pieces[..i + 1]) + Said(line, pieces, rules, i + 1)
            == Emitted(line, pieces[..i]) + Said(line, pieces, rules, i)
  {
    hide Tiles, RunTokens, Pending, OpenRules, PieceTokens, StepSaid, Emitted, EndsOpen, Backed;
    BackedAt(line, pieces, before, after, rules, i);
    StepSaysIt(line, pieces[i], OpenRules(rules, pieces, i));
    NonePending(pieces, i);
    NothingFlushed(pieces[i].start, pieces[i].stack);
    EmittedAt(line, pieces, i);
  }

  /** A run of held characters, and the step that ends it. */
  lemma RunNext(line: Line, pieces: seq<Piece>, before: seq<Frame>, after: seq<Frame>, rules: seq<Rule>, i: nat)
    requires Readable(line, pieces, before, after, rules) && i < |pieces| && pieces[i].choice.Held?
    requires i > 0 ==> !pieces[i - 1].choice.Held?
    requires HeldEnd(pieces, i) < |pieces|
    ensures var n := HeldEnd(pieces, i);
            Emitted(line, pieces[..n + 1]) + Said(line, pieces, rules, n + 1)
            == Emitted(line, pieces[..i]) + Said(line, pieces, rules, i)
  {
    hide Tiles, RunTokens, Pending, OpenRules, PieceTokens, StepSaid, Emitted, EndsOpen, Backed, ScopesOf;
    var n := HeldEnd(pieces, i);
    BackedAt(line, pieces, before, after, rules, i);
    RunSaid(line, pieces, before, after, rules, i);
    HeldSaysNothing(line, pieces, i, n);
    BackedAt(line, pieces, before, after, rules, n);
    StepSaysIt(line, pieces[n], OpenRules(rules, pieces, n));
    EmittedAt(line, pieces, n);
    var run := RunTokens(Pending(pieces[..n]), pieces[n].start, pieces[n].stack);
    assert Said(line, pieces, rules, i) == run + Said(line, pieces, rules, n);
    assert Said(line, pieces, rules, n) == PieceTokens(line, pieces[n]) + Said(line, pieces, rules, n + 1);
  }

  /** A run up to the end of the line. */
  lemma RunLast(line: Line, pieces: seq<Piece>, before: seq<Frame>, after: seq<Frame>, rules: seq<Rule>, i: nat)
    requires Readable(line, pieces, before, after, rules) && i < |pieces| && pieces[i].choice.Held?
    requires i > 0 ==> !pieces[i - 1].choice.Held?
    requires HeldEnd(pieces, i) == |pieces|
    ensures Emitted(line, pieces[..i]) + Said(line, pieces, rules, i) == LineTokens(line, pieces, after)
  {
    hide Tiles, RunTokens, Pending, OpenRules, PieceTokens, StepSaid, Emitted, EndsOpen, Backed, ScopesOf;
    BackedAt(line, pieces, before, after, rules, i);
    RunSaid(line, pieces, before, after, rules, i);
    HeldSaysNothing(line, pieces, i, |pieces|);
    assert pieces[..|pieces|] == pieces;
  }

  lemma LineSaid(line: Line, pieces: seq<Piece>, after: seq<Frame>, rules: seq<Rule>)
    requires pieces != [] ==> !pieces[|pieces| - 1].choice.Held?
    ensures var n := |pieces|;
            Emitted(line, pieces[..n]) + Said(line, pieces, rules, n) == LineTokens(line, pieces, after)
  {
    hide Emitted, Pending, RunTokens;
    NonePending(pieces, |pieces|);
    assert pieces[..|pieces|] == pieces;
    NothingFlushed(|line|, after);
  }

  lemma {:induction false} SaidFrom(line: Line, pieces: seq<Piece>, before: seq<Frame>, after: seq<Frame>,
                                    rules: seq<Rule>, i: nat)
    requires Readable(line, pieces, before, after, rules) && i <= |pieces|
    requires i > 0 ==> !pieces[i - 1].choice.Held?
    ensures Emitted(line, pieces[..i]) + Said(line, pieces, rules, i) == LineTokens(line, pieces, after)
    decreases |pieces| - i
  {
    hide *;
    if i == |pieces| {
      LineSaid(line, pieces, after, rules);
    } else if !pieces[i].choice.Held? {
      StepNext(line, pieces, before, after, rules, i);
      SaidFrom(line, pieces, before, after, rules, i + 1);
    } else if HeldEnd(pieces, i) < |pieces| {
      RunNext(line, pieces, before, after, rules, i);
      SaidFrom(line, pieces, before, after, rules, HeldEnd(pieces, i) + 1);
    } else {
      RunLast(line, pieces, before, after, rules, i);
    }
  }

  lemma NonePending(pieces: seq<Piece>, i: nat)
    requires i <= |pieces| && (i > 0 ==> !pieces[i - 1].choice.Held?)
    ensures Pending(pieces[..i]) == None
  {
  }

  lemma NothingFlushed(upto: nat, stack: seq<Frame>)
    ensures RunTokens(None, upto, stack) == []
  {
  }

  // ----- one line ----------------------------------------------------------------------------

  /** The steps follow one another over the line, each lawful where it stands. */
  ghost predicate LawfulLine(g: Grammar, oracle: Oracle, line: Line, pieces: seq<Piece>, rules: seq<Rule>) {
    && (if pieces == [] then |line| == 0 else pieces[0].start == 0 && pieces[|pieces| - 1].stop == |line|)
    && (forall i :: 0 < i < |pieces| ==> pieces[i].start == pieces[i - 1].stop)
    && (forall i :: 0 <= i < |pieces| ==> Lawful(g, oracle, line, pieces[i], OpenRules(rules, pieces, i)))
  }

  /** One line, from the regions open before it: its steps are lawful, its tokens are what they say, and the stack
      stands for the regions they leave open. */
  lemma LineMeans(g: Grammar, oracle: Oracle, line: Line, stack: seq<Frame>, rules: seq<Rule>)
    requires WellFormed(line) && Anchored(oracle, line) && Boundary(line, 0) && Backed(stack, rules)
    ensures var (pieces, after) := Lexed(g, oracle, line, 0, stack);
            && LawfulLine(g, oracle, line, pieces, rules)
            && LineTokens(line, pieces, after) == Said(line, pieces, rules, 0)
            && Backed(after, OpenRules(rules, pieces, |pieces|))
  {
    hide Tiles, RunTokens, Pending, OpenRules, StackAfter, Emitted, Lexed, Backed, Lawful, Said, WellFormed, Anchored,
        LineTokens, PieceAt, Boundary;
    var (pieces, after) := Lexed(g, oracle, line, 0, stack);
    LexedTiles(g, oracle, line, 0, stack);
    LexedStepped(g, oracle, line, 0, stack);
    TilesCover(line, pieces, stack, after);
    StepsLawful(g, oracle, line, pieces, stack, after, rules, |pieces|);
    SaidFrom(line, pieces, stack, after, rules, 0);
    NothingEmitted(line, pieces);
    BackedAt(line, pieces, stack, after, rules, |pieces|);
  }

  lemma NothingEmitted(line: Line, pieces: seq<Piece>)
    ensures Emitted(line, pieces[..0]) == []
  {
  }

  lemma TilesCover(line: Line, pieces: seq<Piece>, before: seq<Frame>, after: seq<Frame>)
    requires Tiles(line, pieces, 0, |line|, before, after)
    ensures if pieces == [] then |line| == 0 else pieces[0].start == 0 && pieces[|pieces| - 1].stop == |line|
    ensures forall i :: 0 < i < |pieces| ==> pieces[i].start == pieces[i - 1].stop
    ensures forall i :: 0 <= i < |pieces| ==> Boundary(line, pieces[i].start)
  {
    hide Boundary, StackAfter;
    forall i | 0 < i < |pieces|
      ensures pieces[i].start == pieces[i - 1].stop
    {
      assert Joins(pieces[i - 1], pieces[i]);
    }
    forall i | 0 <= i < |pieces|
      ensures Boundary(line, pieces[i].start)
    {
      assert PieceOk(line, pieces[i]);
    }
  }

  lemma {:induction false} StepsLawful(g: Grammar, oracle: Oracle, line: Line, pieces: seq<Piece>, before: seq<Frame>,
                                       after: seq<Frame>, rules: seq<Rule>, n: nat)
    requires WellFormed(line) && Anchored(oracle, line) && Backed(before, rules) && n <= |pieces|
    requires Tiles(line, pieces, 0, |line|, before, after)
    requires forall i :: 0 <= i < |pieces| ==> Stepped(g, oracle, line, pieces[i])
    requires forall i :: 0 <= i < |pieces| ==> Boundary(line, pieces[i].start)
    ensures forall i :: 0 <= i < n ==> EndsOpen(pieces[i])
    ensures forall i :: 0 <= i < n ==> Lawful(g, oracle, line, pieces[i], OpenRules(rules, pieces, i))
  {
    hide StackAfter, Backed, Lawful, WellFormed, Anchored, PieceAt, Boundary, EndsOpen, PieceOk, OpenNext;
    if n > 0 {
      StepsLawful(g, oracle, line, pieces, before, after, rules, n - 1);
      BackedAt(line, pieces, before, after, rules, n - 1);
      var p := pieces[n - 1];
      assert Stepped(g, oracle, line, p);
      StepIsLawful(g, oracle, line, p.start, p.stack, OpenRules(rules, pieces, n - 1));
    }
  }

  // ----- where an open region comes from -----------------------------------------------------

  predicate Begins(p: Piece) {
    p.choice.Matched? && p.choice.rule.body.BeginEnd?
  }

  /** Regions begun less regions ended by the steps after `i` and before `n`. */
  function Since(pieces: seq<Piece>, i: nat, n: nat): int
    requires i < n <= |pieces|
  {
    if n == i + 1 then 0
    else
      Since(pieces, i, n - 1)
      + (if Begins(pieces[n - 1]) then 1 else if pieces[n - 1].choice.Ended? then -1 else 0)
  }

  /** Step `i` began a region, and no end since has been one too many for the regions begun after it. */
  ghost predicate StillOpen(pieces: seq<Piece>, i: nat, n: nat)
    requires n <= |pieces|
  {
    i < n && Begins(pieces[i]) && forall k :: i < k <= n ==> Since(pieces, i, k) >= 0
  }

  /** These steps, first to last, began the regions. */
  ghost predicate BegunAt(pieces: seq<Piece>, n: nat, at: seq<nat>, rules: seq<Rule>)
    requires n <= |pieces|
  {
    && |at| == |rules|
    && (forall m :: 0 <= m < |at| ==> at[m] < n && Begins(pieces[at[m]]) && rules[m] == pieces[at[m]].choice.rule)
    && (forall m, k :: 0 <= m < k < |at| ==> at[m] < at[k])
  }

  ghost predicate Levels(pieces: seq<Piece>, n: nat, at: seq<nat>)
    requires n <= |pieces|
  {
    forall m :: 0 <= m < |at| ==> at[m] < n && Since(pieces, at[m], n) == |at| - 1 - m
  }

  ghost predicate ExactlyOpen(pieces: seq<Piece>, n: nat, at: seq<nat>)
    requires n <= |pieces|
  {
    forall i: nat :: i in at <==> StillOpen(pieces, i, n)
  }

  /** Ends come only where a region is open. */
  ghost predicate EndsMatched(pieces: seq<Piece>) {
    forall i :: 0 <= i < |pieces| && pieces[i].choice.Ended? ==> OpenRules([], pieces, i) != []
  }

  lemma StillOpenNext(pieces: seq<Piece>, i: nat, n: nat)
    requires n < |pieces|
    ensures StillOpen(pieces, i, n + 1) <==>
      if i == n then Begins(pieces[n]) else StillOpen(pieces, i, n) && Since(pieces, i, n + 1) >= 0
  {
    hide Begins;
    if i < n && StillOpen(pieces, i, n + 1) {
      assert forall k :: i < k <= n ==> Since(pieces, i, k) >= 0;
    }
  }

  /** The steps that began the open regions, after one step more. */
  ghost function NextAt(at: seq<nat>, p: Piece, n: nat): seq<nat> {
    if Begins(p) then at + [n] else if p.choice.Ended? && at != [] then at[..|at| - 1] else at
  }

  lemma NextBegun(pieces: seq<Piece>, n: nat, at: seq<nat>, rules: seq<Rule>)
    requires n < |pieces| && BegunAt(pieces, n, at, rules)
    ensures BegunAt(pieces, n + 1, NextAt(at, pieces[n], n), OpenNext(rules, pieces[n]))
  {
  }

  lemma NextLevels(pieces: seq<Piece>, n: nat, at: seq<nat>)
    requires n < |pieces| && Levels(pieces, n, at) && (pieces[n].choice.Ended? ==> at != [])
    ensures Levels(pieces, n + 1, NextAt(at, pieces[n], n))
  {
    hide Begins;
    var next := NextAt(at, pieces[n], n);
    forall m | 0 <= m < |next|
      ensures next[m] < n + 1 && Since(pieces, next[m], n + 1) == |next| - 1 - m
    {
      if m < |at| {
        assert next[m] == at[m] && Since(pieces, at[m], n) == |at| - 1 - m;
      }
    }
    EndsBeginNothing(pieces[n]);
  }

  lemma EndsBeginNothing(p: Piece)
    ensures p.choice.Ended? ==> !Begins(p)
  {
  }

  lemma SinceNext(pieces: seq<Piece>, n: nat, at: seq<nat>, i: nat)
    requires n < |pieces| && Levels(pieces, n, at) && i in at && i < n
    requires forall m, k :: 0 <= m < k < |at| ==> at[m] < at[k]
    ensures Since(pieces, i, n + 1) >= 0 <==> i in NextAt(at, pieces[n], n)
  {
    hide Begins;
    EndsBeginNothing(pieces[n]);
    var m :| 0 <= m < |at| && at[m] == i;
    assert Since(pieces, at[m], n) == |at| - 1 - m;
    var next := NextAt(at, pieces[n], n);
    if m < |next| {
      assert next[m] == i;
    } else {
      assert forall k :: 0 <= k < |next| ==> next[k] == at[k] && at[k] < at[m];
    }
  }

  lemma NextOpen(pieces: seq<Piece>, n: nat, at: seq<nat>, i: nat)
    requires n < |pieces| && Levels(pieces, n, at) && (i in at <==> StillOpen(pieces, i, n))
    requires forall m, k :: 0 <= m < k < |at| ==> at[m] < at[k]
    ensures i in NextAt(at, pieces[n], n) <==> StillOpen(pieces, i, n + 1)
  {
    hide Begins, Since, Levels;
    StillOpenNext(pieces, i, n);
    if i >= n {
      NotOpenLater(pieces, i, n);
    }
    if i > n {
      NotOpenLater(pieces, i, n + 1);
    }
    if i in at {
      SinceNext(pieces, n, at, i);
    }
  }

  lemma NotOpenLater(pieces: seq<Piece>, i: nat, n: nat)
    requires n <= |pieces| && i >= n
    ensures !StillOpen(pieces, i, n)
  {
  }

  /** The open regions are those whose beginning step has not been ended since, in the order of those steps. */
  lemma {:induction false} OpenRegions(pieces: seq<Piece>, n: nat) returns (at: seq<nat>)
    requires n <= |pieces| && EndsMatched(pieces)
    ensures BegunAt(pieces, n, at, OpenRules([], pieces, n))
    ensures ExactlyOpen(pieces, n, at)
    ensures Levels(pieces, n, at)
  {
    hide EndsMatched, NextAt, StillOpen, OpenNext, Levels;
    if n == 0 {
      at := [];
      NothingOpen(pieces);
    } else {
      var was := OpenRegions(pieces, n - 1);
      EndNeedsOpen(pieces, n - 1, was);
      NextBegun(pieces, n - 1, was, OpenRules([], pieces, n - 1));
      NextLevels(pieces, n - 1, was);
      at := NextAt(was, pieces[n - 1], n - 1);
      forall i: nat
        ensures i in at <==> StillOpen(pieces, i, n)
      {
        NextOpen(pieces, n - 1, was, i);
      }
    }
  }

  lemma NothingOpen(pieces: seq<Piece>)
    ensures BegunAt(pieces, 0, [], []) && ExactlyOpen(pieces, 0, []) && Levels(pieces, 0, [])
  {
  }

  lemma EndNeedsOpen(pieces: seq<Piece>, n: nat, at: seq<nat>)
    requires n < |pieces| && EndsMatched(pieces) && |at| == |OpenRules([], pieces, n)|
    ensures pieces[n].choice.Ended? ==> at != []
  {
  }
}
