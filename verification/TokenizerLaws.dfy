/** Laws of tokenization: the steps tile the line in order, the region stack runs through them, and the tokens
    are those of the matches plus one for every run of held characters inside a region. */
module TokenizerLaws {
  import opened Outcomes
  import opened Utf8
  import opened Grammars
  import opened Tokenizers

  // ----- tiling ------------------------------------------------------------------------------

  /** The pieces cover the line from `from` to `to` in order, cut only between characters, and every piece is
      entered with the regions the one before left open. */
  ghost predicate Tiles(line: Line, pieces: seq<Piece>, from: nat, to: nat, before: seq<Frame>, after: seq<Frame>) {
    && (pieces == [] ==> from == to && before == after)
    && (pieces != [] ==>
          && pieces[0].start == from && pieces[|pieces| - 1].stop == to
          && pieces[0].stack == before && StackAfter(pieces[|pieces| - 1]) == after)
    && (forall i :: 0 <= i < |pieces| ==> PieceOk(line, pieces[i]))
    && (forall i :: 0 < i < |pieces| ==> Joins(pieces[i - 1], pieces[i]))
  }

  predicate PieceOk(line: Line, p: Piece) {
    p.start <= p.stop <= |line| && Boundary(line, p.start) && Boundary(line, p.stop)
    && (p.choice.Held? ==> p.start < p.stop)
  }

  predicate Joins(p: Piece, q: Piece) {
    q.start == p.stop && q.stack == StackAfter(p)
  }

  lemma PieceIsOk(g: Grammar, oracle: Oracle, line: Line, pos: nat, stack: seq<Frame>)
    requires WellFormed(line) && Anchored(oracle, line) && pos < |line| && Boundary(line, pos)
    ensures PieceOk(line, PieceAt(g, oracle, line, pos, stack))
  {
    hide StepChoice, StackAfter, Anchored, WellFormed, NextCharLen;
    StepProgress(g, oracle, line, pos, stack);
    NextCharIn(line, pos);
  }

  /** The steps over a line tile it. */
  lemma {:induction false} LexedTiles(g: Grammar, oracle: Oracle, line: Line, pos: nat, stack: seq<Frame>)
    requires WellFormed(line) && Anchored(oracle, line) && Boundary(line, pos)
    ensures var lexed := Lexed(g, oracle, line, pos, stack); Tiles(line, lexed.0, pos, |line|, stack, lexed.1)
    decreases |line| - pos, |stack|
  {
    hide StepChoice, StackAfter, Anchored, WellFormed, NextCharLen, PieceOk;
    if pos < |line| {
      StepProgress(g, oracle, line, pos, stack);
      PieceIsOk(g, oracle, line, pos, stack);
      var p := PieceAt(g, oracle, line, pos, stack);
      LexedTiles(g, oracle, line, p.stop, StackAfter(p));
      var rest := Lexed(g, oracle, line, p.stop, StackAfter(p)).0;
      var all := [p] + rest;
      forall i | 0 < i < |all|
        ensures Joins(all[i - 1], all[i])
      {
        assert all[i] == rest[i - 1] && (i > 1 ==> all[i - 1] == rest[i - 2]);
      }
    }
  }

  // ----- runs of held characters -------------------------------------------------------------

  /** Pieces `j` to `n` are held, and no run that holds more contains them. */
  predicate IsRun(pieces: seq<Piece>, j: nat, n: nat) {
    && j < n <= |pieces|
    && (forall i :: j <= i < n ==> pieces[i].choice.Held?)
    && (j > 0 ==> !pieces[j - 1].choice.Held?)
    && (n < |pieces| ==> !pieces[n].choice.Held?)
  }

  function RunToken(pieces: seq<Piece>, j: nat, n: nat): Token
    requires j < n <= |pieces| && pieces[j].start <= pieces[n - 1].stop
  {
    Token(pieces[j].start, pieces[n - 1].stop - pieces[j].start, BaseScopes(pieces[j].stack))
  }

  /** Where the run that ends before piece `n` starts; `n` itself when there is none. */
  function RunStart(pieces: seq<Piece>, n: nat): (j: nat)
    requires n <= |pieces|
    ensures j <= n && forall i :: j <= i < n ==> pieces[i].choice.Held?
    ensures 0 < j ==> j == n || !pieces[j - 1].choice.Held?
  {
    if n == 0 || !pieces[n - 1].choice.Held? then n
    else
      var j := RunStart(pieces, n - 1);
      j
  }

  lemma {:induction false} PendingIs(pieces: seq<Piece>, n: nat)
    requires n <= |pieces|
    ensures Pending(pieces[..n]) == if RunStart(pieces, n) == n then None else Some(pieces[RunStart(pieces, n)].start)
  {
    if n > 0 {
      PendingIs(pieces, n - 1);
      assert pieces[..n][..n - 1] == pieces[..n - 1];
    }
  }

  /** Held characters leave the regions as they are. */
  lemma {:induction false} RunFacts(line: Line, pieces: seq<Piece>, from: nat, to: nat, before: seq<Frame>,
                                    after: seq<Frame>, j: nat, n: nat)
    requires Tiles(line, pieces, from, to, before, after) && j < n <= |pieces|
    requires forall i :: j <= i < n ==> pieces[i].choice.Held?
    ensures pieces[j].start < pieces[n - 1].stop && StackAfter(pieces[n - 1]) == pieces[j].stack
    decreases n
  {
    assert PieceOk(line, pieces[n - 1]);
    if j < n - 1 {
      RunFacts(line, pieces, from, to, before, after, j, n - 1);
      assert Joins(pieces[n - 1 - 1], pieces[n - 1]);
    }
  }

  /** What a flush before piece `n` (or at the end of the line) puts out: the run that ends there, if it is in a
      region. */
  lemma FlushIs(line: Line, pieces: seq<Piece>, from: nat, to: nat, before: seq<Frame>, after: seq<Frame>, n: nat)
    requires Tiles(line, pieces, from, to, before, after) && n <= |pieces|
    ensures var upto, stack, j := if n < |pieces| then pieces[n].start else to, if n < |pieces| then pieces[n].stack
              else after, RunStart(pieces, n);
            && (j < n ==> pieces[j].start < pieces[n - 1].stop)
            && RunTokens(Pending(pieces[..n]), upto, stack) ==
                 if j < n && pieces[j].stack != [] then [RunToken(pieces, j, n)] else []
  {
    hide StackAfter, PieceOk, BaseScopes;
    var j := RunStart(pieces, n);
    PendingIs(pieces, n);
    if j < n {
      RunFacts(line, pieces, from, to, before, after, j, n);
      if n < |pieces| {
        assert Joins(pieces[n - 1], pieces[n]);
      }
    }
  }

  /** Some run of held characters in a region. */
  ghost predicate FromRun(pieces: seq<Piece>, t: Token) {
    exists j: nat, n: nat | IsRun(pieces, j, n) :: pieces[j].start <= pieces[n - 1].stop && pieces[j].stack != []
        && t == RunToken(pieces, j, n)
  }

  ghost predicate FromPiece(line: Line, pieces: seq<Piece>, t: Token) {
    exists i :: 0 <= i < |pieces| && t in PieceTokens(line, pieces[i])
  }

  /** Everything put out for the first `n` pieces is a match's token or a finished run's. */
  ghost predicate FromFirst(line: Line, pieces: seq<Piece>, n: nat, t: Token)
    requires n <= |pieces|
  {
    || (exists i :: 0 <= i < n && !pieces[i].choice.Held? && t in PieceTokens(line, pieces[i]))
    || (exists i :: 0 <= i < n && !pieces[i].choice.Held? &&
                    t in RunTokens(Pending(pieces[..i]), pieces[i].start, pieces[i].stack))
  }

  lemma {:induction false} EmittedMembers(line: Line, pieces: seq<Piece>, n: nat, t: Token)
    requires n <= |pieces|
    ensures t in Emitted(line, pieces[..n]) <==> FromFirst(line, pieces, n, t)
  {
    hide PieceTokens, RunTokens, Pending;
    if n > 0 {
      EmittedMembers(line, pieces, n - 1, t);
      assert pieces[..n][..n - 1] == pieces[..n - 1];
      var last := pieces[n - 1];
      assert FromFirst(line, pieces, n, t) <==>
        FromFirst(line, pieces, n - 1, t)
        || (!last.choice.Held? && (t in PieceTokens(line, last)
           || t in RunTokens(Pending(pieces[..n - 1]), last.start, last.stack)));
    }
  }

  lemma RunAt(pieces: seq<Piece>, j: nat, n: nat)
    requires IsRun(pieces, j, n)
    ensures RunStart(pieces, n) == j
  {
    RunStartFrom(pieces, j, n);
  }

  lemma {:induction false} RunStartFrom(pieces: seq<Piece>, j: nat, n: nat)
    requires j <= n <= |pieces| && (forall i :: j <= i < n ==> pieces[i].choice.Held?)
             && (j > 0 ==> !pieces[j - 1].choice.Held?)
    ensures RunStart(pieces, n) == j
    decreases n
  {
    if j < n {
      RunStartFrom(pieces, j, n - 1);
    }
  }

  /** All tokens of a line. */
  ghost function LineTokens(line: Line, pieces: seq<Piece>, after: seq<Frame>): seq<Token> {
    Emitted(line, pieces) + RunTokens(Pending(pieces), |line|, after)
  }

  lemma HeldSilent(line: Line, p: Piece)
    ensures p.choice.Held? ==> PieceTokens(line, p) == []
  {
  }

  /** A token is out exactly when it belongs to a match, or is the whole of a longest run of held characters
      inside a region, with the scopes of the regions open over it. */
  lemma TokensExactly(line: Line, pieces: seq<Piece>, before: seq<Frame>, after: seq<Frame>, t: Token)
    requires Tiles(line, pieces, 0, |line|, before, after)
    ensures t in LineTokens(line, pieces, after) <==> FromPiece(line, pieces, t) || FromRun(pieces, t)
  {
    hide PieceTokens, RunTokens, Pending, Tiles, RunToken;
    assert pieces[..|pieces|] == pieces;
    EmittedMembers(line, pieces, |pieces|, t);
    if t in LineTokens(line, pieces, after) {
      TokenFrom(line, pieces, before, after, t);
    }
    if FromPiece(line, pieces, t) {
      var i :| 0 <= i < |pieces| && t in PieceTokens(line, pieces[i]);
      HeldSilent(line, pieces[i]);
    }
    if FromRun(pieces, t) {
      var j: nat, n: nat :| IsRun(pieces, j, n) && pieces[j].start <= pieces[n - 1].stop && pieces[j].stack != []
          && t == RunToken(pieces, j, n);
      RunAt(pieces, j, n);
      FlushIs(line, pieces, 0, |line|, before, after, n);
      if n < |pieces| {
        assert t in RunTokens(Pending(pieces[..n]), pieces[n].start, pieces[n].stack);
      }
    }
  }

  lemma TokenFrom(line: Line, pieces: seq<Piece>, before: seq<Frame>, after: seq<Frame>, t: Token)
    requires Tiles(line, pieces, 0, |line|, before, after) && t in LineTokens(line, pieces, after)
    ensures FromPiece(line, pieces, t) || FromRun(pieces, t)
  {
    hide PieceTokens, RunTokens, Pending, Tiles, RunToken, Emitted;
    assert pieces[..|pieces|] == pieces;
    EmittedMembers(line, pieces, |pieces|, t);
    if t in RunTokens(Pending(pieces), |line|, after) {
      FlushFrom(line, pieces, before, after, |pieces|, t);
    } else if !FromPiece(line, pieces, t) {
      var i :| 0 <= i < |pieces| && !pieces[i].choice.Held?
          && t in RunTokens(Pending(pieces[..i]), pieces[i].start, pieces[i].stack);
      FlushFrom(line, pieces, before, after, i, t);
    }
  }

  lemma FlushFrom(line: Line, pieces: seq<Piece>, before: seq<Frame>, after: seq<Frame>, n: nat, t: Token)
    requires Tiles(line, pieces, 0, |line|, before, after) && n <= |pieces|
             && (n < |pieces| ==> !pieces[n].choice.Held?)
    requires var upto, stack := if n < |pieces| then pieces[n].start else |line|, if n < |pieces| then pieces[n].stack
               else after;
             t in RunTokens(Pending(pieces[..n]), upto, stack)
    ensures FromRun(pieces, t)
  {
    hide RunTokens, Pending, Tiles, RunToken;
    FlushIs(line, pieces, 0, |line|, before, after, n);
    assert IsRun(pieces, RunStart(pieces, n), n);
  }

  /** The law of one line, for every grammar and every oracle: the steps tile the line, and the tokens are the
      matches' and the runs'. */
  lemma LineLaw(g: Grammar, oracle: Oracle, line: Line, stack: seq<Frame>)
    requires WellFormed(line) && Anchored(oracle, line)
    ensures Boundary(line, 0)
    ensures var lexed := Lexed(g, oracle, line, 0, stack);
            && Tiles(line, lexed.0, 0, |line|, stack, lexed.1)
            && forall t :: t in LineTokens(line, lexed.0, lexed.1)
                <==> FromPiece(line, lexed.0, t) || FromRun(lexed.0, t)
  {
    hide Tiles, Lexed, LineTokens, FromPiece, FromRun, Anchored;
    LexedTiles(g, oracle, line, 0, stack);
    var lexed := Lexed(g, oracle, line, 0, stack);
    forall t
      ensures t in LineTokens(line, lexed.0, lexed.1) <==> FromPiece(line, lexed.0, t) || FromRun(lexed.0, t)
    {
      TokensExactly(line, lexed.0, stack, lexed.1, t);
    }
  }

  // ----- flattening and the choice of a rule -------------------------------------------------

  /** Whether a rule takes something at a position. */
  function Takes(g: Grammar, oracle: Oracle, line: Line, pos: nat, depth: nat): string -> bool {
    (name: string) =>
      name in g.repository && !g.repository[name].body.Group?
      && var rule := g.repository[name];
         var whole := Whole(oracle, EntryRegex(rule), line, pos);
         whole.Some? && whole.value != pos && !(rule.body.BeginEnd? && depth >= MAX_REGION_DEPTH)
  }

  /** What taking a rule, or none, comes to. */
  function Taken(g: Grammar, oracle: Oracle, line: Line, pos: nat, depth: nat, name: Option<string>): Choice {
    if name.None? || !Takes(g, oracle, line, pos, depth)(name.value) then Held
    else
      var rule := g.repository[name.value];
      Matched(rule, oracle(EntryRegex(rule), line, pos).value, Whole(oracle, EntryRegex(rule), line, pos).value)
  }

  lemma FirstOfHead(names: seq<string>, matches: string -> bool)
    requires names != []
    ensures FirstOf(names, matches) == if matches(names[0]) then Some(names[0]) else FirstOf(names[1..], matches)
  {
    assert names == [names[0]] + names[1..];
    FirstOfConcat([names[0]], names[1..], matches);
    OneChoice(names[0], matches);
  }

  /** The engine's search of a flat list is the ordered first choice. */
  lemma {:induction false} ChoiceIsFirst(g: Grammar, oracle: Oracle, line: Line, pos: nat, names: seq<string>,
                                         depth: nat)
    requires Flat(g.repository, names)
    ensures RuleChoice(g, oracle, line, pos, names, depth)
            == Taken(g, oracle, line, pos, depth, FirstOf(names, Takes(g, oracle, line, pos, depth)))
  {
    if names != [] {
      FirstOfHead(names, Takes(g, oracle, line, pos, depth));
      ChoiceIsFirst(g, oracle, line, pos, names[1..], depth);
    }
  }

  /** Searching the flattened list finds the rule that entering the groups one by one would find. */
  lemma GroupsDissolve(repo: Repository, names: seq<string>, g: Grammar, oracle: Oracle, line: Line, pos: nat,
                       depth: nat)
    requires Flattened(repo, names, []).Ok? && Flat(g.repository, Flattened(repo, names, []).value)
    ensures RuleChoice(g, oracle, line, pos, Flattened(repo, names, []).value, depth)
            == Taken(g, oracle, line, pos, depth, Chosen(repo, names, [], Takes(g, oracle, line, pos, depth)))
  {
    hide Takes, Taken, Flattened, Chosen;
    ChoiceIsFirst(g, oracle, line, pos, Flattened(repo, names, []).value, depth);
    SameChoice(repo, names, [], Takes(g, oracle, line, pos, depth));
  }

  // ----- lines after lines -------------------------------------------------------------------

  ghost predicate AllAnchored(oracle: Oracle, lines: seq<Line>) {
    forall i :: 0 <= i < |lines| ==> WellFormed(lines[i]) && Anchored(oracle, lines[i])
  }

  /** The regions open after some lines. */
  ghost function OpenAfter(g: Grammar, oracle: Oracle, lines: seq<Line>, n: nat): seq<Frame>
    requires AllAnchored(oracle, lines) && n <= |lines|
  {
    if n == 0 then []
    else Lexed(g, oracle, lines[n - 1], 0, OpenAfter(g, oracle, lines, n - 1)).1
  }

  /** `tokenize`, given the lines: each line starts with the regions the lines before it left open. */
  method Tokenize(h: Highlighter, lines: seq<Line>) returns (out: seq<seq<Token>>)
    requires AllAnchored(h.oracle, lines)
    modifies h
    ensures |out| == |lines|
    ensures forall i :: 0 <= i < |out| ==>
              var lexed := Lexed(h.grammar, h.oracle, lines[i], 0, OpenAfter(h.grammar, h.oracle, lines, i));
              out[i] == LineTokens(lines[i], lexed.0, lexed.1)
  {
    hide Lexed, Emitted, Pending, RunTokens, Anchored;
    h.stack := [];
    out := [];
    for i := 0 to |lines|
      invariant |out| == i && h.stack == OpenAfter(h.grammar, h.oracle, lines, i)
      invariant forall k :: 0 <= k < i ==>
                  var lexed := Lexed(h.grammar, h.oracle, lines[k], 0, OpenAfter(h.grammar, h.oracle, lines, k));
                  out[k] == LineTokens(lines[k], lexed.0, lexed.1)
    {
      var tokens := h.TokenizeLine(lines[i]);
      out := out + [tokens];
    }
  }
}
