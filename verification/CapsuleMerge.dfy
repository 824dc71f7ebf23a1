/** The streaming selection of the best findings (crates/service-core/src/ambient.rs): merging chunk after
    chunk into a bounded envelope ends with the head of one stable sort of all candidates. */
module CapsuleMerge {
  import opened Outcomes
  import opened Ordered
  import opened CapsuleKernel
  import opened Capsule

  // ----- one stable sort of everything -------------------------------------------------------

  function RowsOf(candidates: seq<Finding>, from: nat, to: nat): (r: seq<Row>)
    requires from <= to <= |candidates|
    ensures |r| == to - from && forall i :: 0 <= i < |r| ==> r[i] == Row(candidates[from + i], from + i)
  {
    seq(to - from, i requires 0 <= i < to - from => Row(candidates[from + i], from + i))
  }

  function RowSet(rows: seq<Row>): (r: set<Row>)
    ensures forall x :: x in r <==> x in rows
  {
    set x | x in rows
  }

  /** All rows in priority order. */
  ghost function Ranked(rows: set<Row>): (r: seq<Row>)
    ensures |r| == |rows| && StrictlySorted(r, RowLess) && forall x :: x in r <==> x in rows
  {
    RowOrder();
    AscendingIs(rows, RowLess);
    Ascending(rows, RowLess)
  }

  lemma RankedOnly(rows: set<Row>, r: seq<Row>)
    requires StrictlySorted(r, RowLess) && forall x :: x in r <==> x in rows
    ensures r == Ranked(rows)
  {
    hide RowLess;
    RowOrder();
    AscendingOnly(rows, RowLess, r);
  }

  // ----- keeping the head is enough ----------------------------------------------------------

  lemma {:induction false} RowSetSize(rows: seq<Row>)
    ensures |RowSet(rows)| <= |rows|
  {
    if rows != [] {
      RowSetSize(rows[1..]);
      assert rows == [rows[0]] + rows[1..];
      assert RowSet(rows) == RowSet(rows[1..]) + {rows[0]};
    }
  }

  lemma SubsetSize<T>(a: set<T>, b: set<T>)
    requires a <= b
    ensures |a| <= |b|
  {
    assert b == a + (b - a);
  }

  /** What has at least `n` smaller rows is not among the first `n`. */
  lemma NotInHead(all: set<Row>, below: set<Row>, x: Row, n: nat, i: nat)
    requires below <= all && |below| >= n && (forall y :: y in below ==> RowLess(y, x)) && i < |all|
             && Ranked(all)[i] == x
    ensures i >= n
  {
    hide RowLess, Ranked;
    RowOrder();
    var r := Ranked(all);
    forall y | y in below
      ensures y in RowSet(r[..i])
    {
      var j :| 0 <= j < |r| && r[j] == y;
      assert RowLess(r[j], r[i]);
      assert j < i ==> r[..i][j] == y;
    }
    SubsetSize(below, RowSet(r[..i]));
    RowSetSize(r[..i]);
  }

  /** Leaving out rows that have `n` kept smaller ones does not change the first `n`. */
  lemma SameHead(kept: set<Row>, all: set<Row>, below: set<Row>, n: nat)
    requires kept <= all && below <= kept
    requires kept == all || |below| >= n
    requires forall x, y :: x in all - kept && y in below ==> RowLess(y, x)
    ensures Head(Ranked(kept), n) == Head(Ranked(all), n)
  {
    hide RowLess, Ranked;
    RowOrder();
    if kept != all {
      SubsetSize(below, kept);
      SubsetSize(kept, all);
      var head := Ranked(all)[..n];
      forall i | 0 <= i < n
        ensures Ranked(all)[i] in kept
      {
        assert Ranked(all)[i] in Ranked(all);
        if Ranked(all)[i] !in kept {
          NotInHead(all, below, Ranked(all)[i], n, i);
        }
      }
      HeadThenRest(kept, all, n);
    }
  }

  lemma Outside(r: seq<Row>, n: nat, x: Row) returns (k: nat)
    requires n <= |r| && x in r && x !in r[..n]
    ensures n <= k < |r| && r[k] == x
  {
    forall i | 0 <= i < n
      ensures r[i] in r[..n]
    {
      assert r[..n][i] == r[i];
    }
    k :| 0 <= k < |r| && r[k] == x;
  }

  lemma HeadBefore(all: set<Row>, n: nat, i: nat, x: Row)
    requires i < n <= |all| && x in all && x !in Ranked(all)[..n]
    ensures RowLess(Ranked(all)[i], x)
  {
    hide RowLess, Ranked;
    var k := Outside(Ranked(all), n, x);
  }

  /** When the first `n` rows are all kept, they are also the first of what is kept. */
  lemma HeadThenRest(kept: set<Row>, all: set<Row>, n: nat)
    requires kept <= all && n <= |kept| <= |all| && forall i :: 0 <= i < n ==> Ranked(all)[i] in kept
    ensures Ranked(kept)[..n] == Ranked(all)[..n]
  {
    hide RowLess, Ranked;
    RowOrder();
    var head := Ranked(all)[..n];
    var rest := Ranked(kept - RowSet(head));
    forall i, j | 0 <= i < n && 0 <= j < |rest|
      ensures RowLess(head[i], rest[j])
    {
      assert rest[j] in rest;
      HeadBefore(all, n, i, rest[j]);
    }
    Joins(head, rest);
    var joined := head + rest;
    forall x
      ensures x in joined <==> x in kept
    {
      assert x in head <==> x in RowSet(head);
    }
    RankedOnly(kept, joined);
  }

  lemma Joins(a: seq<Row>, b: seq<Row>)
    requires StrictlySorted(a, RowLess) && StrictlySorted(b, RowLess)
    requires forall i, j :: 0 <= i < |a| && 0 <= j < |b| ==> RowLess(a[i], b[j])
    ensures StrictlySorted(a + b, RowLess)
  {
    hide RowLess;
  }

  // ----- one merge step ----------------------------------------------------------------------

  predicate AllValid(rows: seq<Row>) {
    forall i :: 0 <= i < |rows| ==> ValidRank(RankOf(rows[i].finding))
  }

  function RanksOf(rows: seq<Row>): (r: seq<Rank>)
    ensures |r| == |rows| && forall i :: 0 <= i < |r| ==> r[i] == RankOf(rows[i].finding)
  {
    seq(|rows|, i requires 0 <= i < |rows| => RankOf(rows[i].finding))
  }

  /** Rows with the same finding stand in the order of their places in the list. */
  ghost predicate TiesInOrder(rows: seq<Row>) {
    forall i, j :: 0 <= i < j < |rows| && rows[i].finding == rows[j].finding ==> rows[i].index < rows[j].index
  }

  ghost predicate Rearranged(rows: seq<Row>, order: seq<nat>, out: seq<Row>) {
    && |out| == |order| == |rows|
    && (forall i :: 0 <= i < |out| ==> order[i] < |rows| && out[i] == rows[order[i]])
    && Permutes(order)
  }

  lemma RearrangedMembers(rows: seq<Row>, order: seq<nat>, out: seq<Row>)
    requires Rearranged(rows, order, out)
    ensures multiset(out) == multiset(rows)
    ensures forall x :: x in out <==> x in rows
  {
    assert out == Picked(rows, order);
    PickedMultiset(rows, order);
    NoneMissing(order, |rows|);
    forall x | x in rows
      ensures x in out
    {
      var p :| 0 <= p < |rows| && rows[p] == x;
      assert p in order;
      var i :| 0 <= i < |order| && order[i] == p;
      assert out[i] == x;
    }
  }

  /** Neighbours in the kernel's order of key-sorted rows are in row order. */
  lemma StepOrdered(joined: seq<Row>, places: seq<nat>, sorted: seq<Row>, order: seq<nat>, out: seq<Row>, i: nat,
                    j: nat)
    requires KeySorted(joined, places, sorted) && TiesInOrder(joined) && AllValid(sorted) && |sorted| <= WINDOW
    requires Rearranged(sorted, order, out) && Orders(RanksOf(sorted), |sorted|, order) && i < j < |out|
    ensures RowLess(out[i], out[j])
  {
    hide TextLess, Code, ValidRank;
    var p, q := order[i], order[j];
    var ranks := RanksOf(sorted);
    assert Code(ranks[p], p) < Code(ranks[q], q);
    CodeOrder(ranks[p], p, ranks[q], q);
    if !RankLess(out[i].finding, out[j].finding) {
      assert p < q && ranks[p] == ranks[q];
      assert ByKey(joined)(places[p], places[q]);
    }
  }

  /** After the kernel's reordering the rows are in priority order, none lost, none new. */
  lemma StepIsRanked(joined: seq<Row>, places: seq<nat>, sorted: seq<Row>, order: seq<nat>, out: seq<Row>)
    requires KeySorted(joined, places, sorted) && TiesInOrder(joined) && AllValid(sorted) && |sorted| <= WINDOW
    requires Rearranged(sorted, order, out) && Orders(RanksOf(sorted), |sorted|, order)
    ensures out == Ranked(RowSet(joined))
  {
    forall i, j | 0 <= i < j < |out|
      ensures RowLess(out[i], out[j])
    {
      StepOrdered(joined, places, sorted, order, out, i, j);
    }
    RearrangedMembers(sorted, order, out);
    RearrangedMembers(joined, places, sorted);
    hide RowLess, Ranked;
    RankedOnly(RowSet(joined), out);
  }

  /** The rows an accepted order names: whatever that order is, they are the rows given, each as often. */
  method Reorder(rows: seq<Row>, order: seq<nat>) returns (out: seq<Row>)
    requires |order| == |rows| && Permutes(order)
    ensures Rearranged(rows, order, out) && multiset(out) == multiset(rows)
  {
    out := [];
    for i := 0 to |order|
      invariant |out| == i && forall k :: 0 <= k < i ==> out[k] == rows[order[k]]
    {
      out := out + [rows[order[i]]];
    }
    RearrangedMembers(rows, order, out);
  }

  /** One reordering with a kernel that may return anything: a finding is neither invented, nor lost, nor doubled,
      and what is no permutation is refused. */
  method ReorderBy(rows: seq<Row>, indices: seq<int>) returns (r: Result<seq<Row>>)
    requires |rows| <= |indices|
    ensures r.Ok? <==> Permutes(indices[..|rows|])
    ensures r.Ok? ==> multiset(r.value) == multiset(rows)
  {
    var order := CheckOrdering(indices, |rows|);
    if order.Err? {
      return Err;
    }
    var out := Reorder(rows, order.value);
    return Ok(out);
  }

  /** One turn of the merge loop, before truncation. */
  method MergeChunk(joined: seq<Row>) returns (r: Option<seq<Row>>)
    requires |joined| <= WINDOW && TiesInOrder(joined)
    ensures r.None? <==> !AllValid(joined)
    ensures r.Some? ==> r.value == Ranked(RowSet(joined)) && multiset(r.value) == multiset(joined)
  {
    hide ValidRank, Ranked, Orders, KeySorted, TiesInOrder;
    var sorted, places := SortByKey(joined);
    SortedSame(joined, places, sorted);
    var ordering := ExecuteCapsuleOrder(RanksOf(sorted));
    RanksValid(sorted);
    if ordering.Err? {
      return None;
    }
    var out := Reorder(sorted, ordering.value);
    StepIsRanked(joined, places, sorted, ordering.value, out);
    return Some(out);
  }

  lemma SortedSame(joined: seq<Row>, places: seq<nat>, sorted: seq<Row>)
    requires KeySorted(joined, places, sorted)
    ensures multiset(sorted) == multiset(joined) && |sorted| == |joined| && (AllValid(sorted) <==> AllValid(joined))
  {
    hide ValidRank;
    RearrangedMembers(joined, places, sorted);
    assert forall i :: 0 <= i < |sorted| ==> sorted[i] in sorted;
    assert forall i :: 0 <= i < |joined| ==> joined[i] in joined;
  }

  lemma RanksValid(rows: seq<Row>)
    ensures AllValid(rows) <==> !exists i :: 0 <= i < |RanksOf(rows)| && !ValidRank(RanksOf(rows)[i])
  {
    hide ValidRank;
    if !AllValid(rows) {
      var i :| 0 <= i < |rows| && !ValidRank(RankOf(rows[i].finding));
      assert RanksOf(rows)[i] == RankOf(rows[i].finding);
    }
  }

  // ----- the loop ----------------------------------------------------------------------------

  /** The envelope after the first `n` candidates. */
  ghost function Best(candidates: seq<Finding>, n: nat): seq<Row>
    requires n <= |candidates|
  {
    Head(Ranked(RowSet(RowsOf(candidates, 0, n))), ENVELOPE)
  }

  lemma BestRows(candidates: seq<Finding>, n: nat)
    requires n <= |candidates|
    ensures var best := Best(candidates, n);
            && |best| <= ENVELOPE && StrictlySorted(best, RowLess)
            && (forall i :: 0 <= i < |best| ==> best[i].index < n && best[i].finding == candidates[best[i].index])
  {
    hide RowLess, Ranked;
    var all := Ranked(RowSet(RowsOf(candidates, 0, n)));
    forall i | 0 <= i < |Best(candidates, n)|
      ensures Best(candidates, n)[i] in RowsOf(candidates, 0, n)
    {
      assert all[i] in all;
    }
  }

  lemma JoinedTies(candidates: seq<Finding>, from: nat, to: nat)
    requires from <= to <= |candidates|
    ensures TiesInOrder(Best(candidates, from) + RowsOf(candidates, from, to))
  {
    hide Ranked, TextLess;
    BestRows(candidates, from);
    var best := Best(candidates, from);
    TextOrder();
    forall i, j | 0 <= i < j < |best| && best[i].finding == best[j].finding
      ensures best[i].index < best[j].index
    {
      assert RowLess(best[i], best[j]);
    }
  }

  /** Merging a chunk into the envelope gives the envelope of the longer list. */
  lemma MergeExact(candidates: seq<Finding>, from: nat, to: nat)
    requires from <= to <= |candidates|
    ensures Head(Ranked(RowSet(Best(candidates, from) + RowsOf(candidates, from, to))), ENVELOPE)
              == Best(candidates, to)
  {
    hide RowLess, Ranked;
    var ranked := Ranked(RowSet(RowsOf(candidates, 0, from)));
    var best := Best(candidates, from);
    var kept := RowSet(best + RowsOf(candidates, from, to));
    var all := RowSet(RowsOf(candidates, 0, to));
    assert RowsOf(candidates, 0, to) == RowsOf(candidates, 0, from) + RowsOf(candidates, from, to);
    forall x
      ensures x in best ==> x in ranked
      ensures x in all <==> x in ranked || x in RowsOf(candidates, from, to)
    {
    }
    assert kept <= all;
    if |ranked| > ENVELOPE {
      LeftBehind(ranked, ENVELOPE);
      BestSize(best);
      assert all - kept <= RowSet(ranked[ENVELOPE..]) by {
        assert ranked == best + ranked[ENVELOPE..];
      }
    }
    SameHead(kept, all, RowSet(best), ENVELOPE);
  }

  lemma LeftBehind(r: seq<Row>, n: nat)
    requires StrictlySorted(r, RowLess) && n <= |r|
    ensures forall x, y :: x in r[n..] && y in r[..n] ==> RowLess(y, x)
  {
    hide RowLess;
  }

  lemma BestSize(r: seq<Row>)
    requires StrictlySorted(r, RowLess)
    ensures |RowSet(r)| == |r|
  {
    hide RowLess, Ranked;
    RankedOnly(RowSet(r), r);
  }

  /** The merge loop of `semantic_capsule`: refused exactly when some rank is invalid; otherwise the envelope is
      the head of the one stable sort by severity, kind and key of all candidates, and every candidate is kept
      or counted as truncated. */
  method MergeCandidates(candidates: seq<Finding>) returns (r: Option<(seq<Row>, nat)>)
    ensures r.None? <==> exists i :: 0 <= i < |candidates| && !ValidRank(RankOf(candidates[i]))
    ensures r.Some? ==> r.value.0 == Best(candidates, |candidates|) && |r.value.0| + r.value.1 == |candidates|
    ensures r.Some? ==> |r.value.0| == (if |candidates| < 32 then |candidates| else 32)
    ensures r.Some? ==> ThirtyTwoFirst(candidates, r.value.0)
  {
    hide ValidRank, Ranked, TiesInOrder, Best, Head, ThirtyTwoFirst;
    var envelope: seq<Row> := [];
    var from := 0;
    NoneBest(candidates);
    while from < |candidates|
      invariant from <= |candidates| && envelope == Best(candidates, from)
      invariant forall i :: 0 <= i < from ==> ValidRank(RankOf(candidates[i]))
      decreases |candidates| - from
    {
      var to := if from + ENVELOPE <= |candidates| then from + ENVELOPE else |candidates|;
      var joined := envelope + RowsOf(candidates, from, to);
      BestRows(candidates, from);
      JoinedTies(candidates, from, to);
      ChunkValid(candidates, from, to);
      var merged := MergeChunk(joined);
      if merged.None? {
        return None;
      }
      envelope := Head(merged.value, ENVELOPE);
      MergeExact(candidates, from, to);
      from := to;
    }
    BestLength(candidates);
    BestFirst(candidates);
    return Some((envelope, |candidates| - |envelope|));
  }

  /** Severity descending, kind ascending, key ascending, then as they came. */
  predicate ComesFirst(a: Row, b: Row) {
    var f, g := a.finding, b.finding;
    || f.severity > g.severity
    || (f.severity == g.severity && f.kind < g.kind)
    || (f.severity == g.severity && f.kind == g.kind && TextLess(f.key, g.key))
    || (f == g && a.index < b.index)
  }

  /** Rows of the candidates in this order, before every candidate that is left out. */
  ghost predicate ThirtyTwoFirst(candidates: seq<Finding>, r: seq<Row>) {
    && (forall i :: 0 <= i < |r| ==> r[i].index < |candidates| && r[i].finding == candidates[r[i].index])
    && (forall i, j :: 0 <= i < j < |r| ==> ComesFirst(r[i], r[j]))
    && (forall n :: 0 <= n < |candidates| ==>
          Row(candidates[n], n) in r || forall i :: 0 <= i < |r| ==> ComesFirst(r[i], Row(candidates[n], n)))
  }

  lemma BestFirst(candidates: seq<Finding>)
    ensures ThirtyTwoFirst(candidates, Best(candidates, |candidates|))
  {
    hide TextLess, RowSet;
    var rows := RowsOf(candidates, 0, |candidates|);
    var ranked := Ranked(RowSet(rows));
    var best := Best(candidates, |candidates|);
    forall i | 0 <= i < |best|
      ensures best[i].index < |candidates| && best[i].finding == candidates[best[i].index]
    {
      assert ranked[i] in ranked;
    }
    forall n | 0 <= n < |candidates|
      ensures var row := Row(candidates[n], n);
              row in best || forall i :: 0 <= i < |best| ==> ComesFirst(best[i], row)
    {
      assert rows[n] == Row(candidates[n], n) && rows[n] in ranked;
      var k :| 0 <= k < |ranked| && ranked[k] == rows[n];
      if k < |best| {
        assert best[k] == rows[n];
      } else {
        assert forall i :: 0 <= i < |best| ==> RowLess(ranked[i], ranked[k]);
      }
    }
  }

  lemma NoneBest(candidates: seq<Finding>)
    ensures Best(candidates, 0) == []
  {
    hide RowLess;
    assert RowSet(RowsOf(candidates, 0, 0)) == {};
  }

  lemma ChunkValid(candidates: seq<Finding>, from: nat, to: nat)
    requires from <= to <= |candidates| && forall i :: 0 <= i < from ==> ValidRank(RankOf(candidates[i]))
    ensures AllValid(Best(candidates, from) + RowsOf(candidates, from, to)) <==>
              forall i :: from <= i < to ==> ValidRank(RankOf(candidates[i]))
  {
    hide ValidRank, Ranked;
    BestRows(candidates, from);
    var best, rows := Best(candidates, from), RowsOf(candidates, from, to);
    if AllValid(best + rows) {
      forall i | from <= i < to
        ensures ValidRank(RankOf(candidates[i]))
      {
        assert (best + rows)[|best| + (i - from)] == rows[i - from];
      }
    }
  }

  lemma BestLength(candidates: seq<Finding>)
    ensures |Best(candidates, |candidates|)| == if |candidates| < ENVELOPE then |candidates| else ENVELOPE
  {
    hide RowLess, Ranked;
    PlacesDiffer(RowsOf(candidates, 0, |candidates|));
  }

  lemma {:induction false} PlacesDiffer(rows: seq<Row>)
    requires forall i, j :: 0 <= i < j < |rows| ==> rows[i] != rows[j]
    ensures |RowSet(rows)| == |rows|
  {
    if rows != [] {
      PlacesDiffer(rows[1..]);
      assert rows == [rows[0]] + rows[1..];
      assert RowSet(rows) == {rows[0]} + RowSet(rows[1..]);
    }
  }
}
