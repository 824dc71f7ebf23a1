/** The host side of the capsule (crates/service-core/src/ambient.rs): the check of what the ordering kernel
    returns, and the chunk by chunk merge that keeps the best findings. */
module Capsule {
  import opened Outcomes
  import opened Ordered
  import opened CapsuleKernel

  const ENVELOPE: nat := 32

  datatype Finding = Finding(severity: int, kind: int, key: string)

  /** A candidate with its place in the candidate list, which stands for the rest of it. */
  datatype Row = Row(finding: Finding, index: nat)

  function RankOf(f: Finding): Rank {
    Rank(f.severity, f.kind)
  }

  // ----- the check of an ordering ------------------------------------------------------------

  predicate Permutes(s: seq<int>) {
    (forall i :: 0 <= i < |s| ==> 0 <= s[i] < |s|) && (forall i, j :: 0 <= i < j < |s| ==> s[i] != s[j])
  }

  function Upto(n: nat): (r: set<nat>)
    ensures |r| == n && forall i: nat :: i in r <==> i < n
  {
    if n == 0 then {} else Upto(n - 1) + {n - 1}
  }

  /** As many distinct positions as there are leave none out. */
  lemma NoneMissing(s: seq<nat>, n: nat)
    requires |s| == n && Permutes(s)
    ensures forall i :: 0 <= i < n ==> i in s
  {
    Distinct(s);
    assert Members(s) <= Upto(n);
    SameSize(Members(s), Upto(n));
    assert forall i :: 0 <= i < n ==> i in Upto(n);
  }

  /** The elements an order names, one after the other. */
  function Picked<T>(s: seq<T>, order: seq<nat>): seq<T>
    requires forall i :: 0 <= i < |order| ==> order[i] < |s|
  {
    seq(|order|, i requires 0 <= i < |order| => s[order[i]])
  }

  /** An order of all positions holds the last one somewhere; without it, it orders the others. */
  lemma WithoutLast(order: seq<nat>) returns (j: nat)
    requires order != [] && Permutes(order)
    ensures j < |order| && order[j] == |order| - 1 && Permutes(order[..j] + order[j + 1..])
  {
    NoneMissing(order, |order|);
    assert |order| - 1 in order;
    j :| 0 <= j < |order| && order[j] == |order| - 1;
    var others := order[..j] + order[j + 1..];
    assert forall i :: 0 <= i < |others| ==> others[i] == if i < j then order[i] else order[i + 1];
  }

  lemma Insert<T>(a: seq<T>, j: nat, x: T)
    requires j <= |a|
    ensures multiset(a[..j] + [x] + a[j..]) == multiset(a) + multiset{x}
  {
    assert a == a[..j] + a[j..];
  }

  /** An order that names every position once loses nothing and doubles nothing. */
  lemma {:induction false} PickedMultiset<T>(s: seq<T>, order: seq<nat>)
    requires |order| == |s| && Permutes(order)
    ensures multiset(Picked(s, order)) == multiset(s)
    decreases |s|
  {
    if s != [] {
      var n := |s| - 1;
      var j := WithoutLast(order);
      var others := order[..j] + order[j + 1..];
      PickedMultiset(s[..n], others);
      var rest := Picked(s[..n], others);
      PickedAround(s, order, j);
      Insert(rest, j, s[n]);
      assert s == s[..n] + [s[n]];
    }
  }

  lemma PickedAround<T>(s: seq<T>, order: seq<nat>, j: nat)
    requires |order| == |s| && Permutes(order) && j < |order| && order[j] == |s| - 1
    requires Permutes(order[..j] + order[j + 1..])
    ensures var rest := Picked(s[..|s| - 1], order[..j] + order[j + 1..]);
            Picked(s, order) == rest[..j] + [s[|s| - 1]] + rest[j..]
  {
  }

  lemma SameSize<T>(a: set<T>, b: set<T>)
    requires a <= b && |a| == |b|
    ensures a == b
  {
    assert b == a + (b - a);
  }

  /** The seen-bitmap loop of `execute_capsule_order`: whatever the kernel returned, an ordering that is
      accepted names every position of the window exactly once. */
  method CheckOrdering(indices: seq<int>, count: nat) returns (r: Result<seq<nat>>)
    requires count <= |indices|
    ensures r.Ok? <==> Permutes(indices[..count])
    ensures r.Ok? ==> r.value == indices[..count] && forall i :: 0 <= i < count ==> i in r.value
  {
    var seen := new bool[count](_ => false);
    var ordered: seq<nat> := [];
    for k := 0 to count
      invariant ordered == indices[..k]
      invariant forall i :: 0 <= i < k ==> 0 <= ordered[i] < count
      invariant forall i, j :: 0 <= i < j < k ==> ordered[i] != ordered[j]
      invariant forall p :: 0 <= p < count ==> (seen[p] <==> p in ordered)
    {
      var source := indices[k];
      assert indices[..count][k] == source;
      if source < 0 {
        return Err;
      }
      var index: nat := source;
      if index >= count || seen[index] {
        assert index < count ==> exists i :: 0 <= i < k && indices[..count][i] == index by {
          assert forall i :: 0 <= i < k ==> indices[..count][i] == ordered[i];
        }
        return Err;
      }
      seen[index] := true;
      ordered := ordered + [index];
    }
    assert ordered == indices[..count];
    NoneMissing(ordered, count);
    var missing := false;
    for p := 0 to count
      invariant !missing
    {
      missing := missing || !seen[p];
    }
    if |ordered| != count || missing {
      return Err;
    }
    return Ok(ordered);
  }

  /** `execute_capsule_order` */
  method ExecuteCapsuleOrder(ranks: seq<Rank>) returns (r: Result<seq<nat>>)
    ensures r.Err? <==> |ranks| > WINDOW || exists i :: 0 <= i < |ranks| && !ValidRank(ranks[i])
    ensures r.Ok? ==> |r.value| == |ranks| && Orders(ranks, |ranks|, r.value) && Permutes(r.value)
    ensures r.Err? <==>
            |ranks| > 64
            || exists i :: 0 <= i < |ranks| && !(0 <= ranks[i].severity <= 2 && 0 <= ranks[i].kind <= 3)
    ensures r.Ok? ==> ByPriority(ranks, r.value)
  {
    hide Code;
    if |ranks| > WINDOW {
      return Err;
    }
    var findings := ranks + seq(WINDOW - |ranks|, _ => Rank(0, 0));
    assert forall i :: 0 <= i < |ranks| ==> findings[i] == ranks[i];
    var indices, valid := OrderCapsuleWindow(findings, |ranks|);
    if !valid {
      return Err;
    }
    OrdersPermutes(findings, |ranks|, indices);
    r := CheckOrdering(indices, |ranks|);
    assert Orders(ranks, |ranks|, r.value);
    OrdersByPriority(ranks, r.value);
  }

  /** Severity descending, then kind ascending, then as they came. */
  predicate ByPriority(ranks: seq<Rank>, order: seq<nat>) {
    forall j, k :: 0 <= j < k < |order| && order[j] < |ranks| && order[k] < |ranks| ==>
      var a, b := ranks[order[j]], ranks[order[k]];
      || a.severity > b.severity
      || (a.severity == b.severity && a.kind < b.kind)
      || (a.severity == b.severity && a.kind == b.kind && order[j] < order[k])
  }

  lemma OrdersByPriority(ranks: seq<Rank>, order: seq<nat>)
    requires |order| == |ranks| <= 64 && Orders(ranks, |ranks|, order)
    requires forall i :: 0 <= i < |ranks| ==> ValidRank(ranks[i])
    ensures ByPriority(ranks, order)
  {
    hide Code, ValidRank;
    forall j, k | 0 <= j < k < |order| {
      CodeOrder(ranks[order[j]], order[j], ranks[order[k]], order[k]);
    }
  }

  lemma OrdersPermutes(findings: seq<Rank>, count: nat, indices: seq<int>)
    requires count <= |findings| && count <= |indices| && Orders(findings, count, indices)
    ensures Permutes(indices[..count])
  {
    hide Code;
    forall i, j | 0 <= i < j < count
      ensures indices[i] != indices[j]
    {
      assert Code(findings[indices[i]], indices[i]) < Code(findings[indices[j]], indices[j]);
    }
  }

  // ----- the order of findings ---------------------------------------------------------------

  /** Severity descending, kind ascending. */
  predicate RankLess(a: Finding, b: Finding) {
    a.severity > b.severity || (a.severity == b.severity && a.kind < b.kind)
  }

  /** Rank, then key, then place in the list: the order of a stable sort by rank and key. */
  predicate RowLess(a: Row, b: Row) {
    || RankLess(a.finding, b.finding)
    || (RankOf(a.finding) == RankOf(b.finding) && TextLess(a.finding.key, b.finding.key))
    || (a.finding == b.finding && a.index < b.index)
  }

  lemma RowOrder()
    ensures TotalOrder(RowLess)
  {
    hide TextLess;
    TextOrder();
  }

  /** For valid ranks the kernel's codes are ordered by rank, then by position. */
  lemma CodeOrder(a: Rank, i: nat, b: Rank, j: nat)
    requires ValidRank(a) && ValidRank(b) && i < WINDOW && j < WINDOW
    ensures Code(a, i) < Code(b, j) <==>
              a.severity > b.severity || (a.severity == b.severity && a.kind < b.kind) || (a == b && i < j)
  {
    var x, y := SeverityBand(a.severity) * 4 + KindBand(a.kind), SeverityBand(b.severity) * 4 + KindBand(b.kind);
    assert x < y ==> Code(a, i) < Code(b, j);
    assert x > y ==> Code(a, i) > Code(b, j);
  }

  // ----- sorting by key ----------------------------------------------------------------------

  function KeyAt(rows: seq<Row>, p: nat): string {
    if p < |rows| then rows[p].finding.key else ""
  }

  function ByKey(rows: seq<Row>): (nat, nat) -> bool {
    (p: nat, q: nat) => TextLess(KeyAt(rows, p), KeyAt(rows, q)) || (KeyAt(rows, p) == KeyAt(rows, q) && p < q)
  }

  lemma ByKeyOrder(rows: seq<Row>)
    ensures TotalOrder(ByKey(rows))
  {
    hide TextLess, KeyAt;
    TextOrder();
  }

  /** Rows in key order, equal keys in their old order. */
  ghost predicate KeySorted(rows: seq<Row>, places: seq<nat>, r: seq<Row>) {
    && |places| == |rows| == |r|
    && (forall i :: 0 <= i < |r| ==> places[i] < |rows| && r[i] == rows[places[i]])
    && (forall i, j :: 0 <= i < j < |r| ==> ByKey(rows)(places[i], places[j]))
    && Permutes(places)
  }

  /** The standard library's stable `sort_by` on the key. */
  method SortByKey(rows: seq<Row>) returns (r: seq<Row>, ghost places: seq<nat>)
    ensures KeySorted(rows, places, r)
    ensures multiset(r) == multiset(rows)
  {
    hide ByKey, Upto, Ascending, KeySorted;
    ByKeyOrder(rows);
    var order := InOrder(Upto(|rows|), ByKey(rows));
    InPlaces(rows, order);
    r := Picked(rows, order);
    places := order;
    PickedMultiset(rows, order);
    KeySortedIs(rows, places, r);
  }

  lemma InPlaces(rows: seq<Row>, order: seq<nat>)
    requires TotalOrder(ByKey(rows)) && order == Ascending(Upto(|rows|), ByKey(rows))
    ensures |order| == |rows| && StrictlySorted(order, ByKey(rows)) && Permutes(order)
  {
    hide ByKey;
    AscendingIs(Upto(|rows|), ByKey(rows));
    assert forall i :: 0 <= i < |order| ==> order[i] in order;
  }

  lemma KeySortedIs(rows: seq<Row>, places: seq<nat>, r: seq<Row>)
    requires |places| == |rows| == |r| && StrictlySorted(places, ByKey(rows))
    requires forall i :: 0 <= i < |r| ==> places[i] < |rows| && r[i] == rows[places[i]]
    requires Permutes(places)
    ensures KeySorted(rows, places, r)
  {
    hide ByKey;
  }
}
