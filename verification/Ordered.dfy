/** The ordered collections of the standard library: total orders on the keys the service uses, and the
    ascending enumeration of a finite set. */
module Ordered {

  /** The first `n` elements, or all of them. */
  function Head<T>(s: seq<T>, n: nat): (r: seq<T>)
    ensures r <= s && |r| == if |s| < n then |s| else n
  {
    if |s| <= n then s else s[..n]
  }

  ghost predicate Ascends(s: seq<nat>) {
    forall i, j :: 0 <= i < j < |s| ==> s[i] < s[j]
  }

  ghost predicate TotalOrder<T(!new)>(less: (T, T) -> bool) {
    && (forall x :: !less(x, x))
    && (forall x, y :: x == y || less(x, y) || less(y, x))
    && (forall x, y, z :: less(x, y) && less(y, z) ==> less(x, z))
  }

  /** Texts are ordered scalar by scalar, a prefix before the longer text. */
  predicate TextLess(a: string, b: string) {
    if b == "" then false else if a == "" then true else a[0] < b[0] || (a[0] == b[0] && TextLess(a[1..], b[1..]))
  }

  lemma {:induction false} TextIrreflexive(a: string)
    ensures !TextLess(a, a)
  {
    if a != "" {
      TextIrreflexive(a[1..]);
    }
  }

  lemma {:induction false} TextConnected(a: string, b: string)
    ensures a == b || TextLess(a, b) || TextLess(b, a)
  {
    if a != "" && b != "" {
      TextConnected(a[1..], b[1..]);
      assert a == [a[0]] + a[1..] && b == [b[0]] + b[1..];
    }
  }

  lemma {:induction false} TextTransitive(a: string, b: string, c: string)
    requires TextLess(a, b) && TextLess(b, c)
    ensures TextLess(a, c)
  {
    if a != "" && a[0] == b[0] == c[0] {
      TextTransitive(a[1..], b[1..], c[1..]);
    }
  }

  lemma TextOrder()
    ensures TotalOrder(TextLess)
  {
    forall x, y: string
      ensures !TextLess(x, x) && (x == y || TextLess(x, y) || TextLess(y, x))
    {
      TextIrreflexive(x);
      TextConnected(x, y);
    }
    forall x, y, z | TextLess(x, y) && TextLess(y, z)
      ensures TextLess(x, z)
    {
      TextTransitive(x, y, z);
    }
  }

  /** Pairs are ordered by their first component, then by their second. */
  predicate SiteLess(a: (string, nat), b: (string, nat)) {
    TextLess(a.0, b.0) || (a.0 == b.0 && a.1 < b.1)
  }

  lemma SiteOrder()
    ensures TotalOrder(SiteLess)
  {
    TextOrder();
    assert forall x, y, z :: SiteLess(x, y) && SiteLess(y, z) ==> SiteLess(x, z) by {
      hide TextLess;
    }
  }

  predicate TextPairLess(a: (string, string), b: (string, string)) {
    TextLess(a.0, b.0) || (a.0 == b.0 && TextLess(a.1, b.1))
  }

  lemma TextPairOrder()
    ensures TotalOrder(TextPairLess)
  {
    TextOrder();
    hide TextLess;
  }

  // ----- ascending enumeration ---------------------------------------------------------------

  ghost predicate Least<T(!new)>(m: T, s: set<T>, less: (T, T) -> bool) {
    m in s && forall x :: x in s ==> x == m || less(m, x)
  }

  lemma {:induction false} LeastExists<T(!new)>(s: set<T>, less: (T, T) -> bool) returns (m: T)
    requires s != {} && TotalOrder(less)
    ensures Least(m, s, less)
    decreases |s|
  {
    var x :| x in s;
    if s == {x} {
      m := x;
    } else {
      var y := LeastExists(s - {x}, less);
      m := if less(x, y) then x else y;
      forall z | z in s
        ensures z == m || less(m, z)
      {
        assert z == x || z in s - {x};
      }
    }
  }

  /** A set's elements, each once, in ascending order. */
  ghost function Ascending<T(!new)>(s: set<T>, less: (T, T) -> bool): (r: seq<T>)
    requires TotalOrder(less)
    decreases |s|
  {
    if s == {} then []
    else
      assert exists m :: Least(m, s, less) by {
        var m := LeastExists(s, less);
      }
      var m :| Least(m, s, less);
      [m] + Ascending(s - {m}, less)
  }

  ghost predicate StrictlySorted<T(!new)>(r: seq<T>, less: (T, T) -> bool) {
    forall i, j :: 0 <= i < j < |r| ==> less(r[i], r[j])
  }

  lemma {:induction false} AscendingIs<T(!new)>(s: set<T>, less: (T, T) -> bool)
    requires TotalOrder(less)
    ensures var r := Ascending(s, less); StrictlySorted(r, less) && |r| == |s| && forall x :: x in r <==> x in s
    decreases |s|
  {
    if s != {} {
      var r := Ascending(s, less);
      AscendingIs(s - {r[0]}, less);
      assert Least(r[0], s, less);
      assert r == [r[0]] + Ascending(s - {r[0]}, less);
      assert forall i :: 0 < i < |r| ==> r[i] in s - {r[0]};
    }
  }

  /** The ascending enumeration is the only strictly sorted one. */
  lemma {:induction false} AscendingOnly<T(!new)>(s: set<T>, less: (T, T) -> bool, r: seq<T>)
    requires TotalOrder(less) && StrictlySorted(r, less) && forall x :: x in r <==> x in s
    ensures r == Ascending(s, less)
    decreases |s|
  {
    assert r != [] ==> r[0] in r;
    if s != {} {
      var m := Ascending(s, less)[0];
      assert Least(m, s, less) && m in r && r[0] in s;
      assert r[0] == m;
      var rest := r[1..];
      assert r == [r[0]] + rest;
      assert forall x :: x in rest <==> x in s - {m};
      AscendingOnly(s - {m}, less, rest);
    }
  }

  /** In-order iteration. */
  method InOrder<T(!new, ==)>(s: set<T>, less: (T, T) -> bool) returns (r: seq<T>)
    requires TotalOrder(less)
    ensures r == Ascending(s, less)
  {
    r := [];
    var rest := s;
    while rest != {}
      invariant Ascending(s, less) == r + Ascending(rest, less)
      decreases |rest|
    {
      ghost var m := LeastExists(rest, less);
      var next :| next in rest && forall x :: x in rest ==> x == next || less(next, x);
      assert Least(next, rest, less);
      assert Ascending(rest, less) == [next] + Ascending(rest - {next}, less);
      r := r + [next];
      rest := rest - {next};
    }
  }

  ghost predicate TextsSorted(s: seq<string>) {
    forall i, j :: 0 <= i < j < |s| ==> !TextLess(s[j], s[i])
  }

  /** `sort` on texts. */
  method SortTexts(s: seq<string>) returns (r: seq<string>)
    ensures TextsSorted(r) && multiset(r) == multiset(s)
  {
    hide TextLess;
    r := [];
    for n := 0 to |s|
      invariant TextsSorted(r) && multiset(r) == multiset(s[..n])
    {
      r := InsertText(r, s[n]);
      assert s[..n + 1] == s[..n] + [s[n]];
    }
    assert s[..|s|] == s;
  }

  method InsertText(s: seq<string>, x: string) returns (r: seq<string>)
    requires TextsSorted(s)
    ensures TextsSorted(r) && multiset(r) == multiset(s) + multiset{x}
  {
    hide TextLess;
    TextOrder();
    var at := |s|;
    while at > 0 && TextLess(x, s[at - 1])
      invariant 0 <= at <= |s| && forall i :: at <= i < |s| ==> TextLess(x, s[i])
    {
      at := at - 1;
    }
    TextInserted(s, at, x);
    r := s[..at] + [x] + s[at..];
    assert s == s[..at] + s[at..];
  }

  lemma TextInserted(s: seq<string>, at: nat, x: string)
    requires TextsSorted(s) && at <= |s|
    requires (at > 0 ==> !TextLess(x, s[at - 1])) && forall i :: at <= i < |s| ==> TextLess(x, s[i])
    ensures TextsSorted(s[..at] + [x] + s[at..])
  {
    hide TextLess;
    TextOrder();
    var r := s[..at] + [x] + s[at..];
    forall i | 0 <= i < at
      ensures !TextLess(x, s[i])
    {
      if i < at - 1 {
        assert !TextLess(s[at - 1], s[i]);
      }
    }
    forall i, j | 0 <= i < j < |r|
      ensures !TextLess(r[j], r[i])
    {
      assert r[i] == if i < at then s[i] else if i == at then x else s[i - 1];
      assert r[j] == if j < at then s[j] else if j == at then x else s[j - 1];
    }
  }
}
