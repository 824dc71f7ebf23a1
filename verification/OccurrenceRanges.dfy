/** The ordered range scan behind `occurrences_for_declaration`: the order of occurrence keys, the keys a
    range holds, and when the scan finds as much as a linear one. */
module OccurrenceRanges {
  import opened Outcomes
  import P = Positions
  import opened Ordered
  import opened Buckets
  import opened WorkspaceEntries
  import opened WorkspaceGlobals
  import opened WorkspaceScans

  // ----- the order of occurrence keys --------------------------------------------------------

  predicate SpanLess(a: SourceSpan, b: SourceSpan) {
    || a.start < b.start
    || (a.start == b.start && a.end < b.end)
    || (a.start == b.start && a.end == b.end && a.line < b.line)
    || (a.start == b.start && a.end == b.end && a.line == b.line && a.column < b.column)
  }

  /** The position of a kind in its declaration. */
  function Rank(kind: SymbolKind): nat {
    match kind
    case Module => 0
    case Function => 1
    case Parameter => 2
    case Binding => 3
    case IterationState => 4
    case FiniteType => 5
    case FiniteVariant => 6
    case RecordType => 7
    case RecordField => 8
  }

  /** A missing spelling sorts before every other. */
  predicate NameLess(a: Option<string>, b: Option<string>) {
    b.Some? && (a.None? || TextLess(a.value, b.value))
  }

  predicate KeyLess(a: OccurrenceKey, b: OccurrenceKey) {
    || SpanLess(a.span, b.span)
    || (a.span == b.span && Rank(a.kind) < Rank(b.kind))
    || (a.span == b.span && a.kind == b.kind && NameLess(a.name, b.name))
  }

  lemma NameOrder()
    ensures TotalOrder(NameLess)
  {
    hide TextLess;
    TextOrder();
  }

  lemma SpanOrder()
    ensures TotalOrder(SpanLess)
  {
  }

  lemma RankInjective(a: SymbolKind, b: SymbolKind)
    ensures Rank(a) == Rank(b) <==> a == b
  {
  }

  lemma KeyOrder()
    ensures TotalOrder(KeyLess)
  {
    hide NameLess, SpanLess, Rank;
    NameOrder();
    SpanOrder();
    forall a, b {
      RankInjective(a, b);
    }
  }

  // ----- the range ---------------------------------------------------------------------------

  const LAST_SPELLING: string := "\U{10ffff}"

  function LowKey(span: SourceSpan, kind: SymbolKind): OccurrenceKey {
    OccurrenceKey(span, kind, None)
  }

  function HighKey(span: SourceSpan, kind: SymbolKind): OccurrenceKey {
    OccurrenceKey(span, kind, Some(LAST_SPELLING))
  }

  predicate InRange(k: OccurrenceKey, span: SourceSpan, kind: SymbolKind) {
    !KeyLess(k, LowKey(span, kind)) && !KeyLess(HighKey(span, kind), k)
  }

  predicate Binds(k: OccurrenceKey, span: SourceSpan, kind: SymbolKind) {
    k.span == span && k.kind == kind
  }

  /** A spelling the upper end of the range leaves out. */
  predicate PastLast(name: Option<string>) {
    name.Some? && TextLess(LAST_SPELLING, name.value)
  }

  /** The range holds the keys of the declaration, but for spellings past the last one. */
  lemma RangeHolds(k: OccurrenceKey, span: SourceSpan, kind: SymbolKind)
    ensures InRange(k, span, kind) <==> Binds(k, span, kind) && !PastLast(k.name)
  {
    hide TextLess, SpanLess;
    SpanOrder();
    TextOrder();
    RankInjective(k.kind, kind);
    hide Rank;
  }

  // ----- lists without repetition ------------------------------------------------------------

  predicate NoRepeats<T(==)>(s: seq<T>) {
    forall i, j :: 0 <= i < j < |s| ==> s[i] != s[j]
  }

  lemma {:induction false} NoRepeatsCount<T>(s: seq<T>, x: T)
    requires NoRepeats(s)
    ensures multiset(s)[x] == if x in s then 1 else 0
  {
    if s != [] {
      NoRepeatsCount(s[1..], x);
      assert s == [s[0]] + s[1..];
    }
  }

  lemma SameMembers<T(!new)>(a: seq<T>, b: seq<T>)
    requires NoRepeats(a) && NoRepeats(b) && forall x :: x in a <==> x in b
    ensures multiset(a) == multiset(b)
  {
    forall x: T
      ensures multiset(a)[x] == multiset(b)[x]
    {
      NoRepeatsCount(a, x);
      NoRepeatsCount(b, x);
    }
  }

  lemma FewerMembers<T(!new)>(a: seq<T>, b: seq<T>, extra: T)
    requires NoRepeats(a) && NoRepeats(b) && (forall x :: x in a ==> x in b) && extra in b && extra !in a
    ensures |a| < |b|
  {
    forall x: T
      ensures multiset(a + [extra])[x] <= multiset(b)[x]
    {
      NoRepeatsCount(a, x);
      NoRepeatsCount(b, x);
    }
    MultisetSize(multiset(a + [extra]), multiset(b));
  }

  lemma MultisetSize<T>(m: multiset<T>, n: multiset<T>)
    requires m <= n
    ensures |m| <= |n|
  {
    assert n == m + (n - m);
  }

  lemma SortedNoRepeats(s: seq<Site>)
    requires TotalOrder(SiteLess) && StrictlySorted(s, SiteLess)
    ensures NoRepeats(s)
  {
    hide SiteLess;
  }

  // ----- projected occurrences ---------------------------------------------------------------

  datatype IndexedOccurrence = IndexedOccurrence(uri: string, range: P.RangeInfo, enclosingFunction: Option<nat>)

  predicate Known(docs: map<string, Snapshot>, s: Site) {
    s.0 in docs && s.1 < |docs[s.0].references|
  }

  function Occurrence(docs: map<string, Snapshot>, s: Site): IndexedOccurrence
    requires Known(docs, s)
  {
    IndexedOccurrence(s.0, docs[s.0].references[s.1].range, docs[s.0].references[s.1].enclosing)
  }

  ghost predicate AllKnown(docs: map<string, Snapshot>, sites: seq<Site>) {
    forall s :: s in sites ==> Known(docs, s)
  }

  ghost function Projected(docs: map<string, Snapshot>, sites: seq<Site>): (r: seq<IndexedOccurrence>)
    requires AllKnown(docs, sites)
    ensures |r| == |sites|
  {
    seq(|sites|, i requires 0 <= i < |sites| => Occurrence(docs, sites[i]))
  }

  lemma WithoutOne<T>(s: seq<T>, i: nat)
    requires i < |s|
    ensures multiset(s) == multiset(s[..i] + s[i + 1..]) + multiset{s[i]}
  {
    assert s == s[..i] + [s[i]] + s[i + 1..];
  }

  lemma ProjectedWithout(docs: map<string, Snapshot>, sites: seq<Site>, i: nat)
    requires i < |sites| && AllKnown(docs, sites)
    ensures AllKnown(docs, sites[..i] + sites[i + 1..])
    ensures multiset(Projected(docs, sites))
              == multiset(Projected(docs, sites[..i] + sites[i + 1..])) + multiset{Occurrence(docs, sites[i])}
  {
    var out := Projected(docs, sites);
    WithoutOne(out, i);
    assert out[..i] + out[i + 1..] == Projected(docs, sites[..i] + sites[i + 1..]);
  }

  lemma SamePartner<T>(a: seq<T>, b: seq<T>) returns (i: nat)
    requires multiset(a) == multiset(b) && a != []
    ensures i < |b| && b[i] == a[0]
    ensures multiset(a[..0] + a[1..]) == multiset(b[..i] + b[i + 1..])
  {
    assert a[0] in multiset(b);
    i :| 0 <= i < |b| && b[i] == a[0];
    WithoutOne(a, 0);
    WithoutOne(b, i);
    Cancel(multiset(a[..0] + a[1..]), multiset(b[..i] + b[i + 1..]), a[0]);
  }

  lemma Cancel<T>(m: multiset<T>, n: multiset<T>, x: T)
    requires m + multiset{x} == n + multiset{x}
    ensures m == n
  {
    assert m == (m + multiset{x}) - multiset{x} && n == (n + multiset{x}) - multiset{x};
  }

  /** Rearranging sites rearranges their occurrences. */
  lemma {:induction false} ProjectedMultiset(docs: map<string, Snapshot>, a: seq<Site>, b: seq<Site>)
    requires multiset(a) == multiset(b) && AllKnown(docs, a) && AllKnown(docs, b)
    ensures multiset(Projected(docs, a)) == multiset(Projected(docs, b))
    decreases |a|
  {
    hide Projected, Known, AllKnown;
    if a == [] {
      assert |multiset(a)| == |multiset(b)|;
      assert b == [];
    } else {
      var i := SamePartner(a, b);
      ProjectedWithout(docs, a, 0);
      ProjectedWithout(docs, b, i);
      ProjectedMultiset(docs, a[..0] + a[1..], b[..i] + b[i + 1..]);
    }
  }

  // ----- the scan over a range of keys -------------------------------------------------------

  function KeyAt(docs: map<string, Snapshot>, s: Site): OccurrenceKey
    requires Known(docs, s)
  {
    docs[s.0].references[s.1].key
  }

  /** The sites of every key's bucket, key after key. */
  ghost function RangeSites(occurrences: map<OccurrenceKey, set<Site>>, keys: seq<OccurrenceKey>): seq<Site> {
    if keys == [] then []
    else
      SiteOrder();
      Ascending(Bucket(occurrences, keys[0]), SiteLess) + RangeSites(occurrences, keys[1..])
  }

  function KeysWithin(occurrences: map<OccurrenceKey, set<Site>>, span: SourceSpan,
                      kind: SymbolKind): set<OccurrenceKey> {
    set k | k in occurrences && InRange(k, span, kind)
  }

  ghost function RangeKeys(occurrences: map<OccurrenceKey, set<Site>>, span: SourceSpan,
                           kind: SymbolKind): seq<OccurrenceKey> {
    KeyOrder();
    Ascending(KeysWithin(occurrences, span, kind), KeyLess)
  }

  ghost predicate BucketsAre(occurrences: map<OccurrenceKey, set<Site>>, docs: map<string, Snapshot>) {
    && (forall k, s :: s in Bucket(occurrences, k) <==> Known(docs, s) && KeyAt(docs, s) == k)
    && (forall k :: k in occurrences ==> occurrences[k] != {})
  }

  lemma ReferenceAt(doc: Snapshot, k: OccurrenceKey, i: nat)
    ensures i in OccurringAs(k)(doc) <==> i < |doc.references| && doc.references[i].key == k
  {
    IndexesOfMembers(ReferenceKeys(doc.references), k);
  }

  lemma BuiltBuckets(entries: map<string, WorkspaceEntry>, docs: map<string, Snapshot>)
    requires Built(entries, docs)
    ensures BucketsAre(Rebuild(entries).occurrences, docs)
  {
    hide Bucket, Group, OccurringAs, All;
    var o := Rebuild(entries).occurrences;
    forall k, s
      ensures s in Bucket(o, k) <==> Known(docs, s) && KeyAt(docs, s) == k
    {
      OccurrencesScan(entries, docs, k);
      if s.0 in docs {
        ReferenceAt(docs[s.0], k, s.1);
      }
    }
    forall k | k in o
      ensures o[k] != {}
    {
      GroupHas(All(entries, Occurrences), k);
      BucketIs(o, k);
    }
  }

  lemma BucketIs<K, V>(m: map<K, set<V>>, k: K)
    requires k in m
    ensures Bucket(m, k) == m[k]
  {
  }

  lemma {:induction false} RangeMembers(o: map<OccurrenceKey, set<Site>>, docs: map<string, Snapshot>,
                                        keys: seq<OccurrenceKey>)
    requires BucketsAre(o, docs) && NoRepeats(keys)
    ensures forall s :: s in RangeSites(o, keys) <==> Known(docs, s) && KeyAt(docs, s) in keys
    ensures NoRepeats(RangeSites(o, keys))
  {
    hide Bucket, SiteLess, Ascending, Known;
    if keys != [] {
      SiteOrder();
      RangeMembers(o, docs, keys[1..]);
      var here, rest := Ascending(Bucket(o, keys[0]), SiteLess), RangeSites(o, keys[1..]);
      AscendingIs(Bucket(o, keys[0]), SiteLess);
      SortedNoRepeats(here);
      assert keys == [keys[0]] + keys[1..];
      assert keys[0] !in keys[1..];
      forall s | s in here
        ensures s !in rest
      {
        assert s in Bucket(o, keys[0]);
      }
      NoRepeatsConcat(here, rest);
    }
  }

  lemma NoRepeatsConcat<T>(a: seq<T>, b: seq<T>)
    requires NoRepeats(a) && NoRepeats(b) && forall i :: 0 <= i < |a| ==> a[i] !in b
    ensures NoRepeats(a + b)
  {
  }

  lemma RangeKeysAre(o: map<OccurrenceKey, set<Site>>, span: SourceSpan, kind: SymbolKind)
    ensures NoRepeats(RangeKeys(o, span, kind))
    ensures forall k :: k in RangeKeys(o, span, kind) <==> k in o && Binds(k, span, kind) && !PastLast(k.name)
  {
    hide KeyLess, Binds, PastLast;
    KeyOrder();
    AscendingIs(KeysWithin(o, span, kind), KeyLess);
    forall k {
      RangeHolds(k, span, kind);
    }
  }

  /** The references of a document bound to one declaration, whatever their spelling. */
  ghost function BoundTo(span: SourceSpan, kind: SymbolKind): Snapshot -> seq<nat> {
    (s: Snapshot) => IndexesOf(BindingFlags(s.references, span, kind), true)
  }

  ghost function BindingFlags(references: seq<Reference>, span: SourceSpan, kind: SymbolKind): seq<Option<bool>> {
    seq(|references|, i requires 0 <= i < |references| => Some(Binds(references[i].key, span, kind)))
  }

  lemma BoundAt(doc: Snapshot, span: SourceSpan, kind: SymbolKind, i: nat)
    ensures i in BoundTo(span, kind)(doc) <==> i < |doc.references| && Binds(doc.references[i].key, span, kind)
  {
    IndexesOfMembers(BindingFlags(doc.references, span, kind), true);
  }

  lemma LinearMembers(docs: map<string, Snapshot>, span: SourceSpan, kind: SymbolKind)
    ensures forall i :: 0 <= i < |Uris(docs)| ==> Uris(docs)[i] in docs
    ensures var linear := ScanSites(docs, Uris(docs), BoundTo(span, kind));
            NoRepeats(linear) && forall s :: s in linear <==> Known(docs, s) && Binds(KeyAt(docs, s), span, kind)
  {
    hide SiteLess, TextLess, Uris, BoundTo, Binds;
    UrisAre(docs);
    forall uri | uri in docs
      ensures Ascends(BoundTo(span, kind)(docs[uri]))
    {
      BoundAscends(docs[uri], span, kind);
    }
    var linear := ScanSites(docs, Uris(docs), BoundTo(span, kind));
    ScanMembers(docs, Uris(docs), BoundTo(span, kind));
    ScanSorted(docs, Uris(docs), BoundTo(span, kind));
    SiteOrder();
    SortedNoRepeats(linear);
    forall s
      ensures s in linear <==> Known(docs, s) && Binds(KeyAt(docs, s), span, kind)
    {
      if s.0 in docs {
        BoundAt(docs[s.0], span, kind, s.1);
      }
    }
  }

  lemma BoundAscends(doc: Snapshot, span: SourceSpan, kind: SymbolKind)
    ensures Ascends(BoundTo(span, kind)(doc))
  {
    IndexesAscend(BindingFlags(doc.references, span, kind), true);
  }

  /** Some use of the declaration is spelt with a name past the last spelling. */
  ghost predicate LeftOut(docs: map<string, Snapshot>, span: SourceSpan, kind: SymbolKind) {
    exists s :: Known(docs, s) && Binds(KeyAt(docs, s), span, kind) && PastLast(KeyAt(docs, s).name)
  }

  /** The ordered range scan finds what the linear scan over all documents finds, missing spellings included,
      exactly when no spelling lies past the upper end of the range. */
  lemma RangeScan(entries: map<string, WorkspaceEntry>, docs: map<string, Snapshot>, span: SourceSpan, kind: SymbolKind)
    requires Built(entries, docs)
    ensures forall i :: 0 <= i < |Uris(docs)| ==> Uris(docs)[i] in docs
    ensures var o := Rebuild(entries).occurrences;
            var ranged := RangeSites(o, RangeKeys(o, span, kind));
            var linear := ScanSites(docs, Uris(docs), BoundTo(span, kind));
            && AllKnown(docs, ranged) && AllKnown(docs, linear)
            && (multiset(Projected(docs, ranged)) == multiset(Projected(docs, linear)) <==> !LeftOut(docs, span, kind))
  {
    hide SiteLess, TextLess, Uris, BoundTo, Binds, PastLast, Rebuild, RangeKeys, RangeSites, ScanSites, NoRepeats,
        Projected;
    var o := Rebuild(entries).occurrences;
    var ranged := RangeSites(o, RangeKeys(o, span, kind));
    BuiltBuckets(entries, docs);
    RangeKeysAre(o, span, kind);
    RangeMembers(o, docs, RangeKeys(o, span, kind));
    LinearMembers(docs, span, kind);
    var linear := ScanSites(docs, Uris(docs), BoundTo(span, kind));
    forall s
      ensures s in ranged <==> Known(docs, s) && Binds(KeyAt(docs, s), span, kind) && !PastLast(KeyAt(docs, s).name)
    {
      if Known(docs, s) {
        assert s in Bucket(o, KeyAt(docs, s));
      }
    }
    if LeftOut(docs, span, kind) {
      var s :| Known(docs, s) && Binds(KeyAt(docs, s), span, kind) && PastLast(KeyAt(docs, s).name);
      FewerMembers(ranged, linear, s);
      DifferentSizes(Projected(docs, ranged), Projected(docs, linear));
    } else {
      SameMembers(ranged, linear);
      ProjectedMultiset(docs, ranged, linear);
    }
  }

  lemma DifferentSizes<T>(a: seq<T>, b: seq<T>)
    requires |a| < |b|
    ensures multiset(a) != multiset(b)
  {
    assert |multiset(a)| == |a| && |multiset(b)| == |b|;
  }

  // ----- where the documentation asks for more -----------------------------------------------

  function UseOf(span: SourceSpan, name: string): Snapshot {
    Snapshot("", [], [Reference(OccurrenceKey(span, Function, Some(name)), P.RangeInfo(0, 0, 0, 0, 0, 0), None)], [],
        false)
  }

  /** A use spelt past the last spelling is left out. */
  lemma SpeltPastLast(span: SourceSpan)
    ensures LeftOut(map["a" := UseOf(span, "\U{10ffff}a")], span, Function)
  {
    var docs := map["a" := UseOf(span, "\U{10ffff}a")];
    assert LAST_SPELLING[1..] == "" && "\U{10ffff}a"[1..] == "a";
    assert Known(docs, ("a", 0)) && PastLast(KeyAt(docs, ("a", 0)).name);
  }

  /** The result is ordered by key first, and by document and index only under the same key. */
  ghost predicate KeyOrdered(docs: map<string, Snapshot>, sites: seq<Site>) {
    && AllKnown(docs, sites)
    && forall i, j :: 0 <= i < j < |sites| ==> Earlier(docs, sites[i], sites[j])
  }

  ghost predicate Earlier(docs: map<string, Snapshot>, s: Site, t: Site) {
    Known(docs, s) && Known(docs, t)
    && (KeyLess(KeyAt(docs, s), KeyAt(docs, t)) || (KeyAt(docs, s) == KeyAt(docs, t) && SiteLess(s, t)))
  }

  lemma {:induction false} RangeOrder(o: map<OccurrenceKey, set<Site>>, docs: map<string, Snapshot>,
                                      keys: seq<OccurrenceKey>)
    requires BucketsAre(o, docs) && StrictlySorted(keys, KeyLess) && NoRepeats(keys)
    ensures KeyOrdered(docs, RangeSites(o, keys))
  {
    hide Bucket, SiteLess, KeyLess, Ascending, Known;
    if keys != [] {
      SiteOrder();
      RangeOrder(o, docs, keys[1..]);
      RangeMembers(o, docs, keys[1..]);
      var here, rest := Ascending(Bucket(o, keys[0]), SiteLess), RangeSites(o, keys[1..]);
      AscendingIs(Bucket(o, keys[0]), SiteLess);
      forall i | 0 <= i < |here|
        ensures Known(docs, here[i]) && KeyAt(docs, here[i]) == keys[0]
      {
        assert here[i] in here && here[i] in Bucket(o, keys[0]);
      }
      forall i, j | 0 <= i < |here| && 0 <= j < |rest|
        ensures Earlier(docs, here[i], rest[j])
      {
        assert rest[j] in rest;
        var k :| 0 <= k < |keys[1..]| && keys[1..][k] == KeyAt(docs, rest[j]);
        assert KeyLess(keys[0], keys[k + 1]);
      }
    }
  }

  /** A use of the declaration that the range finds. */
  ghost predicate Found(docs: map<string, Snapshot>, span: SourceSpan, kind: SymbolKind, s: Site) {
    Known(docs, s) && Binds(KeyAt(docs, s), span, kind) && !PastLast(KeyAt(docs, s).name)
  }

  /** The range finds exactly the declaration's uses up to the last spelling, in key order. */
  lemma SortedRange(o: map<OccurrenceKey, set<Site>>, docs: map<string, Snapshot>, span: SourceSpan, kind: SymbolKind)
    requires BucketsAre(o, docs)
    ensures KeyOrdered(docs, RangeSites(o, RangeKeys(o, span, kind)))
    ensures forall s :: s in RangeSites(o, RangeKeys(o, span, kind)) <==> Found(docs, span, kind, s)
  {
    hide KeyLess, RangeSites, Bucket, PastLast, KeysWithin;
    KeyOrder();
    AscendingIs(KeysWithin(o, span, kind), KeyLess);
    RangeKeysAre(o, span, kind);
    RangeMembers(o, docs, RangeKeys(o, span, kind));
    RangeOrder(o, docs, RangeKeys(o, span, kind));
    forall s | Known(docs, s)
      ensures KeyAt(docs, s) in o
    {
      assert s in Bucket(o, KeyAt(docs, s));
      NonEmptyBucket(o, KeyAt(docs, s), s);
    }
  }

  lemma NonEmptyBucket<K, V>(m: map<K, set<V>>, k: K, v: V)
    requires v in Bucket(m, k)
    ensures k in m
  {
  }

  /** Two uses that documents and indexes order one way, and their spellings the other. */
  ghost predicate Crossed(docs: map<string, Snapshot>, span: SourceSpan, kind: SymbolKind, s: Site, t: Site) {
    && Found(docs, span, kind, s) && Found(docs, span, kind, t)
    && SiteLess(s, t) && KeyLess(KeyAt(docs, t), KeyAt(docs, s))
  }

  /** No document's uses come after those of a later document. */
  ghost predicate UrisInOrder(sites: seq<Site>) {
    forall i, j :: 0 <= i < j < |sites| ==> !TextLess(sites[j].0, sites[i].0)
  }

  /** The result is in the order of documents and indexes if and only if no two uses it finds are crossed, and in
      the order of documents alone if and only if no two uses in different documents are. */
  lemma UriOrderExactly(entries: map<string, WorkspaceEntry>, docs: map<string, Snapshot>, span: SourceSpan,
                        kind: SymbolKind)
    requires Built(entries, docs)
    ensures var o := Rebuild(entries).occurrences;
            var ranged := RangeSites(o, RangeKeys(o, span, kind));
            && (StrictlySorted(ranged, SiteLess) <==> !exists s, t :: Crossed(docs, span, kind, s, t))
            && (UrisInOrder(ranged) <==> !exists s, t :: Crossed(docs, span, kind, s, t) && s.0 != t.0)
  {
    hide Rebuild, RangeSites, RangeKeys, SiteLess, Crossed, Found, KeyOrdered, StrictlySorted, UrisInOrder;
    var o := Rebuild(entries).occurrences;
    BuiltBuckets(entries, docs);
    SortedRange(o, docs, span, kind);
    SitesExactly(docs, RangeSites(o, RangeKeys(o, span, kind)), span, kind);
    UrisExactly(docs, RangeSites(o, RangeKeys(o, span, kind)), span, kind);
  }

  lemma SitesExactly(docs: map<string, Snapshot>, ranged: seq<Site>, span: SourceSpan, kind: SymbolKind)
    requires KeyOrdered(docs, ranged) && forall s :: s in ranged <==> Found(docs, span, kind, s)
    ensures StrictlySorted(ranged, SiteLess) <==> !exists s, t :: Crossed(docs, span, kind, s, t)
  {
    hide SiteLess, KeyLess, Earlier, Known, Binds, PastLast, StrictlySorted;
    if s, t :| Crossed(docs, span, kind, s, t) {
      OutOfOrder(docs, ranged, s, t);
    } else {
      forall i, j | 0 <= i < j < |ranged| && KeyLess(KeyAt(docs, ranged[i]), KeyAt(docs, ranged[j]))
        ensures !SiteLess(ranged[j], ranged[i])
      {
        assert ranged[i] in ranged && ranged[j] in ranged;
        assert !Crossed(docs, span, kind, ranged[j], ranged[i]);
      }
      AllInOrder(docs, ranged);
    }
  }

  lemma UrisExactly(docs: map<string, Snapshot>, ranged: seq<Site>, span: SourceSpan, kind: SymbolKind)
    requires KeyOrdered(docs, ranged) && forall s :: s in ranged <==> Found(docs, span, kind, s)
    ensures UrisInOrder(ranged) <==> !exists s, t :: Crossed(docs, span, kind, s, t) && s.0 != t.0
  {
    hide SiteLess, KeyLess, Earlier, Known, Binds, PastLast, UrisInOrder;
    if s, t :| Crossed(docs, span, kind, s, t) && s.0 != t.0 {
      UriOutOfOrder(docs, ranged, s, t);
    } else {
      forall i, j | 0 <= i < j < |ranged| && KeyLess(KeyAt(docs, ranged[i]), KeyAt(docs, ranged[j]))
        ensures SiteLess(ranged[j], ranged[i]) ==> ranged[i].0 == ranged[j].0
      {
        assert ranged[i] in ranged && ranged[j] in ranged;
        assert Crossed(docs, span, kind, ranged[j], ranged[i]) ==> ranged[i].0 == ranged[j].0;
      }
      AllUrisInOrder(docs, ranged);
    }
  }

  /** Where two crossed uses stand in the result. */
  lemma CrossedAt(docs: map<string, Snapshot>, sites: seq<Site>, s: Site, t: Site) returns (i: nat, j: nat)
    requires KeyOrdered(docs, sites) && s in sites && t in sites && Known(docs, s) && Known(docs, t)
    requires SiteLess(s, t) && KeyLess(KeyAt(docs, t), KeyAt(docs, s))
    ensures i < j < |sites| && sites[i] == t && sites[j] == s
  {
    hide SiteLess, KeyLess;
    SiteOrder();
    KeyOrder();
    i :| 0 <= i < |sites| && sites[i] == t;
    j :| 0 <= j < |sites| && sites[j] == s;
    assert !Earlier(docs, s, t);
  }

  lemma OutOfOrder(docs: map<string, Snapshot>, sites: seq<Site>, s: Site, t: Site)
    requires KeyOrdered(docs, sites) && s in sites && t in sites && Known(docs, s) && Known(docs, t)
    requires SiteLess(s, t) && KeyLess(KeyAt(docs, t), KeyAt(docs, s))
    ensures !StrictlySorted(sites, SiteLess)
  {
    hide SiteLess, KeyLess, Earlier, KeyOrdered;
    SiteOrder();
    var i, j := CrossedAt(docs, sites, s, t);
  }

  lemma UriOutOfOrder(docs: map<string, Snapshot>, sites: seq<Site>, s: Site, t: Site)
    requires KeyOrdered(docs, sites) && s in sites && t in sites && Known(docs, s) && Known(docs, t)
    requires SiteLess(s, t) && s.0 != t.0 && KeyLess(KeyAt(docs, t), KeyAt(docs, s))
    ensures !UrisInOrder(sites)
  {
    hide TextLess, KeyLess, Earlier, KeyOrdered;
    var i, j := CrossedAt(docs, sites, s, t);
  }

  lemma AllInOrder(docs: map<string, Snapshot>, sites: seq<Site>)
    requires KeyOrdered(docs, sites)
    requires forall i, j :: 0 <= i < j < |sites| && KeyLess(KeyAt(docs, sites[i]), KeyAt(docs, sites[j])) ==>
               !SiteLess(sites[j], sites[i])
    ensures StrictlySorted(sites, SiteLess)
  {
    hide SiteLess, KeyLess;
    SiteOrder();
    KeyOrder();
    forall i, j | 0 <= i < j < |sites|
      ensures SiteLess(sites[i], sites[j])
    {
      assert Earlier(docs, sites[i], sites[j]);
    }
  }

  lemma AllUrisInOrder(docs: map<string, Snapshot>, sites: seq<Site>)
    requires KeyOrdered(docs, sites)
    requires forall i, j :: 0 <= i < j < |sites| && KeyLess(KeyAt(docs, sites[i]), KeyAt(docs, sites[j])) ==>
                              (SiteLess(sites[j], sites[i]) ==> sites[i].0 == sites[j].0)
    ensures UrisInOrder(sites)
  {
    hide TextLess, KeyLess;
    TextOrder();
    forall i, j | 0 <= i < j < |sites|
      ensures !TextLess(sites[j].0, sites[i].0)
    {
      assert Earlier(docs, sites[i], sites[j]);
    }
  }

  function TwoSpellings(span: SourceSpan): map<string, Snapshot> {
    map["a" := UseOf(span, "z"), "b" := UseOf(span, "m")]
  }

  lemma SpeltApart(span: SourceSpan)
    ensures var docs, s, t := TwoSpellings(span), ("a", 0), ("b", 0);
            Crossed(docs, span, Function, s, t) && s.0 != t.0
  {
    var docs, s, t := TwoSpellings(span), ("a", 0), ("b", 0);
    Spellings();
    hide TextLess, SpanLess, Rank;
    SpanOrder();
    assert KeyAt(docs, s) == OccurrenceKey(span, Function, Some("z"))
        && KeyAt(docs, t) == OccurrenceKey(span, Function, Some("m"));
  }

  /** Two documents that spell the declaration differently: the later document's use comes first. */
  lemma NotUriOrder(entries: map<string, WorkspaceEntry>, span: SourceSpan)
    requires Built(entries, TwoSpellings(span))
    ensures var o := Rebuild(entries).occurrences;
            !StrictlySorted(RangeSites(o, RangeKeys(o, span, Function)), SiteLess)
            && !UrisInOrder(RangeSites(o, RangeKeys(o, span, Function)))
  {
    hide Rebuild, RangeSites, RangeKeys, SiteLess, StrictlySorted, UrisInOrder, Crossed, TwoSpellings;
    SpeltApart(span);
    UriOrderExactly(entries, TwoSpellings(span), span, Function);
  }

  lemma Spellings()
    ensures TextLess("a", "b") && TextLess("m", "z") && !TextLess("z", "m")
    ensures !PastLast(Some("z")) && !PastLast(Some("m"))
  {
    assert LAST_SPELLING[0] == '\U{10ffff}' && "z"[0] == 'z' && "m"[0] == 'm';
  }
}
