/** What a snapshot of every document, scanned in URI order, would answer; the resident index must answer the
    same. */
module WorkspaceScans {
  import opened Outcomes
  import opened Ordered
  import opened Buckets
  import opened WorkspaceEntries
  import opened WorkspaceGlobals

  /** The resident entries were built from these documents. */
  ghost predicate Built(entries: map<string, WorkspaceEntry>, docs: map<string, Snapshot>) {
    entries.Keys == docs.Keys && forall uri :: uri in docs ==> entries[uri] == EntryOf(docs[uri])
  }

  // ----- scanning in URI order ---------------------------------------------------------------

  ghost function Uris(docs: map<string, Snapshot>): seq<string> {
    TextOrder();
    Ascending(docs.Keys, TextLess)
  }

  function At(uri: string, list: seq<nat>): (r: seq<Site>)
    ensures |r| == |list| && forall i :: 0 <= i < |r| ==> r[i] == (uri, list[i])
  {
    seq(|list|, i requires 0 <= i < |list| => (uri, list[i]))
  }

  /** The sites every document lists, document after document. */
  ghost function ScanSites(docs: map<string, Snapshot>, uris: seq<string>, list: Snapshot -> seq<nat>): seq<Site>
    requires forall i :: 0 <= i < |uris| ==> uris[i] in docs
  {
    if uris == [] then [] else At(uris[0], list(docs[uris[0]])) + ScanSites(docs, uris[1..], list)
  }

  lemma {:induction false} ScanMembers(docs: map<string, Snapshot>, uris: seq<string>, list: Snapshot -> seq<nat>)
    requires forall i :: 0 <= i < |uris| ==> uris[i] in docs
    ensures forall s :: s in ScanSites(docs, uris, list) <==> s.0 in uris && s.1 in list(docs[s.0])
  {
    if uris != [] {
      var here := At(uris[0], list(docs[uris[0]]));
      ScanMembers(docs, uris[1..], list);
      forall s
        ensures s in here <==> s.0 == uris[0] && s.1 in list(docs[uris[0]])
      {
        if s.0 == uris[0] && s.1 in list(docs[uris[0]]) {
          var i :| 0 <= i < |here| && list(docs[uris[0]])[i] == s.1;
          assert here[i] == s;
        }
      }
      assert uris == [uris[0]] + uris[1..];
    }
  }

  lemma {:induction false} ScanSorted(docs: map<string, Snapshot>, uris: seq<string>, list: Snapshot -> seq<nat>)
    requires forall i :: 0 <= i < |uris| ==> uris[i] in docs
    requires StrictlySorted(uris, TextLess) && forall uri :: uri in docs ==> Ascends(list(docs[uri]))
    ensures StrictlySorted(ScanSites(docs, uris, list), SiteLess)
  {
    hide TextLess;
    if uris != [] {
      var here, rest := At(uris[0], list(docs[uris[0]])), ScanSites(docs, uris[1..], list);
      assert StrictlySorted(uris[1..], TextLess);
      ScanSorted(docs, uris[1..], list);
      ScanMembers(docs, uris[1..], list);
      forall i, j | 0 <= i < |here| && 0 <= j < |rest|
        ensures SiteLess(here[i], rest[j])
      {
        assert rest[j] in rest;
        var k :| 0 <= k < |uris[1..]| && uris[1..][k] == rest[j].0;
        assert TextLess(uris[0], uris[k + 1]);
      }
      Appended(here, rest);
    }
  }

  lemma Appended(a: seq<Site>, b: seq<Site>)
    requires StrictlySorted(a, SiteLess) && StrictlySorted(b, SiteLess)
    requires forall i, j :: 0 <= i < |a| && 0 <= j < |b| ==> SiteLess(a[i], b[j])
    ensures StrictlySorted(a + b, SiteLess)
  {
    hide SiteLess;
  }

  /** A bucket that holds exactly what the documents list, enumerated in order, is the scan. */
  lemma BucketIsScan(docs: map<string, Snapshot>, bucket: set<Site>, list: Snapshot -> seq<nat>)
    requires forall s :: s in bucket <==> s.0 in docs && s.1 in list(docs[s.0])
    requires forall uri :: uri in docs ==> Ascends(list(docs[uri]))
    ensures TotalOrder(SiteLess)
    ensures forall i :: 0 <= i < |Uris(docs)| ==> Uris(docs)[i] in docs
    ensures Ascending(bucket, SiteLess) == ScanSites(docs, Uris(docs), list)
  {
    hide SiteLess, TextLess, Ascending;
    SiteOrder();
    TextOrder();
    AscendingIs(docs.Keys, TextLess);
    assert forall i :: 0 <= i < |Uris(docs)| ==> Uris(docs)[i] in Uris(docs);
    ScanMembers(docs, Uris(docs), list);
    ScanSorted(docs, Uris(docs), list);
    AscendingOnly(bucket, SiteLess, ScanSites(docs, Uris(docs), list));
  }

  // ----- what the buckets hold ---------------------------------------------------------------

  lemma AllHas<K(!new), V(!new)>(entries: map<string, WorkspaceEntry>, part: (string, WorkspaceEntry) -> set<(K, V)>,
                 k: K)
    ensures forall v :: v in Bucket(Group(All(entries, part)), k)
              <==> exists uri :: uri in entries && (k, v) in part(uri, entries[uri])
  {
    hide Group, Bucket;
    GroupHas(All(entries, part), k);
  }

  lemma ListedHas<K>(uri: string, keys: seq<Option<K>>, k: K, s: Site)
    ensures (k, s) in Listed(uri, Grouped(keys), Grouped(keys).Keys) <==> s.0 == uri && s.1 in IndexesOf(keys, k)
  {
    IndexesOfNone(keys, k);
  }

  lemma SingledHas<K>(uri: string, keys: seq<Option<K>>, k: K, s: Site)
    ensures (k, s) in Singled(uri, Firsts(keys), Firsts(keys).Keys) <==>
              s.0 == uri && s.1 in FirstOnly(IndexesOf(keys, k))
  {
    IndexesOfNone(keys, k);
    if IndexesOf(keys, k) != [] {
      assert k in Firsts(keys) && Firsts(keys)[k] == IndexesOf(keys, k)[0];
      assert s.0 == uri && s.1 == IndexesOf(keys, k)[0] ==> s == (uri, Firsts(keys)[k]);
    }
  }

  function FirstOnly(list: seq<nat>): seq<nat> {
    if list == [] then [] else [list[0]]
  }

  lemma IndexesAscend<K>(keys: seq<Option<K>>, k: K)
    ensures Ascends(IndexesOf(keys, k)) && Ascends(FirstOnly(IndexesOf(keys, k)))
  {
    IndexesOfAscend(keys, k);
  }

  ghost function DeclaredAs(key: DeclarationKey): Snapshot -> seq<nat> {
    (s: Snapshot) => IndexesOf(DeclarationKeys(s.symbols), key)
  }

  ghost function OccurringAs(key: OccurrenceKey): Snapshot -> seq<nat> {
    (s: Snapshot) => IndexesOf(ReferenceKeys(s.references), key)
  }

  ghost function TypeNamed(name: string): Snapshot -> seq<nat> {
    (s: Snapshot) => IndexesOf(TypeKeys(s.symbols), name)
  }

  /** The first function of that name in a document. */
  ghost function FunctionNamed(name: string): Snapshot -> seq<nat> {
    (s: Snapshot) => FirstOnly(IndexesOf(FunctionKeys(s.symbols), name))
  }

  /** Every function of that name in a document. */
  ghost function FunctionsNamed(name: string): Snapshot -> seq<nat> {
    (s: Snapshot) => IndexesOf(FunctionKeys(s.symbols), name)
  }

  ghost function Claiming(identity: string): Snapshot -> seq<nat> {
    (s: Snapshot) => IndexesOf(IdentityKeys(s.symbols), identity)
  }

  /** The enumerated bucket of a key is the scan for it. */
  ghost predicate Scanned(docs: map<string, Snapshot>, bucket: set<Site>, list: Snapshot -> seq<nat>) {
    && TotalOrder(SiteLess)
    && (forall i :: 0 <= i < |Uris(docs)| ==> Uris(docs)[i] in docs)
    && Ascending(bucket, SiteLess) == ScanSites(docs, Uris(docs), list)
    && (forall s :: s in bucket <==> s.0 in docs && s.1 in list(docs[s.0]))
  }

  ghost predicate Contributes<K(!new)>(entries: map<string, WorkspaceEntry>, docs: map<string, Snapshot>,
                                       part: (string, WorkspaceEntry) -> set<(K, Site)>, k: K,
                                       list: Snapshot -> seq<nat>, uri: string)
    requires uri in entries && uri in docs
  {
    Ascends(list(docs[uri])) && forall s :: (k, s) in part(uri, entries[uri]) <==> s.0 == uri && s.1 in list(docs[uri])
  }

  lemma PartScan<K(!new)>(entries: map<string, WorkspaceEntry>, docs: map<string, Snapshot>,
                          part: (string, WorkspaceEntry) -> set<(K, Site)>, k: K, list: Snapshot -> seq<nat>)
    requires Built(entries, docs) && forall uri :: uri in docs ==> Contributes(entries, docs, part, k, list, uri)
    ensures Scanned(docs, Bucket(Group(All(entries, part)), k), list)
  {
    hide Bucket, Group, All;
    var bucket := Bucket(Group(All(entries, part)), k);
    AllHas(entries, part, k);
    assert forall uri :: uri in docs ==> Contributes(entries, docs, part, k, list, uri);
    BucketIsScan(docs, bucket, list);
  }

  lemma DeclarationsScan(entries: map<string, WorkspaceEntry>, docs: map<string, Snapshot>, key: DeclarationKey)
    requires Built(entries, docs)
    ensures Scanned(docs, Bucket(Rebuild(entries).declarations, key), DeclaredAs(key))
  {
    hide Bucket, Group, All, Listed, Grouped, IndexesOf, Scanned;
    forall uri | uri in docs
      ensures Contributes(entries, docs, Declarations, key, DeclaredAs(key), uri)
    {
      IndexesAscend(DeclarationKeys(docs[uri].symbols), key);
      forall s {
        ListedHas(uri, DeclarationKeys(docs[uri].symbols), key, s);
      }
    }
    PartScan(entries, docs, Declarations, key, DeclaredAs(key));
  }

  lemma OccurrencesScan(entries: map<string, WorkspaceEntry>, docs: map<string, Snapshot>, key: OccurrenceKey)
    requires Built(entries, docs)
    ensures Scanned(docs, Bucket(Rebuild(entries).occurrences, key), OccurringAs(key))
  {
    hide Bucket, Group, All, Listed, Grouped, IndexesOf, Scanned;
    forall uri | uri in docs
      ensures Contributes(entries, docs, Occurrences, key, OccurringAs(key), uri)
    {
      IndexesAscend(ReferenceKeys(docs[uri].references), key);
      forall s {
        ListedHas(uri, ReferenceKeys(docs[uri].references), key, s);
      }
    }
    PartScan(entries, docs, Occurrences, key, OccurringAs(key));
  }

  lemma TypesScan(entries: map<string, WorkspaceEntry>, docs: map<string, Snapshot>, name: string)
    requires Built(entries, docs)
    ensures Scanned(docs, Bucket(Rebuild(entries).types, name), TypeNamed(name))
  {
    hide Bucket, Group, All, Listed, Grouped, IndexesOf, Scanned;
    forall uri | uri in docs
      ensures Contributes(entries, docs, Types, name, TypeNamed(name), uri)
    {
      IndexesAscend(TypeKeys(docs[uri].symbols), name);
      forall s {
        ListedHas(uri, TypeKeys(docs[uri].symbols), name, s);
      }
    }
    PartScan(entries, docs, Types, name, TypeNamed(name));
  }

  lemma FunctionsScan(entries: map<string, WorkspaceEntry>, docs: map<string, Snapshot>, name: string)
    requires Built(entries, docs)
    ensures Scanned(docs, Bucket(Rebuild(entries).functions, name), FunctionNamed(name))
  {
    hide Bucket, Group, All, Singled, Firsts, IndexesOf, Scanned;
    forall uri | uri in docs
      ensures Contributes(entries, docs, Functions, name, FunctionNamed(name), uri)
    {
      IndexesAscend(FunctionKeys(docs[uri].symbols), name);
      forall s {
        SingledHas(uri, FunctionKeys(docs[uri].symbols), name, s);
      }
    }
    PartScan(entries, docs, Functions, name, FunctionNamed(name));
  }

  /** The first symbol of a document that claims an identity. */
  ghost function FirstClaiming(identity: string): Snapshot -> seq<nat> {
    (s: Snapshot) => FirstOnly(IndexesOf(IdentityKeys(s.symbols), identity))
  }

  lemma IdentitiesScan(entries: map<string, WorkspaceEntry>, docs: map<string, Snapshot>, identity: string)
    requires Built(entries, docs)
    ensures Scanned(docs, Bucket(Rebuild(entries).byIdentity, identity), FirstClaiming(identity))
  {
    hide Bucket, Group, All, Singled, Firsts, IndexesOf, Scanned;
    forall uri | uri in docs
      ensures Contributes(entries, docs, Identities, identity, FirstClaiming(identity), uri)
    {
      IndexesAscend(IdentityKeys(docs[uri].symbols), identity);
      forall s {
        SingledHas(uri, IdentityKeys(docs[uri].symbols), identity, s);
      }
    }
    PartScan(entries, docs, Identities, identity, FirstClaiming(identity));
  }

  /** The least site of the bucket of an identity is the first hit of a scan over every claim. */
  lemma FirstClaim(entries: map<string, WorkspaceEntry>, docs: map<string, Snapshot>, identity: string)
    requires Built(entries, docs)
    ensures forall i :: 0 <= i < |Uris(docs)| ==> Uris(docs)[i] in docs
    ensures var bucket, scan :=
              Bucket(Rebuild(entries).byIdentity, identity), ScanSites(docs, Uris(docs), Claiming(identity));
            HeadOf(bucket, scan)
  {
    hide Bucket, Rebuild, TextLess, Uris, SiteLess, ScanSites, HeadOf, Claiming, FirstClaiming;
    UrisAre(docs);
    IdentitiesScan(entries, docs, identity);
    ClaimsScan(docs, identity);
    var bucket := Bucket(Rebuild(entries).byIdentity, identity);
    var scan := ScanSites(docs, Uris(docs), Claiming(identity));
    forall s | s in scan
      ensures exists t :: t in bucket && (t == s || SiteLess(t, s))
    {
      EarlierClaim(docs, identity, s);
      var t := (s.0, FirstClaiming(identity)(docs[s.0])[0]);
      assert t in bucket;
    }
    forall t | t in bucket
      ensures t in scan
    {
      FirstIsClaim(docs[t.0], identity, t.1);
    }
    HeadIsLeast(bucket, scan);
  }

  /** The list starts with the least site of the bucket. */
  ghost predicate HeadOf(bucket: set<Site>, scan: seq<Site>) {
    && (bucket == {} <==> scan == [])
    && (forall s :: Least(s, bucket, SiteLess) ==> scan != [] && s == scan[0])
  }

  lemma ClaimsScan(docs: map<string, Snapshot>, identity: string)
    ensures forall i :: 0 <= i < |Uris(docs)| ==> Uris(docs)[i] in docs
    ensures var scan := ScanSites(docs, Uris(docs), Claiming(identity));
            && StrictlySorted(scan, SiteLess)
            && forall s :: s in scan <==> s.0 in docs && s.1 in Claiming(identity)(docs[s.0])
  {
    hide IndexesOf, TextLess, Uris, SiteLess;
    UrisAre(docs);
    forall uri | uri in docs
      ensures Ascends(Claiming(identity)(docs[uri]))
    {
      IndexesAscend(IdentityKeys(docs[uri].symbols), identity);
    }
    ScanMembers(docs, Uris(docs), Claiming(identity));
    ScanSorted(docs, Uris(docs), Claiming(identity));
  }

  lemma EarlierClaim(docs: map<string, Snapshot>, identity: string, s: Site)
    requires s.0 in docs && s.1 in Claiming(identity)(docs[s.0])
    ensures var first := FirstClaiming(identity)(docs[s.0]);
            |first| == 1 && ((s.0, first[0]) == s || SiteLess((s.0, first[0]), s))
  {
    hide IndexesOf, TextLess;
    var claims := Claiming(identity)(docs[s.0]);
    IndexesAscend(IdentityKeys(docs[s.0].symbols), identity);
    var i :| 0 <= i < |claims| && claims[i] == s.1;
    assert i == 0 || claims[0] < claims[i];
  }

  lemma FirstIsClaim(doc: Snapshot, identity: string, i: nat)
    requires i in FirstClaiming(identity)(doc)
    ensures i in Claiming(identity)(doc)
  {
    hide IndexesOf;
  }

  lemma UrisAre(docs: map<string, Snapshot>)
    ensures StrictlySorted(Uris(docs), TextLess) && forall uri :: uri in Uris(docs) <==> uri in docs
    ensures forall i :: 0 <= i < |Uris(docs)| ==> Uris(docs)[i] in docs
  {
    hide TextLess, Ascending;
    TextOrder();
    AscendingIs(docs.Keys, TextLess);
    assert forall i :: 0 <= i < |Uris(docs)| ==> Uris(docs)[i] in Uris(docs);
  }

  lemma HeadFirst(scan: seq<Site>, s: Site)
    requires StrictlySorted(scan, SiteLess) && s in scan
    ensures s == scan[0] || SiteLess(scan[0], s)
  {
    hide SiteLess;
    var i :| 0 <= i < |scan| && scan[i] == s;
    assert i == 0 || SiteLess(scan[0], scan[i]);
  }

  lemma HeadIsLeast(bucket: set<Site>, scan: seq<Site>)
    requires TotalOrder(SiteLess) && StrictlySorted(scan, SiteLess)
    requires forall t :: t in bucket ==> t in scan
    requires forall s :: s in scan ==> exists t :: t in bucket && (t == s || SiteLess(t, s))
    ensures HeadOf(bucket, scan)
  {
    hide SiteLess;
    assert scan != [] ==> scan[0] in scan;
    forall s | Least(s, bucket, SiteLess)
      ensures scan != [] && s == scan[0]
    {
      HeadFirst(scan, s);
      var t :| t in bucket && (t == scan[0] || SiteLess(t, scan[0]));
    }
  }

  // ----- functions of one name ---------------------------------------------------------------

  predicate IsFunction(doc: Snapshot, name: string, i: nat) {
    i < |doc.symbols| && doc.symbols[i].key.kind == Function && doc.symbols[i].key.name == name
  }

  /** Two functions of a document share the name. */
  ghost predicate Repeats(doc: Snapshot, name: string) {
    exists i, j :: i < j && IsFunction(doc, name, i) && IsFunction(doc, name, j)
  }

  lemma FunctionAt(doc: Snapshot, name: string, i: nat)
    ensures i in FunctionsNamed(name)(doc) <==> IsFunction(doc, name, i)
  {
    IndexesOfMembers(FunctionKeys(doc.symbols), name);
  }

  lemma RepeatsIs(doc: Snapshot, name: string)
    ensures Repeats(doc, name) <==> |FunctionsNamed(name)(doc)| > 1
  {
    hide IndexesOf, IsFunction;
    var list := FunctionsNamed(name)(doc);
    IndexesAscend(FunctionKeys(doc.symbols), name);
    forall i {
      FunctionAt(doc, name, i);
    }
    if |list| > 1 {
      assert list[0] in list && list[1] in list;
      assert IsFunction(doc, name, list[0]) && IsFunction(doc, name, list[1]);
    }
    if i, j :| i < j && IsFunction(doc, name, i) && IsFunction(doc, name, j) {
      assert i in list && j in list;
    }
  }

  lemma {:induction false} FirstsExactly(docs: map<string, Snapshot>, uris: seq<string>, name: string)
    requires forall i :: 0 <= i < |uris| ==> uris[i] in docs
    ensures var firsts, all := ScanSites(docs, uris, FunctionNamed(name)), ScanSites(docs, uris, FunctionsNamed(name));
            |firsts| <= |all| && (firsts == all <==> forall i :: 0 <= i < |uris| ==> !Repeats(docs[uris[i]], name))
    decreases |uris|
  {
    hide IndexesOf, Repeats;
    if uris != [] {
      FirstsExactly(docs, uris[1..], name);
      RepeatsIs(docs[uris[0]], name);
      var first, every := At(uris[0], FunctionNamed(name)(docs[uris[0]])),
          At(uris[0], FunctionsNamed(name)(docs[uris[0]]));
      var firsts, all := ScanSites(docs, uris[1..], FunctionNamed(name)),
          ScanSites(docs, uris[1..], FunctionsNamed(name));
      assert uris == [uris[0]] + uris[1..];
      if |every| <= 1 {
        assert first == every;
        SameTail(first, firsts, all);
      } else {
        assert |first + firsts| < |every + all|;
      }
    }
  }

  lemma SameTail<T>(a: seq<T>, b: seq<T>, c: seq<T>)
    ensures a + b == a + c <==> b == c
  {
    assert (a + b)[|a|..] == b && (a + c)[|a|..] == c;
  }

  /** The first functions of a name are all of them if and only if no document has two. */
  lemma FunctionsExactly(docs: map<string, Snapshot>, name: string)
    ensures forall i :: 0 <= i < |Uris(docs)| ==> Uris(docs)[i] in docs
    ensures ScanSites(docs, Uris(docs), FunctionNamed(name)) == ScanSites(docs, Uris(docs), FunctionsNamed(name))
            <==> forall uri :: uri in docs ==> !Repeats(docs[uri], name)
  {
    hide TextLess, Uris, ScanSites, Repeats;
    UrisAre(docs);
    var uris := Uris(docs);
    FirstsExactly(docs, uris, name);
    forall uri | uri in docs
      ensures exists i :: 0 <= i < |uris| && uris[i] == uri
    {
      assert uri in uris;
    }
  }

  function Declaring(names: seq<string>): Snapshot {
    Snapshot("", seq(|names|, i requires 0 <= i < |names| =>
        Symbol(None, DeclarationKey(i, i, 1, i, Function, names[i]), true)), [], [], false)
  }

  /** A document with two functions of one name: the second is not among the answers. */
  lemma RepeatedFunction()
    ensures var docs := map["a" := Declaring(["f", "f"]), "b" := Declaring(["f"])];
            && Repeats(docs["a"], "f")
            && (forall i :: 0 <= i < |Uris(docs)| ==> Uris(docs)[i] in docs)
            && var firsts, all := ScanSites(docs, Uris(docs), FunctionNamed("f")),
                ScanSites(docs, Uris(docs), FunctionsNamed("f"));
               && ("a", 0) in firsts && ("a", 1) !in firsts && ("b", 0) in firsts
               && ("a", 0) in all && ("a", 1) in all && ("b", 0) in all
  {
    hide TextLess, Uris, ScanSites, IndexesOf;
    var docs := map["a" := Declaring(["f", "f"]), "b" := Declaring(["f"])];
    UrisAre(docs);
    FirstFunction(docs["a"]);
    FirstFunction(docs["b"]);
    FunctionAt(docs["a"], "f", 1);
    assert IsFunction(docs["a"], "f", 0) && IsFunction(docs["a"], "f", 1);
    ScanMembers(docs, Uris(docs), FunctionNamed("f"));
    ScanMembers(docs, Uris(docs), FunctionsNamed("f"));
  }

  lemma FirstFunction(doc: Snapshot)
    requires IsFunction(doc, "f", 0)
    ensures FunctionNamed("f")(doc) == [0] && 0 in FunctionsNamed("f")(doc)
  {
    hide IndexesOf;
    FunctionAt(doc, "f", 0);
    IndexesAscend(FunctionKeys(doc.symbols), "f");
    var list := FunctionsNamed("f")(doc);
    assert forall i :: 0 < i < |list| ==> list[i] > 0;
  }

  // ----- exporters and importers -------------------------------------------------------------

  /** A document declares a module, and offers the name from it. */
  ghost predicate Offers(docs: map<string, Snapshot>, declaredModule: string, uri: string, name: string) {
    && uri in docs && declaredModule != "" && docs[uri].declaredModule == declaredModule
    && exists i :: 0 <= i < |docs[uri].symbols| && OffersAt(docs[uri].symbols[i], name)
  }

  predicate OffersAt(symbol: Symbol, name: string) {
    symbol.topLevel && (symbol.key.kind == Function || IsType(symbol.key.kind)) && symbol.key.name == name
  }

  ghost predicate DependsOn(docs: map<string, Snapshot>, uri: string, dependency: string) {
    uri in docs && exists edge :: edge in docs[uri].deps && edge.uri == dependency
  }

  lemma ExportedNames(symbols: seq<Symbol>, name: string)
    ensures name in KeySet(ExportKeys(symbols)) <==> exists i :: 0 <= i < |symbols| && OffersAt(symbols[i], name)
  {
    var keys := ExportKeys(symbols);
    if name in KeySet(keys) {
      var i :| 0 <= i < |keys| && keys[i].Some? && keys[i].value == name;
      assert OffersAt(symbols[i], name);
    }
    if i :| 0 <= i < |symbols| && OffersAt(symbols[i], name) {
      assert keys[i].Some? && keys[i].value == name;
    }
  }

  lemma ExportersAre(entries: map<string, WorkspaceEntry>, docs: map<string, Snapshot>, name: string)
    requires Built(entries, docs)
    ensures forall p :: p in Bucket(Rebuild(entries).exporters, name) <==> Offers(docs, p.0, p.1, name)
  {
    hide Bucket, Group, All, Firsts, Grouped, KeySet, ExportKeys;
    AllHas(entries, Exported, name);
    forall p: (string, string)
      ensures (exists uri :: uri in entries && (name, p) in Exported(uri, entries[uri]))
                <==> Offers(docs, p.0, p.1, name)
    {
      if p.1 in docs {
        ExportedNames(docs[p.1].symbols, name);
      }
      if Offers(docs, p.0, p.1, name) {
        assert (name, p) in Exported(p.1, entries[p.1]);
      }
    }
  }

  lemma ImportersAre(entries: map<string, WorkspaceEntry>, docs: map<string, Snapshot>, dependency: string)
    requires Built(entries, docs)
    ensures forall uri :: uri in Bucket(Rebuild(entries).reverseDeps, dependency) <==> DependsOn(docs, uri, dependency)
  {
    hide Bucket, Group, All, Firsts, Grouped, KeySet;
    AllHas(entries, Imports, dependency);
    forall uri: string
      ensures (exists u :: u in entries && (dependency, uri) in Imports(u, entries[u]))
                <==> DependsOn(docs, uri, dependency)
    {
      if DependsOn(docs, uri, dependency) {
        assert (dependency, uri) in Imports(uri, entries[uri]);
      }
    }
  }
}
