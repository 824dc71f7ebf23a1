/** The resident workspace index (crates/service-core/src/workspace_index.rs): entries by document, and eight
    global maps that every publish and remove updates in place. The invariant says that each global map is
    the one a rebuild from the resident entries would give. */
module WorkspaceIndexes {
  import opened Outcomes
  import opened Ordered
  import opened Buckets
  import opened WorkspaceEntries
  import opened WorkspaceGlobals
  import opened WorkspaceScans
  import opened OccurrenceRanges
  import opened WorkspaceAnswers

  class WorkspaceIndex {
    var entries: map<string, WorkspaceEntry>
    var byIdentity: map<string, set<Site>>
    var declarations: map<DeclarationKey, set<Site>>
    var occurrences: map<OccurrenceKey, set<Site>>
    var functions: map<string, set<Site>>
    var types: map<string, set<Site>>
    var exporters: map<string, set<(string, string)>>
    var reverseDeps: map<string, set<string>>
    var externalDepUris: set<string>

    function Maps(): Globals
      reads this
    {
      Globals(byIdentity, declarations, occurrences, functions, types, exporters, reverseDeps, externalDepUris)
    }

    /** Every global map is the one rebuilt from the resident entries: no stale member, no empty bucket. */
    ghost predicate Valid()
      reads this
    {
      Maps() == Rebuild(entries)
    }

    constructor ()
      ensures Valid() && entries == map[]
    {
      entries, byIdentity, declarations, occurrences := map[], map[], map[], map[];
      functions, types, exporters, reverseDeps, externalDepUris := map[], map[], map[], map[], {};
    }

    /** `publish` */
    method Publish(uri: string, e: WorkspaceEntry)
      requires Valid() && Listable(e)
      modifies this
      ensures Valid() && entries == old(entries)[uri := e]
    {
      Remove(uri);
      Contribute(uri, e);
      assert old(entries)[uri := e] == (old(entries) - {uri})[uri := e];
    }

    /** What `publish` does once the document's old entry is gone. */
    method Contribute(uri: string, e: WorkspaceEntry)
      requires Valid() && Listable(e) && uri !in entries
      modifies this
      ensures Valid() && entries == old(entries)[uri := e]
    {
      hide Group, All, Identities, Declarations, Occurrences, Functions, Types, Exported, Imports, External, NoneEmpty,
          Listed, Singled;
      RebuildAdd(entries, uri, e);
      Unfolded(uri, e);
      var identities := InsertSingled(byIdentity, uri, e.byIdentity, All(entries, Identities));
      var declared := InsertListed(declarations, uri, e.declarations, All(entries, Declarations));
      var occurring := InsertListed(occurrences, uri, e.occurrences, All(entries, Occurrences));
      var callable := InsertSingled(functions, uri, e.functions, All(entries, Functions));
      var typed := InsertListed(types, uri, e.types, All(entries, Types));
      var offering := InsertExports(exporters, uri, e, All(entries, Exported));
      var importing := InsertImports(reverseDeps, uri, e, All(entries, Imports));
      var external := if e.hasExternalDep then externalDepUris + {uri} else externalDepUris;
      Store(Globals(identities, declared, occurring, callable, typed, offering, importing, external));
      entries := entries[uri := e];
    }

    /** Writes all eight maps back. */
    method Store(g: Globals)
      modifies this
      ensures Maps() == g && entries == old(entries)
    {
      byIdentity, declarations, occurrences, functions := g.byIdentity, g.declarations, g.occurrences, g.functions;
      types, exporters, reverseDeps, externalDepUris := g.types, g.exporters, g.reverseDeps, g.externalDepUris;
    }

    /** `remove` */
    method Remove(uri: string)
      requires Valid()
      modifies this
      ensures Valid() && entries == old(entries) - {uri}
    {
      hide Group, All, Identities, Declarations, Occurrences, Functions, Types, Exported, Imports, External, NoneEmpty,
          Listed, Singled;
      if uri !in entries {
        return;
      }
      var e := entries[uri];
      RebuildDrop(entries, uri);
      Unfolded(uri, e);
      var identities := RemoveSingled(byIdentity, uri, e.byIdentity, All(entries, Identities));
      var declared := RemoveListed(declarations, uri, e.declarations, All(entries, Declarations));
      var occurring := RemoveListed(occurrences, uri, e.occurrences, All(entries, Occurrences));
      var callable := RemoveSingled(functions, uri, e.functions, All(entries, Functions));
      var typed := RemoveListed(types, uri, e.types, All(entries, Types));
      var offering := RemoveExports(exporters, uri, e, All(entries, Exported));
      var importing := RemoveImports(reverseDeps, uri, e, All(entries, Imports));
      Store(Globals(identities, declared, occurring, callable, typed, offering, importing, externalDepUris - {uri}));
      entries := entries - {uri};
    }

    // ----- lookups, against a scan of the documents the entries were built from ----------------

    /** `lookup_identity`: the first claim a scan of all symbols in URI order would meet. */
    method LookupIdentity(identity: string, ghost docs: map<string, Snapshot>) returns (r: Option<Site>)
      requires Valid() && Built(entries, docs)
      ensures forall i :: 0 <= i < |Uris(docs)| ==> Uris(docs)[i] in docs
      ensures var scan := ScanSites(docs, Uris(docs), Claiming(identity));
              r == if scan == [] then None else Some(scan[0])
      ensures r.None? ==> forall s :: !Claims(docs, s, identity)
      ensures r.Some? ==> Claims(docs, r.value, identity)
                          && forall s :: Claims(docs, s, identity) ==> s == r.value || Before(r.value, s)
    {
      hide Group, All, SiteLess, Uris, ScanSites, Before, Claims;
      ClaimsAnswer(docs, identity);
      FirstClaim(entries, docs, identity);
      GroupHas(All(entries, Identities), identity);
      if identity !in byIdentity {
        return None;
      }
      var bucket := byIdentity[identity];
      BucketIs(byIdentity, identity);
      SiteOrder();
      ghost var least := LeastExists(bucket, SiteLess);
      var first :| first in bucket && forall s :: s in bucket ==> s == first || SiteLess(first, s);
      assert Least(first, bucket, SiteLess);
      return Some(first);
    }

    /** `lookup_declarations` */
    method LookupDeclarations(key: DeclarationKey, ghost docs: map<string, Snapshot>) returns (r: seq<Site>)
      requires Valid() && Built(entries, docs)
      ensures forall i :: 0 <= i < |Uris(docs)| ==> Uris(docs)[i] in docs
      ensures r == ScanSites(docs, Uris(docs), DeclaredAs(key))
      ensures SitesAscend(r) && forall s :: s in r <==> Declares(docs, s, key)
    {
      hide Group, All, SiteLess, ScanSites, Uris, SitesAscend, Declares;
      DeclarationsAnswer(docs, key);
      SiteOrder();
      DeclarationsScan(entries, docs, key);
      r := InOrder(if key in declarations then declarations[key] else {}, SiteLess);
    }

    /** `lookup_function`: the first function of that name in each document; all of them if and only if no
        document has two. */
    method LookupFunction(name: string, ghost docs: map<string, Snapshot>) returns (r: seq<Site>)
      requires Valid() && Built(entries, docs)
      ensures forall i :: 0 <= i < |Uris(docs)| ==> Uris(docs)[i] in docs
      ensures r == ScanSites(docs, Uris(docs), FunctionNamed(name))
      ensures r == ScanSites(docs, Uris(docs), FunctionsNamed(name)) <==>
                forall uri :: uri in docs ==> !Repeats(docs[uri], name)
      ensures SitesAscend(r) && forall s :: s in r <==> FirstFunctionAt(docs, s, name)
    {
      hide Group, All, SiteLess, ScanSites, Uris, Repeats, SitesAscend, FirstFunctionAt;
      FunctionsAnswer(docs, name);
      SiteOrder();
      FunctionsExactly(docs, name);
      FunctionsScan(entries, docs, name);
      r := InOrder(if name in functions then functions[name] else {}, SiteLess);
    }

    /** `lookup_type` */
    method LookupType(name: string, ghost docs: map<string, Snapshot>) returns (r: seq<Site>)
      requires Valid() && Built(entries, docs)
      ensures forall i :: 0 <= i < |Uris(docs)| ==> Uris(docs)[i] in docs
      ensures r == ScanSites(docs, Uris(docs), TypeNamed(name))
      ensures SitesAscend(r) && forall s :: s in r <==> NamesType(docs, s, name)
    {
      hide Group, All, SiteLess, ScanSites, Uris, SitesAscend, NamesType;
      TypesAnswer(docs, name);
      SiteOrder();
      TypesScan(entries, docs, name);
      r := InOrder(if name in types then types[name] else {}, SiteLess);
    }

    /** `exporters_of`: the modules and documents that offer a name, by module, then by URI. */
    method ExportersOf(name: string, ghost docs: map<string, Snapshot>) returns (r: seq<(string, string)>)
      requires Valid() && Built(entries, docs)
      ensures StrictlySorted(r, TextPairLess)
      ensures forall p :: p in r <==> OffersName(docs, p.0, p.1, name)
    {
      hide Group, All, TextLess, Ascending, Offers, OffersName;
      forall p: (string, string) {
        OffersAnswer(docs, p.0, p.1, name);
      }
      TextPairOrder();
      ExportersAre(entries, docs, name);
      var bucket := if name in exporters then exporters[name] else {};
      assert bucket == Bucket(exporters, name);
      AscendingIs(bucket, TextPairLess);
      r := InOrder(bucket, TextPairLess);
    }

    /** `importers_of`: the documents with an edge to a document, by URI. */
    method ImportersOf(dependency: string, ghost docs: map<string, Snapshot>) returns (r: seq<string>)
      requires Valid() && Built(entries, docs)
      ensures StrictlySorted(r, TextLess)
      ensures forall uri :: uri in r <==> DependsOn(docs, uri, dependency)
      ensures forall uri :: uri in r <==>
                            uri in docs && exists edge :: edge in docs[uri].deps && edge.uri == dependency
    {
      hide Group, All, TextLess, Ascending;
      TextOrder();
      ImportersAre(entries, docs, dependency);
      var bucket := if dependency in reverseDeps then reverseDeps[dependency] else {};
      assert bucket == Bucket(reverseDeps, dependency);
      AscendingIs(bucket, TextLess);
      r := InOrder(bucket, TextLess);
    }

    /** `external_dep_uris`: the documents that depend on files outside the store, by URI. */
    method ExternalDepUris(ghost docs: map<string, Snapshot>) returns (r: seq<string>)
      requires Valid() && Built(entries, docs)
      ensures StrictlySorted(r, TextLess)
      ensures forall uri :: uri in r <==> uri in docs && docs[uri].hasExternalDep
    {
      hide Group, All, TextLess, Ascending;
      TextOrder();
      AscendingIs(externalDepUris, TextLess);
      r := InOrder(externalDepUris, TextLess);
    }

    /** The projection at the end of both occurrence lookups. */
    method Project(sites: seq<Site>, ghost docs: map<string, Snapshot>) returns (r: seq<IndexedOccurrence>)
      requires Built(entries, docs) && AllKnown(docs, sites)
      ensures r == Projected(docs, sites)
    {
      hide Firsts, Grouped, KeySet;
      r := [];
      for i := 0 to |sites|
        invariant AllKnown(docs, sites[..i]) && r == Projected(docs, sites[..i])
      {
        var uri, index := sites[i].0, sites[i].1;
        assert sites[i] in sites && Known(docs, sites[i]);
        if uri in entries {
          var e := entries[uri];
          assert e == EntryOf(docs[uri]);
          if index < |e.occurrenceRanges| {
            r := r + [IndexedOccurrence(uri, e.occurrenceRanges[index], if index < |e.enclosing|
                then e.enclosing[index] else None)];
          }
        }
        assert sites[..i + 1] == sites[..i] + [sites[i]];
      }
      assert sites[..|sites|] == sites;
    }

    /** `lookup_occurrences` */
    method LookupOccurrences(key: OccurrenceKey, ghost docs: map<string, Snapshot>) returns (r: seq<IndexedOccurrence>)
      requires Valid() && Built(entries, docs)
      ensures forall i :: 0 <= i < |Uris(docs)| ==> Uris(docs)[i] in docs
      ensures var scan := ScanSites(docs, Uris(docs), OccurringAs(key));
              && AllKnown(docs, scan) && r == Projected(docs, scan)
              && SitesAscend(scan) && (forall s :: s in scan <==> Uses(docs, s, key)) && OccurrencesAt(docs, scan, r)
    {
      hide Group, All, SiteLess, ScanSites, Uris, Projected, Ascending, OccurringAs, SitesAscend, Uses, OccurrencesAt;
      OccurrencesAnswer(docs, key);
      SiteOrder();
      OccurrencesScan(entries, docs, key);
      BuiltBuckets(entries, docs);
      var bucket := if key in occurrences then occurrences[key] else {};
      assert bucket == Bucket(occurrences, key);
      AscendingIs(bucket, SiteLess);
      var sites := InOrder(bucket, SiteLess);
      r := Project(sites, docs);
      ProjectedAre(docs, sites);
    }

    /** `occurrences_for_declaration`: every bucket of a range of keys, in key order. */
    method OccurrencesForDeclaration(span: SourceSpan, kind: SymbolKind, ghost docs: map<string, Snapshot>)
      returns (r: seq<IndexedOccurrence>)
      requires Valid() && Built(entries, docs)
      ensures var ranged := RangeSites(occurrences, RangeKeys(occurrences, span, kind));
              && AllKnown(docs, ranged) && r == Projected(docs, ranged)
              && KeyOrdered(docs, ranged) && (forall s :: s in ranged <==> Found(docs, span, kind, s))
              && OccurrencesAt(docs, ranged, r)
    {
      hide Group, All, SiteLess, KeyLess, Projected, Ascending, InRange, Known, KeyOrdered, Found, OccurrencesAt;
      KeyOrder();
      SiteOrder();
      BuiltBuckets(entries, docs);
      SortedRange(occurrences, docs, span, kind);
      RangeKeysAre(occurrences, span, kind);
      RangeMembers(occurrences, docs, RangeKeys(occurrences, span, kind));
      var keys := InOrder(KeysWithin(occurrences, span, kind), KeyLess);
      var sites: seq<Site> := [];
      assert keys[0..] == keys;
      for i := 0 to |keys|
        invariant RangeSites(occurrences, keys) == sites + RangeSites(occurrences, keys[i..])
      {
        assert keys[i] in keys;
        var bucket := InOrder(occurrences[keys[i]], SiteLess);
        BucketIs(occurrences, keys[i]);
        assert keys[i..][0] == keys[i] && keys[i..][1..] == keys[i + 1..];
        sites := sites + bucket;
      }
      assert sites == RangeSites(occurrences, keys);
      r := Project(sites, docs);
      ProjectedAre(docs, sites);
    }
  }

  // ----- whole runs --------------------------------------------------------------------------

  datatype Operation = PublishSnapshot(uri: string, snapshot: Snapshot) | RemoveDocument(uri: string)

  /** The documents resident after a run. */
  function Resident(docs: map<string, Snapshot>, ops: seq<Operation>): map<string, Snapshot>
    decreases |ops|
  {
    if ops == [] then docs else Resident(Applied(docs, ops[0]), ops[1..])
  }

  function Applied(docs: map<string, Snapshot>, op: Operation): map<string, Snapshot> {
    if op.PublishSnapshot? then docs[op.uri := op.snapshot] else docs - {op.uri}
  }

  /** Whatever is published and removed, in whatever order, the entries are those of the documents that are
      left and every global map is the rebuilt one. */
  method Run(index: WorkspaceIndex, ops: seq<Operation>, ghost docs: map<string, Snapshot>)
    requires index.Valid() && Built(index.entries, docs)
    modifies index
    ensures index.Valid() && Built(index.entries, Resident(docs, ops))
  {
    hide EntryOf, WorkspaceIndex.Valid;
    ghost var now := docs;
    assert ops[0..] == ops;
    for i := 0 to |ops|
      invariant index.Valid() && Built(index.entries, now)
      invariant Resident(docs, ops) == Resident(now, ops[i..])
    {
      assert ops[i..][0] == ops[i] && ops[i..][1..] == ops[i + 1..];
      if ops[i].PublishSnapshot? {
        var e := Build(ops[i].snapshot);
        BuiltListable(ops[i].snapshot);
        index.Publish(ops[i].uri, e);
      } else {
        index.Remove(ops[i].uri);
      }
      now := Applied(now, ops[i]);
    }
  }

  /** The global maps are a function of the resident documents. */
  lemma SameDocumentsSameMaps(a: map<string, WorkspaceEntry>, b: map<string, WorkspaceEntry>,
                              docs: map<string, Snapshot>)
    requires Built(a, docs) && Built(b, docs)
    ensures a == b && Rebuild(a) == Rebuild(b)
  {
    hide EntryOf, Rebuild;
    assert forall uri :: uri in a ==> a[uri] == b[uri];
  }

  /** The last operation of a run on a document. */
  function Last(ops: seq<Operation>, uri: string): Option<Operation>
    decreases |ops|
  {
    if ops == [] then None
    else if Last(ops[1..], uri).Some? then Last(ops[1..], uri)
    else if ops[0].uri == uri then Some(ops[0])
    else None
  }

  /** A document is resident as its last operation says, or as it was. */
  lemma {:induction false} ResidentAt(docs: map<string, Snapshot>, ops: seq<Operation>, uri: string)
    ensures var now, last := Resident(docs, ops), Last(ops, uri);
            && (uri in now <==> if last.None? then uri in docs else last.value.PublishSnapshot?)
            && (uri in now ==> now[uri] == if last.None? then docs[uri] else last.value.snapshot)
    decreases |ops|
  {
    if ops != [] {
      ResidentAt(Applied(docs, ops[0]), ops[1..], uri);
    }
  }

  /** Two runs with the same last operation on every document end with the same entries and the same maps. */
  lemma RunsAgree(docs: map<string, Snapshot>, ops: seq<Operation>, others: seq<Operation>,
                  a: map<string, WorkspaceEntry>, b: map<string, WorkspaceEntry>)
    requires Built(a, Resident(docs, ops)) && Built(b, Resident(docs, others))
    requires forall uri :: Last(ops, uri) == Last(others, uri)
    ensures a == b && Rebuild(a) == Rebuild(b)
  {
    hide EntryOf, Rebuild, Resident, Last;
    var left, right := Resident(docs, ops), Resident(docs, others);
    forall uri
      ensures (uri in left <==> uri in right) && (uri in left ==> left[uri] == right[uri])
    {
      ResidentAt(docs, ops, uri);
      ResidentAt(docs, others, uri);
    }
    assert left == right;
    SameDocumentsSameMaps(a, b, left);
  }

  lemma LastOfTwo(a: Operation, b: Operation, uri: string)
    ensures Last([a, b], uri) == if b.uri == uri then Some(b) else if a.uri == uri then Some(a) else None
  {
    assert [a, b][1..] == [b] && [b][1..] == [];
    assert Last([b], uri) == if b.uri == uri then Some(b) else None;
  }

  /** Publishing two documents in either order ends with the same index. */
  method PublishesCommute(index: WorkspaceIndex, other: WorkspaceIndex, u: string, s: Snapshot, v: string, t: Snapshot,
                          ghost docs: map<string, Snapshot>)
    requires u != v && index != other
    requires index.Valid() && other.Valid() && Built(index.entries, docs) && Built(other.entries, docs)
    modifies index, other
    ensures index.entries == other.entries && index.Maps() == other.Maps()
  {
    hide EntryOf, Rebuild, Resident, Last;
    var here, there := PublishSnapshot(u, s), PublishSnapshot(v, t);
    Run(index, [here, there], docs);
    Run(other, [there, here], docs);
    forall uri
      ensures Last([here, there], uri) == Last([there, here], uri)
    {
      LastOfTwo(here, there, uri);
      LastOfTwo(there, here, uri);
    }
    RunsAgree(docs, [here, there], [there, here], index.entries, other.entries);
  }

  /** Publishing a new document and removing it again changes nothing. */
  method PublishUndone(index: WorkspaceIndex, u: string, s: Snapshot, ghost docs: map<string, Snapshot>)
    requires index.Valid() && Built(index.entries, docs) && u !in docs
    modifies index
    ensures index.entries == old(index.entries) && index.Maps() == old(index.Maps())
  {
    hide EntryOf, Rebuild, Resident, Last;
    Run(index, [PublishSnapshot(u, s), RemoveDocument(u)], docs);
    ghost var now := Resident(docs, [PublishSnapshot(u, s), RemoveDocument(u)]);
    forall uri
      ensures (uri in now <==> uri in docs) && (uri in docs ==> now[uri] == docs[uri])
    {
      ResidentAt(docs, [PublishSnapshot(u, s), RemoveDocument(u)], uri);
      LastOfTwo(PublishSnapshot(u, s), RemoveDocument(u), uri);
    }
    assert now == docs;
    SameDocumentsSameMaps(index.entries, old(index.entries), docs);
  }
}
