/** The global maps of the workspace index (crates/service-core/src/workspace_index.rs): what each entry
    contributes to them, the loops that put contributions in and take them out, and the maps rebuilt from
    scratch. */
module WorkspaceGlobals {
  import opened Outcomes
  import opened Buckets
  import opened WorkspaceEntries

  /** A symbol or a reference of a document, by its index there. */
  type Site = (string, nat)

  // ----- contributions -----------------------------------------------------------------------

  ghost function Sites(uri: string, list: seq<nat>): set<Site> {
    set i | i in list :: (uri, i)
  }

  /** The sites of a document under each key of one of its entry's list maps. */
  ghost function Listed<K>(uri: string, indexes: map<K, seq<nat>>, keys: set<K>): set<(K, Site)> {
    set k, s | k in keys && k in indexes && s in Sites(uri, indexes[k]) :: (k, s)
  }

  /** The site of a document under each key of one of its entry's first-index maps. */
  ghost function Singled<K>(uri: string, first: map<K, nat>, keys: set<K>): set<(K, Site)> {
    set k | k in keys && k in first :: (k, (uri, first[k]))
  }

  ghost function Identities(uri: string, e: WorkspaceEntry): set<(string, Site)> {
    Singled(uri, e.byIdentity, e.byIdentity.Keys)
  }

  ghost function Declarations(uri: string, e: WorkspaceEntry): set<(DeclarationKey, Site)> {
    Listed(uri, e.declarations, e.declarations.Keys)
  }

  ghost function Occurrences(uri: string, e: WorkspaceEntry): set<(OccurrenceKey, Site)> {
    Listed(uri, e.occurrences, e.occurrences.Keys)
  }

  ghost function Functions(uri: string, e: WorkspaceEntry): set<(string, Site)> {
    Singled(uri, e.functions, e.functions.Keys)
  }

  ghost function Types(uri: string, e: WorkspaceEntry): set<(string, Site)> {
    Listed(uri, e.types, e.types.Keys)
  }

  ghost function Exported(uri: string, e: WorkspaceEntry): set<(string, (string, string))> {
    if e.declaredModule == "" then {} else Offered(uri, e.declaredModule, e.exports)
  }

  ghost function Offered(uri: string, declaredModule: string, names: set<string>): set<(string, (string, string))> {
    set name | name in names :: (name, (declaredModule, uri))
  }

  ghost function Imports(uri: string, e: WorkspaceEntry): set<(string, string)> {
    set edge | edge in e.deps :: (edge.uri, uri)
  }

  /** What all resident entries contribute to one global map. */
  ghost function All<K(!new), V(!new)>(entries: map<string, WorkspaceEntry>,
                       part: (string, WorkspaceEntry) -> set<(K, V)>): set<(K, V)> {
    set uri, p | uri in entries && p in part(uri, entries[uri]) :: p
  }

  /** No two documents make the same contribution. */
  ghost predicate Tagged<K(!new), V(!new)>(part: (string, WorkspaceEntry) -> set<(K, V)>) {
    forall u, e, v, f, p :: p in part(u, e) && p in part(v, f) ==> u == v
  }

  lemma PartsTagged()
    ensures Tagged(Identities) && Tagged(Declarations) && Tagged(Occurrences) && Tagged(Functions) && Tagged(Types)
    ensures Tagged(Exported) && Tagged(Imports)
  {
  }

  lemma AllAdd<K(!new), V(!new)>(entries: map<string, WorkspaceEntry>, uri: string, e: WorkspaceEntry,
                 part: (string, WorkspaceEntry) -> set<(K, V)>)
    requires uri !in entries
    ensures All(entries[uri := e], part) == All(entries, part) + part(uri, e)
  {
    var more := entries[uri := e];
    forall p
      ensures p in All(more, part) <==> p in All(entries, part) || p in part(uri, e)
    {
      if p in All(entries, part) {
        var u :| u in entries && p in part(u, entries[u]);
        assert u in more && more[u] == entries[u];
      }
      if p in part(uri, e) {
        assert uri in more && more[uri] == e;
      }
    }
  }

  lemma AllDrop<K(!new), V(!new)>(entries: map<string, WorkspaceEntry>, uri: string,
                  part: (string, WorkspaceEntry) -> set<(K, V)>)
    requires uri in entries && Tagged(part)
    ensures All(entries - {uri}, part) == All(entries, part) - part(uri, entries[uri])
  {
    var rest := entries - {uri};
    assert rest[uri := entries[uri]] == entries;
    AllAdd(rest, uri, entries[uri], part);
  }

  ghost predicate NoneEmpty<K>(indexes: map<K, seq<nat>>) {
    forall k :: k in indexes ==> indexes[k] != []
  }

  // ----- updating one map --------------------------------------------------------------------

  lemma ListedGrows<K>(uri: string, indexes: map<K, seq<nat>>, keys: set<K>, k: K)
    requires k in indexes
    ensures Listed(uri, indexes, keys + {k}) == Listed(uri, indexes, keys) + Keyed(k, Sites(uri, indexes[k]))
  {
  }

  lemma InsertStep<K>(uri: string, indexes: map<K, seq<nat>>, done: set<K>, k: K, pairs: set<(K, Site)>)
    requires k in indexes && indexes[k] != []
    ensures var m := Group(pairs + Listed(uri, indexes, done));
            Group(pairs + Listed(uri, indexes, done + {k})) == m[k := Bucket(m, k) + Sites(uri, indexes[k])]
  {
    hide Group, Listed, Keyed;
    assert (uri, indexes[k][0]) in Sites(uri, indexes[k]);
    GroupAdd(pairs + Listed(uri, indexes, done), k, Sites(uri, indexes[k]));
    ListedGrows(uri, indexes, done, k);
    assert pairs + Listed(uri, indexes, done) + Keyed(k, Sites(uri, indexes[k]))
        == pairs + (Listed(uri, indexes, done) + Keyed(k, Sites(uri, indexes[k])));
  }

  lemma RemoveStep<K>(uri: string, indexes: map<K, seq<nat>>, done: set<K>, k: K, pairs: set<(K, Site)>)
    requires k in indexes
    ensures var m := Group(pairs - Listed(uri, indexes, done));
            Group(pairs - Listed(uri, indexes, done + {k})) == Dropped(m, k, Sites(uri, indexes[k]))
  {
    hide Group, Listed, Keyed, Sites, Dropped;
    GroupDrop(pairs - Listed(uri, indexes, done), k, Sites(uri, indexes[k]));
    ListedGrows(uri, indexes, done, k);
    assert pairs - Listed(uri, indexes, done) - Keyed(k, Sites(uri, indexes[k]))
        == pairs - (Listed(uri, indexes, done) + Keyed(k, Sites(uri, indexes[k])));
  }

  lemma NothingListed<K>(uri: string, indexes: map<K, seq<nat>>, pairs: set<(K, Site)>)
    ensures pairs + Listed(uri, indexes, {}) == pairs && pairs - Listed(uri, indexes, {}) == pairs
  {
  }

  method InsertSites(before: set<Site>, uri: string, list: seq<nat>) returns (bucket: set<Site>)
    ensures bucket == before + Sites(uri, list)
  {
    bucket := before;
    for i := 0 to |list|
      invariant bucket == before + Sites(uri, list[..i])
    {
      bucket := bucket + {(uri, list[i])};
      assert list[..i + 1] == list[..i] + [list[i]];
    }
    assert list[..|list|] == list;
  }

  method RemoveSites(before: set<Site>, uri: string, list: seq<nat>) returns (bucket: set<Site>)
    ensures bucket == before - Sites(uri, list)
  {
    bucket := before;
    for i := 0 to |list|
      invariant bucket == before - Sites(uri, list[..i])
    {
      bucket := bucket - {(uri, list[i])};
      assert list[..i + 1] == list[..i] + [list[i]];
    }
    assert list[..|list|] == list;
  }

  /** The insertion loop over an entry's list map. */
  method InsertListed<K(==)>(m: map<K, set<Site>>, uri: string, indexes: map<K, seq<nat>>, ghost pairs: set<(K, Site)>)
    returns (r: map<K, set<Site>>)
    requires m == Group(pairs) && NoneEmpty(indexes)
    ensures r == Group(pairs + Listed(uri, indexes, indexes.Keys))
  {
    hide Group, Listed;
    r := m;
    var todo := indexes.Keys;
    ghost var done: set<K> := {};
    NothingListed(uri, indexes, pairs);
    while todo != {}
      invariant todo + done == indexes.Keys
      invariant r == Group(pairs + Listed(uri, indexes, done))
      decreases |todo|
    {
      var key :| key in todo;
      InsertStep(uri, indexes, done, key, pairs);
      todo, done := todo - {key}, done + {key};
      var bucket := InsertSites(if key in r then r[key] else {}, uri, indexes[key]);
      r := r[key := bucket];
    }
  }

  /** The removal loop over an entry's list map. */
  method RemoveListed<K(==)>(m: map<K, set<Site>>, uri: string, indexes: map<K, seq<nat>>, ghost pairs: set<(K, Site)>)
    returns (r: map<K, set<Site>>)
    requires m == Group(pairs)
    ensures r == Group(pairs - Listed(uri, indexes, indexes.Keys))
  {
    hide Group, Listed;
    r := m;
    var todo := indexes.Keys;
    ghost var done: set<K> := {};
    NothingListed(uri, indexes, pairs);
    while todo != {}
      invariant todo + done == indexes.Keys
      invariant r == Group(pairs - Listed(uri, indexes, done))
      decreases |todo|
    {
      var key :| key in todo;
      RemoveStep(uri, indexes, done, key, pairs);
      todo, done := todo - {key}, done + {key};
      if key in r {
        var bucket := RemoveSites(r[key], uri, indexes[key]);
        if bucket == {} {
          r := r - {key};
        } else {
          r := r[key := bucket];
        }
      }
    }
  }

  // The maps that keep one site per key.

  lemma NothingSingled<K>(uri: string, first: map<K, nat>, pairs: set<(K, Site)>)
    ensures pairs + Singled(uri, first, {}) == pairs && pairs - Singled(uri, first, {}) == pairs
  {
  }

  lemma SingledGrows<K>(uri: string, first: map<K, nat>, done: set<K>, k: K, pairs: set<(K, Site)>)
    requires k in first
    ensures pairs + Singled(uri, first, done + {k}) == pairs + Singled(uri, first, done) + {(k, (uri, first[k]))}
    ensures pairs - Singled(uri, first, done + {k}) == pairs - Singled(uri, first, done) - {(k, (uri, first[k]))}
  {
    assert Singled(uri, first, done + {k}) == Singled(uri, first, done) + {(k, (uri, first[k]))};
  }

  method InsertSingled<K(==)>(m: map<K, set<Site>>, uri: string, first: map<K, nat>, ghost pairs: set<(K, Site)>)
    returns (r: map<K, set<Site>>)
    requires m == Group(pairs)
    ensures r == Group(pairs + Singled(uri, first, first.Keys))
  {
    hide Group, Singled;
    r := m;
    var todo := first.Keys;
    ghost var done: set<K> := {};
    NothingSingled(uri, first, pairs);
    while todo != {}
      invariant todo + done == first.Keys
      invariant r == Group(pairs + Singled(uri, first, done))
      decreases |todo|
    {
      var key :| key in todo;
      SingledGrows(uri, first, done, key, pairs);
      r := InsertIntoBucket(r, key, (uri, first[key]), pairs + Singled(uri, first, done));
      todo, done := todo - {key}, done + {key};
    }
  }

  method RemoveSingled<K(==)>(m: map<K, set<Site>>, uri: string, first: map<K, nat>, ghost pairs: set<(K, Site)>)
    returns (r: map<K, set<Site>>)
    requires m == Group(pairs)
    ensures r == Group(pairs - Singled(uri, first, first.Keys))
  {
    hide Group, Singled;
    r := m;
    var todo := first.Keys;
    ghost var done: set<K> := {};
    NothingSingled(uri, first, pairs);
    while todo != {}
      invariant todo + done == first.Keys
      invariant r == Group(pairs - Singled(uri, first, done))
      decreases |todo|
    {
      var key :| key in todo;
      SingledGrows(uri, first, done, key, pairs);
      r := RemoveFromBucket(r, key, (uri, first[key]), pairs - Singled(uri, first, done));
      todo, done := todo - {key}, done + {key};
    }
  }

  lemma NothingOffered(uri: string, declaredModule: string, pairs: set<(string, (string, string))>)
    ensures pairs + Offered(uri, declaredModule, {}) == pairs && pairs - Offered(uri, declaredModule, {}) == pairs
  {
  }

  lemma OfferedGrows(uri: string, declaredModule: string, done: set<string>, name: string,
                     pairs: set<(string, (string, string))>)
    ensures var one := {(name, (declaredModule, uri))};
            && pairs + Offered(uri, declaredModule, done + {name}) == pairs + Offered(uri, declaredModule, done) + one
            && pairs - Offered(uri, declaredModule, done + {name}) == pairs - Offered(uri, declaredModule, done) - one
  {
    assert Offered(uri, declaredModule, done + {name})
        == Offered(uri, declaredModule, done) + {(name, (declaredModule, uri))};
  }

  method InsertExports(m: map<string, set<(string, string)>>, uri: string, e: WorkspaceEntry,
                       ghost pairs: set<(string, (string, string))>)
    returns (r: map<string, set<(string, string)>>)
    requires m == Group(pairs)
    ensures r == Group(pairs + Exported(uri, e))
  {
    hide Group, Offered;
    r := m;
    assert e.declaredModule == "" ==> pairs + Exported(uri, e) == pairs;
    if e.declaredModule != "" {
      var todo := e.exports;
      ghost var done: set<string> := {};
      NothingOffered(uri, e.declaredModule, pairs);
      while todo != {}
        invariant todo + done == e.exports
        invariant r == Group(pairs + Offered(uri, e.declaredModule, done))
        decreases |todo|
      {
        var name :| name in todo;
        OfferedGrows(uri, e.declaredModule, done, name, pairs);
        r := InsertIntoBucket(r, name, (e.declaredModule, uri), pairs + Offered(uri, e.declaredModule, done));
        todo, done := todo - {name}, done + {name};
      }
    }
  }

  method RemoveExports(m: map<string, set<(string, string)>>, uri: string, e: WorkspaceEntry,
                       ghost pairs: set<(string, (string, string))>)
    returns (r: map<string, set<(string, string)>>)
    requires m == Group(pairs)
    ensures r == Group(pairs - Exported(uri, e))
  {
    hide Group, Offered;
    r := m;
    assert e.declaredModule == "" ==> pairs - Exported(uri, e) == pairs;
    if e.declaredModule != "" {
      var todo := e.exports;
      ghost var done: set<string> := {};
      NothingOffered(uri, e.declaredModule, pairs);
      while todo != {}
        invariant todo + done == e.exports
        invariant r == Group(pairs - Offered(uri, e.declaredModule, done))
        decreases |todo|
      {
        var name :| name in todo;
        OfferedGrows(uri, e.declaredModule, done, name, pairs);
        r := RemoveFromBucket(r, name, (e.declaredModule, uri), pairs - Offered(uri, e.declaredModule, done));
        todo, done := todo - {name}, done + {name};
      }
    }
  }

  method InsertImports(m: map<string, set<string>>, uri: string, e: WorkspaceEntry, ghost pairs: set<(string, string)>)
    returns (r: map<string, set<string>>)
    requires m == Group(pairs)
    ensures r == Group(pairs + Imports(uri, e))
  {
    hide Group;
    r := m;
    assert pairs + Imports(uri, e.(deps := e.deps[..0])) == pairs;
    for i := 0 to |e.deps|
      invariant r == Group(pairs + Imports(uri, e.(deps := e.deps[..i])))
    {
      ghost var done := pairs + Imports(uri, e.(deps := e.deps[..i]));
      r := InsertIntoBucket(r, e.deps[i].uri, uri, done);
      assert e.deps[..i + 1] == e.deps[..i] + [e.deps[i]];
      assert pairs + Imports(uri, e.(deps := e.deps[..i + 1])) == done + {(e.deps[i].uri, uri)};
    }
    assert e.deps[..|e.deps|] == e.deps;
  }

  method RemoveImports(m: map<string, set<string>>, uri: string, e: WorkspaceEntry, ghost pairs: set<(string, string)>)
    returns (r: map<string, set<string>>)
    requires m == Group(pairs)
    ensures r == Group(pairs - Imports(uri, e))
  {
    hide Group;
    r := m;
    assert pairs - Imports(uri, e.(deps := e.deps[..0])) == pairs;
    for i := 0 to |e.deps|
      invariant r == Group(pairs - Imports(uri, e.(deps := e.deps[..i])))
    {
      ghost var done := pairs - Imports(uri, e.(deps := e.deps[..i]));
      r := RemoveFromBucket(r, e.deps[i].uri, uri, done);
      assert e.deps[..i + 1] == e.deps[..i] + [e.deps[i]];
      assert pairs - Imports(uri, e.(deps := e.deps[..i + 1])) == done - {(e.deps[i].uri, uri)};
    }
    assert e.deps[..|e.deps|] == e.deps;
  }

  // ----- all eight maps ----------------------------------------------------------------------

  /** The lists of an entry as `build` leaves them: none is empty. */
  ghost predicate Listable(e: WorkspaceEntry) {
    NoneEmpty(e.declarations) && NoneEmpty(e.occurrences) && NoneEmpty(e.types)
  }

  lemma BuiltListable(s: Snapshot)
    ensures Listable(EntryOf(s))
  {
    forall k
      ensures k in Grouped(DeclarationKeys(s.symbols)) ==> Grouped(DeclarationKeys(s.symbols))[k] != []
    {
      IndexesOfNone(DeclarationKeys(s.symbols), k);
    }
    forall k
      ensures k in Grouped(ReferenceKeys(s.references)) ==> Grouped(ReferenceKeys(s.references))[k] != []
    {
      IndexesOfNone(ReferenceKeys(s.references), k);
    }
    forall k
      ensures k in Grouped(TypeKeys(s.symbols)) ==> Grouped(TypeKeys(s.symbols))[k] != []
    {
      IndexesOfNone(TypeKeys(s.symbols), k);
    }
  }

  ghost function External(entries: map<string, WorkspaceEntry>): set<string> {
    set uri | uri in entries && entries[uri].hasExternalDep
  }

  /** The eight global maps. */
  datatype Globals = Globals(
    byIdentity: map<string, set<Site>>,
    declarations: map<DeclarationKey, set<Site>>,
    occurrences: map<OccurrenceKey, set<Site>>,
    functions: map<string, set<Site>>,
    types: map<string, set<Site>>,
    exporters: map<string, set<(string, string)>>,
    reverseDeps: map<string, set<string>>,
    externalDepUris: set<string>)

  /** The global maps built from scratch: every entry's contributions, no empty bucket. */
  ghost function Rebuild(entries: map<string, WorkspaceEntry>): Globals {
    Globals(
      Group(All(entries, Identities)),
      Group(All(entries, Declarations)),
      Group(All(entries, Occurrences)),
      Group(All(entries, Functions)),
      Group(All(entries, Types)),
      Group(All(entries, Exported)),
      Group(All(entries, Imports)),
      External(entries))
  }

  lemma RebuildAdd(entries: map<string, WorkspaceEntry>, uri: string, e: WorkspaceEntry)
    requires uri !in entries
    ensures Rebuild(entries[uri := e]) == Globals(
              Group(All(entries, Identities) + Identities(uri, e)),
              Group(All(entries, Declarations) + Declarations(uri, e)),
              Group(All(entries, Occurrences) + Occurrences(uri, e)),
              Group(All(entries, Functions) + Functions(uri, e)),
              Group(All(entries, Types) + Types(uri, e)),
              Group(All(entries, Exported) + Exported(uri, e)),
              Group(All(entries, Imports) + Imports(uri, e)),
              if e.hasExternalDep then External(entries) + {uri} else External(entries))
  {
    hide Group, All, Identities, Declarations, Occurrences, Functions, Types, Exported, Imports;
    AllAdd(entries, uri, e, Identities);
    AllAdd(entries, uri, e, Declarations);
    AllAdd(entries, uri, e, Occurrences);
    AllAdd(entries, uri, e, Functions);
    AllAdd(entries, uri, e, Types);
    AllAdd(entries, uri, e, Exported);
    AllAdd(entries, uri, e, Imports);
  }

  lemma RebuildDrop(entries: map<string, WorkspaceEntry>, uri: string)
    requires uri in entries
    ensures var e := entries[uri];
            Rebuild(entries - {uri}) == Globals(
              Group(All(entries, Identities) - Identities(uri, e)),
              Group(All(entries, Declarations) - Declarations(uri, e)),
              Group(All(entries, Occurrences) - Occurrences(uri, e)),
              Group(All(entries, Functions) - Functions(uri, e)),
              Group(All(entries, Types) - Types(uri, e)),
              Group(All(entries, Exported) - Exported(uri, e)),
              Group(All(entries, Imports) - Imports(uri, e)),
              External(entries) - {uri})
  {
    hide Group, All, Identities, Declarations, Occurrences, Functions, Types, Exported, Imports, Tagged;
    PartsTagged();
    AllDrop(entries, uri, Identities);
    AllDrop(entries, uri, Declarations);
    AllDrop(entries, uri, Occurrences);
    AllDrop(entries, uri, Functions);
    AllDrop(entries, uri, Types);
    AllDrop(entries, uri, Exported);
    AllDrop(entries, uri, Imports);
  }

  lemma Unfolded(uri: string, e: WorkspaceEntry)
    ensures Identities(uri, e) == Singled(uri, e.byIdentity, e.byIdentity.Keys)
    ensures Declarations(uri, e) == Listed(uri, e.declarations, e.declarations.Keys)
    ensures Occurrences(uri, e) == Listed(uri, e.occurrences, e.occurrences.Keys)
    ensures Functions(uri, e) == Singled(uri, e.functions, e.functions.Keys)
    ensures Types(uri, e) == Listed(uri, e.types, e.types.Keys)
  {
  }
}
