/** What the lookups of the workspace index answer, said of the documents' own symbols and references. */
module WorkspaceAnswers {
  import opened Outcomes
  import opened Ordered
  import opened WorkspaceEntries
  import opened WorkspaceGlobals
  import opened WorkspaceScans
  import opened OccurrenceRanges

  // ----- sites -------------------------------------------------------------------------------

  /** By document, then by index. */
  predicate Before(a: Site, b: Site) {
    TextLess(a.0, b.0) || (a.0 == b.0 && a.1 < b.1)
  }

  ghost predicate SitesAscend(r: seq<Site>) {
    forall i, j :: 0 <= i < j < |r| ==> Before(r[i], r[j])
  }

  predicate HasSymbol(docs: map<string, Snapshot>, s: Site) {
    s.0 in docs && s.1 < |docs[s.0].symbols|
  }

  function SymbolAt(docs: map<string, Snapshot>, s: Site): Symbol
    requires HasSymbol(docs, s)
  {
    docs[s.0].symbols[s.1]
  }

  predicate Claims(docs: map<string, Snapshot>, s: Site, identity: string) {
    HasSymbol(docs, s) && SymbolAt(docs, s).identity == Some(identity)
  }

  predicate Declares(docs: map<string, Snapshot>, s: Site, key: DeclarationKey) {
    HasSymbol(docs, s) && SymbolAt(docs, s).key == key
  }

  /** Finite types and record types are types; nothing else is. */
  predicate NamesType(docs: map<string, Snapshot>, s: Site, name: string) {
    && HasSymbol(docs, s) && SymbolAt(docs, s).key.name == name
    && SymbolAt(docs, s).key.kind in {FiniteType, RecordType}
  }

  predicate NamesFunction(docs: map<string, Snapshot>, s: Site, name: string) {
    HasSymbol(docs, s) && SymbolAt(docs, s).key.name == name && SymbolAt(docs, s).key.kind == Function
  }

  /** The document's first function of that name. */
  ghost predicate FirstFunctionAt(docs: map<string, Snapshot>, s: Site, name: string) {
    NamesFunction(docs, s, name) && forall i: nat :: i < s.1 ==> !NamesFunction(docs, (s.0, i), name)
  }

  predicate Uses(docs: map<string, Snapshot>, s: Site, key: OccurrenceKey) {
    s.0 in docs && s.1 < |docs[s.0].references| && docs[s.0].references[s.1].key == key
  }

  /** A document with a declared module offers its top-level functions and types from there. */
  ghost predicate OffersName(docs: map<string, Snapshot>, declaredModule: string, uri: string, name: string) {
    && uri in docs && declaredModule != "" && docs[uri].declaredModule == declaredModule
    && exists i: nat :: HasSymbol(docs, (uri, i)) && SymbolAt(docs, (uri, i)).topLevel
                        && SymbolAt(docs, (uri, i)).key.name == name
                        && SymbolAt(docs, (uri, i)).key.kind in {Function, FiniteType, RecordType}
  }

  // ----- the scans ---------------------------------------------------------------------------

  lemma ScanAnswers(docs: map<string, Snapshot>, list: Snapshot -> seq<nat>)
    requires forall uri :: uri in docs ==> Ascends(list(docs[uri]))
    ensures forall i :: 0 <= i < |Uris(docs)| ==> Uris(docs)[i] in docs
    ensures var scan := ScanSites(docs, Uris(docs), list);
            SitesAscend(scan) && forall s :: s in scan <==> s.0 in docs && s.1 in list(docs[s.0])
  {
    hide TextLess, Uris, ScanSites;
    UrisAre(docs);
    ScanMembers(docs, Uris(docs), list);
    ScanSorted(docs, Uris(docs), list);
  }

  lemma ClaimsAnswer(docs: map<string, Snapshot>, identity: string)
    ensures forall i :: 0 <= i < |Uris(docs)| ==> Uris(docs)[i] in docs
    ensures var scan := ScanSites(docs, Uris(docs), Claiming(identity));
            && (forall s :: s in scan <==> Claims(docs, s, identity))
            && (scan != [] ==> scan[0] in scan && forall s :: s in scan ==> s == scan[0] || Before(scan[0], s))
  {
    hide TextLess, Uris, ScanSites, IndexesOf, Before;
    forall uri | uri in docs
      ensures Ascends(Claiming(identity)(docs[uri]))
      ensures forall i :: i in Claiming(identity)(docs[uri]) <==> Claims(docs, (uri, i), identity)
    {
      IndexesAscend(IdentityKeys(docs[uri].symbols), identity);
      IndexesOfMembers(IdentityKeys(docs[uri].symbols), identity);
    }
    ScanAnswers(docs, Claiming(identity));
    var scan := ScanSites(docs, Uris(docs), Claiming(identity));
    forall s
      ensures s in scan <==> Claims(docs, s, identity)
    {
      assert s == (s.0, s.1);
    }
  }

  lemma DeclarationsAnswer(docs: map<string, Snapshot>, key: DeclarationKey)
    ensures forall i :: 0 <= i < |Uris(docs)| ==> Uris(docs)[i] in docs
    ensures var scan := ScanSites(docs, Uris(docs), DeclaredAs(key));
            SitesAscend(scan) && forall s :: s in scan <==> Declares(docs, s, key)
  {
    hide TextLess, Uris, ScanSites, IndexesOf, SitesAscend;
    forall uri | uri in docs
      ensures Ascends(DeclaredAs(key)(docs[uri]))
      ensures forall i :: i in DeclaredAs(key)(docs[uri]) <==> Declares(docs, (uri, i), key)
    {
      IndexesAscend(DeclarationKeys(docs[uri].symbols), key);
      IndexesOfMembers(DeclarationKeys(docs[uri].symbols), key);
    }
    ScanAnswers(docs, DeclaredAs(key));
    forall s
      ensures s in ScanSites(docs, Uris(docs), DeclaredAs(key)) <==> Declares(docs, s, key)
    {
      assert s == (s.0, s.1);
    }
  }

  lemma TypesAnswer(docs: map<string, Snapshot>, name: string)
    ensures forall i :: 0 <= i < |Uris(docs)| ==> Uris(docs)[i] in docs
    ensures var scan := ScanSites(docs, Uris(docs), TypeNamed(name));
            SitesAscend(scan) && forall s :: s in scan <==> NamesType(docs, s, name)
  {
    hide TextLess, Uris, ScanSites, IndexesOf, SitesAscend;
    forall uri | uri in docs
      ensures Ascends(TypeNamed(name)(docs[uri]))
      ensures forall i :: i in TypeNamed(name)(docs[uri]) <==> NamesType(docs, (uri, i), name)
    {
      IndexesAscend(TypeKeys(docs[uri].symbols), name);
      IndexesOfMembers(TypeKeys(docs[uri].symbols), name);
    }
    ScanAnswers(docs, TypeNamed(name));
    forall s
      ensures s in ScanSites(docs, Uris(docs), TypeNamed(name)) <==> NamesType(docs, s, name)
    {
      assert s == (s.0, s.1);
    }
  }

  lemma FunctionsHere(docs: map<string, Snapshot>, uri: string, name: string)
    requires uri in docs
    ensures Ascends(FunctionNamed(name)(docs[uri]))
    ensures forall i :: i in FunctionNamed(name)(docs[uri]) <==> FirstFunctionAt(docs, (uri, i), name)
  {
    hide IndexesOf;
    var keys := FunctionKeys(docs[uri].symbols);
    IndexesAscend(keys, name);
    IndexesOfMembers(keys, name);
    var all := IndexesOf(keys, name);
    assert forall i: nat :: i in all <==> NamesFunction(docs, (uri, i), name);
    if all != [] {
      assert all[0] in all;
      forall i | i in all
        ensures all[0] <= i
      {
        var k :| 0 <= k < |all| && all[k] == i;
      }
    }
  }

  lemma FunctionsAnswer(docs: map<string, Snapshot>, name: string)
    ensures forall i :: 0 <= i < |Uris(docs)| ==> Uris(docs)[i] in docs
    ensures var scan := ScanSites(docs, Uris(docs), FunctionNamed(name));
            SitesAscend(scan) && forall s :: s in scan <==> FirstFunctionAt(docs, s, name)
  {
    hide TextLess, Uris, ScanSites, IndexesOf, SitesAscend, FirstOnly;
    forall uri | uri in docs
      ensures Ascends(FunctionNamed(name)(docs[uri]))
      ensures forall i :: i in FunctionNamed(name)(docs[uri]) <==> FirstFunctionAt(docs, (uri, i), name)
    {
      FunctionsHere(docs, uri, name);
    }
    ScanAnswers(docs, FunctionNamed(name));
    forall s
      ensures s in ScanSites(docs, Uris(docs), FunctionNamed(name)) <==> FirstFunctionAt(docs, s, name)
    {
      assert s == (s.0, s.1);
    }
  }

  /** The occurrences are these references', in this order. */
  ghost predicate OccurrencesAt(docs: map<string, Snapshot>, sites: seq<Site>, r: seq<IndexedOccurrence>) {
    && |r| == |sites|
    && forall i :: 0 <= i < |sites| ==>
         && sites[i].0 in docs && sites[i].1 < |docs[sites[i].0].references|
         && var reference := docs[sites[i].0].references[sites[i].1];
            r[i].uri == sites[i].0 && r[i].range == reference.range && r[i].enclosingFunction == reference.enclosing
  }

  lemma ProjectedAre(docs: map<string, Snapshot>, sites: seq<Site>)
    requires AllKnown(docs, sites)
    ensures OccurrencesAt(docs, sites, Projected(docs, sites))
  {
    forall i | 0 <= i < |sites|
      ensures Known(docs, sites[i])
    {
      assert sites[i] in sites;
    }
  }

  lemma OccurrencesAnswer(docs: map<string, Snapshot>, key: OccurrenceKey)
    ensures forall i :: 0 <= i < |Uris(docs)| ==> Uris(docs)[i] in docs
    ensures var scan := ScanSites(docs, Uris(docs), OccurringAs(key));
            SitesAscend(scan) && forall s :: s in scan <==> Uses(docs, s, key)
  {
    hide TextLess, Uris, ScanSites, IndexesOf, SitesAscend;
    forall uri | uri in docs
      ensures Ascends(OccurringAs(key)(docs[uri]))
      ensures forall i :: i in OccurringAs(key)(docs[uri]) <==> Uses(docs, (uri, i), key)
    {
      IndexesAscend(ReferenceKeys(docs[uri].references), key);
      IndexesOfMembers(ReferenceKeys(docs[uri].references), key);
    }
    ScanAnswers(docs, OccurringAs(key));
    forall s
      ensures s in ScanSites(docs, Uris(docs), OccurringAs(key)) <==> Uses(docs, s, key)
    {
      assert s == (s.0, s.1);
    }
  }

  lemma OffersAnswer(docs: map<string, Snapshot>, declaredModule: string, uri: string, name: string)
    ensures Offers(docs, declaredModule, uri, name) <==> OffersName(docs, declaredModule, uri, name)
  {
    if Offers(docs, declaredModule, uri, name) {
      var i :| 0 <= i < |docs[uri].symbols| && OffersAt(docs[uri].symbols[i], name);
      assert HasSymbol(docs, (uri, i)) && SymbolAt(docs, (uri, i)) == docs[uri].symbols[i];
    }
    if OffersName(docs, declaredModule, uri, name) {
      var i: nat :| HasSymbol(docs, (uri, i)) && SymbolAt(docs, (uri, i)).topLevel
          && SymbolAt(docs, (uri, i)).key.name == name
          && SymbolAt(docs, (uri, i)).key.kind in {Function, FiniteType, RecordType};
      assert OffersAt(docs[uri].symbols[i], name);
    }
  }

  // ----- the order of keys -------------------------------------------------------------------

  /** The kinds in the order of their declaration. */
  const KINDS: seq<SymbolKind> :=
    [Module, Function, Parameter, Binding, IterationState, FiniteType, FiniteVariant, RecordType, RecordField]

  /** Keys compare by span start, end, line and column, then by kind in the order of declaration, then by spelling,
      a missing one first. */
  lemma KeysCompare(a: OccurrenceKey, b: OccurrenceKey)
    ensures a.span.start < b.span.start ==> KeyLess(a, b)
    ensures a.span.start == b.span.start && a.span.end < b.span.end ==> KeyLess(a, b)
    ensures a.span.start == b.span.start && a.span.end == b.span.end && a.span.line < b.span.line ==> KeyLess(a, b)
    ensures (a.span.start, a.span.end, a.span.line) == (b.span.start, b.span.end, b.span.line) ==>
              a.span.column < b.span.column ==> KeyLess(a, b)
    ensures a.span == b.span ==>
              forall i, j :: 0 <= i < j < |KINDS| && a.kind == KINDS[i] && b.kind == KINDS[j] ==> KeyLess(a, b)
    ensures a.span == b.span && a.kind == b.kind && a.name.None? && b.name.Some? ==> KeyLess(a, b)
    ensures a.span == b.span && a.kind == b.kind && a.name.Some? && b.name.Some? ==>
              (KeyLess(a, b) <==> TextLess(a.name.value, b.name.value))
    ensures KeyLess(a, b) ==> a != b && !KeyLess(b, a)
  {
    hide TextLess;
    KeyOrder();
  }

  /** A spelling lies past the end of the range when it is longer than one character and starts with the last one. */
  lemma PastLastIs(name: Option<string>)
    ensures PastLast(name) <==> name.Some? && |name.value| > 1 && name.value[0] == '\U{10ffff}'
  {
    if name.Some? && name.value != "" {
      assert LAST_SPELLING[1..] == "";
      assert name.value[0] as int <= 0x10ffff;
    }
  }
}
