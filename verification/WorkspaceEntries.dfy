/** What one analysed document contributes to the workspace index
    (crates/service-core/src/workspace_index.rs): its keys, and the entry grouped by key. */
module WorkspaceEntries {
  import opened Outcomes
  import P = Positions

  datatype SymbolKind =
    | Module | Function | Parameter | Binding | IterationState | FiniteType | FiniteVariant | RecordType | RecordField

  datatype DeclarationKey = DeclarationKey(start: nat, end: nat, line: nat, column: nat, kind: SymbolKind, name: string)

  datatype SourceSpan = SourceSpan(start: nat, end: nat, line: nat, column: nat)

  /** The declaration a use is bound to, and the spelling of the use; none when its span does not slice text. */
  datatype OccurrenceKey = OccurrenceKey(span: SourceSpan, kind: SymbolKind, name: Option<string>)

  datatype DepEdge = DepEdge(dependency: string, uri: string, identity: string)

  datatype Symbol = Symbol(identity: Option<string>, key: DeclarationKey, topLevel: bool)

  datatype Reference = Reference(key: OccurrenceKey, range: P.RangeInfo, enclosing: Option<nat>)

  /** The parts of an analysed document an entry is built from. */
  datatype Snapshot =
    Snapshot(declaredModule: string, symbols: seq<Symbol>, references: seq<Reference>, deps: seq<DepEdge>,
        hasExternalDep: bool)

  datatype WorkspaceEntry = WorkspaceEntry(
    declaredModule: string,
    occurrenceRanges: seq<P.RangeInfo>,
    enclosing: seq<Option<nat>>,
    byIdentity: map<string, nat>,
    declarations: map<DeclarationKey, seq<nat>>,
    occurrences: map<OccurrenceKey, seq<nat>>,
    functions: map<string, nat>,
    types: map<string, seq<nat>>,
    exports: set<string>,
    deps: seq<DepEdge>,
    hasExternalDep: bool)

  // ----- grouping by key ---------------------------------------------------------------------

  /** The indexes of the list that carry key `k`, ascending. */
  ghost function IndexesOf<K>(keys: seq<Option<K>>, k: K): seq<nat> {
    if keys == [] then []
    else
      var n := |keys| - 1;
      IndexesOf(keys[..n], k) + (if keys[n] == Some(k) then [n] else [])
  }

  ghost function Grouped<K>(keys: seq<Option<K>>): map<K, seq<nat>> {
    map k | k in KeySet(keys) :: IndexesOf(keys, k)
  }

  ghost function KeySet<K>(keys: seq<Option<K>>): set<K> {
    set i | 0 <= i < |keys| && keys[i].Some? :: keys[i].value
  }

  /** The first index of every key. */
  ghost function Firsts<K>(keys: seq<Option<K>>): map<K, nat> {
    map k | k in KeySet(keys) :: First(keys, k)
  }

  ghost function First<K>(keys: seq<Option<K>>, k: K): nat {
    if IndexesOf(keys, k) == [] then 0 else IndexesOf(keys, k)[0]
  }

  lemma {:induction false} IndexesOfMembers<K>(keys: seq<Option<K>>, k: K)
    ensures forall i :: i in IndexesOf(keys, k) <==> 0 <= i < |keys| && keys[i] == Some(k)
  {
    if keys != [] {
      IndexesOfMembers(keys[..|keys| - 1], k);
    }
  }

  lemma {:induction false} IndexesOfAscend<K>(keys: seq<Option<K>>, k: K)
    ensures forall i, j :: 0 <= i < j < |IndexesOf(keys, k)| ==> IndexesOf(keys, k)[i] < IndexesOf(keys, k)[j]
  {
    if keys != [] {
      var front := IndexesOf(keys[..|keys| - 1], k);
      IndexesOfAscend(keys[..|keys| - 1], k);
      IndexesOfMembers(keys[..|keys| - 1], k);
      assert forall i :: 0 <= i < |front| ==> front[i] in front;
    }
  }

  lemma IndexesOfNone<K>(keys: seq<Option<K>>, k: K)
    ensures IndexesOf(keys, k) != [] <==> k in KeySet(keys)
  {
    IndexesOfMembers(keys, k);
    var all := IndexesOf(keys, k);
    if all != [] {
      assert all[0] in all;
      assert keys[all[0]].value in KeySet(keys);
    }
    if k in KeySet(keys) {
      var i :| 0 <= i < |keys| && keys[i].Some? && keys[i].value == k;
      assert i in all;
    }
  }

  lemma IndexesOfGrows<K>(keys: seq<Option<K>>, next: Option<K>, k: K)
    ensures IndexesOf(keys + [next], k) == if next == Some(k) then IndexesOf(keys, k) + [|keys|] else IndexesOf(keys, k)
  {
    assert (keys + [next])[..|keys|] == keys;
  }

  lemma KeySetGrows<K>(keys: seq<Option<K>>, next: Option<K>)
    ensures KeySet(keys + [next]) == KeySet(keys) + (if next.Some? then {next.value} else {})
  {
    var all := keys + [next];
    forall k
      ensures k in KeySet(all) <==> k in KeySet(keys) || next == Some(k)
    {
      if k in KeySet(keys) {
        var i :| 0 <= i < |keys| && keys[i].Some? && keys[i].value == k;
        assert all[i] == keys[i];
      }
      if next == Some(k) {
        assert all[|keys|] == next;
      }
    }
  }

  /** One more index: a key's list grows at its end. */
  lemma GroupedGrows<K>(keys: seq<Option<K>>, next: Option<K>)
    ensures Grouped(keys + [next]) ==
              if next.None? then Grouped(keys)
              else Grouped(keys)[next.value :=
                  (if next.value in Grouped(keys) then Grouped(keys)[next.value] else []) + [|keys|]]
  {
    KeySetGrows(keys, next);
    forall k
      ensures IndexesOf(keys + [next], k) == if next == Some(k) then IndexesOf(keys, k) + [|keys|]
                else IndexesOf(keys, k)
      ensures IndexesOf(keys, k) != [] <==> k in KeySet(keys)
    {
      IndexesOfGrows(keys, next, k);
      IndexesOfNone(keys, k);
    }
  }

  /** One more index: a key's first index stays. */
  lemma FirstsGrow<K>(keys: seq<Option<K>>, next: Option<K>)
    ensures Firsts(keys + [next]) ==
              if next.None? || next.value in Firsts(keys) then Firsts(keys) else Firsts(keys)[next.value := |keys|]
  {
    KeySetGrows(keys, next);
    forall k
      ensures IndexesOf(keys + [next], k) == if next == Some(k) then IndexesOf(keys, k) + [|keys|]
                else IndexesOf(keys, k)
      ensures IndexesOf(keys, k) != [] <==> k in KeySet(keys)
    {
      IndexesOfGrows(keys, next, k);
      IndexesOfNone(keys, k);
    }
  }

  // ----- the entry of a snapshot -------------------------------------------------------------

  ghost function IdentityKeys(symbols: seq<Symbol>): seq<Option<string>> {
    seq(|symbols|, i requires 0 <= i < |symbols| => symbols[i].identity)
  }

  ghost function DeclarationKeys(symbols: seq<Symbol>): seq<Option<DeclarationKey>> {
    seq(|symbols|, i requires 0 <= i < |symbols| => Some(symbols[i].key))
  }

  predicate IsType(kind: SymbolKind) {
    kind == FiniteType || kind == RecordType
  }

  ghost function FunctionKeys(symbols: seq<Symbol>): seq<Option<string>> {
    seq(|symbols|, i requires 0 <= i < |symbols| => if symbols[i].key.kind == Function then Some(symbols[i].key.name)
        else None)
  }

  ghost function TypeKeys(symbols: seq<Symbol>): seq<Option<string>> {
    seq(|symbols|, i requires 0 <= i < |symbols| => if IsType(symbols[i].key.kind) then Some(symbols[i].key.name)
        else None)
  }

  /** Names a document offers to importers: its top-level functions and types. */
  ghost function ExportKeys(symbols: seq<Symbol>): seq<Option<string>> {
    seq(|symbols|, i requires 0 <= i < |symbols| =>
      if symbols[i].topLevel && (symbols[i].key.kind == Function || IsType(symbols[i].key.kind))
          then Some(symbols[i].key.name) else None)
  }

  ghost function ReferenceKeys(references: seq<Reference>): seq<Option<OccurrenceKey>> {
    seq(|references|, i requires 0 <= i < |references| => Some(references[i].key))
  }

  ghost function EntryOf(s: Snapshot): WorkspaceEntry {
    WorkspaceEntry(
      s.declaredModule,
      seq(|s.references|, i requires 0 <= i < |s.references| => s.references[i].range),
      seq(|s.references|, i requires 0 <= i < |s.references| => s.references[i].enclosing),
      Firsts(IdentityKeys(s.symbols)),
      Grouped(DeclarationKeys(s.symbols)),
      Grouped(ReferenceKeys(s.references)),
      Firsts(FunctionKeys(s.symbols)),
      Grouped(TypeKeys(s.symbols)),
      KeySet(ExportKeys(s.symbols)),
      s.deps,
      s.hasExternalDep)
  }

  function Pushed<K>(m: map<K, seq<nat>>, key: K, index: nat): map<K, seq<nat>> {
    m[key := (if key in m then m[key] else []) + [index]]
  }

  function OrInserted<K>(m: map<K, nat>, key: K, index: nat): map<K, nat> {
    if key in m then m else m[key := index]
  }

  method BuildOccurrences(references: seq<Reference>)
    returns (ranges: seq<P.RangeInfo>, enclosing: seq<Option<nat>>, occurrences: map<OccurrenceKey, seq<nat>>)
    ensures |ranges| == |enclosing| == |references|
    ensures forall i :: 0 <= i < |references| ==>
              ranges[i] == references[i].range && enclosing[i] == references[i].enclosing
    ensures occurrences == Grouped(ReferenceKeys(references))
  {
    ranges, enclosing, occurrences := [], [], map[];
    assert ReferenceKeys(references[..0]) == [];
    for index := 0 to |references|
      invariant |ranges| == |enclosing| == index
      invariant forall i :: 0 <= i < index ==>
                  ranges[i] == references[i].range && enclosing[i] == references[i].enclosing
      invariant occurrences == Grouped(ReferenceKeys(references[..index]))
    {
      ranges := ranges + [references[index].range];
      enclosing := enclosing + [references[index].enclosing];
      occurrences := Pushed(occurrences, references[index].key, index);
      GroupedGrows(ReferenceKeys(references[..index]), Some(references[index].key));
      assert ReferenceKeys(references[..index]) + [Some(references[index].key)]
          == ReferenceKeys(references[..index + 1]);
    }
    assert references[..|references|] == references;
  }

  /** All five symbol maps over the first `n` symbols. */
  ghost predicate SymbolMaps(symbols: seq<Symbol>, byIdentity: map<string, nat>,
                             declarations: map<DeclarationKey, seq<nat>>,
                             functions: map<string, nat>, types: map<string, seq<nat>>, exports: set<string>) {
    && byIdentity == Firsts(IdentityKeys(symbols))
    && declarations == Grouped(DeclarationKeys(symbols))
    && functions == Firsts(FunctionKeys(symbols))
    && types == Grouped(TypeKeys(symbols))
    && exports == KeySet(ExportKeys(symbols))
  }

  lemma SymbolKeysGrow(symbols: seq<Symbol>, n: nat)
    requires n < |symbols|
    ensures IdentityKeys(symbols[..n + 1]) == IdentityKeys(symbols[..n]) + [symbols[n].identity]
    ensures DeclarationKeys(symbols[..n + 1]) == DeclarationKeys(symbols[..n]) + [Some(symbols[n].key)]
    ensures FunctionKeys(symbols[..n + 1]) == FunctionKeys(symbols[..n]) + [FunctionKeys(symbols)[n]]
    ensures TypeKeys(symbols[..n + 1]) == TypeKeys(symbols[..n]) + [TypeKeys(symbols)[n]]
    ensures ExportKeys(symbols[..n + 1]) == ExportKeys(symbols[..n]) + [ExportKeys(symbols)[n]]
  {
  }

  lemma SymbolMapsGrow(symbols: seq<Symbol>, n: nat)
    requires n < |symbols|
    ensures var before, s := symbols[..n], symbols[n];
            SymbolMaps(symbols[..n + 1],
                       if s.identity.Some? then OrInserted(Firsts(IdentityKeys(before)), s.identity.value, n)
                       else Firsts(IdentityKeys(before)),
                       Pushed(Grouped(DeclarationKeys(before)), s.key, n),
                       if s.key.kind == Function then OrInserted(Firsts(FunctionKeys(before)), s.key.name, n)
                       else Firsts(FunctionKeys(before)),
                       if IsType(s.key.kind) then Pushed(Grouped(TypeKeys(before)), s.key.name, n)
                       else Grouped(TypeKeys(before)),
                       if s.topLevel && (s.key.kind == Function || IsType(s.key.kind))
                           then KeySet(ExportKeys(before)) + {s.key.name}
                       else KeySet(ExportKeys(before)))
  {
    var before := symbols[..n];
    SymbolKeysGrow(symbols, n);
    FirstsGrow(IdentityKeys(before), symbols[n].identity);
    GroupedGrows(DeclarationKeys(before), Some(symbols[n].key));
    FirstsGrow(FunctionKeys(before), FunctionKeys(symbols)[n]);
    GroupedGrows(TypeKeys(before), TypeKeys(symbols)[n]);
    KeySetGrows(ExportKeys(before), ExportKeys(symbols)[n]);
    hide Firsts, Grouped, KeySet;
  }

  /** `WorkspaceEntry::build`, without the summaries it keeps beside. */
  method Build(s: Snapshot) returns (e: WorkspaceEntry)
    ensures e == EntryOf(s)
  {
    hide Firsts, Grouped, KeySet;
    var ranges, enclosing, occurrences := BuildOccurrences(s.references);
    var byIdentity: map<string, nat> := map[];
    var declarations: map<DeclarationKey, seq<nat>> := map[];
    var functions: map<string, nat> := map[];
    var types: map<string, seq<nat>> := map[];
    var exports: set<string> := {};
    NoSymbols();
    assert s.symbols[..0] == [];
    for index := 0 to |s.symbols|
      invariant SymbolMaps(s.symbols[..index], byIdentity, declarations, functions, types, exports)
    {
      var symbol := s.symbols[index];
      SymbolMapsGrow(s.symbols, index);
      if symbol.identity.Some? {
        byIdentity := OrInserted(byIdentity, symbol.identity.value, index);
      }
      declarations := Pushed(declarations, symbol.key, index);
      if symbol.key.kind == Function {
        functions := OrInserted(functions, symbol.key.name, index);
        if symbol.topLevel {
          exports := exports + {symbol.key.name};
        }
      } else if symbol.key.kind == FiniteType || symbol.key.kind == RecordType {
        types := Pushed(types, symbol.key.name, index);
        if symbol.topLevel {
          exports := exports + {symbol.key.name};
        }
      }
    }
    assert s.symbols[..|s.symbols|] == s.symbols;
    e := WorkspaceEntry(s.declaredModule, ranges, enclosing, byIdentity, declarations, occurrences, functions, types,
        exports,
                        s.deps, s.hasExternalDep);
  }

  lemma NoSymbols()
    ensures SymbolMaps([], map[], map[], map[], map[], {})
  {
    assert IdentityKeys([]) == [] && DeclarationKeys([]) == [] && FunctionKeys([]) == [] && TypeKeys([]) == []
        && ExportKeys([]) == [];
  }
}
