/** Whole runs over a document store, and what a mixed change list comes to. */
module DocumentRuns {
  import opened Outcomes
  import opened Ordered
  import opened Utf8
  import opened CoordinateKernel
  import opened Positions
  import opened Edits
  import opened Directories
  import opened Documents
  import opened DocumentStores

  // ----- runs --------------------------------------------------------------------------------

  datatype Operation =
    | Ensure(uri: string, path: Option<string>)
    | Open(uri: string, version: int, text: string)
    | Change(uri: string, version: int, changes: seq<TextChange>)
    | Save(uri: string, saved: Option<string>)
    | Close(uri: string)
    | Load(uri: string)
    | LoadNew(uri: string)
    | Refresh(allowed: string -> bool)
    | Discover(workspace: Workspace, onlyNew: bool)
    | Reconcile(workspace: Workspace, checkpoint: Option<map<string, string>>)
    | Lookup(name: string)
    | Floor(value: nat)

  lemma ProgressedThrough(a: Moment, b: Moment, c: Moment)
    requires Progressed(a, b) && Progressed(b, c)
    ensures Progressed(a, c)
  {
  }

  /** The document is open, nothing of it is known from disk, and this is its path for good. */
  predicate Unsaved(o: Outside, documents: map<string, Document>, uri: string, path: Option<string>) {
    && uri in documents && documents[uri].buffer.Some? && documents[uri].disk.None?
    && documents[uri].path == path && (path.Some? || o.pathOf(uri).None?)
  }

  /** Every document that was unsaved still is, except one the operation may save or close. */
  ghost predicate KeepsUnsaved(o: Outside, before: map<string, Document>, after: map<string, Document>,
                               except: Option<string>) {
    forall uri, path ::
      Unsaved(o, before, uri, path) && except != Some(uri) ==> Unsaved(o, after, uri, path)
  }

  /** The document an operation saves or closes. */
  function SavesOrCloses(op: Operation): Option<string> {
    if op.Save? || op.Close? then Some(op.uri) else None
  }

  lemma KeptAt(o: Outside, before: map<string, Document>, after: map<string, Document>, u: string)
    requires forall uri :: uri in before && uri != u ==> uri in after && after[uri] == before[uri]
    requires u in before && before[u].buffer.Some? && before[u].disk.None? ==>
               u in after && (after[u] == before[u]
                              || (after[u].buffer.Some? && after[u].disk.None?
                                  && after[u].path == SourcePath(o, u, before[u])))
    ensures KeepsUnsaved(o, before, after, None)
  {
  }

  lemma KeptElsewhere(o: Outside, before: map<string, Document>, after: map<string, Document>, u: string)
    requires forall uri :: uri in before && uri != u ==> uri in after && after[uri] == before[uri]
    ensures KeepsUnsaved(o, before, after, Some(u))
  {
  }

  /** An operation over every document that leaves open ones alone keeps the unsaved ones. */
  lemma MappedKeeps(o: Outside, before: map<string, Document>, next: (string, Document) -> Option<Document>)
    requires forall uri :: uri in before && before[uri].buffer.Some? ==> next(uri, before[uri]) == Some(before[uri])
    ensures KeepsUnsaved(o, before, Mapped(before, next, before.Keys), None)
  {
  }

  lemma NextKeeps(o: Outside, fs: FileSystem, allowed: string -> bool, uri: string, d: Document)
    requires d.buffer.Some?
    ensures LoadNext(o, fs)(uri, d) == Some(d) && RefreshNext(o, fs, allowed)(uri, d) == Some(d)
    ensures ReconcileNext(o, fs)(uri, d) == Some(d)
  {
    assert Refreshed(o, uri, d, fs, allowed(uri)) == Kept;
  }

  lemma KeptThrough(o: Outside, a: map<string, Document>, b: map<string, Document>, c: map<string, Document>)
    requires KeepsUnsaved(o, a, b, None) && KeepsUnsaved(o, b, c, None)
    ensures KeepsUnsaved(o, a, c, None)
  {
  }

  lemma DiscoveredKeeps(o: Outside, before: map<string, Document>, found: seq<(string, string)>)
    ensures KeepsUnsaved(o, before, Discovered(before, found), None)
  {
    DiscoveredIs(before, found);
  }

  lemma AllKeep(o: Outside, before: map<string, Document>, fs: FileSystem, allowed: string -> bool)
    ensures KeepsUnsaved(o, before, Mapped(before, LoadNext(o, fs), before.Keys), None)
    ensures KeepsUnsaved(o, before, Mapped(before, RefreshNext(o, fs, allowed), before.Keys), None)
    ensures KeepsUnsaved(o, before, Mapped(before, ReconcileNext(o, fs), before.Keys), None)
  {
    hide Mapped, KeepsUnsaved, LoadNext, RefreshNext, ReconcileNext;
    forall uri | uri in before && before[uri].buffer.Some?
      ensures LoadNext(o, fs)(uri, before[uri]) == Some(before[uri])
      ensures RefreshNext(o, fs, allowed)(uri, before[uri]) == Some(before[uri])
      ensures ReconcileNext(o, fs)(uri, before[uri]) == Some(before[uri])
    {
      NextKeeps(o, fs, allowed, uri, before[uri]);
    }
    MappedKeeps(o, before, LoadNext(o, fs));
    MappedKeeps(o, before, RefreshNext(o, fs, allowed));
    MappedKeeps(o, before, ReconcileNext(o, fs));
  }

  lemma LoadedKeeps(o: Outside, before: map<string, Document>, uri: string, fs: FileSystem)
    requires Registered(o, uri, DocumentAt(before, uri), fs).Some?
    ensures var d := Registered(o, uri, DocumentAt(before, uri), fs).value;
            KeepsUnsaved(o, before, before[uri := Loaded(o, uri, d, fs)], None)
  {
  }

  lemma SameKeeps(o: Outside, documents: map<string, Document>)
    ensures KeepsUnsaved(o, documents, documents, None)
  {
  }

  lemma OpenedKeeps(o: Outside, before: map<string, Document>, after: map<string, Document>, uri: string, version: int,
                    text: string)
    requires OpenedWith(o, before, after, uri, version, text)
    ensures KeepsUnsaved(o, before, after, None)
  {
    KeptAt(o, before, after, uri);
  }

  lemma ChangeKeeps(o: Outside, before: map<string, Document>, after: map<string, Document>, uri: string, version: int,
                    changes: seq<TextChange>, fs: FileSystem, r: Result<Reply<nat>>)
    requires forall u :: u in before && u != uri ==> u in after && after[u] == before[u]
    requires r.Ok? && r.value.Reply? ==>
               OpenedWith(o, before, after, uri, version,
                          Incremental(CurrentText(o, uri, DocumentAt(before, uri), fs), changes))
    requires uri in before && before[uri].Open() && !(r.Ok? && r.value.Reply?) ==> after == before
    ensures KeepsUnsaved(o, before, after, None)
  {
    hide Incremental, CurrentText;
    if r.Ok? && r.value.Reply? {
      OpenedKeeps(o, before, after, uri, version,
                  Incremental(CurrentText(o, uri, DocumentAt(before, uri), fs), changes));
    } else {
      KeptAt(o, before, after, uri);
    }
  }

  lemma LoadNewKeeps(o: Outside, before: map<string, Document>, after: map<string, Document>, uri: string,
                     fs: FileSystem)
    requires after == before
             || (uri in before && Blank(before[uri]) && Readable(o, uri, before[uri], fs).Some?
                 && after == before[uri := Adopted(o, uri, before[uri], fs)])
    ensures KeepsUnsaved(o, before, after, None)
  {
  }

  lemma WalkedKeeps(o: Outside, before: map<string, Document>, all: set<string>, onlyNew: bool,
                    found: seq<(string, string)>, names: seq<string>, after: map<string, Document>)
    requires Walked(o, before, all, onlyNew, found, names, after)
    ensures KeepsUnsaved(o, before, after, None)
  {
    hide Discovered;
    DiscoveredKeeps(o, before, found);
  }

  /** One operation, with the file system of its moment. What is unsaved stays so, unless it is saved or closed. */
  method Act(store: DocumentStore, op: Operation, fs: FileSystem, tail: CutTail)
    requires store.Valid()
    modifies store
    ensures store.Valid() && Progressed(old(store.Now()), store.Now())
    ensures KeepsUnsaved(store.outside, old(store.documents), store.documents, SavesOrCloses(op))
  {
    hide DocumentStore.Valid, Opened, Loaded, Registered, Closed, Resaved, SavedDisk, Mapped, TooLong, Reported, Moved,
        Sorted, SortedUris, Progressed, Walked, Discovered, KeepsUnsaved, OpenedWith, SavedWith, ClosedWith,
        Incremental, Refused, CurrentText, LoadNext, RefreshNext, ReconcileNext;
    ghost var o, before := store.outside, store.documents;
    SameKeeps(o, before);
    if op.Ensure? {
      var created := store.EnsureDocument(op.uri, op.path);
      KeptElsewhere(o, before, store.documents, op.uri);
      KeptAt(o, before, store.documents, op.uri);
    } else if op.Open? {
      var reply := store.DidOpen(op.uri, op.version, op.text);
      if reply.Reply? {
        OpenedKeeps(o, before, store.documents, op.uri, op.version, op.text);
      }
    } else if op.Change? {
      var reply := store.DidChangeIncremental(op.uri, op.version, op.changes, fs, tail);
      ChangeKeeps(o, before, store.documents, op.uri, op.version, op.changes, fs, reply);
    } else if op.Save? {
      var reply := store.DidSave(op.uri, op.saved);
      KeptElsewhere(o, before, store.documents, op.uri);
    } else if op.Close? {
      var reply := store.DidClose(op.uri);
      KeptElsewhere(o, before, store.documents, op.uri);
    } else if op.Load? {
      if Registered(o, op.uri, DocumentAt(before, op.uri), fs).Some? {
        LoadedKeeps(o, before, op.uri, fs);
      }
      var reply := store.Content(op.uri, fs);
    } else if op.LoadNew? {
      var reply := store.LoadNewDisk(op.uri, fs);
      LoadNewKeeps(o, before, store.documents, op.uri, fs);
    } else if op.Refresh? {
      AllKeep(o, before, fs, op.allowed);
      var changed := store.RefreshDiskWith(fs, op.allowed);
    } else if op.Reconcile? {
      var changed, found := store.ReconcileCheckpoint(op.workspace, op.checkpoint, fs);
      if changed.Ok? {
        ghost var known := Discovered(before, found);
        DiscoveredKeeps(o, before, found);
        AllKeep(o, known, fs, _ => false);
        KeptThrough(o, before, known, store.documents);
      }
    } else if op.Discover? {
      var names, found := store.Discover(op.workspace, op.onlyNew);
      if names.Ok? {
        WalkedKeeps(o, before, SourcesUnder(op.workspace.Roots()), op.onlyNew, found, names.value, store.documents);
      }
    } else if op.Lookup? {
      AllKeep(o, before, fs, _ => false);
      var found := store.ModuleUri(op.name, fs);
    } else {
      store.RestoreGenerationAtLeast(op.value);
    }
    if SavesOrCloses(op).None? {
      assert KeepsUnsaved(o, before, store.documents, None);
    }
  }

  /** Any run, the file system changing between operations as it likes: the directory stays the inverse of the
      effective modules, the counters never go back, and two equal readings of the content version bracket
      unchanged documents. What is open and unsaved stays so until it is saved or closed. */
  method Run(store: DocumentStore, ops: seq<(Operation, FileSystem)>, tail: CutTail)
    requires store.Valid()
    modifies store
    ensures store.Valid() && Progressed(old(store.Now()), store.Now())
    ensures forall uri, path ::
              Unsaved(store.outside, old(store.documents), uri, path) && LeavesUnsaved(ops, uri) ==>
                Unsaved(store.outside, store.documents, uri, path)
  {
    hide DocumentStore.Valid, Progressed, Unsaved;
    ghost var start := store.Now();
    ProgressedSame(start);
    for i := 0 to |ops|
      invariant store.Valid() && Progressed(start, store.Now())
      invariant forall uri, path ::
                  Unsaved(store.outside, start.documents, uri, path) && LeavesUnsaved(ops, uri) ==>
                    Unsaved(store.outside, store.documents, uri, path)
    {
      ghost var before := store.Now();
      Act(store, ops[i].0, ops[i].1, tail);
      ProgressedThrough(start, before, store.Now());
    }
  }

  /** No operation saves or closes the document. */
  ghost predicate LeavesUnsaved(ops: seq<(Operation, FileSystem)>, uri: string) {
    forall i :: 0 <= i < |ops| ==> SavesOrCloses(ops[i].0) != Some(uri)
  }

  lemma ProgressedSame(a: Moment)
    ensures Progressed(a, a)
  {
  }

  // ----- change lists ------------------------------------------------------------------------

  /** The changes behind the last full replacement. */
  function Following(changes: seq<TextChange>): seq<TextChange>
    requires HasFull(changes)
  {
    var n := |changes| - 1;
    if changes[n].range.None? then [] else Following(changes[..n]) + [changes[n]]
  }

  lemma {:induction false} FullSplits(current: string, changes: seq<TextChange>)
    requires HasFull(changes)
    ensures EditedAll(current, changes) == EditedAll(LastFull(changes).text, Following(changes))
    decreases |changes|
  {
    hide Edited, EditedAll;
    var n := |changes| - 1;
    assert changes == changes[..n] + [changes[n]];
    EditsCompose(current, changes[..n], [changes[n]]);
    if changes[n].range.None? {
      OneFull(EditedAll(current, changes[..n]), changes[n]);
      NoEdits(changes[n].text);
    } else {
      FullSplits(current, changes[..n]);
      EditsCompose(LastFull(changes).text, Following(changes[..n]), [changes[n]]);
    }
  }

  lemma OneFull(current: string, change: TextChange)
    requires change.range.None?
    ensures EditedAll(current, [change]) == change.text
  {
    assert [change][1..] == [];
  }

  lemma NoEdits(text: string)
    ensures EditedAll(text, []) == text
  {
  }

  /** The source's shortcut gives what applying the changes in order gives exactly when the ranged edits behind
      the last full replacement change nothing; so always when there are none. */
  lemma ShortcutExact(current: string, changes: seq<TextChange>)
    ensures Incremental(current, changes) == EditedAll(current, changes) <==>
              !HasFull(changes) || EditedAll(LastFull(changes).text, Following(changes)) == LastFull(changes).text
    ensures HasFull(changes) && Following(changes) == [] ==>
              Incremental(current, changes) == EditedAll(current, changes)
  {
    hide EditedAll;
    if HasFull(changes) {
      FullSplits(current, changes);
      NoEdits(LastFull(changes).text);
    }
  }

  /** A full replacement followed by an insertion: the insertion is lost. */
  lemma ShortcutLoses(current: string)
    ensures var changes := [TextChange(None, "a"), TextChange(Some(TextRange(0, 0, 0, 0)), "b")];
            Incremental(current, changes) == "a" && EditedAll(current, changes) == "ba"
  {
    var full, insert := TextChange(None, "a"), TextChange(Some(TextRange(0, 0, 0, 0)), "b");
    var changes := [full, insert];
    assert changes[..1] == [full] && HasFull(changes[..1]) && LastFull(changes) == full;
    assert changes[1..] == [insert] && [insert][1..] == [];
    assert ReferenceOffset("a", 0, 0) == 0;
    assert Ends("a", insert.range.value) == (0, 0);
    assert Edited("a", insert) == "ba";
    NoEdits("ba");
  }
}
