/** What sequences of store operations come to, in terms of texts, files and paths alone. */
module DocumentCycles {
  import opened Outcomes
  import opened Ordered
  import opened Utf8
  import opened CoordinateKernel
  import opened Edits
  import opened Documents
  import opened DocumentStores
  import opened DocumentRuns

  /** The text a file holds, when it is no longer than four mebibytes. */
  function FileText(fs: FileSystem, path: Option<string>): Option<string> {
    if path.Some? && fs.read(path.value).Text? && |Encode(fs.read(path.value).text)| <= 4194304
    then Some(fs.read(path.value).text)
    else None
  }

  lemma ReadableIs(o: Outside, uri: string, d: Document, fs: FileSystem)
    ensures Readable(o, uri, d, fs) == FileText(fs, SourcePath(o, uri, d))
  {
  }

  /** The path a document has, or the one its name stands for. */
  function PathOf(store: DocumentStore, uri: string): Option<string>
    reads store
  {
    if uri in store.documents && store.documents[uri].path.Some? then store.documents[uri].path
    else store.outside.pathOf(uri)
  }

  // ----- open, edit, close, read -------------------------------------------------------------

  /** Opening a document forgets what was known from disk. Whatever happens then short of a save, closing it answers
      nothing, and reading it again takes the file as it is at that moment. */
  method OpenCloseRead(store: DocumentStore, uri: string, version: int, text: string,
                       ops: seq<(Operation, FileSystem)>, fs: FileSystem, tail: CutTail)
    returns (accepted: Reply<nat>, closed: Reply<Option<string>>, read: Reply<string>)
    requires store.Valid() && LeavesUnsaved(ops, uri)
    modifies store
    ensures store.Valid()
    ensures accepted.Reply? <==> |Encode(text)| <= 4194304
    ensures accepted.Reply? ==>
              && closed == Reply(None)
              && read == if FileText(fs, old(PathOf(store, uri))).Some?
                         then Reply(FileText(fs, old(PathOf(store, uri))).value)
                         else Failure(DocumentNotFound)
    ensures accepted.Reply? && old(PathOf(store, uri)).None? ==> uri !in store.documents
    ensures accepted.Reply? && old(PathOf(store, uri)).Some? ==>
              uri in store.documents && store.documents[uri].path == old(PathOf(store, uri))
              && store.documents[uri].buffer == None
  {
    hide DocumentStore.Valid, Progressed, Encode, Registered, Loaded, Refused, Opened, Closed, TooLong;
    closed, read := Failure(DocumentNotFound), Failure(DocumentNotFound);
    ghost var path := PathOf(store, uri);
    accepted := store.DidOpen(uri, version, text);
    if accepted.Failure? {
      return;
    }
    assert Unsaved(store.outside, store.documents, uri, path);
    Run(store, ops, tail);
    closed := store.DidClose(uri);
    ReadAgain(store.outside, uri, DocumentAt(store.documents, uri), path, fs);
    read := store.Content(uri, fs);
  }

  /** Looking up a document of which nothing is held takes its file. */
  lemma ReadAgain(o: Outside, uri: string, d: Option<Document>, path: Option<string>, fs: FileSystem)
    requires if path.Some? then d == Some(Document(path, None, None)) else d == None && o.pathOf(uri) == None
    ensures var known := Registered(o, uri, d, fs);
            if path.None? then known.None?
            else
              && known.Some?
              && var e := Loaded(o, uri, known.value, fs);
                 e.Content() == FileText(fs, path) && e.path == path && e.buffer == None
  {
  }

  // ----- open, edit, save, close, read -------------------------------------------------------

  /** Saving without a text puts the buffer's on disk: closing answers it, and so does reading afterwards, whatever the
      file holds by then. */
  method OpenSaveCloseRead(store: DocumentStore, uri: string, version: int, text: string,
                           ops: seq<(Operation, FileSystem)>, fs: FileSystem, tail: CutTail)
    returns (accepted: Reply<nat>, closed: Reply<Option<string>>, read: Reply<string>, ghost buffered: string)
    requires store.Valid() && LeavesUnsaved(ops, uri)
    modifies store
    ensures store.Valid()
    ensures accepted.Reply? ==> closed == Reply(Some(buffered)) && read == Reply(buffered)
    ensures ops == [] ==> buffered == text
  {
    hide DocumentStore.Valid, Progressed, Encode, Registered, Loaded, Refused, Opened, Closed, TooLong, SavedDisk,
        Resaved;
    closed, read, buffered := Failure(DocumentNotFound), Failure(DocumentNotFound), text;
    ghost var path := PathOf(store, uri);
    accepted := store.DidOpen(uri, version, text);
    if accepted.Failure? {
      return;
    }
    assert Unsaved(store.outside, store.documents, uri, path);
    if ops != [] {
      Run(store, ops, tail);
      buffered := store.documents[uri].buffer.value.content.text;
    }
    var saved := store.DidSave(uri, None);
    closed := store.DidClose(uri);
    LoadKeepsHeld(store.outside, uri, store.documents[uri], fs);
    read := store.Content(uri, fs);
  }

  /** Looking up a document of which a text is held takes no file. */
  lemma LoadKeepsHeld(o: Outside, uri: string, d: Document, fs: FileSystem)
    requires d.Stored().Some?
    ensures Registered(o, uri, Some(d), fs) == Some(d) && Loaded(o, uri, d, fs) == d
  {
  }

  /** Saving another text leaves the buffer in charge until the document is closed. */
  method OpenSaveOther(store: DocumentStore, uri: string, version: int, text: string, other: string, fs: FileSystem)
    returns (accepted: Reply<nat>, before: Reply<string>, closed: Reply<Option<string>>, after: Reply<string>)
    requires store.Valid()
    modifies store
    ensures store.Valid()
    ensures accepted.Reply? ==> before == Reply(text) && closed == Reply(Some(other)) && after == Reply(other)
  {
    hide DocumentStore.Valid, Progressed, Encode, Registered, Loaded, Opened, Closed, TooLong, SavedDisk, Resaved;
    before, closed, after := Failure(DocumentNotFound), Failure(DocumentNotFound), Failure(DocumentNotFound);
    accepted := store.DidOpen(uri, version, text);
    if accepted.Failure? {
      return;
    }
    var saved := store.DidSave(uri, Some(other));
    LoadKeepsHeld(store.outside, uri, store.documents[uri], fs);
    before := store.Content(uri, fs);
    closed := store.DidClose(uri);
    LoadKeepsHeld(store.outside, uri, store.documents[uri], fs);
    after := store.Content(uri, fs);
  }

  /** Saving the same text twice is one change. */
  method SaveTwice(store: DocumentStore, uri: string, text: string)
    returns (first: Reply<nat>, second: Reply<nat>)
    requires store.Valid() && uri in store.documents
    modifies store
    ensures store.Valid() && first.Reply? && second == first
    ensures store.contentVersion <= old(store.contentVersion) + 1
  {
    hide DocumentStore.Valid, Progressed;
    first := store.DidSave(uri, Some(text));
    second := store.DidSave(uri, Some(text));
  }

  // ----- the first reference to a name -------------------------------------------------------

  /** A name nobody has mentioned is readable exactly when it stands for a source file that can be taken. */
  method FirstRead(store: DocumentStore, uri: string, fs: FileSystem) returns (read: Reply<string>)
    requires store.Valid() && uri !in store.documents
    modifies store
    ensures store.Valid()
    ensures var path := store.outside.pathOf(uri);
            read == if path.Some? && fs.isFile(path.value) && |path.value| >= 5
                       && path.value[|path.value| - 5..] == ".mncs" && FileText(fs, path).Some?
                    then Reply(FileText(fs, path).value)
                    else Failure(DocumentNotFound)
  {
    hide DocumentStore.Valid, Progressed, Encode, TooLong;
    FirstReadIs(store.outside, uri, fs);
    read := store.Content(uri, fs);
  }

  lemma FirstReadIs(o: Outside, uri: string, fs: FileSystem)
    ensures var path, known := o.pathOf(uri), Registered(o, uri, None, fs);
            && (known.Some? <==> path.Some? && fs.isFile(path.value) && |path.value| >= 5
                                 && path.value[|path.value| - 5..] == ".mncs")
            && (known.Some? ==> Loaded(o, uri, known.value, fs).Content() == FileText(fs, path))
  {
  }

  // ----- following the files -----------------------------------------------------------------

  /** What a refresh does to one document: an open one, or one without a path, is left alone; a closed one takes its
      file's text, goes with its file when the owner allows it, and stays as it is while the file cannot be read. */
  lemma RefreshMeans(o: Outside, uri: string, d: Document, fs: FileSystem, allowed: string -> bool)
    ensures var after, path := RefreshNext(o, fs, allowed)(uri, d), if d.path.Some? then d.path else o.pathOf(uri);
            && (d.buffer.Some? || path.None? ==> after == Some(d))
            && (d.buffer.None? && path.Some? ==>
                  var file := fs.read(path.value);
                  && (file.Text? && |Encode(file.text)| <= 4194304 ==>
                        after.Some? && after.value.Content() == Some(file.text) && after.value.path == d.path
                        && after.value.buffer.None?)
                  && (file.NotFound? && d.disk.Some? && allowed(uri) ==> after.None?)
                  && (file.NotFound? && (d.disk.None? || !allowed(uri)) ==> after == Some(d))
                  && (file.Unreadable? || (file.Text? && |Encode(file.text)| > 4194304) ==> after == Some(d)))
  {
    FileLimit(o, uri, d, fs);
    hide Encode, TooLong;
    RefreshNextIs(o, uri, d, fs, allowed);
  }

  lemma RefreshNextIs(o: Outside, uri: string, d: Document, fs: FileSystem, allowed: string -> bool)
    ensures var next := Refreshed(o, uri, d, fs, allowed(uri));
            RefreshNext(o, fs, allowed)(uri, d) ==
              if next.Kept? then Some(d) else if next.Removed? then None else Some(next.d)
  {
  }

  lemma FileLimit(o: Outside, uri: string, d: Document, fs: FileSystem)
    ensures forall text :: TooLong(text) <==> |Encode(text)| > 4194304
  {
  }

  /** A refresh reports a document exactly when it goes, or when its text from disk is another one than before. */
  lemma {:induction false} RefreshReports(o: Outside, documents: map<string, Document>, fs: FileSystem,
                                          allowed: string -> bool, uris: seq<string>, generation: nat, uri: string)
    requires forall j :: 0 <= j < |uris| ==> uris[j] in documents
    ensures (exists g: nat, gone: bool :: (uri, g, gone) in Reported(o, documents, fs, allowed, uris, generation)) <==>
              uri in uris && ReportsOne(o, uri, documents[uri], fs, allowed)
    decreases |uris|
  {
    hide Refreshed, ReportsOne;
    if uris != [] {
      var n := |uris| - 1;
      var front := uris[..n];
      assert uris == front + [uris[n]];
      RefreshReports(o, documents, fs, allowed, front, generation, uri);
      ReportsIs(o, uris[n], documents[uris[n]], fs, allowed);
      var before := Reported(o, documents, fs, allowed, front, generation);
      var all := Reported(o, documents, fs, allowed, uris, generation);
      var next := Refreshed(o, uris[n], documents[uris[n]], fs, allowed(uris[n]));
      var last := (uris[n], generation + |before| + 1, next.Removed?);
      if next.Removed? || next.Updated? {
        assert all == before + [last];
        assert last in all;
      } else {
        assert all == before;
      }
    }
  }

  predicate ReportsOne(o: Outside, uri: string, d: Document, fs: FileSystem, allowed: string -> bool) {
    var path := if d.path.Some? then d.path else o.pathOf(uri);
    && d.buffer.None? && path.Some? && d.disk.Some?
    && var file := fs.read(path.value);
       (file.NotFound? && allowed(uri)) || (FileText(fs, path).Some? && FileText(fs, path).value != d.disk.value.text)
  }

  lemma ReportsIs(o: Outside, uri: string, d: Document, fs: FileSystem, allowed: string -> bool)
    ensures var next := Refreshed(o, uri, d, fs, allowed(uri));
            ReportsOne(o, uri, d, fs, allowed) <==> next.Removed? || next.Updated?
  {
    hide Encode;
    FileLimit(o, uri, d, fs);
  }

  /** What a reconciliation does to one document: a closed one whose file can be taken holds that text, any other stays;
      it is reported when a checkpoint has no, or another, identity for it. */
  lemma ReconcileMeans(o: Outside, uri: string, d: Document, fs: FileSystem, checkpoint: Option<map<string, string>>)
    ensures var after, path := ReconcileNext(o, fs)(uri, d), if d.path.Some? then d.path else o.pathOf(uri);
            && (d.buffer.Some? || FileText(fs, path).None? ==> after == Some(d))
            && (d.buffer.None? && FileText(fs, path).Some? ==>
                  after.Some? && after.value.Content() == FileText(fs, path) && after.value.path == path
                  && after.value.buffer.None?)
            && (Differs(o, uri, d, fs, checkpoint) <==>
                  && checkpoint.Some? && d.buffer.None? && FileText(fs, path).Some?
                  && (uri in checkpoint.value ==>
                        checkpoint.value[uri] != o.identity(uri, FileText(fs, path).value)))
  {
    hide Encode;
    FileLimit(o, uri, d, fs);
  }

  /** A new source, once loaded, is answered from what was loaded. */
  method LoadNewRead(store: DocumentStore, uri: string, fs: FileSystem, later: FileSystem)
    returns (loaded: Reply<Option<nat>>, read: Reply<string>)
    requires store.Valid() && uri in store.documents && Blank(store.documents[uri])
    modifies store
    ensures store.Valid()
    ensures FileText(fs, old(PathOf(store, uri))).Some? ==>
              && loaded.Reply? && loaded.value.Some? && loaded.value.value == old(store.generation) + 1
              && read == Reply(FileText(fs, old(PathOf(store, uri))).value)
  {
    hide DocumentStore.Valid, Progressed, Encode, Registered, Loaded;
    read := Failure(DocumentNotFound);
    ReadableIs(store.outside, uri, store.documents[uri], fs);
    loaded := store.LoadNewDisk(uri, fs);
    if loaded.Reply? && loaded.value.Some? {
      LoadKeepsHeld(store.outside, uri, store.documents[uri], later);
      read := store.Content(uri, later);
    }
  }

  // ----- modules -----------------------------------------------------------------------------

  /** A document's text declares the module. */
  predicate Declares(o: Outside, d: Document, name: string) {
    || (d.buffer.Some? && o.declaredModule(d.buffer.value.content.text) == Some(name))
    || (d.buffer.None? && d.disk.Some? && o.declaredModule(d.disk.value.text) == Some(name))
  }

  /** The answer is the first document, by name, whose text declares the module. */
  lemma LeastDeclares(o: Outside, documents: map<string, Document>, name: string, r: Option<string>)
    requires Sealed(o, documents) && LeastDeclaring(documents, name, r)
    ensures r.None? ==> forall u :: u in documents ==> !Declares(o, documents[u], name)
    ensures r.Some? ==>
              && r.value in documents && Declares(o, documents[r.value], name)
              && forall u :: u in documents && Declares(o, documents[u], name) ==> u == r.value || TextLess(r.value, u)
  {
    hide TextLess;
    forall u | u in documents
      ensures Declares(o, documents[u], name) <==> EffectiveAt(documents, u) == Some(name)
    {
      assert SealedAs(o, u, documents[u]);
    }
  }
}
