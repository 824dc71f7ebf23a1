/** Text states, documents, and what one operation does to one document
    (crates/service-core/src/document.rs). The file system is fixed during an operation. */
module Documents {
  import opened Outcomes
  import opened Ordered
  import opened Directories
  import opened Utf8

  const MAX_DOCUMENT_BYTES: nat := 4 * 1024 * 1024

  datatype ServiceError = InvalidRequest | DocumentNotFound

  datatype Reply<+T> = Reply(value: T) | Failure(error: ServiceError)

  datatype FileRead = Text(text: string) | NotFound | Unreadable

  datatype FileSystem = FileSystem(read: string -> FileRead, isFile: string -> bool)

  /** What is decided outside the store: the identity of a text under a name, the module it declares, the path a
      name stands for, and the name of a path. */
  datatype Outside = Outside(identity: (string, string) -> string, declaredModule: string -> Option<string>,
                             pathOf: string -> Option<string>, nameOf: string -> string)

  datatype StoredContent = StoredContent(text: string, identity: string, declaredModule: Option<string>)

  datatype Buffer = Buffer(version: int, content: StoredContent)

  datatype Document = Document(path: Option<string>, disk: Option<StoredContent>, buffer: Option<Buffer>) {
    predicate Open() {
      buffer.Some?
    }

    /** The text state that counts: the editor's while the document is open. */
    function Stored(): Option<StoredContent> {
      if buffer.Some? then Some(buffer.value.content) else disk
    }

    function EffectiveModule(): Option<string> {
      if Stored().Some? then Stored().value.declaredModule else None
    }

    function Content(): Option<string> {
      if Stored().Some? then Some(Stored().value.text) else None
    }
  }

  function Seal(o: Outside, uri: string, text: string): StoredContent {
    StoredContent(text, o.identity(uri, text), o.declaredModule(text))
  }

  predicate TooLong(text: string) {
    |Encode(text)| > MAX_DOCUMENT_BYTES
  }

  function SourcePath(o: Outside, uri: string, d: Document): Option<string> {
    if d.path.Some? then d.path else o.pathOf(uri)
  }

  /** The text a document's file holds, if it can be taken. */
  function Readable(o: Outside, uri: string, d: Document, fs: FileSystem): Option<string> {
    var path := SourcePath(o, uri, d);
    if path.Some? && fs.read(path.value).Text? && !TooLong(fs.read(path.value).text)
    then Some(fs.read(path.value).text)
    else None
  }

  // ----- what an operation does to one document ----------------------------------------------

  function Opened(o: Outside, uri: string, d: Option<Document>, version: int, text: string): Document {
    Document(
      if d.Some? && d.value.path.Some? then d.value.path else o.pathOf(uri),
      None,
      Some(Buffer(version, Seal(o, uri, text))))
  }

  /** What a save leaves on disk: the given text, or else the buffer's; nothing new when there is neither or
      the identity is the one on disk. */
  function SavedDisk(o: Outside, uri: string, d: Document, text: Option<string>): Option<StoredContent> {
    if Resaved(o, uri, d, text) then Some(Seal(o, uri, SavedText(d, text).value)) else d.disk
  }

  function SavedText(d: Document, text: Option<string>): Option<string> {
    if text.Some? then text else if d.buffer.Some? then Some(d.buffer.value.content.text) else None
  }

  /** The save has a text whose identity is not the one on disk. */
  predicate Resaved(o: Outside, uri: string, d: Document, text: Option<string>) {
    var saved := SavedText(d, text);
    saved.Some? && (d.disk.None? || d.disk.value.identity != o.identity(uri, saved.value))
  }

  /** A close drops the buffer, and the document too when no file stands behind it. */
  function Closed(d: Document): Option<Document> {
    if d.buffer.Some? && d.disk.None? && d.path.None? then None else Some(d.(buffer := None))
  }

  predicate Blank(d: Document) {
    d.disk.None? && d.buffer.None?
  }

  /** A content-free document takes its file's text, when there is one to take. */
  function Loaded(o: Outside, uri: string, d: Document, fs: FileSystem): Document {
    if Blank(d) && Readable(o, uri, d, fs).Some?
    then d.(path := SourcePath(o, uri, d), disk := Some(Seal(o, uri, Readable(o, uri, d, fs).value)))
    else d
  }

  /** A text is taken as the disk state, the path staying as it was. */
  function Adopted(o: Outside, uri: string, d: Document, fs: FileSystem): Document
    requires Readable(o, uri, d, fs).Some?
  {
    d.(disk := Some(Seal(o, uri, Readable(o, uri, d, fs).value)))
  }

  /** The document a first reference finds or registers: one that is known, or one whose name stands for a
      source file. */
  function Registered(o: Outside, uri: string, d: Option<Document>, fs: FileSystem): Option<Document> {
    if d.Some? then d
    else
      var path := o.pathOf(uri);
      if path.Some? && fs.isFile(path.value) && IsSource(path.value) then Some(Document(path, None, None)) else None
  }

  function Identity(d: Document): Option<string> {
    if d.Stored().Some? then Some(d.Stored().value.identity) else None
  }

  datatype Refresh = Kept | Removed | Baseline(d: Document) | Updated(d: Document)

  function Refreshed(o: Outside, uri: string, d: Document, fs: FileSystem, allowed: bool): Refresh {
    var path := SourcePath(o, uri, d);
    if d.Open() || path.None? then Kept
    else
      var now := fs.read(path.value);
      if now.NotFound? then (if d.disk.None? || !allowed then Kept else Removed)
      else if now.Unreadable? || TooLong(now.text) then Kept
      else if d.disk.None? then Baseline(d.(disk := Some(Seal(o, uri, now.text))))
      else if d.disk.value.text == now.text then Kept
      else Updated(d.(disk := Some(Seal(o, uri, now.text))))
  }

  /** A closed document takes its file's text whatever it held. */
  function Reconciled(o: Outside, uri: string, d: Document, fs: FileSystem): Option<Document> {
    if d.Open() || Readable(o, uri, d, fs).None? then None
    else Some(d.(path := SourcePath(o, uri, d), disk := Some(Seal(o, uri, Readable(o, uri, d, fs).value))))
  }

  // ----- the store's documents ---------------------------------------------------------------

  function EffectiveAt(documents: map<string, Document>, uri: string): Option<string> {
    if uri in documents then documents[uri].EffectiveModule() else None
  }

  /** Which document claims which module. */
  ghost function Claims(documents: map<string, Document>): set<(string, string)> {
    set uri | uri in documents && EffectiveAt(documents, uri).Some? :: (EffectiveAt(documents, uri).value, uri)
  }

  /** Every text state is sealed under its document's name. */
  ghost predicate Sealed(o: Outside, documents: map<string, Document>) {
    forall uri :: uri in documents ==> SealedAs(o, uri, documents[uri])
  }

  predicate SealedAs(o: Outside, uri: string, d: Document) {
    && (d.disk.Some? ==> d.disk.value == Seal(o, uri, d.disk.value.text))
    && (d.buffer.Some? ==> d.buffer.value.content == Seal(o, uri, d.buffer.value.content.text))
  }

  /** One moment of a store, as its counters show it. */
  datatype Moment = Moment(documents: map<string, Document>, contentVersion: nat, generation: nat)

  /** The counters never go back, and the content version stands still only while no text changes and no
      document comes or goes. */
  predicate Progressed(before: Moment, after: Moment) {
    && before.generation <= after.generation
    && before.contentVersion <= after.contentVersion
    && (before.contentVersion == after.contentVersion ==> before.documents == after.documents)
  }

  // ----- operations over every document ------------------------------------------------------

  /** The documents after an operation that treats each on its own, so far as it has got. */
  ghost function Mapped(documents: map<string, Document>, next: (string, Document) -> Option<Document>,
                        done: set<string>): map<string, Document> {
    map uri | uri in documents && (uri in done ==> next(uri, documents[uri]).Some?) ::
      if uri in done then next(uri, documents[uri]).value else documents[uri]
  }

  lemma MappedStep(documents: map<string, Document>, next: (string, Document) -> Option<Document>, done: set<string>,
                   uri: string)
    requires uri in documents && uri !in done
    ensures uri in Mapped(documents, next, done) && Mapped(documents, next, done)[uri] == documents[uri]
    ensures var n := next(uri, documents[uri]);
            Mapped(documents, next, done + {uri}) ==
              if n.Some? then Mapped(documents, next, done)[uri := n.value] else Mapped(documents, next, done) - {uri}
    ensures next(uri, documents[uri]) == Some(documents[uri]) ==>
              Mapped(documents, next, done + {uri}) == Mapped(documents, next, done)
  {
    var n := next(uri, documents[uri]);
    var more := Mapped(documents, next, done + {uri});
    var base := Mapped(documents, next, done);
    forall u
      ensures u in more <==> (if u == uri then n.Some? else u in base)
      ensures u in more && u != uri ==> more[u] == base[u]
    {
      assert u in done + {uri} <==> u in done || u == uri;
    }
    assert more == if n.Some? then base[uri := n.value] else base - {uri};
    if n == Some(documents[uri]) {
      assert base[uri := n.value] == base;
    }
  }

  lemma MappedNothing(documents: map<string, Document>, next: (string, Document) -> Option<Document>)
    ensures Mapped(documents, next, {}) == documents
  {
  }

  function LoadNext(o: Outside, fs: FileSystem): (string, Document) -> Option<Document> {
    (uri: string, d: Document) => Some(Loaded(o, uri, d, fs))
  }

  function RefreshNext(o: Outside, fs: FileSystem, allowed: string -> bool): (string, Document) -> Option<Document> {
    (uri: string, d: Document) =>
      match Refreshed(o, uri, d, fs, allowed(uri))
      case Kept => Some(d)
      case Removed => None
      case Baseline(e) => Some(e)
      case Updated(e) => Some(e)
  }

  function ReconcileNext(o: Outside, fs: FileSystem): (string, Document) -> Option<Document> {
    (uri: string, d: Document) => if Reconciled(o, uri, d, fs).Some? then Reconciled(o, uri, d, fs) else Some(d)
  }

  /** The documents a refresh reports, in order, each with its own new generation. */
  ghost function Reported(o: Outside, documents: map<string, Document>, fs: FileSystem, allowed: string -> bool,
                          uris: seq<string>,
                          generation: nat): seq<(string, nat, bool)>
    requires forall i :: 0 <= i < |uris| ==> uris[i] in documents
  {
    if uris == [] then []
    else
      var n := |uris| - 1;
      var front := Reported(o, documents, fs, allowed, uris[..n], generation);
      var next := Refreshed(o, uris[n], documents[uris[n]], fs, allowed(uris[n]));
      if next.Removed? || next.Updated? then front + [(uris[n], generation + |front| + 1, next.Removed?)] else front
  }

  /** Documents whose file no longer has the identity a checkpoint recorded. */
  predicate Differs(o: Outside, uri: string, d: Document, fs: FileSystem, checkpoint: Option<map<string, string>>) {
    && checkpoint.Some? && Reconciled(o, uri, d, fs).Some?
    && !(uri in checkpoint.value && checkpoint.value[uri] == o.identity(uri, Readable(o, uri, d, fs).value))
  }

  ghost function Moved(o: Outside, documents: map<string, Document>, fs: FileSystem,
                       checkpoint: Option<map<string, string>>,
                       uris: seq<string>, generation: nat): seq<(string, nat)>
    requires forall i :: 0 <= i < |uris| ==> uris[i] in documents
  {
    if uris == [] then []
    else
      var n := |uris| - 1;
      var front := Moved(o, documents, fs, checkpoint, uris[..n], generation);
      if Differs(o, uris[n], documents[uris[n]], fs, checkpoint) then front + [(uris[n], generation + |front| + 1)]
          else front
  }

  function Discovered(documents: map<string, Document>, found: seq<(string, string)>): map<string, Document>
    decreases |found|
  {
    if found == [] then documents
    else
      var n := |found| - 1;
      var before := Discovered(documents, found[..n]);
      if found[n].0 in before then before else before[found[n].0 := Document(Some(found[n].1), None, None)]
  }

  /** The names a walk reports: all it found, or those that were new. */
  function Named(documents: map<string, Document>, found: seq<(string, string)>, onlyNew: bool): seq<string>
    decreases |found|
  {
    if found == [] then []
    else
      var n := |found| - 1;
      Named(documents, found[..n], onlyNew)
      + (if onlyNew && found[n].0 in Discovered(documents, found[..n]) then [] else [found[n].0])
  }

  ghost predicate NameFound(found: seq<(string, string)>, uri: string) {
    exists i :: 0 <= i < |found| && found[i].0 == uri
  }

  lemma NameFoundLast(found: seq<(string, string)>, uri: string)
    requires found != []
    ensures NameFound(found, uri) <==> NameFound(found[..|found| - 1], uri) || found[|found| - 1].0 == uri
  {
    var n := |found| - 1;
    if i :| 0 <= i < n && found[..n][i].0 == uri {
      assert found[i].0 == uri;
    }
    if i :| 0 <= i < |found| && found[i].0 == uri {
      assert i < n ==> found[..n][i].0 == uri;
    }
  }

  /** Registering what was found keeps every known document and adds exactly the names found. */
  lemma {:induction false} DiscoveredIs(documents: map<string, Document>, found: seq<(string, string)>)
    ensures var after := Discovered(documents, found);
            && (forall uri :: uri in documents ==> uri in after && after[uri] == documents[uri])
            && (forall uri :: uri in after <==> uri in documents || NameFound(found, uri))
    decreases |found|
  {
    hide NameFound;
    if found == [] {
      NothingFound();
    } else {
      DiscoveredIs(documents, found[..|found| - 1]);
      forall uri: string
        ensures NameFound(found, uri) <==> NameFound(found[..|found| - 1], uri) || found[|found| - 1].0 == uri
      {
        NameFoundLast(found, uri);
      }
    }
  }

  lemma NothingFound()
    ensures forall uri :: !NameFound([], uri)
  {
  }

  lemma RefreshStep(o: Outside, documents: map<string, Document>, fs: FileSystem, allowed: string -> bool,
                    uris: seq<string>, i: nat,
                    done: set<string>, generation: nat)
    requires forall j :: 0 <= j < |uris| ==> uris[j] in documents
    requires i < |uris| && uris[i] !in done
    ensures var uri, f := uris[i], RefreshNext(o, fs, allowed);
            var next, at := Refreshed(o, uri, documents[uri], fs, allowed(uri)), Mapped(documents, f, done);
            && uri in at && at[uri] == documents[uri]
            && Mapped(documents, f, done + {uri})
                == (if next.Kept? then at else if next.Removed? then at - {uri} else at[uri := next.d])
            && var front := Reported(o, documents, fs, allowed, uris[..i], generation);
               Reported(o, documents, fs, allowed, uris[..i + 1], generation)
                 == if next.Removed? || next.Updated? then front + [(uri, generation + |front| + 1, next.Removed?)]
                     else front
  {
    hide Refreshed;
    MappedStep(documents, RefreshNext(o, fs, allowed), done, uris[i]);
    assert uris[..i + 1][..i] == uris[..i];
  }

  lemma ReconcileStep(o: Outside, documents: map<string, Document>, fs: FileSystem,
                      checkpoint: Option<map<string, string>>,
                      uris: seq<string>, i: nat, done: set<string>, generation: nat)
    requires forall j :: 0 <= j < |uris| ==> uris[j] in documents
    requires i < |uris| && uris[i] !in done
    ensures var uri, f := uris[i], ReconcileNext(o, fs);
            var next, at := Reconciled(o, uri, documents[uri], fs), Mapped(documents, f, done);
            && uri in at && at[uri] == documents[uri]
            && Mapped(documents, f, done + {uri}) == (if next.None? then at else at[uri := next.value])
            && var front := Moved(o, documents, fs, checkpoint, uris[..i], generation);
               Moved(o, documents, fs, checkpoint, uris[..i + 1], generation)
                 == if Differs(o, uri, documents[uri], fs, checkpoint) then front + [(uri, generation + |front| + 1)]
                     else front
  {
    hide Reconciled, Differs;
    MappedStep(documents, ReconcileNext(o, fs), done, uris[i]);
    assert uris[..i + 1][..i] == uris[..i];
  }

  // ----- the walk of a discovery -------------------------------------------------------------

  ghost predicate FoundAt(found: seq<(string, string)>, path: string) {
    exists i :: 0 <= i < |found| && found[i].1 == path
  }

  ghost predicate FoundUnder(o: Outside, found: seq<(string, string)>, all: set<string>) {
    forall i :: 0 <= i < |found| ==> found[i].0 == o.nameOf(found[i].1) && found[i].1 in all
  }

  /** A walk over `all` sources with `pending` ones still ahead: unless the limit is reached, every source is ahead
      or found. */
  ghost predicate Walking(o: Outside, before: map<string, Document>, all: set<string>, onlyNew: bool,
                          found: seq<(string, string)>, pending: set<string>, discovered: seq<string>,
                          now: map<string, Document>) {
    && now == Discovered(before, found)
    && discovered == Named(before, found, onlyNew)
    && |discovered| <= MAX_DISCOVERED_DOCUMENTS
    && FoundUnder(o, found, all) && pending <= all
    && (|discovered| < MAX_DISCOVERED_DOCUMENTS ==> forall path :: path in all ==>
        path in pending || FoundAt(found, path))
  }

  lemma WalkStarts(o: Outside, before: map<string, Document>, all: set<string>, onlyNew: bool)
    ensures Walking(o, before, all, onlyNew, [], all, [], before)
  {
  }

  /** One more source registered. */
  lemma WalkFinds(o: Outside, before: map<string, Document>, all: set<string>, onlyNew: bool,
                  found: seq<(string, string)>, pending: set<string>, discovered: seq<string>,
                  now: map<string, Document>, path: string, rest: set<string>)
    requires Walking(o, before, all, onlyNew, found, pending, discovered, now)
    requires |discovered| < MAX_DISCOVERED_DOCUMENTS && pending == {path} + rest
    ensures var uri := o.nameOf(path);
            var created := uri !in now;
            Walking(o, before, all, onlyNew, found + [(uri, path)], rest,
                    if created || !onlyNew then discovered + [uri] else discovered,
                    if created then now[uri := Document(Some(path), None, None)] else now)
  {
    var more := found + [(o.nameOf(path), path)];
    assert more[..|found|] == found;
    forall p | p in all
      ensures p in rest || FoundAt(more, p)
    {
      if FoundAt(found, p) {
        var i :| 0 <= i < |found| && found[i].1 == p;
        assert more[i].1 == p;
      }
      assert more[|found|].1 == path;
    }
  }

  /** At the limit nothing more is asked for. */
  lemma WalkStops(o: Outside, before: map<string, Document>, all: set<string>, onlyNew: bool,
                  found: seq<(string, string)>, pending: set<string>, discovered: seq<string>,
                  now: map<string, Document>, rest: set<string>)
    requires Walking(o, before, all, onlyNew, found, pending, discovered, now)
    requires |discovered| >= MAX_DISCOVERED_DOCUMENTS && rest <= pending
    ensures Walking(o, before, all, onlyNew, found, rest, discovered, now)
  {
  }

  lemma {:induction false} NamedIs(documents: map<string, Document>, found: seq<(string, string)>, onlyNew: bool)
    ensures forall uri :: uri in Named(documents, found, onlyNew) <==>
                            NameFound(found, uri) && (onlyNew ==> uri !in documents)
    decreases |found|
  {
    hide NameFound, Discovered;
    if found == [] {
      NothingFound();
    } else {
      var n := |found| - 1;
      NamedIs(documents, found[..n], onlyNew);
      DiscoveredIs(documents, found[..n]);
      forall uri: string
        ensures NameFound(found, uri) <==> NameFound(found[..n], uri) || found[n].0 == uri
      {
        NameFoundLast(found, uri);
      }
    }
  }

  /** A document found and not known before knows its file and nothing else. */
  ghost predicate FreshAt(found: seq<(string, string)>, uri: string, d: Document) {
    exists i :: 0 <= i < |found| && found[i].0 == uri && d == Document(Some(found[i].1), None, None)
  }

  lemma {:induction false} DiscoveredFresh(documents: map<string, Document>, found: seq<(string, string)>, uri: string)
    requires uri in Discovered(documents, found) && uri !in documents
    ensures FreshAt(found, uri, Discovered(documents, found)[uri])
    decreases |found|
  {
    var n := |found| - 1;
    var front := found[..n];
    if uri in Discovered(documents, front) {
      DiscoveredFresh(documents, front, uri);
      var i :| 0 <= i < |front| && front[i].0 == uri
          && Discovered(documents, front)[uri] == Document(Some(front[i].1), None, None);
      assert found[i] == front[i];
    } else {
      assert found[n].0 == uri;
    }
  }

  /** What a finished walk has done. */
  ghost predicate Walked(o: Outside, before: map<string, Document>, all: set<string>, onlyNew: bool,
                         found: seq<(string, string)>, discovered: seq<string>, now: map<string, Document>) {
    && now == Discovered(before, found) && FoundUnder(o, found, all)
    && multiset(discovered) == multiset(Named(before, found, onlyNew))
    && TextsSorted(discovered)
    && |discovered| <= 5000
    && (|discovered| < 5000 ==> forall path :: path in all ==> FoundAt(found, path))
  }

  /** Every document that is new stands for one of the sources and holds no text yet. */
  ghost predicate OnlySources(o: Outside, before: map<string, Document>, all: set<string>, now: map<string, Document>) {
    && (forall uri :: uri in before ==> uri in now && now[uri] == before[uri])
    && (forall uri :: uri in now && uri !in before ==>
          exists path :: path in all && o.nameOf(path) == uri && now[uri] == Document(Some(path), None, None))
  }

  /** The answer names new documents, and when old ones count too, those found again. */
  ghost predicate NamesFound(o: Outside, before: map<string, Document>, all: set<string>, onlyNew: bool,
                             discovered: seq<string>, now: map<string, Document>) {
    && (forall uri :: uri in discovered ==>
          uri in now && (onlyNew ==> uri !in before) && exists path :: path in all && o.nameOf(path) == uri)
    && (forall uri :: uri in now && uri !in before ==> uri in discovered)
    && (|discovered| < 5000 && !onlyNew ==> forall path :: path in all ==> o.nameOf(path) in discovered)
  }

  /** A walk that stays below the limit registers exactly the sources; one that does not registers no others. */
  lemma WalkedExactly(o: Outside, before: map<string, Document>, all: set<string>, onlyNew: bool,
                      found: seq<(string, string)>, discovered: seq<string>, now: map<string, Document>)
    requires Walked(o, before, all, onlyNew, found, discovered, now)
    ensures OnlySources(o, before, all, now)
    ensures NamesFound(o, before, all, onlyNew, discovered, now)
    ensures |discovered| <= 5000
    ensures |discovered| < 5000 ==> forall path :: path in all ==> o.nameOf(path) in now
  {
    hide Named, Discovered, FreshAt, TextsSorted;
    DiscoveredIs(before, found);
    NamedIs(before, found, onlyNew);
    forall uri | uri in now && uri !in before
      ensures exists path :: path in all && o.nameOf(path) == uri && now[uri] == Document(Some(path), None, None)
    {
      DiscoveredFresh(before, found, uri);
      FreshSource(o, found, all, uri, now[uri]);
    }
    forall uri
      ensures uri in discovered <==> NameFound(found, uri) && (onlyNew ==> uri !in before)
    {
      assert uri in discovered <==> uri in multiset(discovered);
      assert uri in Named(before, found, onlyNew) <==> uri in multiset(Named(before, found, onlyNew));
    }
    forall uri | NameFound(found, uri)
      ensures exists path :: path in all && o.nameOf(path) == uri
    {
      var i :| 0 <= i < |found| && found[i].0 == uri;
      assert found[i].1 in all;
    }
    if |discovered| < 5000 {
      forall path | path in all
        ensures NameFound(found, o.nameOf(path))
      {
        var i :| 0 <= i < |found| && found[i].1 == path;
        assert found[i].0 == o.nameOf(path);
      }
    }
    NamesAre(o, before, all, onlyNew, found, discovered, now);
  }

  lemma NamesAre(o: Outside, before: map<string, Document>, all: set<string>, onlyNew: bool,
                 found: seq<(string, string)>, discovered: seq<string>, now: map<string, Document>)
    requires forall uri :: uri in discovered <==> NameFound(found, uri) && (onlyNew ==> uri !in before)
    requires forall uri :: uri in now <==> uri in before || NameFound(found, uri)
    requires forall uri :: NameFound(found, uri) ==> exists path :: path in all && o.nameOf(path) == uri
    requires |discovered| < 5000 ==> forall path :: path in all ==> NameFound(found, o.nameOf(path))
    ensures NamesFound(o, before, all, onlyNew, discovered, now)
  {
    hide NameFound;
  }

  lemma FreshSource(o: Outside, found: seq<(string, string)>, all: set<string>, uri: string, d: Document)
    requires FoundUnder(o, found, all) && FreshAt(found, uri, d)
    ensures exists path :: path in all && o.nameOf(path) == uri && d == Document(Some(path), None, None)
  {
    var i :| 0 <= i < |found| && found[i].0 == uri && d == Document(Some(found[i].1), None, None);
    assert found[i].1 in all;
  }
}
