/** The resident document store (crates/service-core/src/document.rs): documents, the module directory kept
    beside them, and the two counters. */
module DocumentStores {
  import opened Outcomes
  import opened Ordered
  import opened Buckets
  import opened Directories
  import opened Documents
  import opened Utf8
  import opened CoordinateKernel
  import opened Edits

  lemma ClaimsAre(documents: map<string, Document>, m: string, uri: string)
    ensures (m, uri) in Claims(documents) <==> EffectiveAt(documents, uri) == Some(m)
  {
  }

  lemma NothingIn(path: string, entries: seq<Entry>)
    ensures SourcesIn(path, entries[|entries|..]) == {}
  {
  }

  /** The document holds this text in a buffer of this version and nothing from disk, at the path it had or the one its
      name stands for; every other document is as it was. */
  ghost predicate OpenedWith(o: Outside, before: map<string, Document>, after: map<string, Document>, uri: string,
                             version: int, text: string) {
    && uri in after
    && after[uri].disk == None
    && after[uri].buffer.Some? && after[uri].buffer.value.version == version
    && after[uri].buffer.value.content.text == text
    && after[uri].buffer.value.content.identity == o.identity(uri, text)
    && after[uri].buffer.value.content.declaredModule == o.declaredModule(text)
    && after[uri].path == (if uri in before && before[uri].path.Some? then before[uri].path else o.pathOf(uri))
    && (forall u :: u != uri ==> (u in after <==> u in before) && (u in before ==> u in after && after[u] == before[u]))
  }

  /** The text of a save, or else the buffer's, is on disk afterwards; path and buffer stay. What others see changes
      only when no buffer covers a text with another identity. */
  ghost predicate SavedWith(o: Outside, was: Document, after: map<string, Document>, uri: string, text: Option<string>,
                            steps: int) {
    && uri in after && after[uri].path == was.path && after[uri].buffer == was.buffer
    && (text.None? && was.buffer.None? ==> after[uri] == was && steps == 0)
    && (text.Some? || was.buffer.Some? ==>
          var saved := if text.Some? then text.value else was.buffer.value.content.text;
          && after[uri].disk.Some? && after[uri].disk.value.identity == o.identity(uri, saved)
          && (was.disk.None? || was.disk.value.identity != o.identity(uri, saved) ==>
                after[uri].disk.value.text == saved && after[uri].disk.value.declaredModule == o.declaredModule(saved))
          && (was.disk.Some? && was.disk.value.identity == o.identity(uri, saved) ==> after[uri].disk == was.disk)
          && steps == if was.buffer.None? && (was.disk.None? || was.disk.value.identity != o.identity(uri, saved))
                      then 1 else 0)
  }

  /** No buffer is left. The document stays with its path and its disk state when it has either, or was not open; the
      answer is the disk state's text. */
  ghost predicate ClosedWith(was: Document, after: map<string, Document>, uri: string, r: Reply<Option<string>>) {
    && (uri in after <==> was.disk.Some? || was.path.Some? || was.buffer.None?)
    && (uri in after ==>
          after[uri].buffer.None? && after[uri].disk == was.disk && after[uri].path == was.path)
    && r == Reply(if was.disk.Some? then Some(was.disk.value.text) else None)
  }

  /** The walk is over: nothing is ahead, or the limit is reached. */
  lemma WalkEnds(o: Outside, before: map<string, Document>, all: set<string>, onlyNew: bool,
                 found: seq<(string, string)>, stack: seq<Place>, discovered: seq<string>, now: map<string, Document>)
    requires Walking(o, before, all, onlyNew, found, SourcesUnder(stack), discovered, now)
    requires stack == [] || |discovered| >= MAX_DISCOVERED_DOCUMENTS
    ensures now == Discovered(before, found) && FoundUnder(o, found, all)
    ensures discovered == Named(before, found, onlyNew) && |discovered| <= MAX_DISCOVERED_DOCUMENTS
    ensures |discovered| < MAX_DISCOVERED_DOCUMENTS ==> forall path :: path in all ==> FoundAt(found, path)
  {
  }

  class DocumentStore {
    const outside: Outside
    var documents: map<string, Document>
    var moduleClaims: map<string, set<string>>
    var generation: nat
    var contentVersion: nat

    /** The module directory is the inverse of the documents' effective modules, without empty buckets. */
    ghost predicate Valid()
      reads this
    {
      moduleClaims == Group(Claims(documents)) && Sealed(outside, documents)
    }

    constructor (outside: Outside)
      ensures Valid() && this.outside == outside && documents == map[] && generation == contentVersion == 0
    {
      this.outside, documents, moduleClaims, generation, contentVersion := outside, map[], map[], 0, 0;
    }

    function Now(): Moment
      reads this
    {
      Moment(documents, contentVersion, generation)
    }

    /** `note_module_change` */
    method NoteModuleChange(uri: string, oldModule: Option<string>, newModule: Option<string>,
                            ghost before: map<string, Document>)
      requires moduleClaims == Group(Claims(before))
      requires oldModule == EffectiveAt(before, uri) && newModule == EffectiveAt(documents, uri)
      requires forall u :: u != uri ==> EffectiveAt(before, u) == EffectiveAt(documents, u)
      modifies this`moduleClaims
      ensures moduleClaims == Group(Claims(documents))
    {
      hide Group;
      ghost var claims := Claims(before);
      ClaimsChange(before, documents, uri);
      if oldModule == newModule {
        return;
      }
      if oldModule.Some? {
        moduleClaims := RemoveFromBucket(moduleClaims, oldModule.value, uri, claims);
        claims := claims - {(oldModule.value, uri)};
      }
      assert claims == Claims(before) - (if oldModule.Some? then {(oldModule.value, uri)} else {});
      assert claims + {} == claims;
      if newModule.Some? {
        moduleClaims := InsertIntoBucket(moduleClaims, newModule.value, uri, claims);
      }
    }

    /** Every change to a document: its new state, or its removal, one step of the content version, and the
        directory brought up to date. */
    method Commit(uri: string, next: Option<Document>)
      requires Valid() && (next.Some? ==> SealedAs(outside, uri, next.value))
      modifies this
      ensures Valid() && documents == (if next.Some? then old(documents)[uri := next.value] else old(documents) - {uri})
      ensures contentVersion == old(contentVersion) + 1 && generation == old(generation)
    {
      hide Group, Claims;
      ghost var before := documents;
      var oldModule := if uri in documents then documents[uri].EffectiveModule() else None;
      documents := if next.Some? then documents[uri := next.value] else documents - {uri};
      contentVersion := contentVersion + 1;
      NoteModuleChange(uri, oldModule, if next.Some? then next.value.EffectiveModule() else None, before);
    }

    method NextGeneration() returns (g: nat)
      requires Valid()
      modifies this`generation
      ensures Valid() && g == generation == old(generation) + 1
    {
      generation := generation + 1;
      g := generation;
    }

    /** `restore_generation_at_least` */
    method RestoreGenerationAtLeast(value: nat)
      requires Valid()
      modifies this`generation
      ensures Valid() && Progressed(old(Now()), Now())
      ensures generation == if old(generation) < value then value else old(generation)
    {
      if generation < value {
        generation := value;
      }
    }

    /** `ensure_document` */
    method EnsureDocument(uri: string, path: Option<string>) returns (created: bool)
      requires Valid()
      modifies this
      ensures Valid() && created == (uri !in old(documents)) && generation == old(generation)
      ensures Progressed(old(Now()), Now())
      ensures documents == if created then old(documents)[uri := Document(path, None, None)] else old(documents)
      ensures contentVersion == old(contentVersion) + (if created then 1 else 0)
    {
      if uri in documents {
        return false;
      }
      Commit(uri, Some(Document(path, None, None)));
      created := true;
    }

    /** `did_open`, and `did_change`, which is the same. */
    method DidOpen(uri: string, version: int, text: string) returns (r: Reply<nat>)
      requires Valid()
      modifies this
      ensures Valid()
      ensures Progressed(old(Now()), Now())
      ensures TooLong(text) ==> r == Failure(InvalidRequest) && documents == old(documents)
                                && contentVersion == old(contentVersion) && generation == old(generation)
      ensures !TooLong(text) ==>
                && r == Reply(generation) && generation == old(generation) + 1
                   && contentVersion == old(contentVersion) + 1
                && documents == old(documents)[uri :=
                    Opened(outside, uri, DocumentAt(old(documents), uri), version, text)]
      ensures r.Failure? <==> |Encode(text)| > 4194304
      ensures r.Reply? ==> OpenedWith(outside, old(documents), documents, uri, version, text)
    {
      LengthIs(text);
      hide TooLong, Encode;
      if TooLong(text) {
        return Failure(InvalidRequest);
      }
      var g := NextGeneration();
      Commit(uri, Some(Opened(outside, uri, DocumentAt(documents, uri), version, text)));
      r := Reply(g);
    }

    /** `did_save` */
    method DidSave(uri: string, text: Option<string>) returns (r: Reply<nat>)
      requires Valid()
      modifies this
      ensures Valid()
      ensures Progressed(old(Now()), Now())
      ensures uri !in old(documents) ==>
                r == Failure(DocumentNotFound) && documents == old(documents)
                && contentVersion == old(contentVersion) && generation == old(generation)
      ensures uri in old(documents) ==>
                var d := old(documents)[uri];
                var next := d.(disk := SavedDisk(outside, uri, d, text));
                var changed := Identity(d) != Identity(next);
                && documents == old(documents)[uri := next]
                && contentVersion == old(contentVersion) + (if Resaved(outside, uri, d, text) then 1 else 0)
                && generation == old(generation) + (if changed then 1 else 0) && r == Reply(generation)
      ensures uri in old(documents) ==>
                SavedWith(outside, old(documents)[uri], documents, uri, text, generation - old(generation))
    {
      if uri !in documents {
        return Failure(DocumentNotFound);
      }
      var d := documents[uri];
      var oldIdentity := Identity(d);
      var saved := if text.Some? then text else if d.buffer.Some? then Some(d.buffer.value.content.text) else None;
      var next := d;
      if saved.Some? {
        var sealed := Seal(outside, uri, saved.value);
        if d.disk.None? || d.disk.value.identity != sealed.identity {
          next := d.(disk := Some(sealed));
          Commit(uri, Some(next));
        }
      }
      assert documents == old(documents)[uri := next];
      if oldIdentity != Identity(next) {
        generation := generation + 1;
      }
      r := Reply(generation);
    }

    /** `did_close` */
    method DidClose(uri: string) returns (r: Reply<Option<string>>)
      requires Valid()
      modifies this
      ensures Valid() && generation == old(generation) + 1
      ensures Progressed(old(Now()), Now())
      ensures uri !in old(documents) ==>
                r == Failure(DocumentNotFound) && documents == old(documents) && contentVersion == old(contentVersion)
      ensures uri in old(documents) ==>
                var d := old(documents)[uri];
                && documents == (if Closed(d).Some? then old(documents)[uri := Closed(d).value]
                    else old(documents) - {uri})
                && contentVersion == old(contentVersion) + (if d.Open() then 1 else 0)
                && r == Reply(if Closed(d).Some? then Closed(d).value.Content() else None)
      ensures uri in old(documents) ==> ClosedWith(old(documents)[uri], documents, uri, r)
    {
      var g := NextGeneration();
      if uri !in documents {
        return Failure(DocumentNotFound);
      }
      var d := documents[uri];
      if d.buffer.None? {
        assert documents == documents[uri := d] && Closed(d) == Some(d);
        return Reply(d.Content());
      }
      if d.disk.None? && d.path.None? {
        Commit(uri, None);
        return Reply(None);
      }
      var next := d.(buffer := None);
      Commit(uri, Some(next));
      r := Reply(next.Content());
    }

    /** `ensure_loaded` */
    method EnsureLoaded(uri: string, fs: FileSystem) returns (r: Reply<()>)
      requires Valid()
      modifies this
      ensures Valid() && generation == old(generation)
      ensures Progressed(old(Now()), Now())
      ensures var known := Registered(outside, uri, DocumentAt(old(documents), uri), fs);
              if known.None? then r == Failure(DocumentNotFound) && documents == old(documents)
                  && contentVersion == old(contentVersion)
              else
                && r == Reply(()) && documents == old(documents)[uri := Loaded(outside, uri, known.value, fs)]
                && contentVersion == old(contentVersion) + (if uri in old(documents) then 0 else 1)
                                     + (if Loaded(outside, uri, known.value, fs).disk != known.value.disk then 1 else 0)
    {
      hide TooLong;
      if uri in documents && documents[uri].Content().Some? {
        assert documents == documents[uri := documents[uri]];
        return Reply(());
      }
      var knownPath := if uri in documents && documents[uri].path.Some? then documents[uri].path
          else outside.pathOf(uri);
      if uri !in documents {
        if knownPath.None? || !fs.isFile(knownPath.value) || !IsSource(knownPath.value) {
          return Failure(DocumentNotFound);
        }
        Commit(uri, Some(Document(knownPath, None, None)));
      }
      var d := documents[uri];
      assert documents == old(documents)[uri := d];
      if d.disk.None? && !d.Open() {
        var path := if d.path.Some? then d.path else outside.pathOf(uri);
        if path.Some? {
          var read := fs.read(path.value);
          if read.Text? && !TooLong(read.text) {
            Commit(uri, Some(d.(disk := Some(Seal(outside, uri, read.text)), path := path)));
          }
        }
      }
      r := Reply(());
    }

    /** `content` */
    method Content(uri: string, fs: FileSystem) returns (r: Reply<string>)
      requires Valid()
      modifies this
      ensures Valid() && generation == old(generation)
      ensures Progressed(old(Now()), Now())
      ensures var known := Registered(outside, uri, DocumentAt(old(documents), uri), fs);
              if known.None? then r == Failure(DocumentNotFound) && documents == old(documents)
                  && contentVersion == old(contentVersion)
              else
                var d := Loaded(outside, uri, known.value, fs);
                && documents == old(documents)[uri := d]
                && contentVersion == old(contentVersion) + (if uri in old(documents) then 0 else 1)
                                     + (if d.disk != known.value.disk then 1 else 0)
                && r == if d.Content().Some? then Reply(d.Content().value) else Failure(DocumentNotFound)
    {
      hide Loaded, Registered;
      var loaded := EnsureLoaded(uri, fs);
      if loaded.Failure? {
        return Failure(loaded.error);
      }
      if documents[uri].Content().None? {
        return Failure(DocumentNotFound);
      }
      r := Reply(documents[uri].Content().value);
    }

    /** `load_new_disk` */
    method LoadNewDisk(uri: string, fs: FileSystem) returns (r: Reply<Option<nat>>)
      requires Valid()
      modifies this
      ensures Valid()
      ensures Progressed(old(Now()), Now())
      ensures var loadable := uri in old(documents) && Blank(old(documents)[uri])
              && Readable(outside, uri, old(documents)[uri], fs).Some?;
              && generation == old(generation) + (if loadable then 1 else 0)
              && contentVersion == old(contentVersion) + (if loadable then 1 else 0)
              && documents == (if loadable then old(documents)[uri := Adopted(outside, uri, old(documents)[uri], fs)]
                  else old(documents))
              && (loadable <==> r == Reply(Some(generation))) && (r.Failure? || loadable || r == Reply(None))
    {
      hide TooLong;
      if uri !in documents {
        return Failure(DocumentNotFound);
      }
      var d := documents[uri];
      var path := if d.path.Some? then d.path else outside.pathOf(uri);
      if d.Open() || d.disk.Some? || path.None? {
        return Reply(None);
      }
      var read := fs.read(path.value);
      if !read.Text? {
        return Failure(InvalidRequest);
      }
      if TooLong(read.text) {
        return Reply(None);
      }
      Commit(uri, Some(d.(disk := Some(Seal(outside, uri, read.text)))));
      var g := NextGeneration();
      r := Reply(Some(g));
    }

    /** `scan_modules_for`: load every content-free document, then look the module up again. */
    method ScanModulesFor(name: string, fs: FileSystem) returns (r: Option<string>)
      requires Valid()
      modifies this
      ensures Valid() && generation == old(generation)
      ensures Progressed(old(Now()), Now())
      ensures documents == Mapped(old(documents), LoadNext(outside, fs), old(documents).Keys)
      ensures LeastDeclaring(documents, name, r)
    {
      hide Group, Claims, TooLong, TextLess, Mapped, LeastDeclaring;
      TextOrder();
      var uris := InOrder(documents.Keys, TextLess);
      ghost var before := documents;
      UrisOf(before, uris);
      MappedNothing(before, LoadNext(outside, fs));
      for i := 0 to |uris|
        invariant Valid() && generation == old(generation)
        invariant documents == Mapped(before, LoadNext(outside, fs), Upto(uris, i))
        invariant contentVersion >= old(contentVersion)
                  && (contentVersion == old(contentVersion) ==> documents == before)
      {
        var uri := uris[i];
        NextUri(before, uris, i);
        MappedStep(before, LoadNext(outside, fs), Upto(uris, i), uri);
        var d := documents[uri];
        if d.Stored().None? {
          var path := if d.path.Some? then d.path else outside.pathOf(uri);
          if path.Some? {
            var read := fs.read(path.value);
            if read.Text? && !TooLong(read.text) {
              Commit(uri, Some(d.(path := path, disk := Some(Seal(outside, uri, read.text)))));
            }
          }
        }
      }
      AllUris(before, uris);
      r := FirstClaimant(name);
    }

    /** The least document in the directory under a module name. */
    method FirstClaimant(name: string) returns (r: Option<string>)
      requires Valid()
      ensures LeastDeclaring(documents, name, r)
    {
      hide Group, TextLess;
      GroupHas(Claims(documents), name);
      forall u: string
        ensures (name, u) in Claims(documents) <==> EffectiveAt(documents, u) == Some(name)
      {
        ClaimsAre(documents, name, u);
      }
      if name !in moduleClaims {
        return None;
      }
      TextOrder();
      var bucket := moduleClaims[name];
      ghost var least := LeastExists(bucket, TextLess);
      var first :| first in bucket && forall u :: u in bucket ==> u == first || TextLess(first, u);
      return Some(first);
    }

    /** `module_uri` */
    method ModuleUri(name: string, fs: FileSystem) returns (r: Option<string>)
      requires Valid()
      modifies this
      ensures Valid() && generation == old(generation) && LeastDeclaring(documents, name, r)
      ensures Progressed(old(Now()), Now())
      ensures documents == if Declared(old(documents), name) then old(documents)
                           else Mapped(old(documents), LoadNext(outside, fs), old(documents).Keys)
    {
      hide Group, Claims, TextLess, Mapped;
      r := FirstClaimant(name);
      if r.None? {
        r := ScanModulesFor(name, fs);
      }
    }

    /** `refresh_disk_with`; `allowed` is what the owner answers before a removal. */
    method RefreshDiskWith(fs: FileSystem, allowed: string -> bool) returns (changed: seq<(string, nat, bool)>)
      requires Valid()
      modifies this
      ensures Valid() && documents == Mapped(old(documents), RefreshNext(outside, fs, allowed), old(documents).Keys)
      ensures Progressed(old(Now()), Now())
      ensures Sorted(old(documents))
      ensures changed == Reported(outside, old(documents), fs, allowed, SortedUris(old(documents)), old(generation))
      ensures generation == old(generation) + |changed|
    {
      hide Valid, TextLess, SortedUris, Refreshed, Refreshing, Mapped, Reported, RefreshNext, Ascending;
      TextOrder();
      var uris := InOrder(documents.Keys, TextLess);
      ghost var before := documents;
      UrisOf(before, uris);
      changed := [];
      RefreshingStarts(outside, before, fs, allowed, uris, generation, contentVersion);
      for i := 0 to |uris|
        invariant Valid() && Refreshing(outside, before, fs, allowed, uris, i, old(generation), old(contentVersion),
                                        documents, changed, generation, contentVersion)
      {
        var uri := uris[i];
        RefreshingHere(outside, before, fs, allowed, uris, i, old(generation), old(contentVersion), documents, changed,
            generation, contentVersion);
        ghost var now, was, version := documents, changed, contentVersion;
        var report := RefreshOne(uri, fs, allowed(uri));
        if report.Some? {
          var g := NextGeneration();
          changed := changed + [(uri, g, report.value)];
        }
        RefreshingNext(outside, before, fs, allowed, uris, i, old(generation), old(contentVersion), now, was, version,
                       documents, changed, generation, contentVersion);
      }
      RefreshingEnds(outside, before, fs, allowed, uris, old(generation), old(contentVersion), documents, changed,
          generation, contentVersion);
    }

    /** One turn of that loop; the report says whether the document was removed. */
    method RefreshOne(uri: string, fs: FileSystem, allowed: bool) returns (report: Option<bool>)
      requires Valid() && uri in documents
      modifies this
      ensures Valid() && generation == old(generation)
      ensures var next := Refreshed(outside, uri, old(documents)[uri], fs, allowed);
              && report == (if next.Removed? then Some(true) else if next.Updated? then Some(false) else None)
              && contentVersion == old(contentVersion) + (if next.Kept? then 0 else 1)
              && documents == if next.Kept? then old(documents) else if next.Removed? then old(documents) - {uri}
                  else old(documents)[uri := next.d]
    {
      hide TooLong;
      var d := documents[uri];
      var path := if d.path.Some? then d.path else outside.pathOf(uri);
      if d.Open() || path.None? {
        return None;
      }
      var read := fs.read(path.value);
      if read.NotFound? {
        if d.disk.None? || !allowed {
          return None;
        }
        Commit(uri, None);
        return Some(true);
      }
      if read.Unreadable? || TooLong(read.text) {
        return None;
      }
      if d.disk.None? {
        Commit(uri, Some(d.(disk := Some(Seal(outside, uri, read.text)))));
        return None;
      }
      if d.disk.value.text == read.text {
        return None;
      }
      Commit(uri, Some(d.(disk := Some(Seal(outside, uri, read.text)))));
      return Some(false);
    }

    /** One directory of the walk: its sources are registered while the limit allows, its directories are left
        for later. */
    method VisitDirectory(place: Place, onlyNew: bool, listed: seq<string>, waiting: seq<Place>,
                          ghost before: map<string, Document>, ghost all: set<string>,
                          ghost known: seq<(string, string)>)
      returns (stack: seq<Place>, discovered: seq<string>, ghost found: seq<(string, string)>)
      requires Valid() && place.node.Directory? && place.node.readable
      requires Walking(outside, before, all, onlyNew, known, SourcesUnder(waiting) + SourcesOf(place), listed,
                       documents)
      modifies this
      ensures Valid() && Progressed(old(Now()), Now()) && generation == old(generation)
      ensures Walking(outside, before, all, onlyNew, found, SourcesUnder(stack), discovered, documents)
      ensures Heft(stack) <= Heft(waiting) + HeftOf(place)
    {
      hide Valid, Walking, SourcesIn, SourcesUnder, Weight, Heft, IsSource, Skipped;
      var path, entries := place.path, place.node.entries;
      stack, discovered, found := waiting, listed, known;
      assert entries[0..] == entries;
      for k := 0 to |entries|
        invariant Valid() && Progressed(old(Now()), Now()) && generation == old(generation)
        invariant Walking(outside, before, all, onlyNew, found, SourcesUnder(stack) + SourcesIn(path, entries[k..]),
                          discovered, documents)
        invariant Heft(stack) + Weight(entries[k..]) <= Heft(waiting) + HeftOf(place)
      {
        EntryStep(path, entries, k);
        var entry, at := entries[k], Join(path, entries[k].name);
        ghost var rest := SourcesIn(path, entries[k + 1..]);
        ghost var pending := SourcesUnder(stack) + SourcesIn(path, entries[k..]);
        if entry.node.Directory? {
          if !Skipped(entry.name) {
            OnePlaceMore(stack, Place(at, entry.node));
            assert SourcesUnder(stack + [Place(at, entry.node)]) + rest == pending;
            stack := stack + [Place(at, entry.node)];
          } else {
            assert SourcesUnder(stack) + rest == pending;
          }
        } else if entry.node.File? && IsSource(entry.name) {
          if |discovered| < MAX_DISCOVERED_DOCUMENTS {
            assert pending == {at} + (SourcesUnder(stack) + rest);
            WalkFinds(outside, before, all, onlyNew, found, pending, discovered, documents, at,
                      SourcesUnder(stack) + rest);
            var uri := outside.nameOf(at);
            var created := EnsureDocument(uri, Some(at));
            found := found + [(uri, at)];
            if created || !onlyNew {
              discovered := discovered + [uri];
            }
          } else {
            WalkStops(outside, before, all, onlyNew, found, pending, discovered, documents, SourcesUnder(stack) + rest);
          }
        } else {
          assert SourcesUnder(stack) + rest == pending;
        }
      }
      NothingIn(path, entries);
      assert SourcesUnder(stack) + {} == SourcesUnder(stack);
    }

    /** `discover_workspace_impl`: registers the sources below the roots, without reading them. */
    method Discover(workspace: Workspace, onlyNew: bool)
      returns (r: Result<seq<string>>, ghost found: seq<(string, string)>)
      requires Valid()
      modifies this
      ensures Valid() && Progressed(old(Now()), Now()) && generation == old(generation)
      ensures r.Err? <==> !workspace.Available()
      ensures r.Err? ==> documents == old(documents) && contentVersion == old(contentVersion)
      ensures r.Ok? ==>
                Walked(outside, old(documents), SourcesUnder(workspace.Roots()), onlyNew, found, r.value, documents)
    {
      hide Valid, Walking, SourcesUnder, HeftOf;
      found := [];
      if !workspace.Available() {
        return Err, found;
      }
      var discovered: seq<string>, stack := [], workspace.Roots();
      ghost var before, all := documents, SourcesUnder(workspace.Roots());
      WalkStarts(outside, before, all, onlyNew);
      while stack != []
        invariant Valid() && Progressed(old(Now()), Now()) && generation == old(generation)
        invariant Walking(outside, before, all, onlyNew, found, SourcesUnder(stack), discovered, documents)
        decreases Heft(stack)
      {
        var last := |stack| - 1;
        var directory, waiting := stack[last], stack[..last];
        assert stack == waiting + [directory];
        OnePlaceMore(waiting, directory);
        if |discovered| >= MAX_DISCOVERED_DOCUMENTS {
          break;
        }
        if directory.node.Directory? && directory.node.readable {
          stack, discovered, found := VisitDirectory(directory, onlyNew, discovered, waiting, before, all, found);
        } else {
          assert SourcesUnder(waiting) + {} == SourcesUnder(waiting);
          stack := waiting;
        }
      }
      WalkEnds(outside, before, all, onlyNew, found, stack, discovered, documents);
      var sorted := SortTexts(discovered);
      assert |multiset(sorted)| == |multiset(discovered)|;
      return Ok(sorted), found;
    }

    /** `reconcile_checkpoint` */
    method ReconcileCheckpoint(workspace: Workspace, checkpoint: Option<map<string, string>>, fs: FileSystem)
      returns (r: Result<seq<(string, nat)>>, ghost found: seq<(string, string)>)
      requires Valid()
      modifies this
      ensures Valid()
      ensures Progressed(old(Now()), Now())
      ensures r.Err? <==> !workspace.Available()
      ensures r.Err? ==> Now() == old(Now())
      ensures r.Ok? ==>
                exists names ::
                  Walked(outside, old(documents), SourcesUnder(workspace.Roots()), false, found, names,
                         Discovered(old(documents), found))
      ensures r.Ok? ==>
                var known := Discovered(old(documents), found);
                && documents == Mapped(known, ReconcileNext(outside, fs), known.Keys)
                && Sorted(known) && r.value == Moved(outside, known, fs, checkpoint, SortedUris(known), old(generation))
                && generation == old(generation) + |r.value|
    {
      hide Valid, TextLess, SortedUris, Discovered, Reconciled, Differs, Mapped, Moved, ReconcileNext, Reconciling,
          Ascending, SourcesUnder, Named, FoundUnder;
      var walked;
      walked, found := Discover(workspace, false);
      if walked.Err? {
        return Err, found;
      }
      TextOrder();
      var uris := InOrder(documents.Keys, TextLess);
      ghost var known, version := documents, contentVersion;
      UrisOf(known, uris);
      var changed: seq<(string, nat)> := [];
      ReconcilingStarts(outside, known, fs, checkpoint, uris, generation, contentVersion);
      for i := 0 to |uris|
        invariant Valid() && Reconciling(outside, known, fs, checkpoint, uris, i, old(generation), version,
                                         documents, changed, generation, contentVersion)
      {
        var uri := uris[i];
        ReconcilingHere(outside, known, fs, checkpoint, uris, i, old(generation), version, documents, changed,
            generation, contentVersion);
        ghost var now, was, v := documents, changed, contentVersion;
        var differs := ReconcileOne(uri, fs, checkpoint);
        if differs {
          var g := NextGeneration();
          changed := changed + [(uri, g)];
        }
        ReconcilingNext(outside, known, fs, checkpoint, uris, i, old(generation), version, now, was, v,
                        documents, changed, generation, contentVersion);
      }
      ReconcilingEnds(outside, known, fs, checkpoint, uris, old(generation), version, documents, changed, generation,
          contentVersion);
      return Ok(changed), found;
    }

    /** One turn of that loop. */
    method ReconcileOne(uri: string, fs: FileSystem, checkpoint: Option<map<string, string>>) returns (differs: bool)
      requires Valid() && uri in documents
      modifies this
      ensures Valid() && generation == old(generation)
              && differs == Differs(outside, uri, old(documents)[uri], fs, checkpoint)
      ensures var next := Reconciled(outside, uri, old(documents)[uri], fs);
              && contentVersion == old(contentVersion) + (if next.None? then 0 else 1)
              && documents == if next.None? then old(documents) else old(documents)[uri := next.value]
    {
      hide TooLong;
      var d := documents[uri];
      var path := if d.path.Some? then d.path else outside.pathOf(uri);
      if path.None? || d.Open() {
        return false;
      }
      var read := fs.read(path.value);
      if !read.Text? || TooLong(read.text) {
        return false;
      }
      var sealed := Seal(outside, uri, read.text);
      differs := checkpoint.Some? && !(uri in checkpoint.value && checkpoint.value[uri] == sealed.identity);
      Commit(uri, Some(d.(disk := Some(sealed), path := path)));
    }

    /** `did_change_incremental`; an error stands for a position the coordinate index refuses. */
    method DidChangeIncremental(uri: string, version: int, changes: seq<TextChange>, fs: FileSystem, tail: CutTail)
      returns (r: Result<Reply<nat>>)
      requires Valid()
      modifies this
      ensures Valid() && Progressed(old(Now()), Now())
      ensures var current := CurrentText(outside, uri, DocumentAt(old(documents), uri), fs);
              && (r.Err? <==> !HasFull(changes) && Refused(current, tail, changes))
              && (r.Ok? ==> (r.value.Failure? <==> TooLong(Incremental(current, changes))))
              && (r.Ok? && r.value.Reply? ==>
                    && OpenedWith(outside, old(documents), documents, uri, version, Incremental(current, changes))
                    && r.value == Reply(generation))
              && (uri in old(documents) && old(documents)[uri].Open() && !(r.Ok? && r.value.Reply?) ==>
                    documents == old(documents))
      ensures forall u :: u in old(documents) && u != uri ==> u in documents && documents[u] == old(documents)[u]
    {
      hide TooLong, Refused, EditedAll, Encode, Loaded, Registered;
      if HasFull(changes) {
        var reply := DidOpen(uri, version, LastFull(changes).text);
        return Ok(reply);
      }
      LoadKeeps(outside, uri, DocumentAt(documents, uri), fs);
      var found := Content(uri, fs);
      var current := if found.Reply? then found.value else "";
      var applied := ApplyChanges(current, Encode(current), changes, tail);
      if applied.Err? {
        return Err;
      }
      var next := EditedAll(current, changes);
      if |applied.value| > MAX_DOCUMENT_BYTES {
        LengthIs(next);
        return Ok(Failure(InvalidRequest));
      }
      LengthIs(next);
      var reply := DidOpen(uri, version, next);
      r := Ok(reply);
    }
  }

  lemma LengthIs(text: string)
    ensures TooLong(text) <==> |Encode(text)| > MAX_DOCUMENT_BYTES
  {
  }

  /** Looking a document up never moves it, and leaves an open one alone. */
  lemma LoadKeeps(o: Outside, uri: string, d: Option<Document>, fs: FileSystem)
    ensures Registered(o, uri, d, fs).Some? ==>
              var e := Loaded(o, uri, Registered(o, uri, d, fs).value, fs);
              && SourcePath(o, uri, e) == (if d.Some? then SourcePath(o, uri, d.value) else o.pathOf(uri))
              && (d.Some? && d.value.Open() ==> e == d.value)
    ensures d.Some? ==> Registered(o, uri, d, fs) == d
  {
  }

  /** The text a change starts from: the document's, loaded if need be, or nothing. */
  function CurrentText(o: Outside, uri: string, d: Option<Document>, fs: FileSystem): string {
    var known := Registered(o, uri, d, fs);
    if known.None? then ""
    else
      var text := Loaded(o, uri, known.value, fs).Content();
      if text.Some? then text.value else ""
  }

  predicate HasFull(changes: seq<TextChange>) {
    changes != [] && (changes[|changes| - 1].range.None? || HasFull(changes[..|changes| - 1]))
  }

  function LastFull(changes: seq<TextChange>): TextChange
    requires HasFull(changes)
  {
    if changes[|changes| - 1].range.None? then changes[|changes| - 1] else LastFull(changes[..|changes| - 1])
  }

  /** What the source makes of a change list: its last full replacement alone, when there is one. */
  function Incremental(current: string, changes: seq<TextChange>): string {
    if HasFull(changes) then LastFull(changes).text else EditedAll(current, changes)
  }

  function DocumentAt(documents: map<string, Document>, uri: string): Option<Document> {
    if uri in documents then Some(documents[uri]) else None
  }

  lemma ClaimsChange(before: map<string, Document>, after: map<string, Document>, uri: string)
    requires forall u :: u != uri ==> EffectiveAt(before, u) == EffectiveAt(after, u)
    ensures var x, y := EffectiveAt(before, uri), EffectiveAt(after, uri);
            Claims(after) == Claims(before) - (if x.Some? then {(x.value, uri)} else {})
                + (if y.Some? then {(y.value, uri)} else {})
    ensures EffectiveAt(before, uri) == EffectiveAt(after, uri) ==> Claims(after) == Claims(before)
  {
    var x, y := EffectiveAt(before, uri), EffectiveAt(after, uri);
    var expected := Claims(before) - (if x.Some? then {(x.value, uri)} else {})
        + (if y.Some? then {(y.value, uri)} else {});
    forall p: (string, string)
      ensures p in Claims(after) <==> p in expected
      ensures x == y ==> (p in Claims(after) <==> p in Claims(before))
    {
      ClaimsAre(before, p.0, p.1);
      ClaimsAre(after, p.0, p.1);
    }
    assert Claims(after) == expected;
  }

  // ----- the documents in name order ---------------------------------------------------------

  ghost predicate Sorted(documents: map<string, Document>) {
    TotalOrder(TextLess) && forall i :: 0 <= i < |SortedUris(documents)| ==> SortedUris(documents)[i] in documents
  }

  ghost function SortedUris(documents: map<string, Document>): seq<string> {
    TextOrder();
    Ascending(documents.Keys, TextLess)
  }

  function Upto(uris: seq<string>, i: nat): set<string>
    requires i <= |uris|
  {
    set u | u in uris[..i]
  }

  lemma UrisOf(documents: map<string, Document>, uris: seq<string>)
    requires TotalOrder(TextLess) && uris == Ascending(documents.Keys, TextLess)
    ensures uris == SortedUris(documents) && Sorted(documents) && forall i :: 0 <= i < |uris| ==> uris[i] in documents
    ensures Upto(uris, 0) == {}
  {
    hide TextLess, Ascending;
    AscendingIs(documents.Keys, TextLess);
    assert forall i :: 0 <= i < |uris| ==> uris[i] in uris;
  }

  lemma NextUri(documents: map<string, Document>, uris: seq<string>, i: nat)
    requires uris == SortedUris(documents) && i < |uris|
    ensures uris[i] in documents && uris[i] !in Upto(uris, i) && Upto(uris, i + 1) == Upto(uris, i) + {uris[i]}
  {
    hide TextLess, Ascending;
    TextOrder();
    AscendingIs(documents.Keys, TextLess);
    assert uris[i] in uris && uris[..i + 1] == uris[..i] + [uris[i]];
    forall j | 0 <= j < i
      ensures uris[..i][j] != uris[i]
    {
      assert TextLess(uris[j], uris[i]);
    }
  }

  lemma AllUris(documents: map<string, Document>, uris: seq<string>)
    requires uris == SortedUris(documents)
    ensures Upto(uris, |uris|) == documents.Keys
  {
    hide TextLess, Ascending;
    TextOrder();
    AscendingIs(documents.Keys, TextLess);
    assert uris[..|uris|] == uris;
  }

  ghost predicate Declared(documents: map<string, Document>, name: string) {
    exists u :: EffectiveAt(documents, u) == Some(name)
  }

  /** The least of the documents that declare a module, if one does. */
  ghost predicate LeastDeclaring(documents: map<string, Document>, name: string, r: Option<string>) {
    if r.None? then !Declared(documents, name)
    else
      && EffectiveAt(documents, r.value) == Some(name)
      && forall u :: EffectiveAt(documents, u) == Some(name) ==> u == r.value || TextLess(r.value, u)
  }

  lemma NoneReported(o: Outside, documents: map<string, Document>, fs: FileSystem, allowed: string -> bool,
                     generation: nat)
    ensures Reported(o, documents, fs, allowed, [], generation) == []
  {
  }

  lemma NoneMoved(o: Outside, documents: map<string, Document>, fs: FileSystem,
                  checkpoint: Option<map<string, string>>, generation: nat)
    ensures Moved(o, documents, fs, checkpoint, [], generation) == []
  {
  }

  // ----- the state of a refresh after its first documents ------------------------------------

  ghost predicate Refreshing(o: Outside, before: map<string, Document>, fs: FileSystem, allowed: string -> bool,
                             uris: seq<string>, i: nat,
                             generation: nat, version: nat, now: map<string, Document>,
                             changed: seq<(string, nat, bool)>, g: nat, v: nat) {
    && uris == SortedUris(before) && i <= |uris| && (forall j :: 0 <= j < |uris| ==> uris[j] in before)
    && now == Mapped(before, RefreshNext(o, fs, allowed), Upto(uris, i))
    && changed == Reported(o, before, fs, allowed, uris[..i], generation)
    && g == generation + |changed|
    && v >= version && (v == version ==> now == before)
  }

  lemma RefreshingStarts(o: Outside, before: map<string, Document>, fs: FileSystem, allowed: string -> bool,
                         uris: seq<string>,
                         generation: nat, version: nat)
    requires uris == SortedUris(before) && forall j :: 0 <= j < |uris| ==> uris[j] in before
    ensures Refreshing(o, before, fs, allowed, uris, 0, generation, version, before, [], generation, version)
  {
    hide SortedUris, RefreshNext, Refreshed;
    MappedNothing(before, RefreshNext(o, fs, allowed));
    NoneReported(o, before, fs, allowed, generation);
    assert Upto(uris, 0) == {};
  }

  lemma RefreshingHere(o: Outside, before: map<string, Document>, fs: FileSystem, allowed: string -> bool,
                       uris: seq<string>, i: nat,
                       generation: nat, version: nat, now: map<string, Document>, changed: seq<(string, nat, bool)>,
                       g: nat, v: nat)
    requires Refreshing(o, before, fs, allowed, uris, i, generation, version, now, changed, g, v) && i < |uris|
    ensures uris[i] in before && uris[i] in now && now[uris[i]] == before[uris[i]] && g == generation + |changed|
  {
    hide SortedUris, RefreshNext, Refreshed, Mapped, Reported;
    NextUri(before, uris, i);
    MappedStep(before, RefreshNext(o, fs, allowed), Upto(uris, i), uris[i]);
  }

  lemma RefreshingNext(o: Outside, before: map<string, Document>, fs: FileSystem, allowed: string -> bool,
                       uris: seq<string>, i: nat,
                       generation: nat, version: nat, now: map<string, Document>, changed: seq<(string, nat, bool)>,
                       v: nat,
                       now': map<string, Document>, changed': seq<(string, nat, bool)>, g': nat, v': nat)
    requires Refreshing(o, before, fs, allowed, uris, i, generation, version, now, changed, generation + |changed|, v)
             && i < |uris|
    requires var next := Refreshed(o, uris[i], before[uris[i]], fs, allowed(uris[i]));
             && now' == (if next.Kept? then now else if next.Removed? then now - {uris[i]} else now[uris[i] := next.d])
             && v' == v + (if next.Kept? then 0 else 1)
             && changed' == (if next.Removed? || next.Updated?
                 then changed + [(uris[i], generation + |changed| + 1, next.Removed?)] else changed)
    requires g' == generation + |changed'|
    ensures Refreshing(o, before, fs, allowed, uris, i + 1, generation, version, now', changed', g', v')
  {
    hide SortedUris, RefreshNext, Refreshed, Mapped, Reported, Upto;
    NextUri(before, uris, i);
    RefreshStep(o, before, fs, allowed, uris, i, Upto(uris, i), generation);
  }

  lemma RefreshingEnds(o: Outside, before: map<string, Document>, fs: FileSystem, allowed: string -> bool,
                       uris: seq<string>,
                       generation: nat, version: nat, now: map<string, Document>, changed: seq<(string, nat, bool)>,
                       g: nat, v: nat)
    requires Refreshing(o, before, fs, allowed, uris, |uris|, generation, version, now, changed, g, v)
    ensures Sorted(before) && now == Mapped(before, RefreshNext(o, fs, allowed), before.Keys)
    ensures changed == Reported(o, before, fs, allowed, SortedUris(before), generation) && g == generation + |changed|
    ensures v >= version && (v == version ==> now == before)
  {
    hide SortedUris, RefreshNext, Refreshed, Mapped, Reported;
    TextOrder();
    AllUris(before, uris);
    assert uris[..|uris|] == uris;
  }

  // ----- the state of a reconciliation after its first documents -----------------------------

  ghost predicate Reconciling(o: Outside, before: map<string, Document>, fs: FileSystem,
                              checkpoint: Option<map<string, string>>, uris: seq<string>,
                              i: nat, generation: nat, version: nat, now: map<string, Document>,
                              changed: seq<(string, nat)>, g: nat, v: nat) {
    && uris == SortedUris(before) && i <= |uris| && (forall j :: 0 <= j < |uris| ==> uris[j] in before)
    && now == Mapped(before, ReconcileNext(o, fs), Upto(uris, i))
    && changed == Moved(o, before, fs, checkpoint, uris[..i], generation)
    && g == generation + |changed|
    && v >= version && (v == version ==> now == before)
  }

  lemma ReconcilingStarts(o: Outside, before: map<string, Document>, fs: FileSystem,
                          checkpoint: Option<map<string, string>>, uris: seq<string>,
                          generation: nat, version: nat)
    requires uris == SortedUris(before) && forall j :: 0 <= j < |uris| ==> uris[j] in before
    ensures Reconciling(o, before, fs, checkpoint, uris, 0, generation, version, before, [], generation, version)
  {
    hide SortedUris, ReconcileNext, Reconciled;
    MappedNothing(before, ReconcileNext(o, fs));
    NoneMoved(o, before, fs, checkpoint, generation);
    assert Upto(uris, 0) == {};
  }

  lemma ReconcilingHere(o: Outside, before: map<string, Document>, fs: FileSystem,
                        checkpoint: Option<map<string, string>>, uris: seq<string>,
                        i: nat, generation: nat, version: nat, now: map<string, Document>, changed: seq<(string, nat)>,
                        g: nat, v: nat)
    requires Reconciling(o, before, fs, checkpoint, uris, i, generation, version, now, changed, g, v) && i < |uris|
    ensures uris[i] in before && uris[i] in now && now[uris[i]] == before[uris[i]] && g == generation + |changed|
  {
    hide SortedUris, ReconcileNext, Reconciled, Mapped, Moved;
    NextUri(before, uris, i);
    MappedStep(before, ReconcileNext(o, fs), Upto(uris, i), uris[i]);
  }

  lemma ReconcilingNext(o: Outside, before: map<string, Document>, fs: FileSystem,
                        checkpoint: Option<map<string, string>>, uris: seq<string>,
                        i: nat, generation: nat, version: nat, now: map<string, Document>, changed: seq<(string, nat)>,
                        v: nat,
                        now': map<string, Document>, changed': seq<(string, nat)>, g': nat, v': nat)
    requires i < |uris|
    requires Reconciling(
               o, before, fs, checkpoint, uris, i, generation, version, now, changed, generation + |changed|, v)
    requires var next := Reconciled(o, uris[i], before[uris[i]], fs);
             && now' == (if next.None? then now else now[uris[i] := next.value])
                && v' == v + (if next.None? then 0 else 1)
             && changed' == (if Differs(o, uris[i], before[uris[i]], fs, checkpoint)
                 then changed + [(uris[i], generation + |changed| + 1)] else changed)
    requires g' == generation + |changed'|
    ensures Reconciling(o, before, fs, checkpoint, uris, i + 1, generation, version, now', changed', g', v')
  {
    hide SortedUris, ReconcileNext, Reconciled, Mapped, Moved, Upto, Differs;
    NextUri(before, uris, i);
    ReconcileStep(o, before, fs, checkpoint, uris, i, Upto(uris, i), generation);
  }

  lemma ReconcilingEnds(o: Outside, before: map<string, Document>, fs: FileSystem,
                        checkpoint: Option<map<string, string>>, uris: seq<string>,
                        generation: nat, version: nat, now: map<string, Document>, changed: seq<(string, nat)>, g: nat,
                        v: nat)
    requires Reconciling(o, before, fs, checkpoint, uris, |uris|, generation, version, now, changed, g, v)
    ensures Sorted(before) && now == Mapped(before, ReconcileNext(o, fs), before.Keys)
    ensures changed == Moved(o, before, fs, checkpoint, SortedUris(before), generation) && g == generation + |changed|
    ensures v >= version && (v == version ==> now == before)
  {
    hide SortedUris, ReconcileNext, Reconciled, Mapped, Moved;
    TextOrder();
    AllUris(before, uris);
    assert uris[..|uris|] == uris;
  }
}
