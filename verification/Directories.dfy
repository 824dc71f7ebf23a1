/** The directory walk of workspace discovery (crates/service-core/src/document.rs): which files below which
    directories are sources. */
module Directories {
  import opened Outcomes

  const MAX_DISCOVERED_DOCUMENTS: nat := 5000

  /** What stands under a name. `Passed` is all the walk passes over: links, special files, unknown types. */
  datatype Node = File | Directory(readable: bool, entries: seq<Entry>) | Passed

  datatype Entry = Entry(name: string, node: Node)

  datatype Place = Place(path: string, node: Node)

  /** The workspace root, and the roots an owner may have selected inside it. */
  datatype Workspace = Workspace(root: Option<Place>, selected: Option<seq<Place>>) {
    predicate Available() {
      root.Some? && root.value.node.Directory?
    }

    /** `discovery_roots`, or the workspace root when that is empty. */
    function Roots(): seq<Place>
      requires Available()
    {
      if selected.Some? && selected.value != [] then selected.value else [root.value]
    }
  }

  predicate Skipped(name: string) {
    (name != "" && name[0] == '.') || name == "target" || name == "node_modules"
  }

  predicate IsSource(name: string) {
    |name| >= 5 && name[|name| - 5..] == ".mncs"
  }

  function Join(path: string, name: string): string {
    path + "/" + name
  }

  /** The source files below entries of the directory at `path`. */
  function SourcesIn(path: string, entries: seq<Entry>): set<string>
    decreases entries
  {
    if entries == [] then {}
    else
      var here := entries[0];
      var at := Join(path, here.name);
      (if here.node.File? && IsSource(here.name) then {at}
       else if here.node.Directory? && !Skipped(here.name) && here.node.readable then SourcesIn(at, here.node.entries)
       else {})
      + SourcesIn(path, entries[1..])
  }

  function Weight(entries: seq<Entry>): nat
    decreases entries
  {
    if entries == [] then 0
    else 1 + (if entries[0].node.Directory? then Weight(entries[0].node.entries) else 0) + Weight(entries[1..])
  }

  function SourcesOf(place: Place): set<string> {
    if place.node.Directory? && place.node.readable then SourcesIn(place.path, place.node.entries) else {}
  }

  /** The source files below all these directories. */
  function SourcesUnder(places: seq<Place>): set<string> {
    if places == [] then {} else SourcesUnder(places[..|places| - 1]) + SourcesOf(places[|places| - 1])
  }

  /** How much of the tree is still to be walked. */
  function Heft(places: seq<Place>): nat {
    if places == [] then 0
    else Heft(places[..|places| - 1]) + 1 + HeftOf(places[|places| - 1])
  }

  function HeftOf(place: Place): nat {
    if place.node.Directory? then Weight(place.node.entries) else 0
  }

  lemma OnePlaceMore(places: seq<Place>, place: Place)
    ensures SourcesUnder(places + [place]) == SourcesUnder(places) + SourcesOf(place)
    ensures Heft(places + [place]) == Heft(places) + 1 + HeftOf(place)
  {
    assert (places + [place])[..|places|] == places;
  }

  /** The entries from `k` on: what they hold, and what stepping over the first of them takes off. */
  lemma EntryStep(path: string, entries: seq<Entry>, k: nat)
    requires k < |entries|
    ensures var here, at := entries[k], Join(path, entries[k].name);
            && SourcesIn(path, entries[k..]) ==
               (if here.node.File? && IsSource(here.name) then {at}
                else if here.node.Directory? && !Skipped(here.name) then SourcesOf(Place(at, here.node))
                else {}) + SourcesIn(path, entries[k + 1..])
            && Weight(entries[k..]) == 1 + HeftOf(Place(at, here.node)) + Weight(entries[k + 1..])
  {
    assert entries[k..][0] == entries[k] && entries[k..][1..] == entries[k + 1..];
  }

  // ----- which files are found ---------------------------------------------------------------

  /** Directories, each readable and in the one before, that are neither hidden nor build output, down to a file whose
      name ends in ".mncs". */
  predicate Trail(entries: seq<Entry>, trail: seq<Entry>)
    decreases |trail|
  {
    && trail != [] && trail[0] in entries
    && var here := trail[0];
       if |trail| == 1 then here.node.File? && |here.name| >= 5 && here.name[|here.name| - 5..] == ".mncs"
       else
         && here.node.Directory? && here.node.readable
         && (here.name == "" || here.name[0] != '.') && here.name != "target" && here.name != "node_modules"
         && Trail(here.node.entries, trail[1..])
  }

  /** The path of the file a trail ends at. */
  function TrailPath(path: string, trail: seq<Entry>): string
    decreases |trail|
  {
    if trail == [] then path else TrailPath(path + "/" + trail[0].name, trail[1..])
  }

  ghost predicate OnTrail(path: string, entries: seq<Entry>, found: string) {
    exists trail :: Trail(entries, trail) && TrailPath(path, trail) == found
  }

  lemma TrailGrows(entries: seq<Entry>, more: seq<Entry>, trail: seq<Entry>)
    requires Trail(entries, trail) && forall e :: e in entries ==> e in more
    ensures Trail(more, trail)
  {
  }

  lemma {:induction false} SourceHasTrail(path: string, entries: seq<Entry>, found: string)
    returns (trail: seq<Entry>)
    requires found in SourcesIn(path, entries)
    ensures Trail(entries, trail) && TrailPath(path, trail) == found
    decreases entries
  {
    hide Trail, IsSource, Skipped;
    var here, rest := entries[0], entries[1..];
    if found in SourcesIn(path, rest) {
      trail := SourceHasTrail(path, rest, found);
      TrailGrows(rest, entries, trail);
    } else if here.node.File? {
      trail := [here];
      FileTrail(entries, here);
      assert TrailPath(path, trail) == TrailPath(path + "/" + here.name, []);
    } else {
      var below := SourceHasTrail(Join(path, here.name), here.node.entries, found);
      trail := [here] + below;
      assert trail[1..] == below;
      DirectoryTrail(entries, here, below);
    }
  }

  lemma FileTrail(entries: seq<Entry>, here: Entry)
    requires here in entries && here.node.File? && IsSource(here.name)
    ensures Trail(entries, [here])
  {
  }

  lemma DirectoryTrail(entries: seq<Entry>, here: Entry, below: seq<Entry>)
    requires here in entries && here.node.Directory? && here.node.readable && !Skipped(here.name)
    requires Trail(here.node.entries, below)
    ensures Trail(entries, [here] + below)
  {
    assert ([here] + below)[1..] == below;
  }

  lemma {:induction false} TrailIsSource(path: string, entries: seq<Entry>, trail: seq<Entry>)
    requires Trail(entries, trail)
    ensures TrailPath(path, trail) in SourcesIn(path, entries)
    decreases |trail|, |entries|
  {
    var here, rest := entries[0], entries[1..];
    if trail[0] in rest {
      TrailIsSource(path, rest, trail);
    } else {
      assert trail[0] == here;
      if |trail| > 1 {
        TrailIsSource(Join(path, here.name), here.node.entries, trail[1..]);
      } else {
        assert trail[1..] == [];
      }
    }
  }

  /** Discovery looks for exactly the files at the end of such trails. */
  lemma SourcesExactly(path: string, entries: seq<Entry>, found: string)
    ensures found in SourcesIn(path, entries) <==> OnTrail(path, entries, found)
  {
    hide Trail, SourcesIn;
    if found in SourcesIn(path, entries) {
      var trail := SourceHasTrail(path, entries, found);
    }
    if trail :| Trail(entries, trail) && TrailPath(path, trail) == found {
      TrailIsSource(path, entries, trail);
    }
  }

  ghost predicate BelowSome(places: seq<Place>, found: string) {
    exists i :: 0 <= i < |places| && places[i].node.Directory? && places[i].node.readable
                && OnTrail(places[i].path, places[i].node.entries, found)
  }

  /** A file is found below some roots when it is below one of them. */
  lemma {:induction false} SourcesBelow(places: seq<Place>, found: string)
    ensures found in SourcesUnder(places) <==> BelowSome(places, found)
  {
    hide SourcesIn, OnTrail;
    if places != [] {
      var n := |places| - 1;
      SourcesBelow(places[..n], found);
      if places[n].node.Directory? {
        SourcesExactly(places[n].path, places[n].node.entries, found);
      }
      assert forall i :: 0 <= i < n ==> places[..n][i] == places[i];
    }
  }
}
