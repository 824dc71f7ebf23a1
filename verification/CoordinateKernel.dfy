/** The coordinate kernel (mncs/coordinate_map.mncs) and the checks its caller makes on every answer
    (crates/service-core/src/native_coords.rs).

    Both kernel functions run the same scan over one view of UTF-8 bytes. A view may stop inside its
    last scalar. What the library decoder answers there is not part of the repository, so it is a
    parameter (`CutTail`), an arbitrary function of the bytes that are left: it may refuse them, or take
    them as a scalar of one or two units. */
module CoordinateKernel {
  import opened Outcomes
  import opened Utf8

  const CHUNK_BYTES: nat := 1020
  const CHECKPOINT_BYTES: nat := 64
  const LOOKAHEAD_BYTES: nat := 3
  const POSITION_INPUT_CAPACITY: nat := CHUNK_BYTES + LOOKAHEAD_BYTES
  const WINDOW_INPUT_CAPACITY: nat := CHECKPOINT_BYTES + LOOKAHEAD_BYTES * 2
  const MAP_CAPACITY: nat := (CHUNK_BYTES + CHECKPOINT_BYTES - 1) / CHECKPOINT_BYTES + 1
  const WINDOW_MAP_CAPACITY: nat := WINDOW_INPUT_CAPACITY + 1
  const U32: nat := 0x1_0000_0000
  const U16: nat := 0x1_0000

  /** The decoder on a cut scalar: none to refuse it, or whether what it takes it for is wide. */
  type CutTail = seq<Byte> -> Option<bool>

  datatype ScalarStep = ScalarStep(valid: bool, next: nat, width: nat)

  datatype CoordinateChunk = CoordinateChunk(bytes: nat, units: nat, valid: bool, map_: seq<nat>, mapLength: nat)
  datatype CoordinateWindow = CoordinateWindow(valid: bool, map_: seq<nat>, mapLength: nat)

  // ----- packing -----------------------------------------------------------------------------

  function Pack(units: nat, byte: nat): nat {
    units * 2048 + byte
  }

  function PackedByte(packed: nat): nat {
    packed % 2048
  }

  function PackedUnits(packed: nat): nat {
    packed / 2048
  }

  function PackWindow(units: nat, byte: nat): nat {
    units * 128 + byte
  }

  function WindowByte(packed: nat): nat {
    packed % 128
  }

  function WindowUnits(packed: nat): nat {
    packed / 128
  }

  /** Packing loses nothing while the byte fits its field, not even through the narrow integers. */
  lemma PackLossless(units: nat, byte: nat)
    requires byte < 2048 && units * 2048 + byte < U32
    ensures PackedByte(Pack(units, byte) % U32) == byte && PackedUnits(Pack(units, byte) % U32) == units
  {
  }

  lemma PackWindowLossless(units: nat, byte: nat)
    requires byte < 128 && units * 128 + byte < U16
    ensures WindowByte(PackWindow(units, byte) % U16) == byte && WindowUnits(PackWindow(units, byte) % U16) == units
  {
  }

  // ----- the contract of a view --------------------------------------------------------------

  /** Number of checkpoints before the closing entry. */
  function CheckpointCount(view: seq<Byte>): nat {
    (|view| + CHECKPOINT_BYTES - 1) / CHECKPOINT_BYTES
  }

  /** Where the last scalar of the view starts. */
  function LastStart(view: seq<Byte>): nat
    requires Boundary(view, 0)
  {
    if view == [] then 0 else Snap(view, |view| - 1)
  }

  /** The last scalar of the view is cut off, and the decoder refuses it. */
  ghost predicate CutRefused(view: seq<Byte>, tail: CutTail)
    requires Boundary(view, 0)
  {
    !Complete(view) && tail(view[LastStart(view)..]).None?
  }

  /** The closing entry is exact when no scalar is cut off; otherwise it only lies past the cut one's start. */
  ghost predicate EndEntry(view: seq<Byte>, byte: nat, units: nat)
    requires Boundary(view, 0)
  {
    && byte == |view|
    && (if Complete(view) then units == Units(view, |view|) else units > Units(view, LastStart(view)))
  }

  /** A checkpoint for byte `i` holds the scalar start at or below it and the units before that. */
  ghost predicate CheckpointFor(view: seq<Byte>, i: nat, packed: nat)
    requires Boundary(view, 0) && i <= |view|
  {
    PackedByte(packed) == Snap(view, i) && PackedUnits(packed) == Units(view, Snap(view, i))
  }

  ghost predicate WindowEntryFor(view: seq<Byte>, i: nat, packed: nat)
    requires Boundary(view, 0) && i <= |view|
  {
    WindowByte(packed) == Snap(view, i) && WindowUnits(packed) == Units(view, Snap(view, i))
  }

  ghost predicate Checkpoints(view: seq<Byte>, m: seq<nat>)
    requires Boundary(view, 0)
  {
    && |m| == CheckpointCount(view) + 1
    && (forall j :: 0 <= j < CheckpointCount(view) ==> CheckpointFor(view, 64 * j, m[j]))
    && EndEntry(view, PackedByte(m[|m| - 1]), PackedUnits(m[|m| - 1]))
  }

  ghost predicate WindowMap(view: seq<Byte>, m: seq<nat>)
    requires Boundary(view, 0)
  {
    && |m| == |view| + 1
    && (forall i :: 0 <= i < |view| ==> WindowEntryFor(view, i, m[i]))
    && EndEntry(view, WindowByte(m[|view|]), WindowUnits(m[|view|]))
  }

  // ----- the scan both kernel functions share ------------------------------------------------

  function StepScalar(view: seq<Byte>, at: nat, tail: CutTail): ScalarStep {
    if at >= |view| then ScalarStep(false, at, 0)
    else if at + LeadLength(view[at]) <= |view| then ScalarStep(true, at + LeadLength(view[at]), UnitsOf(view[at]))
    else match tail(view[at..])
      case None => ScalarStep(false, at, 0)
      case Some(wide) => ScalarStep(true, |view|, if wide then 2 else 1)
  }

  datatype Scan = Scan(bytes: nat, units: nat, lastBytes: nat, lastUnits: nat, failed: bool)

  /** One turn of the kernel's loop at index `i`. */
  function Advance(view: seq<Byte>, tail: CutTail, i: nat, s: Scan): Scan {
    var active := !s.failed && i == s.bytes && s.bytes < |view|;
    var scalar := StepScalar(view, s.bytes, tail);
    if active && scalar.valid then Scan(scalar.next, s.units + scalar.width, s.bytes, s.units, s.failed)
    else s.(failed := s.failed || active)
  }

  /** The byte and units the kernel records for index `i`. */
  function MappedByte(i: nat, s: Scan): nat {
    if i == s.bytes then s.bytes else s.lastBytes
  }

  function MappedUnits(i: nat, s: Scan): nat {
    if i == s.bytes then s.units else s.lastUnits
  }

  ghost predicate Scanned(view: seq<Byte>, tail: CutTail, i: nat, s: Scan)
    requires Scalars(view)
  {
    if s.failed then CutRefused(view, tail)
    else
      && i <= s.bytes <= |view|
      && Boundary(view, s.bytes)
      && (s.bytes == 0 ==> s.units == 0)
      && (s.bytes > 0 ==>
            && s.lastBytes < s.bytes
            && s.lastBytes == Snap(view, s.bytes - 1)
            && s.lastUnits == Units(view, s.lastBytes))
      && (i < s.bytes ==> s.lastBytes < i)
      && (if s.bytes < |view| || Complete(view) then s.units == Units(view, s.bytes)
          else !CutRefused(view, tail) && s.lastUnits < s.units <= s.lastUnits + 2)
  }

  lemma CompleteByLast(view: seq<Byte>)
    requires Scalars(view) && view != []
    requires LastStart(view) + LeadLength(view[LastStart(view)]) <= |view|
    ensures Complete(view)
  {
    var p := LastStart(view);
    forall i: nat
      ensures CompleteAt(view, i)
    {
      assert ScalarAt(view, i);
      if i < |view| && Boundary(view, i) {
        SnapHighest(view, |view| - 1, i);
      }
    }
  }

  /** Inside a scalar the scan waits, and the byte maps to the scalar's start. */
  lemma AdvanceInside(view: seq<Byte>, tail: CutTail, i: nat, s: Scan)
    requires Scalars(view) && i < |view| && Scanned(view, tail, i, s) && !s.failed && i < s.bytes
    ensures s.lastBytes == Snap(view, i)
    ensures Scanned(view, tail, i + 1, s)
  {
    SnapMonotone(view, i, s.bytes - 1);
    SnapHighest(view, i, s.lastBytes);
  }

  /** On a boundary the scan takes the whole scalar. */
  lemma AdvanceStep(view: seq<Byte>, tail: CutTail, i: nat, s: Scan)
    requires Scalars(view) && i < |view| && Scanned(view, tail, i, s) && !s.failed && i == s.bytes
    requires i + LeadLength(view[i]) <= |view|
    ensures var n := i + LeadLength(view[i]);
            Scanned(view, tail, i + 1, Scan(n, Units(view, n), i, Units(view, i), false))
    ensures Units(view, i + LeadLength(view[i])) == s.units + UnitsOf(view[i])
    ensures Snap(view, i + LeadLength(view[i]) - 1) == i
  {
    UnitsStep(view, i);
    assert ScalarAt(view, i);
    SnapIs(view, i + LeadLength(view[i]) - 1, i);
    if i + LeadLength(view[i]) == |view| {
      CompleteByLast(view);
    }
  }

  /** On a cut scalar the scan takes the rest, or refuses. */
  lemma AdvanceCut(view: seq<Byte>, tail: CutTail, i: nat, s: Scan)
    requires Scalars(view) && i < |view| && Scanned(view, tail, i, s) && !s.failed && i == s.bytes
    requires i + LeadLength(view[i]) > |view|
    ensures !Complete(view)
    ensures Scanned(view, tail, i + 1, Advance(view, tail, i, s))
    ensures Snap(view, |view| - 1) == i
  {
    assert ScalarAt(view, i) && !CompleteAt(view, i);
    SnapIs(view, |view| - 1, i);
    assert LastStart(view) == i;
  }

  lemma Advances(view: seq<Byte>, tail: CutTail, i: nat, s: Scan)
    requires Scalars(view) && i < |view| && Scanned(view, tail, i, s)
    ensures Scanned(view, tail, i + 1, Advance(view, tail, i, s))
    ensures !s.failed ==> MappedByte(i, s) == Snap(view, i) && MappedUnits(i, s) == Units(view, Snap(view, i))
    ensures s.failed ==> Advance(view, tail, i, s).failed
    ensures !s.failed && i < s.bytes ==> Advance(view, tail, i, s) == s
    ensures !s.failed && i == s.bytes && !Advance(view, tail, i, s).failed ==>
              Advance(view, tail, i, s).bytes > i && Snap(view, Advance(view, tail, i, s).bytes - 1) == i
  {
    if !s.failed {
      if i < s.bytes {
        AdvanceInside(view, tail, i, s);
      } else if i + LeadLength(view[i]) <= |view| {
        AdvanceStep(view, tail, i, s);
      } else {
        AdvanceCut(view, tail, i, s);
      }
    }
  }

  lemma UnitsBound(view: seq<Byte>, i: nat)
    requires i <= |view|
    ensures Units(view, i) <= 2 * i
  {
    UnitsMonotone(view, 0, i);
  }

  lemma ScanEnds(view: seq<Byte>, tail: CutTail, s: Scan)
    requires Scalars(view) && Scanned(view, tail, |view|, s)
    ensures s.failed <==> CutRefused(view, tail)
    ensures !s.failed ==> s.bytes == |view| && EndEntry(view, s.bytes, s.units) && s.units <= 2 * |view| + 2
  {
    if !s.failed {
      UnitsBound(view, |view|);
      if view != [] {
        UnitsBound(view, LastStart(view));
      }
    }
  }

  // ----- mncs/coordinate_map.mncs ------------------------------------------------------------

  method PositionChunk(view: seq<Byte>, target: nat, tail: CutTail) returns (r: CoordinateChunk)
    requires |view| <= POSITION_INPUT_CAPACITY && Scalars(view)
    ensures r.valid <==> !CutRefused(view, tail)
    ensures |r.map_| == MAP_CAPACITY && r.mapLength == CheckpointCount(view) + 1 <= MAP_CAPACITY
    ensures r.valid ==> Checkpoints(view, r.map_[..r.mapLength])
    ensures r.valid && target <= CHUNK_BYTES && (target < |view| || (target == |view| && Complete(view))) ==>
              r.bytes == Snap(view, target) && r.units == Units(view, r.bytes)
    ensures r.bytes <= target && r.bytes <= |view|
    ensures forall k :: 0 <= k < |r.map_| ==> r.map_[k] < U32
  {
    hide ChunkScanned, ChunkAdvance, Checkpoints, Complete, Snap, Units, Scalars, Scanned;
    var boundedTarget := if target <= 1020 then target else 1020;
    var limit := if boundedTarget <= |view| then boundedTarget else |view|;
    var state := ChunkScan(Scan(0, 0, 0, 0, false), 0, 0, seq(MAP_CAPACITY, _ => 0));
    ChunkStarts(view, tail, limit, state);
    for i := 0 to |view|
      invariant |state.map_| == MAP_CAPACITY && ChunkScanned(view, tail, limit, i, state)
    {
      ChunkAdvances(view, tail, limit, i, state);
      state := ChunkAdvance(view, tail, limit, i, state);
    }
    var endSlot := (|view| + 63) / 64;
    var m := state.map_[endSlot := Pack(state.scan.units, state.scan.bytes) % U32];
    ChunkEnds(view, tail, limit, state, m);
    r := CoordinateChunk(state.consumedBytes, state.consumedUnits, !state.scan.failed, m, endSlot + 1);
  }

  lemma ChunkStarts(view: seq<Byte>, tail: CutTail, limit: nat, s: ChunkScan)
    requires Scalars(view) && limit <= |view|
    requires s == ChunkScan(Scan(0, 0, 0, 0, false), 0, 0, s.map_) && |s.map_| == MAP_CAPACITY
             && forall k :: 0 <= k < |s.map_| ==> s.map_[k] == 0
    ensures ChunkScanned(view, tail, limit, 0, s)
  {
  }

  /** The scan's end, and the closing checkpoint. */
  lemma ChunkEnds(view: seq<Byte>, tail: CutTail, limit: nat, s: ChunkScan, m: seq<nat>)
    requires Scalars(view) && limit <= |view| <= POSITION_INPUT_CAPACITY && ChunkScanned(view, tail, limit, |view|, s)
    requires var slot := (|view| + 63) / 64;
             slot < |s.map_| && m == s.map_[slot := Pack(s.scan.units, s.scan.bytes) % U32]
    ensures Boundary(view, 0)
    ensures s.scan.failed <==> CutRefused(view, tail)
    ensures |m| == MAP_CAPACITY && (|view| + 63) / 64 == CheckpointCount(view)
    ensures !s.scan.failed ==> Checkpoints(view, m[..CheckpointCount(view) + 1])
    ensures !s.scan.failed && (limit < |view| || Complete(view)) ==>
              s.consumedBytes == Snap(view, limit) && s.consumedUnits == Units(view, s.consumedBytes)
    ensures s.consumedBytes <= limit && forall k :: 0 <= k < |m| ==> m[k] < U32
  {
    ScanEnds(view, tail, s.scan);
    if !s.scan.failed {
      MapCloses(view, s.map_, s.scan.bytes, s.scan.units);
    }
  }

  datatype ChunkScan = ChunkScan(scan: Scan, consumedBytes: nat, consumedUnits: nat, map_: seq<nat>)

  /** One turn of the chunk function's loop. */
  function ChunkAdvance(view: seq<Byte>, tail: CutTail, limit: nat, i: nat, s: ChunkScan): ChunkScan
    requires i / 64 < |s.map_|
  {
    var next := Advance(view, tail, i, s.scan);
    var within := next.bytes > s.scan.bytes && next.bytes <= limit;
    var packed := Pack(MappedUnits(i, s.scan), MappedByte(i, s.scan)) % U32;
    ChunkScan(next, if within then next.bytes else s.consumedBytes, if within then next.units else s.consumedUnits,
              if i % 64 == 0 then s.map_[i / 64 := packed] else s.map_)
  }

  ghost predicate ChunkScanned(view: seq<Byte>, tail: CutTail, limit: nat, i: nat, s: ChunkScan)
    requires Scalars(view) && limit <= |view|
  {
    && Scanned(view, tail, i, s.scan)
    && |s.map_| == MAP_CAPACITY
    && (forall k :: 0 <= k < |s.map_| ==> s.map_[k] < U32)
    && (!s.scan.failed ==> Saved(view, i, s.map_))
    && s.consumedBytes <= limit
    && (!s.scan.failed && (limit < |view| || Complete(view)) ==>
          Consumed(view, limit, s.scan.bytes, s.consumedBytes, s.consumedUnits))
  }

  lemma ChunkAdvances(view: seq<Byte>, tail: CutTail, limit: nat, i: nat, s: ChunkScan)
    requires Scalars(view) && i < |view| <= POSITION_INPUT_CAPACITY && limit <= |view|
    requires ChunkScanned(view, tail, limit, i, s)
    ensures ChunkScanned(view, tail, limit, i + 1, ChunkAdvance(view, tail, limit, i, s))
  {
    Advances(view, tail, i, s.scan);
    if !Advance(view, tail, i, s.scan).failed {
      SaveEntry(view, i, s.map_);
      if limit < |view| || Complete(view) {
        ConsumedAdvances(view, tail, i, s.scan, limit, s.consumedBytes, s.consumedUnits);
      }
    }
  }

  /** The checkpoints below byte `i` are in their slots. */
  ghost predicate Saved(view: seq<Byte>, i: nat, m: seq<nat>)
    requires Boundary(view, 0)
  {
    |m| == MAP_CAPACITY && forall j :: 0 <= j < CheckpointCount(view) && j < |m| && 64 * j < i ==>
        CheckpointFor(view, 64 * j, m[j])
  }

  lemma SaveEntry(view: seq<Byte>, i: nat, m: seq<nat>)
    requires i < |view| <= POSITION_INPUT_CAPACITY && Boundary(view, 0)
    requires Saved(view, i, m)
    ensures i / 64 < MAP_CAPACITY
    ensures var packed := Pack(Units(view, Snap(view, i)), Snap(view, i)) % U32;
            Saved(view, i + 1, if i % 64 == 0 then m[i / 64 := packed] else m)
  {
    hide Pack, Units, Snap, CheckpointFor;
    EntryFits(view, i);
    forall j | 0 <= j < CheckpointCount(view) && j < MAP_CAPACITY && 64 * j < i + 1
      ensures 64 * j < i || (i % 64 == 0 && j == i / 64)
    {
    }
  }

  lemma EntryFits(view: seq<Byte>, i: nat)
    requires i <= |view| <= POSITION_INPUT_CAPACITY && Boundary(view, 0)
    ensures CheckpointFor(view, i, Pack(Units(view, Snap(view, i)), Snap(view, i)) % U32)
  {
    UnitsBound(view, Snap(view, i));
    PackLossless(Units(view, Snap(view, i)), Snap(view, i));
  }

  lemma MapCloses(view: seq<Byte>, m: seq<nat>, bytes: nat, units: nat)
    requires |view| <= POSITION_INPUT_CAPACITY && Boundary(view, 0)
    requires Saved(view, |view|, m) && EndEntry(view, bytes, units) && units <= 2 * |view| + 2
    ensures CheckpointCount(view) < MAP_CAPACITY
    ensures Checkpoints(view, m[CheckpointCount(view) := Pack(units, bytes) % U32][..CheckpointCount(view) + 1])
  {
    PackLossless(units, bytes);
  }

  /** What the chunk function has consumed once its scan stands at boundary `at`. */
  ghost predicate Consumed(view: seq<Byte>, limit: nat, at: nat, bytes: nat, units: nat)
    requires Boundary(view, 0) && limit <= |view|
  {
    bytes == (if at <= limit then at else Snap(view, limit)) && bytes <= |view| && units == Units(view, bytes)
  }

  lemma ConsumedAdvances(view: seq<Byte>, tail: CutTail, i: nat, s: Scan, limit: nat, bytes: nat, units: nat)
    requires Scalars(view) && i < |view| && Scanned(view, tail, i, s) && !Advance(view, tail, i, s).failed && !s.failed
    requires limit < |view| || (limit == |view| && Complete(view))
    requires Consumed(view, limit, s.bytes, bytes, units)
    ensures var n := Advance(view, tail, i, s);
            if n.bytes > s.bytes && n.bytes <= limit then Consumed(view, limit, n.bytes, n.bytes, n.units)
            else Consumed(view, limit, n.bytes, bytes, units)
  {
    Advances(view, tail, i, s);
    var n := Advance(view, tail, i, s);
    if i == s.bytes && i <= limit < n.bytes {
      SnapMonotone(view, limit, n.bytes - 1);
      SnapMonotone(view, i, limit);
    }
  }

  lemma WindowEntryFits(view: seq<Byte>, i: nat)
    requires i <= |view| <= WINDOW_INPUT_CAPACITY && Boundary(view, 0)
    ensures WindowEntryFor(view, i, PackWindow(Units(view, Snap(view, i)), Snap(view, i)) % U16)
  {
    UnitsBound(view, Snap(view, i));
    PackWindowLossless(Units(view, Snap(view, i)), Snap(view, i));
  }

  method CoordinateWindowFor(view: seq<Byte>, tail: CutTail) returns (r: CoordinateWindow)
    requires |view| <= WINDOW_INPUT_CAPACITY && Scalars(view)
    ensures r.valid <==> !CutRefused(view, tail)
    ensures |r.map_| == WINDOW_MAP_CAPACITY && r.mapLength == |view| + 1
    ensures r.valid ==> WindowMap(view, r.map_[..r.mapLength])
    ensures forall k :: 0 <= k < |r.map_| ==> r.map_[k] < U16
  {
    var state := Scan(0, 0, 0, 0, false);
    var m: seq<nat> := seq(WINDOW_MAP_CAPACITY, _ => 0);
    for i := 0 to |view|
      invariant Scanned(view, tail, i, state)
      invariant |m| == WINDOW_MAP_CAPACITY
      invariant forall k :: 0 <= k < |m| ==> m[k] < U16
      invariant !state.failed ==> forall j :: 0 <= j < i ==> WindowEntryFor(view, j, m[j])
    {
      Advances(view, tail, i, state);
      var packed := PackWindow(MappedUnits(i, state), MappedByte(i, state));
      WindowEntryFits(view, i);
      m := m[i := packed % U16];
      state := Advance(view, tail, i, state);
    }
    ScanEnds(view, tail, state);
    if !state.failed {
      PackWindowLossless(state.units, state.bytes);
    }
    m := m[|view| := PackWindow(state.units, state.bytes) % U16];
    r := CoordinateWindow(!state.failed, m, |view| + 1);
  }

  // ----- crates/service-core/src/native_coords.rs --------------------------------------------

  method NativePositionChunk(bytes: seq<Byte>, target: nat, tail: CutTail) returns (r: Result<CoordinateChunk>)
    requires Scalars(bytes)
    requires target < |bytes| || (target == |bytes| && Complete(bytes))
    ensures r.Ok? <==> target <= CHUNK_BYTES && |bytes| <= POSITION_INPUT_CAPACITY && !CutRefused(bytes, tail)
    ensures r.Ok? ==> r.value.bytes == Snap(bytes, target) && r.value.units == Units(bytes, r.value.bytes)
    ensures r.Ok? ==> r.value.mapLength <= |r.value.map_| && Checkpoints(bytes, r.value.map_[..r.value.mapLength])
  {
    if target > CHUNK_BYTES || |bytes| > POSITION_INPUT_CAPACITY {
      return Err;
    }
    var chunk := PositionChunk(bytes, target, tail);
    if !chunk.valid {
      return Err;
    }
    UnitsAtMostBytes(bytes, 0, chunk.bytes);
    var expected := (|bytes| + CHECKPOINT_BYTES - 1) / CHECKPOINT_BYTES + 1;
    if chunk.bytes > target || chunk.bytes > |bytes| || chunk.units > |bytes|
       || |chunk.map_| != MAP_CAPACITY || chunk.mapLength != expected {
      return Err;
    }
    return Ok(chunk);
  }

  method NativeCoordinateWindow(bytes: seq<Byte>, tail: CutTail) returns (r: Result<CoordinateWindow>)
    requires Scalars(bytes)
    ensures r.Ok? <==> |bytes| <= WINDOW_INPUT_CAPACITY && !CutRefused(bytes, tail)
    ensures r.Ok? ==> r.value.mapLength <= |r.value.map_| && WindowMap(bytes, r.value.map_[..r.value.mapLength])
  {
    if |bytes| > WINDOW_INPUT_CAPACITY {
      return Err;
    }
    var window := CoordinateWindowFor(bytes, tail);
    if !window.valid {
      return Err;
    }
    if |window.map_| != WINDOW_MAP_CAPACITY || window.mapLength != |bytes| + 1 {
      return Err;
    }
    return Ok(window);
  }
}
