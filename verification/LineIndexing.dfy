/** One line of the coordinate index, without the caches: how the line is cut into chunks, what a chunk's
    checkpoints and a window's entries say in the line's own coordinates, and that the two nested
    lookups (by byte, by column) always land in a window that holds the answer. */
module LineIndexing {
  import opened Outcomes
  import opened Utf8
  import opened CoordinateKernel
  import opened Positions

  datatype ChunkSummary = ChunkSummary(byteStart: nat, unitsBefore: nat, map_: seq<nat>, mapLength: nat)
  datatype WindowIndex = WindowIndex(byteStart: nat, unitsBefore: nat, map_: seq<nat>, mapLength: nat)

  function Min(a: nat, b: nat): (r: nat)
    ensures r <= a && r <= b && (r == a || r == b)
  {
    if a <= b then a else b
  }

  /** The standard library's binary search for the end of the leading run of `p`. */
  function PartitionPoint<T>(s: seq<T>, p: T -> bool): (n: nat)
    requires forall i, j :: 0 <= i < j < |s| && p(s[j]) ==> p(s[i])
    ensures n <= |s|
    ensures forall i :: 0 <= i < n ==> p(s[i])
    ensures forall i :: n <= i < |s| ==> !p(s[i])
  {
    if s == [] || !p(s[0]) then 0 else 1 + PartitionPoint(s[1..], p)
  }

  // ----- chunks ------------------------------------------------------------------------------

  function Target(line: seq<Byte>, start: nat): nat
    requires start <= |line|
  {
    Min(|line| - start, CHUNK_BYTES)
  }

  /** The bytes a chunk is summarised from: lookahead is added unless the chunk is ASCII. */
  function View(line: seq<Byte>, start: nat): (v: seq<Byte>)
    requires start <= |line|
    ensures Target(line, start) <= |v| && start + |v| <= |line|
  {
    var target := Target(line, start);
    if Ascii(line[start..start + target]) then line[start..start + target]
    else line[start..Min(start + target + LOOKAHEAD_BYTES, |line|)]
  }

  function ChunkEnd(line: seq<Byte>, start: nat): (e: nat)
    requires start <= |line| && Boundary(line, 0)
    ensures e <= start + Target(line, start) && Boundary(line, e)
  {
    Snap(line, start + Target(line, start))
  }

  /** Every chunk makes progress. */
  lemma Progress(line: seq<Byte>, start: nat)
    requires WellFormed(line) && Boundary(line, start) && start < |line|
    ensures start < ChunkEnd(line, start)
  {
    if start + Target(line, start) < |line| {
      SnapNear(line, start + Target(line, start));
    }
  }

  lemma ViewFacts(line: seq<Byte>, start: nat)
    requires WellFormed(line) && Boundary(line, start) && start < |line|
    ensures var v, t := View(line, start), Target(line, start);
            && Scalars(v) && t <= |v| <= POSITION_INPUT_CAPACITY
            && start + |v| <= |line| && v == line[start..start + |v|]
            && (Complete(v) <==> Boundary(line, start + |v|))
            && (t < |v| || Complete(v))
  {
    var v, t := View(line, start), Target(line, start);
    ScalarsSlice(line, start, start + |v|);
    CompleteSlice(line, start, start + |v|);
    if t == |v| && start + t < |line| {
      assert line[start..start + t][t - 1] < 0x80;
      assert ScalarAt(line, start + t - 1);
    }
  }

  lemma ViewConsumes(line: seq<Byte>, start: nat)
    requires WellFormed(line) && Boundary(line, start) && start < |line|
    ensures var v, t := View(line, start), Target(line, start);
            && Boundary(v, 0) && t <= |v|
            && Snap(v, t) == ChunkEnd(line, start) - start
            && Units(v, Snap(v, t)) == Units(line, ChunkEnd(line, start)) - Units(line, start)
  {
    var v, t := View(line, start), Target(line, start);
    ViewFacts(line, start);
    SnapSlice(line, start, start + |v|, t);
    SnapHighest(line, start + t, start);
    UnitsSlice(line, start, start + |v|, Snap(v, t));
  }

  /** Byte `to` lies inside a scalar of the line, and the decoder refuses that scalar when it is cut off there. */
  ghost predicate StraddleRefused(line: seq<Byte>, tail: CutTail, to: nat)
    requires to <= |line| && Boundary(line, 0)
  {
    !Boundary(line, to) && tail(line[Snap(line, to)..to]).None?
  }

  lemma StraddleIs(line: seq<Byte>, tail: CutTail, from: nat, to: nat)
    requires WellFormed(line) && from <= to <= |line| && Boundary(line, from)
    ensures Boundary(line[from..to], 0)
    ensures CutRefused(line[from..to], tail) <==> StraddleRefused(line, tail, to)
  {
    var view := line[from..to];
    CompleteSlice(line, from, to);
    assert Boundary(line, 0);
    if !Boundary(line, to) {
      SnapSlice(line, from, to, |view| - 1);
      SnapHighest(line, to, from);
      assert view[LastStart(view)..] == line[Snap(line, to)..to];
    }
  }

  ghost predicate ChunkOk(line: seq<Byte>, tail: CutTail, c: ChunkSummary, next: nat)
    requires WellFormed(line)
  {
    && c.byteStart < |line| && Boundary(line, c.byteStart)
    && c.unitsBefore == Units(line, c.byteStart)
    && next == ChunkEnd(line, c.byteStart)
    && c.mapLength == |c.map_|
    && Boundary(View(line, c.byteStart), 0)
    && Checkpoints(View(line, c.byteStart), c.map_)
    && !StraddleRefused(line, tail, c.byteStart + |View(line, c.byteStart)|)
  }

  function NextStart(chunks: seq<ChunkSummary>, i: nat, stop: nat): nat
    requires i < |chunks|
  {
    if i + 1 < |chunks| then chunks[i + 1].byteStart else stop
  }

  /** The chunks tile the line from its start up to `stop`. */
  ghost predicate ChunksOk(line: seq<Byte>, tail: CutTail, chunks: seq<ChunkSummary>, stop: nat)
    requires WellFormed(line)
  {
    && (if chunks == [] then stop == 0 else chunks[0].byteStart == 0)
    && (forall i: nat :: LinkOk(line, tail, chunks, stop, i))
  }

  ghost predicate LinkOk(line: seq<Byte>, tail: CutTail, chunks: seq<ChunkSummary>, stop: nat, i: nat)
    requires WellFormed(line)
  {
    i < |chunks| ==> ChunkOk(line, tail, chunks[i], NextStart(chunks, i, stop))
  }

  /** Some chunk of the line is cut inside a scalar, by a decoder that refuses that. */
  ghost predicate ChunkRefused(line: seq<Byte>, tail: CutTail, start: nat)
    requires WellFormed(line) && Boundary(line, start)
    decreases |line| - start
  {
    start < |line| && (
      StraddleRefused(line, tail, start + |View(line, start)|)
      || (Progress(line, start); ChunkRefused(line, tail, ChunkEnd(line, start))))
  }

  lemma LinkFacts(line: seq<Byte>, tail: CutTail, chunks: seq<ChunkSummary>, stop: nat, i: nat)
    requires WellFormed(line) && ChunksOk(line, tail, chunks, stop) && i < |chunks|
    ensures ChunkOk(line, tail, chunks[i], NextStart(chunks, i, stop))
    ensures chunks[i].byteStart < |line| && Boundary(line, chunks[i].byteStart)
    ensures chunks[i].unitsBefore == Units(line, chunks[i].byteStart)
    ensures NextStart(chunks, i, stop) == ChunkEnd(line, chunks[i].byteStart)
    ensures chunks[i].byteStart < NextStart(chunks, i, stop) <= |line|
    ensures chunks[i].unitsBefore < Units(line, NextStart(chunks, i, stop))
  {
    hide View, Checkpoints, Units;
    assert LinkOk(line, tail, chunks, stop, i);
    Progress(line, chunks[i].byteStart);
    UnitsMonotone(line, chunks[i].byteStart, NextStart(chunks, i, stop));
  }

  lemma {:induction false} ChunksAscend(line: seq<Byte>, tail: CutTail, chunks: seq<ChunkSummary>, stop: nat, i: nat,
                                        j: nat)
    requires WellFormed(line) && ChunksOk(line, tail, chunks, stop) && i < j < |chunks|
    ensures chunks[i].byteStart < chunks[j].byteStart && chunks[i].unitsBefore < chunks[j].unitsBefore
    decreases j
  {
    hide ChunksOk, ChunkOk, ChunkEnd, WellFormed, Units;
    LinkFacts(line, tail, chunks, stop, j - 1);
    LinkFacts(line, tail, chunks, stop, j);
    if i < j - 1 {
      ChunksAscend(line, tail, chunks, stop, i, j - 1);
    }
  }

  // ----- lookup by byte ----------------------------------------------------------------------

  /** The chunk that answers for byte `local`: the last one starting at or below it. */
  function ChunkFor(line: seq<Byte>, local: nat, start: nat): (s: nat)
    requires WellFormed(line) && start <= local <= |line| && start < |line| && Boundary(line, start)
    ensures start <= s < |line| && s <= local && Boundary(line, s)
    ensures local < ChunkEnd(line, s) || ChunkEnd(line, s) == |line|
    decreases |line| - start
  {
    Progress(line, start);
    if ChunkEnd(line, start) <= local && ChunkEnd(line, start) < |line|
        then ChunkFor(line, local, ChunkEnd(line, start))
    else start
  }

  /** The window that answers for byte `local` starts at its chunk's checkpoint at or below it. */
  function WindowFor(line: seq<Byte>, local: nat): (w: nat)
    requires WellFormed(line) && line != [] && local <= |line|
  {
    var start := ChunkFor(line, local, 0);
    Snap(line, start + 64 * ((local - start) / CHECKPOINT_BYTES))
  }

  function WindowBytes(line: seq<Byte>, at: nat): seq<Byte>
    requires at <= |line|
  {
    line[at..Min(at + WINDOW_INPUT_CAPACITY, |line|)]
  }

  ghost predicate WindowRefused(line: seq<Byte>, tail: CutTail, at: nat)
    requires at <= |line| && Boundary(line, 0)
  {
    StraddleRefused(line, tail, Min(at + WINDOW_INPUT_CAPACITY, |line|))
  }

  lemma ChunkForStep(line: seq<Byte>, tail: CutTail, chunks: seq<ChunkSummary>, local: nat, i: nat)
    requires WellFormed(line) && ChunksOk(line, tail, chunks, |line|) && i < |chunks| && local <= |line|
    requires chunks[i].byteStart <= local
    ensures chunks[i].byteStart < |line| && Boundary(line, chunks[i].byteStart)
    ensures i + 1 < |chunks| && chunks[i + 1].byteStart <= local ==>
              && chunks[i + 1].byteStart < |line| && Boundary(line, chunks[i + 1].byteStart)
              && ChunkFor(line, local, chunks[i].byteStart) == ChunkFor(line, local, chunks[i + 1].byteStart)
    ensures (i + 1 < |chunks| ==> local < chunks[i + 1].byteStart) ==>
              ChunkFor(line, local, chunks[i].byteStart) == chunks[i].byteStart
  {
    hide ChunksOk, ChunkOk, ChunkEnd, WellFormed, Units;
    LinkFacts(line, tail, chunks, |line|, i);
    if i + 1 < |chunks| {
      LinkFacts(line, tail, chunks, |line|, i + 1);
    }
  }

  lemma {:induction false} ChunkForIs(line: seq<Byte>, tail: CutTail, chunks: seq<ChunkSummary>, local: nat, i: nat,
                                      n: nat)
    requires WellFormed(line) && ChunksOk(line, tail, chunks, |line|) && i <= n < |chunks| && local <= |line|
    requires chunks[n].byteStart <= local && (n + 1 < |chunks| ==> local < chunks[n + 1].byteStart)
    ensures chunks[i].byteStart < |line| && Boundary(line, chunks[i].byteStart) && chunks[i].byteStart <= local
    ensures ChunkFor(line, local, chunks[i].byteStart) == chunks[n].byteStart
    decreases n - i
  {
    hide WellFormed, ChunksOk, ChunkFor, Boundary;
    if i < n {
      ChunksAscend(line, tail, chunks, |line|, i, n);
      if i + 1 < n {
        ChunksAscend(line, tail, chunks, |line|, i + 1, n);
      }
      ChunkForIs(line, tail, chunks, local, i + 1, n);
    }
    ChunkForStep(line, tail, chunks, local, i);
  }

  lemma CheckpointHas(v: seq<Byte>, m: seq<nat>, k: nat)
    requires Boundary(v, 0) && Checkpoints(v, m) && k < CheckpointCount(v)
    ensures k < |m| && 64 * k < |v| && PackedByte(m[k]) == Snap(v, 64 * k)
            && PackedUnits(m[k]) == Units(v, Snap(v, 64 * k))
  {
    hide Snap, Units, PackedByte, PackedUnits, EndEntry;
    assert CheckpointFor(v, 64 * k, m[k]);
  }

  /** What a checkpoint says in the line's coordinates. */
  lemma CheckpointIs(line: seq<Byte>, c: ChunkSummary, k: nat)
    requires WellFormed(line) && c.byteStart < |line| && Boundary(line, c.byteStart)
    requires Boundary(View(line, c.byteStart), 0) && Checkpoints(View(line, c.byteStart), c.map_)
    requires k < CheckpointCount(View(line, c.byteStart))
    ensures c.byteStart + 64 * k < c.byteStart + |View(line, c.byteStart)| <= |line|
    ensures var at := Snap(line, c.byteStart + 64 * k);
            && c.byteStart <= at
            && PackedByte(c.map_[k]) == at - c.byteStart
            && PackedUnits(c.map_[k]) == Units(line, at) - Units(line, c.byteStart)
  {
    hide View, Checkpoints, CheckpointCount, Snap, ScalarAt, Units, PackedByte, PackedUnits;
    var v := View(line, c.byteStart);
    ViewFacts(line, c.byteStart);
    CheckpointHas(v, c.map_, k);
    SnapSlice(line, c.byteStart, c.byteStart + |v|, 64 * k);
    UnitsSlice(line, c.byteStart, c.byteStart + |v|, Snap(v, 64 * k));
  }

  lemma EndAbove(v: seq<Byte>, units: nat, i: nat)
    requires Boundary(v, 0) && EndEntry(v, |v|, units) && (i < |v| || (i == |v| && Complete(v)))
    ensures Units(v, Snap(v, i)) <= units
  {
    hide Units, Snap, Complete;
    if i == |v| {
      UnitsMonotone(v, Snap(v, i), |v|);
    } else {
      SnapMonotone(v, i, |v| - 1);
      UnitsMonotone(v, Snap(v, i), LastStart(v));
      UnitsMonotone(v, LastStart(v), |v|);
    }
  }

  lemma EndIs(line: seq<Byte>, c: ChunkSummary)
    requires WellFormed(line) && c.byteStart < |line| && Boundary(line, c.byteStart)
    requires Boundary(View(line, c.byteStart), 0) && Checkpoints(View(line, c.byteStart), c.map_)
    ensures PackedByte(c.map_[|c.map_| - 1]) == |View(line, c.byteStart)|
    ensures PackedUnits(c.map_[|c.map_| - 1]) >= Units(line, ChunkEnd(line, c.byteStart)) - Units(line, c.byteStart)
    ensures Complete(View(line, c.byteStart)) ==>
              PackedUnits(c.map_[|c.map_| - 1])
                  == Units(line, c.byteStart + |View(line, c.byteStart)|) - Units(line, c.byteStart)
    ensures forall k :: 0 <= k < CheckpointCount(View(line, c.byteStart)) ==>
              PackedUnits(c.map_[k]) <= PackedUnits(c.map_[|c.map_| - 1])
  {
    hide View, Units, Snap, WellFormed, PackedUnits, PackedByte, ChunkEnd;
    var v, t := View(line, c.byteStart), Target(line, c.byteStart);
    var units := PackedUnits(c.map_[|c.map_| - 1]);
    ViewFacts(line, c.byteStart);
    ViewConsumes(line, c.byteStart);
    EndAbove(v, units, t);
    UnitsSlice(line, c.byteStart, c.byteStart + |v|, |v|);
    forall k | 0 <= k < CheckpointCount(v)
      ensures PackedUnits(c.map_[k]) <= units
    {
      assert CheckpointFor(v, 64 * k, c.map_[k]);
      EndAbove(v, units, 64 * k);
    }
  }

  lemma WindowForFacts(line: seq<Byte>, local: nat)
    requires WellFormed(line) && line != [] && local <= |line|
    ensures var start, w := ChunkFor(line, local, 0), WindowFor(line, local);
            && start <= local <= start + |View(line, start)| <= |line|
            && start <= w <= local <= w + 66 && Boundary(line, w)
            && w == Snap(line, start + 64 * ((local - start) / CHECKPOINT_BYTES))
            && (local == start + |View(line, start)| ==> local == |line| && Complete(View(line, start)))
  {
    var start := ChunkFor(line, local, 0);
    ViewFacts(line, start);
    var at := start + 64 * ((local - start) / CHECKPOINT_BYTES);
    if at < |line| {
      SnapNear(line, at);
    }
    SnapHighest(line, at, start);
  }

  /** The lookup by byte picks the checkpoint whose window reaches the byte. */
  lemma ByteLookup(line: seq<Byte>, c: ChunkSummary, local: nat, k: nat)
    requires WellFormed(line) && line != [] && local <= |line|
    requires c.byteStart == ChunkFor(line, local, 0)
    requires Boundary(View(line, c.byteStart), 0) && Checkpoints(View(line, c.byteStart), c.map_)
    requires k == Min((local - c.byteStart) / CHECKPOINT_BYTES, |c.map_| - 1)
    ensures c.byteStart + PackedByte(c.map_[k]) == WindowFor(line, local)
    ensures Units(line, c.byteStart) + PackedUnits(c.map_[k]) == Units(line, WindowFor(line, local))
  {
    hide WindowFor, View, ChunkFor, Snap, WellFormed, Units, PackedByte, PackedUnits, EndEntry, CheckpointFor;
    WindowForFacts(line, local);
    if k < CheckpointCount(View(line, c.byteStart)) {
      CheckpointIs(line, c, k);
    } else {
      EndIs(line, c);
    }
  }

  /** What a window entry says in the line's coordinates. */
  lemma WindowIs(line: seq<Byte>, at: nat, m: seq<nat>, i: nat)
    requires WellFormed(line) && at <= |line| && Boundary(line, at)
    requires Boundary(WindowBytes(line, at), 0) && WindowMap(WindowBytes(line, at), m)
    requires i <= |WindowBytes(line, at)| && i <= 69
    ensures at + i <= |line| && at <= Snap(line, at + i)
    ensures WindowByte(m[i]) == Snap(line, at + i) - at
    ensures WindowUnits(m[i]) == Units(line, Snap(line, at + i)) - Units(line, at)
  {
    var v := WindowBytes(line, at);
    if i < |v| {
      SnapSlice(line, at, at + |v|, i);
      UnitsSlice(line, at, at + |v|, Snap(v, i));
      assert WindowEntryFor(v, i, m[i]);
    } else {
      CompleteSlice(line, at, |line|);
      assert v == line[at..|line|];
      UnitsSlice(line, at, |line|, i);
    }
  }

  // ----- lookup by column --------------------------------------------------------------------

  function ChunkForColumn(line: seq<Byte>, column: nat, start: nat): (s: nat)
    requires WellFormed(line) && start < |line| && Boundary(line, start)
    requires Units(line, start) <= column < Units(line, |line|)
    ensures start <= s < |line| && Boundary(line, s)
    ensures Units(line, s) <= column < Units(line, ChunkEnd(line, s))
    decreases |line| - start
  {
    Progress(line, start);
    if ChunkEnd(line, start) < |line| && Units(line, ChunkEnd(line, start)) <= column
    then ChunkForColumn(line, column, ChunkEnd(line, start))
    else start
  }

  /** The last of the places `at`, `at + 64`, ... below `end` whose scalar has at most `column` units before it. */
  function CheckpointForColumn(line: seq<Byte>, end: nat, column: nat, at: nat): (r: nat)
    requires at < end <= |line| && Boundary(line, 0)
    ensures at <= r < end
    ensures Units(line, Snap(line, at)) <= column ==> Units(line, Snap(line, r)) <= column
    ensures r + 64 < end ==> column < Units(line, Snap(line, r + 64))
    decreases end - at
  {
    if at + 64 < end && Units(line, Snap(line, at + 64)) <= column then CheckpointForColumn(line, end, column, at + 64)
    else at
  }

  function WindowForColumn(line: seq<Byte>, column: nat): (w: nat)
    requires WellFormed(line) && column < Units(line, |line|)
    ensures Boundary(line, w)
  {
    var start := ChunkForColumn(line, column, 0);
    Snap(line, CheckpointForColumn(line, start + |View(line, start)|, column, start))
  }

  lemma ChunkForColumnStep(line: seq<Byte>, tail: CutTail, chunks: seq<ChunkSummary>, column: nat, i: nat)
    requires WellFormed(line) && ChunksOk(line, tail, chunks, |line|) && i < |chunks| && column < Units(line, |line|)
    requires chunks[i].unitsBefore <= column
    ensures chunks[i].byteStart < |line| && Boundary(line, chunks[i].byteStart)
            && Units(line, chunks[i].byteStart) <= column
    ensures var s := ChunkForColumn(line, column, chunks[i].byteStart);
            if i + 1 < |chunks| && chunks[i + 1].unitsBefore <= column
            then chunks[i + 1].byteStart < |line| && Boundary(line, chunks[i + 1].byteStart)
                 && Units(line, chunks[i + 1].byteStart) <= column
                    && s == ChunkForColumn(line, column, chunks[i + 1].byteStart)
            else s == chunks[i].byteStart
  {
    hide WellFormed, ChunksOk, ChunkEnd, Units, Boundary, ChunkOk, Checkpoints;
    LinkFacts(line, tail, chunks, |line|, i);
    if i + 1 < |chunks| {
      LinkFacts(line, tail, chunks, |line|, i + 1);
    }
  }

  lemma {:induction false} ChunkForColumnIs(line: seq<Byte>, tail: CutTail, chunks: seq<ChunkSummary>, column: nat,
                                            i: nat, n: nat)
    requires WellFormed(line) && ChunksOk(line, tail, chunks, |line|) && i <= n < |chunks|
             && column < Units(line, |line|)
    requires chunks[n].unitsBefore <= column && (n + 1 < |chunks| ==> column < chunks[n + 1].unitsBefore)
    ensures chunks[i].byteStart < |line| && Boundary(line, chunks[i].byteStart)
            && Units(line, chunks[i].byteStart) <= column
    ensures ChunkForColumn(line, column, chunks[i].byteStart) == chunks[n].byteStart
    decreases n - i
  {
    hide WellFormed, ChunksOk, ChunkForColumn, Units, Boundary;
    if i < n {
      ChunksAscend(line, tail, chunks, |line|, i, n);
      if i + 1 < n {
        ChunksAscend(line, tail, chunks, |line|, i + 1, n);
      }
      ChunkForColumnIs(line, tail, chunks, column, i + 1, n);
    }
    ChunkForColumnStep(line, tail, chunks, column, i);
  }

  lemma CheckpointsSorted(line: seq<Byte>, c: ChunkSummary, i: nat, j: nat)
    requires WellFormed(line) && c.byteStart < |line| && Boundary(line, c.byteStart)
    requires Boundary(View(line, c.byteStart), 0) && Checkpoints(View(line, c.byteStart), c.map_)
    requires i < j < |c.map_|
    ensures PackedUnits(c.map_[i]) <= PackedUnits(c.map_[j])
  {
    hide View, Snap, ScalarAt, CompleteAt, Units, PackedByte, PackedUnits, EndEntry;
    if j == |c.map_| - 1 {
      EndIs(line, c);
    } else {
      CheckpointIs(line, c, i);
      CheckpointIs(line, c, j);
      SnapMonotone(line, c.byteStart + 64 * i, c.byteStart + 64 * j);
      UnitsMonotone(line, Snap(line, c.byteStart + 64 * i), Snap(line, c.byteStart + 64 * j));
    }
  }

  lemma {:induction false} CheckpointForColumnIs(line: seq<Byte>, c: ChunkSummary, column: nat, j: nat, k: nat)
    requires WellFormed(line) && c.byteStart < |line| && Boundary(line, c.byteStart)
    requires Boundary(View(line, c.byteStart), 0) && Checkpoints(View(line, c.byteStart), c.map_)
    requires Units(line, c.byteStart) <= column
    requires j <= k < CheckpointCount(View(line, c.byteStart))
    requires PackedUnits(c.map_[k]) <= column - Units(line, c.byteStart)
    requires k + 1 < |c.map_| ==> PackedUnits(c.map_[k + 1]) > column - Units(line, c.byteStart)
    ensures var end := c.byteStart + |View(line, c.byteStart)|;
            c.byteStart + 64 * j < end
            && CheckpointForColumn(line, end, column, c.byteStart + 64 * j) == c.byteStart + 64 * k
    decreases k - j
  {
    hide View, Snap, WellFormed, Units, PackedByte, PackedUnits, EndEntry, CheckpointFor;
    CheckpointIs(line, c, j);
    if j < k {
      CheckpointIs(line, c, j + 1);
      if j + 1 < k {
        CheckpointsSorted(line, c, j + 1, k);
      }
      CheckpointForColumnIs(line, c, column, j + 1, k);
    } else if k + 1 < CheckpointCount(View(line, c.byteStart)) {
      CheckpointIs(line, c, k + 1);
    }
  }

  lemma FirstCheckpoint(line: seq<Byte>, c: ChunkSummary)
    requires WellFormed(line) && c.byteStart < |line| && Boundary(line, c.byteStart)
    requires Boundary(View(line, c.byteStart), 0) && Checkpoints(View(line, c.byteStart), c.map_)
    ensures 0 < CheckpointCount(View(line, c.byteStart)) && PackedUnits(c.map_[0]) == 0
  {
    hide View, Checkpoints, Units, EndEntry, PackedByte, PackedUnits;
    ViewFacts(line, c.byteStart);
    CheckpointIs(line, c, 0);
    SnapIs(line, c.byteStart, c.byteStart);
  }

  lemma LastCheckpointPast(line: seq<Byte>, c: ChunkSummary, column: nat)
    requires WellFormed(line) && c.byteStart < |line| && Boundary(line, c.byteStart)
    requires Boundary(View(line, c.byteStart), 0) && Checkpoints(View(line, c.byteStart), c.map_)
    requires column < Units(line, ChunkEnd(line, c.byteStart))
    ensures column < Units(line, c.byteStart) + PackedUnits(c.map_[|c.map_| - 1])
  {
    hide View, Units, EndEntry, PackedByte, PackedUnits, ChunkEnd, WellFormed, CheckpointFor;
    EndIs(line, c);
  }

  /** The lookup by column picks the checkpoint whose window holds the answer. */
  lemma ColumnLookup(line: seq<Byte>, c: ChunkSummary, column: nat, n: nat)
    requires WellFormed(line) && column < Units(line, |line|)
    requires c.byteStart == ChunkForColumn(line, column, 0)
    requires Boundary(View(line, c.byteStart), 0) && Checkpoints(View(line, c.byteStart), c.map_)
    requires n <= |c.map_|
    requires forall i :: 0 <= i < n ==> PackedUnits(c.map_[i]) <= column - Units(line, c.byteStart)
    requires forall i :: n <= i < |c.map_| ==> PackedUnits(c.map_[i]) > column - Units(line, c.byteStart)
    ensures 0 < n < |c.map_|
    ensures c.byteStart + PackedByte(c.map_[n - 1]) == WindowForColumn(line, column)
    ensures Units(line, c.byteStart) + PackedUnits(c.map_[n - 1]) == Units(line, WindowForColumn(line, column))
  {
    hide View, Snap, Units, PackedByte, PackedUnits, EndEntry, CheckpointFor, ChunkForColumn, ChunkEnd,
        CheckpointForColumn;
    FirstCheckpoint(line, c);
    LastCheckpointPast(line, c, column);
    CheckpointForColumnIs(line, c, column, 0, n - 1);
    CheckpointIs(line, c, n - 1);
  }

  /** The next checkpoint, or the chunk's end, lies past the column and within 67 bytes. */
  lemma NextCheckpoint(line: seq<Byte>, column: nat) returns (next: nat)
    requires WellFormed(line) && column < Units(line, |line|)
    ensures Boundary(line, next) && column < Units(line, next) && next <= WindowForColumn(line, column) + 67
  {
    hide View, Snap, ChunkForColumn, CheckpointForColumn, ChunkEnd;
    var start := ChunkForColumn(line, column, 0);
    var end := start + |View(line, start)|;
    var at := CheckpointForColumn(line, end, column, start);
    SnapNear(line, at);
    if at + 64 < end {
      next := Snap(line, at + 64);
    } else {
      next := ChunkEnd(line, start);
    }
  }

  lemma WindowBelowColumn(line: seq<Byte>, column: nat)
    requires WellFormed(line) && column < Units(line, |line|)
    ensures Units(line, WindowForColumn(line, column)) <= column
  {
    hide View, ChunkForColumn, ChunkEnd, CheckpointForColumn;
    var start := ChunkForColumn(line, column, 0);
    SnapIs(line, start, start);
  }

  /** The answer to a column is at most 67 bytes past the start of its window. */
  lemma WindowForColumnFacts(line: seq<Byte>, column: nat)
    requires WellFormed(line) && column < Units(line, |line|)
    ensures var w, r := WindowForColumn(line, column), FirstAtLeast(line, 0, |line|, column);
            w <= r <= w + 67 && Units(line, w) <= column && Boundary(line, r) && Units(line, r) >= column
  {
    hide WindowForColumn, Snap, WellFormed;
    WindowBelowColumn(line, column);
    var next := NextCheckpoint(line, column);
    var w, r := WindowForColumn(line, column), FirstAtLeast(line, 0, |line|, column);
    if r < w {
      UnitsMonotone(line, r, w);
    }
    UnitsBelow(line, column, next);
  }

  lemma UnitsBelow(line: seq<Byte>, column: nat, at: nat)
    requires at <= |line| && Boundary(line, at) && Units(line, at) > column
    ensures FirstAtLeast(line, 0, |line|, column) <= at
  {
  }

  lemma UnitsEarlier(line: seq<Byte>, column: nat, at: nat)
    requires at < FirstAtLeast(line, 0, |line|, column) && Boundary(line, at)
    ensures Units(line, at) < column
  {
  }

  lemma WindowSorted(v: seq<Byte>, m: seq<nat>, i: nat, j: nat)
    requires Boundary(v, 0) && WindowMap(v, m) && i < j < |m|
    ensures WindowUnits(m[i]) <= WindowUnits(m[j])
  {
    assert WindowEntryFor(v, i, m[i]);
    if j < |v| {
      assert WindowEntryFor(v, j, m[j]);
      SnapMonotone(v, i, j);
      UnitsMonotone(v, Snap(v, i), Snap(v, j));
    } else {
      SnapMonotone(v, i, |v| - 1);
      UnitsMonotone(v, Snap(v, i), LastStart(v));
      UnitsMonotone(v, LastStart(v), |v|);
    }
  }

  /** The window map of a column's window. */
  ghost predicate ColumnWindow(line: seq<Byte>, column: nat, m: seq<nat>) {
    && WellFormed(line) && column < Units(line, |line|)
    && Boundary(WindowBytes(line, WindowForColumn(line, column)), 0)
    && WindowMap(WindowBytes(line, WindowForColumn(line, column)), m)
  }

  lemma WindowAnswer(line: seq<Byte>, column: nat, m: seq<nat>) returns (q: nat)
    requires ColumnWindow(line, column, m)
    ensures WindowForColumn(line, column) + q == FirstAtLeast(line, 0, |line|, column)
    ensures q < |m| && WindowByte(m[q]) == q
    ensures Units(line, WindowForColumn(line, column)) + WindowUnits(m[q]) >= column
  {
    hide WindowForColumn, FirstAtLeast, Units, WindowByte, WindowUnits;
    WindowForColumnFacts(line, column);
    var w, r := WindowForColumn(line, column), FirstAtLeast(line, 0, |line|, column);

    q := r - w;
    WindowIs(line, w, m, q);
    assert Snap(line, r) == r;
  }

  lemma WindowBefore(line: seq<Byte>, column: nat, m: seq<nat>, i: nat)
    requires ColumnWindow(line, column, m)
    requires i < |m| && WindowForColumn(line, column) + i < FirstAtLeast(line, 0, |line|, column)
    ensures Units(line, WindowForColumn(line, column)) + WindowUnits(m[i]) < column
  {
    hide WindowForColumn, Units, WindowByte, WindowUnits;
    WindowForColumnFacts(line, column);
    var w := WindowForColumn(line, column);

    WindowIs(line, w, m, i);
    UnitsEarlier(line, column, Snap(line, w + i));
  }

  /** Inside its window, the answer is the first entry that has enough units. */
  lemma WindowColumn(line: seq<Byte>, column: nat, m: seq<nat>, n: nat)
    requires ColumnWindow(line, column, m) && n <= |m|
    requires forall i :: 0 <= i < n ==> Units(line, WindowForColumn(line, column)) + WindowUnits(m[i]) < column
    requires forall i :: n <= i < |m| ==> Units(line, WindowForColumn(line, column)) + WindowUnits(m[i]) >= column
    ensures n < |m|
    ensures WindowForColumn(line, column) + WindowByte(m[n]) == FirstAtLeast(line, 0, |line|, column)
  {
    hide ColumnWindow, WindowForColumn, FirstAtLeast, Units, WindowByte, WindowUnits;
    var q := WindowAnswer(line, column, m);

    if n < q {
      WindowBefore(line, column, m, n);
    }
  }

  // ----- the searches over the chunks --------------------------------------------------------

  lemma ChunksSorted(line: seq<Byte>, tail: CutTail, chunks: seq<ChunkSummary>)
    requires WellFormed(line) && ChunksOk(line, tail, chunks, |line|)
    ensures forall i, j :: 0 <= i < j < |chunks| ==> chunks[i].byteStart < chunks[j].byteStart
    ensures forall i, j :: 0 <= i < j < |chunks| ==> chunks[i].unitsBefore < chunks[j].unitsBefore
  {
    forall i: nat, j: nat | i < j < |chunks|
      ensures chunks[i].byteStart < chunks[j].byteStart && chunks[i].unitsBefore < chunks[j].unitsBefore
    {
      ChunksAscend(line, tail, chunks, |line|, i, j);
    }
  }

  lemma ByteChunk(line: seq<Byte>, tail: CutTail, chunks: seq<ChunkSummary>, local: nat, at: nat)
    requires WellFormed(line) && ChunksOk(line, tail, chunks, |line|) && local <= |line| && at <= |chunks|
    requires forall i :: 0 <= i < at ==> chunks[i].byteStart <= local
    requires forall i :: at <= i < |chunks| ==> chunks[i].byteStart > local
    ensures at == 0 <==> line == []
    ensures at > 0 ==> ChunkOk(line, tail, chunks[at - 1], NextStart(chunks, at - 1, |line|))
    ensures at > 0 ==> chunks[at - 1].byteStart == ChunkFor(line, local, 0)
  {
    hide WellFormed, ChunkFor, ChunkOk;
    if chunks != [] {
      LinkFacts(line, tail, chunks, |line|, 0);
      if at > 0 {
        LinkFacts(line, tail, chunks, |line|, at - 1);
        ChunkForIs(line, tail, chunks, local, 0, at - 1);
      }
    }
  }

  lemma ColumnChunk(line: seq<Byte>, tail: CutTail, chunks: seq<ChunkSummary>, column: nat, at: nat)
    requires WellFormed(line) && ChunksOk(line, tail, chunks, |line|) && column < Units(line, |line|) && at <= |chunks|
    requires forall i :: 0 <= i < at ==> chunks[i].unitsBefore <= column
    requires forall i :: at <= i < |chunks| ==> chunks[i].unitsBefore > column
    ensures at > 0
    ensures ChunkOk(line, tail, chunks[at - 1], NextStart(chunks, at - 1, |line|))
    ensures chunks[at - 1].byteStart == ChunkForColumn(line, column, 0)
  {
    hide WellFormed, ChunkForColumn, ChunkOk;
    LinkFacts(line, tail, chunks, |line|, 0);
    assert at > 0;
    LinkFacts(line, tail, chunks, |line|, at - 1);
    ChunkForColumnIs(line, tail, chunks, column, 0, at - 1);
  }
}
