/** When the coordinate index gives no answer, said of a line's bytes alone: the cuts every 1020 bytes, the three bytes
    of lookahead, the checkpoints every 64 bytes and the windows of 70. */
module RefusedLookups {
  import opened Utf8
  import opened CoordinateKernel
  import opened Positions
  import opened LineIndexing
  import opened SourceLines
  import opened Coords

  // ----- one cut -----------------------------------------------------------------------------

  /** Reading stops inside a scalar, and the decoder refuses the part of it that was read. */
  ghost predicate CutRefusedAt(line: seq<Byte>, tail: CutTail, to: nat) {
    && to < |line|
    && exists p :: 0 <= p < to && Boundary(line, p) && InsideFrom(line, p, to) && tail(line[p..to]).None?
  }

  ghost predicate InsideFrom(line: seq<Byte>, p: nat, to: nat) {
    forall k :: p < k <= to ==> !Boundary(line, k)
  }

  lemma CutIs(line: seq<Byte>, tail: CutTail, to: nat)
    requires WellFormed(line)
    ensures CutRefusedAt(line, tail, to) <==> to < |line| && StraddleRefused(line, tail, to)
  {
    if CutRefusedAt(line, tail, to) {
      var p :| 0 <= p < to && Boundary(line, p) && InsideFrom(line, p, to) && tail(line[p..to]).None?;
      SnapIs(line, to, p);
    }
    if to < |line| && StraddleRefused(line, tail, to) {
      var p := Snap(line, to);
      forall k | p < k <= to
        ensures !Boundary(line, k)
      {
        if Boundary(line, k) {
          SnapHighest(line, to, k);
        }
      }
      assert InsideFrom(line, p, to);
    }
  }

  // ----- the chunks of a line ----------------------------------------------------------------

  /** From one cut the next is the last scalar boundary within 1020 bytes. */
  ghost predicate NextCut(line: seq<Byte>, from: nat, to: nat) {
    && from < to <= |line| && to <= from + 1020 && Boundary(line, to)
    && forall k :: to < k <= from + 1020 ==> !Boundary(line, k)
  }

  /** The chunks' starts, and the end of the line. */
  ghost predicate Cuts(line: seq<Byte>, cuts: seq<nat>) {
    && cuts != [] && cuts[0] == 0 && cuts[|cuts| - 1] == |line|
    && forall i :: 0 < i < |cuts| ==> NextCut(line, cuts[i - 1], cuts[i])
  }

  /** Cuts from a place on. */
  ghost predicate CutsFrom(line: seq<Byte>, from: nat, cuts: seq<nat>) {
    && cuts != [] && cuts[0] == from && cuts[|cuts| - 1] == |line|
    && forall i :: 0 < i < |cuts| ==> NextCut(line, cuts[i - 1], cuts[i])
  }

  predicate HasWide(line: seq<Byte>, from: nat) {
    exists k :: from <= k < |line| && k < from + 1020 && line[k] >= 0x80
  }

  /** A chunk with a byte that is not ASCII is read three bytes further. */
  ghost predicate SomeChunkRefused(line: seq<Byte>, tail: CutTail, cuts: seq<nat>) {
    exists i :: 0 <= i < |cuts| - 1 && HasWide(line, cuts[i]) && CutRefusedAt(line, tail, cuts[i] + 1020 + 3)
  }

  lemma ChunkEndIs(line: seq<Byte>, from: nat)
    requires WellFormed(line) && Boundary(line, from) && from < |line|
    ensures NextCut(line, from, ChunkEnd(line, from))
  {
    Progress(line, from);
    var to := if from + 1020 <= |line| then from + 1020 else |line|;
    forall k | ChunkEnd(line, from) < k <= from + 1020
      ensures !Boundary(line, k)
    {
      if Boundary(line, k) {
        SnapHighest(line, to, k);
      }
    }
  }

  /** Where the reading of a chunk stops. */
  function ReadTo(line: seq<Byte>, from: nat): nat {
    var to := from + 1020 + (if HasWide(line, from) then 3 else 0);
    if to < |line| then to else |line|
  }

  lemma ReadToIs(line: seq<Byte>, from: nat)
    requires WellFormed(line) && Boundary(line, from) && from < |line|
    ensures ReadTo(line, from) == from + |View(line, from)|
  {
    var t := Target(line, from);
    var chunk := line[from..from + t];
    if Ascii(chunk) {
      assert forall k :: from <= k < |line| && k < from + 1020 ==> line[k] == chunk[k - from];
    } else {
      var k :| 0 <= k < |chunk| && chunk[k] >= 0x80;
      assert line[from + k] >= 0x80;
    }
  }

  lemma ViewCut(line: seq<Byte>, tail: CutTail, from: nat)
    requires WellFormed(line) && Boundary(line, from) && from < |line|
    ensures StraddleRefused(line, tail, from + |View(line, from)|)
            <==> HasWide(line, from) && CutRefusedAt(line, tail, from + 1020 + 3)
  {
    hide View, CutRefusedAt, Snap, ScalarAt, CompleteAt;
    var to := ReadTo(line, from);
    ReadToIs(line, from);
    CutIs(line, tail, to);
    CutIs(line, tail, from + 1020 + 3);
    if to < |line| && !HasWide(line, from) {
      assert line[to - 1] < 0x80;
      AsciiThenBoundary(line, to - 1);
    }
  }

  lemma {:induction false} ChunksCut(line: seq<Byte>, tail: CutTail, from: nat) returns (cuts: seq<nat>)
    requires WellFormed(line) && Boundary(line, from) && from <= |line|
    ensures CutsFrom(line, from, cuts)
    ensures ChunkRefused(line, tail, from) <==> SomeChunkRefused(line, tail, cuts)
    decreases |line| - from
  {
    hide CutRefusedAt, HasWide, View, ChunkEnd, StraddleRefused, NextCut;
    cuts := [from];
    if from < |line| {
      ChunkEndIs(line, from);
      ViewCut(line, tail, from);
      NextCutAhead(line, from, ChunkEnd(line, from));
      var rest := ChunksCut(line, tail, ChunkEnd(line, from));
      cuts := [from] + rest;
      forall i | 0 < i < |cuts|
        ensures NextCut(line, cuts[i - 1], cuts[i])
      {
        assert i > 1 ==> cuts[i - 1] == rest[i - 2] && cuts[i] == rest[i - 1];
      }
      MoreCuts(line, tail, from, rest);
    }
  }

  lemma NextCutAhead(line: seq<Byte>, from: nat, to: nat)
    requires NextCut(line, from, to)
    ensures from < to <= |line|
  {
  }

  lemma MoreCuts(line: seq<Byte>, tail: CutTail, from: nat, rest: seq<nat>)
    requires rest != []
    ensures SomeChunkRefused(line, tail, [from] + rest) <==>
              (HasWide(line, from) && CutRefusedAt(line, tail, from + 1020 + 3)) || SomeChunkRefused(line, tail, rest)
  {
    hide CutRefusedAt, HasWide;
    var cuts := [from] + rest;
    assert cuts[0] == from && |cuts| - 1 > 0;
    if HasWide(line, from) && CutRefusedAt(line, tail, from + 1020 + 3) {
      assert HasWide(line, cuts[0]) && CutRefusedAt(line, tail, cuts[0] + 1020 + 3);
    }
    if SomeChunkRefused(line, tail, rest) {
      var i :| 0 <= i < |rest| - 1 && HasWide(line, rest[i]) && CutRefusedAt(line, tail, rest[i] + 1020 + 3);
      assert cuts[i + 1] == rest[i];
      assert HasWide(line, cuts[i + 1]) && CutRefusedAt(line, tail, cuts[i + 1] + 1020 + 3);
    }
    if SomeChunkRefused(line, tail, cuts) {
      var i :| 0 <= i < |cuts| - 1 && HasWide(line, cuts[i]) && CutRefusedAt(line, tail, cuts[i] + 1020 + 3);
      if i > 0 {
        assert cuts[i] == rest[i - 1];
        assert HasWide(line, rest[i - 1]) && CutRefusedAt(line, tail, rest[i - 1] + 1020 + 3);
      }
    }
  }

  // ----- the window of a lookup --------------------------------------------------------------

  /** The last scalar boundary at or below a byte. */
  ghost predicate LastBoundary(line: seq<Byte>, at: nat, w: nat) {
    w <= at <= |line| && Boundary(line, w) && InsideFrom(line, w, at)
  }

  lemma SnapIsLast(line: seq<Byte>, at: nat, w: nat)
    requires at <= |line| && Boundary(line, 0)
    ensures LastBoundary(line, at, w) <==> w == Snap(line, at)
  {
    forall k | Snap(line, at) < k <= at
      ensures !Boundary(line, k)
    {
      if Boundary(line, k) {
        SnapHighest(line, at, k);
      }
    }
    assert InsideFrom(line, Snap(line, at), at);
    if LastBoundary(line, at, w) {
      SnapIs(line, at, w);
    }
  }

  lemma NextCutOnly(line: seq<Byte>, from: nat, to: nat)
    requires WellFormed(line) && Boundary(line, from) && NextCut(line, from, to)
    ensures to == ChunkEnd(line, from)
  {
    ChunkEndIs(line, from);
  }

  /** The chunk that holds a byte; the last one also answers for the end of the line. */
  ghost predicate ChunkHolds(cuts: seq<nat>, local: nat, m: nat) {
    m + 1 < |cuts| && cuts[m] <= local && (m + 2 < |cuts| ==> local < cuts[m + 1])
  }

  lemma {:induction false} ChunkForCut(line: seq<Byte>, cuts: seq<nat>, local: nat, i: nat) returns (m: nat)
    requires WellFormed(line) && Cuts(line, cuts) && i + 1 < |cuts| && cuts[i] <= local <= |line|
    requires cuts[i] < |line| && Boundary(line, cuts[i])
    ensures ChunkHolds(cuts, local, m) && ChunkFor(line, local, cuts[i]) == cuts[m]
    decreases |cuts| - i
  {
    hide ChunkEnd, WellFormed;
    m := i;
    assert NextCut(line, cuts[i + 1 - 1], cuts[i + 1]);
    NextCutOnly(line, cuts[i], cuts[i + 1]);
    if i + 2 < |cuts| {
      assert NextCut(line, cuts[i + 2 - 1], cuts[i + 2]);
      if cuts[i + 1] <= local {
        m := ChunkForCut(line, cuts, local, i + 1);
      }
    }
  }

  /** The window of a byte starts at its chunk's last checkpoint at or below it. */
  ghost predicate ByteWindow(line: seq<Byte>, cuts: seq<nat>, local: nat, m: nat, w: nat) {
    ChunkHolds(cuts, local, m) && LastBoundary(line, cuts[m] + 64 * ((local - cuts[m]) / 64), w)
  }

  /** The window is 70 bytes long, and ends inside a scalar the decoder refuses. */
  ghost predicate ByteWindowRefused(line: seq<Byte>, tail: CutTail, cuts: seq<nat>, local: nat) {
    exists m: nat, w: nat :: ByteWindow(line, cuts, local, m, w) && CutRefusedAt(line, tail, w + 70)
  }

  lemma WindowCut(line: seq<Byte>, tail: CutTail, w: nat)
    requires WellFormed(line) && w <= |line|
    ensures WindowRefused(line, tail, w) <==> CutRefusedAt(line, tail, w + 70)
  {
    CutIs(line, tail, Min(w + 70, |line|));
    CutIs(line, tail, w + 70);
  }

  lemma {:induction false} CutsAscend(line: seq<Byte>, cuts: seq<nat>, i: nat, j: nat)
    requires Cuts(line, cuts) && i < j < |cuts|
    ensures cuts[i] < cuts[j] <= |line|
    decreases j
  {
    assert NextCut(line, cuts[j - 1], cuts[j]);
    if i < j - 1 {
      CutsAscend(line, cuts, i, j - 1);
    }
  }

  lemma HoldsOnce(line: seq<Byte>, cuts: seq<nat>, local: nat, m: nat, n: nat)
    requires Cuts(line, cuts) && ChunkHolds(cuts, local, m) && ChunkHolds(cuts, local, n)
    ensures m == n
  {
    hide Cuts;
    if m < n && m + 1 < n {
      CutsAscend(line, cuts, m + 1, n);
    }
    if n < m && n + 1 < m {
      CutsAscend(line, cuts, n + 1, m);
    }
  }

  lemma ByteWindowIs(line: seq<Byte>, tail: CutTail, cuts: seq<nat>, local: nat)
    requires WellFormed(line) && line != [] && local <= |line| && Cuts(line, cuts)
    ensures WindowRefused(line, tail, WindowFor(line, local)) <==> ByteWindowRefused(line, tail, cuts, local)
  {
    hide CutRefusedAt, WindowRefused, Cuts, LastBoundary, ChunkFor;
    CutsStart(line, cuts);
    var m := ChunkForCut(line, cuts, local, 0);
    var at := cuts[m] + 64 * ((local - cuts[m]) / 64);
    var w := WindowFor(line, local);
    SnapIsLast(line, at, w);
    WindowCut(line, tail, w);
    assert ByteWindow(line, cuts, local, m, w);
    forall n: nat, v: nat | ByteWindow(line, cuts, local, n, v)
      ensures v == w
    {
      HoldsOnce(line, cuts, local, m, n);
      SnapIsLast(line, at, v);
    }
  }

  lemma CutsStart(line: seq<Byte>, cuts: seq<nat>)
    requires WellFormed(line) && line != [] && Cuts(line, cuts)
    ensures |cuts| > 1 && cuts[0] == 0 && Boundary(line, 0)
  {
  }

  // ----- the window of a column --------------------------------------------------------------

  /** The chunk whose units reach past a column. */
  ghost predicate ColumnHolds(line: seq<Byte>, cuts: seq<nat>, column: nat, m: nat) {
    && m + 1 < |cuts| && cuts[m] <= |line| && Units(line, cuts[m]) <= column
    && (m + 2 < |cuts| ==> cuts[m + 1] <= |line| && column < Units(line, cuts[m + 1]))
  }

  lemma {:induction false} ColumnCut(line: seq<Byte>, cuts: seq<nat>, column: nat, i: nat) returns (m: nat)
    requires WellFormed(line) && Cuts(line, cuts) && i + 1 < |cuts| && cuts[i] < |line| && Boundary(line, cuts[i])
    requires Units(line, cuts[i]) <= column < Units(line, |line|)
    ensures ColumnHolds(line, cuts, column, m) && ChunkForColumn(line, column, cuts[i]) == cuts[m]
    decreases |cuts| - i
  {
    hide ChunkEnd, WellFormed, Units;
    m := i;
    assert NextCut(line, cuts[i + 1 - 1], cuts[i + 1]);
    NextCutOnly(line, cuts[i], cuts[i + 1]);
    if i + 2 < |cuts| {
      assert NextCut(line, cuts[i + 2 - 1], cuts[i + 2]);
      if Units(line, cuts[i + 1]) <= column {
        m := ColumnCut(line, cuts, column, i + 1);
      }
    }
  }

  lemma ColumnHoldsOnce(line: seq<Byte>, cuts: seq<nat>, column: nat, m: nat, n: nat)
    requires Cuts(line, cuts) && ColumnHolds(line, cuts, column, m) && ColumnHolds(line, cuts, column, n)
    ensures m == n
  {
    hide Cuts, Units;
    if m < n {
      ColumnPast(line, cuts, m + 1, n);
    }
    if n < m {
      ColumnPast(line, cuts, n + 1, m);
    }
  }

  lemma ColumnPast(line: seq<Byte>, cuts: seq<nat>, i: nat, j: nat)
    requires Cuts(line, cuts) && i <= j < |cuts|
    ensures cuts[i] <= cuts[j] <= |line| && Units(line, cuts[i]) <= Units(line, cuts[j])
  {
    hide Units;
    if i < j {
      CutsAscend(line, cuts, i, j);
      UnitsMonotone(line, cuts[i], cuts[j]);
    } else if i > 0 {
      CutsAscend(line, cuts, 0, i);
    }
  }

  lemma {:induction false} CheckpointAt(line: seq<Byte>, end: nat, column: nat, at: nat) returns (k: nat)
    requires at < end <= |line| && Boundary(line, 0)
    ensures CheckpointForColumn(line, end, column, at) == at + 64 * k
    decreases end - at
  {
    hide Units, Snap;
    if at + 64 < end && Units(line, Snap(line, at + 64)) <= column {
      var more := CheckpointAt(line, end, column, at + 64);
      k := more + 1;
    } else {
      k := 0;
    }
  }

  /** The window of a column starts at the last of its chunk's checkpoints with at most that many units before it. */
  ghost predicate ColumnWindow(line: seq<Byte>, cuts: seq<nat>, column: nat, m: nat, k: nat, w: nat) {
    && ColumnHolds(line, cuts, column, m) && cuts[m] + 64 * k < ReadTo(line, cuts[m])
    && LastBoundary(line, cuts[m] + 64 * k, w) && Units(line, w) <= column
    && forall v :: cuts[m] + 64 * (k + 1) < ReadTo(line, cuts[m]) && LastBoundary(line, cuts[m] + 64 * (k + 1), v)
         ==> column < Units(line, v)
  }

  ghost predicate ColumnWindowRefused(line: seq<Byte>, tail: CutTail, cuts: seq<nat>, column: nat) {
    exists m: nat, k: nat, w: nat :: ColumnWindow(line, cuts, column, m, k, w) && CutRefusedAt(line, tail, w + 70)
  }

  lemma ColumnWindowAt(line: seq<Byte>, cuts: seq<nat>, column: nat) returns (m: nat, k: nat)
    requires WellFormed(line) && line != [] && Cuts(line, cuts) && column < Units(line, |line|)
    ensures ColumnWindow(line, cuts, column, m, k, WindowForColumn(line, column))
  {
    hide Units, Snap, View, WellFormed, ChunkForColumn, HasWide, Cuts, ReadTo, CheckpointForColumn, ColumnWindow,
        WindowForColumn;
    CutsStart(line, cuts);
    NoUnits(line);
    m := ColumnCut(line, cuts, column, 0);
    CutsAscend(line, cuts, m, |cuts| - 1);
    LastIsEnd(line, cuts);
    k := ColumnWindowIn(line, cuts, column, m);
  }

  lemma ColumnWindowIn(line: seq<Byte>, cuts: seq<nat>, column: nat, m: nat) returns (k: nat)
    requires WellFormed(line) && column < Units(line, |line|) && ColumnHolds(line, cuts, column, m)
    requires Units(line, 0) == 0 && line != [] && Boundary(line, 0) && cuts[m] == ChunkForColumn(line, column, 0)
    ensures ColumnWindow(line, cuts, column, m, k, WindowForColumn(line, column))
  {
    hide Units, Snap, View, WellFormed, ChunkForColumn, HasWide, ReadTo, CheckpointForColumn, InsideFrom,
        ScalarAt, CompleteAt;
    var start := cuts[m];
    ReadToIs(line, start);
    var end := start + |View(line, start)|;
    ViewFacts(line, start);
    k := CheckpointAt(line, end, column, start);
    var r := start + 64 * k;
    SnapIs(line, start, start);
    SnapIsLast(line, r, Snap(line, r));
    forall v | r + 64 < end && LastBoundary(line, r + 64, v)
      ensures column < Units(line, v)
    {
      SnapIsLast(line, r + 64, v);
    }
  }

  lemma LastIsEnd(line: seq<Byte>, cuts: seq<nat>)
    requires Cuts(line, cuts)
    ensures cuts[|cuts| - 1] == |line|
  {
  }

  lemma NoUnits(line: seq<Byte>)
    ensures Units(line, 0) == 0
  {
  }

  lemma ColumnWindowOnce(line: seq<Byte>, cuts: seq<nat>, column: nat, m: nat, k: nat, w: nat, n: nat, j: nat, v: nat)
    requires Boundary(line, 0) && Cuts(line, cuts)
    requires ColumnWindow(line, cuts, column, m, k, w) && ColumnWindow(line, cuts, column, n, j, v)
    ensures w == v
  {
    hide Units, Cuts, HasWide, ReadTo, LastBoundary;
    ColumnHoldsOnce(line, cuts, column, m, n);
    ReadInLine(line, cuts[m]);
    if k < j {
      LaterCheckpoint(line, cuts[m], column, k, j, v);
    } else if j < k {
      LaterCheckpoint(line, cuts[m], column, j, k, w);
    } else {
      SnapIsLast(line, cuts[m] + 64 * k, w);
      SnapIsLast(line, cuts[m] + 64 * k, v);
    }
  }

  lemma ReadInLine(line: seq<Byte>, from: nat)
    ensures ReadTo(line, from) <= |line|
  {
  }

  lemma LaterCheckpoint(line: seq<Byte>, start: nat, column: nat, k: nat, j: nat, v: nat)
    requires k < j && start + 64 * j < ReadTo(line, start) <= |line| && Boundary(line, 0)
    requires LastBoundary(line, start + 64 * j, v) && Units(line, v) <= column
    ensures start + 64 * (k + 1) < ReadTo(line, start)
    ensures exists u :: LastBoundary(line, start + 64 * (k + 1), u) && Units(line, u) <= column
  {
    hide Units, HasWide, ReadTo;
    var at, later := start + 64 * (k + 1), start + 64 * j;
    var u := Snap(line, at);
    SnapIsLast(line, at, u);
    SnapIsLast(line, later, v);
    SnapMonotone(line, at, later);
    UnitsMonotone(line, u, v);
  }

  lemma ColumnWindowIs(line: seq<Byte>, tail: CutTail, cuts: seq<nat>, column: nat)
    requires WellFormed(line) && line != [] && Cuts(line, cuts) && column < Units(line, |line|)
    ensures WindowRefused(line, tail, WindowForColumn(line, column)) <==> ColumnWindowRefused(line, tail, cuts, column)
  {
    hide CutRefusedAt, WindowRefused, Cuts, ColumnWindow, WindowForColumn, Units;
    CutsStart(line, cuts);
    var m, k := ColumnWindowAt(line, cuts, column);
    var w := WindowForColumn(line, column);
    WindowCut(line, tail, w);
    forall n: nat, j: nat, v: nat | ColumnWindow(line, cuts, column, n, j, v)
      ensures v == w
    {
      ColumnWindowOnce(line, cuts, column, m, k, w, n, j, v);
    }
  }

  // ----- the lookups -------------------------------------------------------------------------

  /** `position_of` has no answer exactly when some chunk of the line is read up to inside a scalar the decoder
      refuses there, or, for a byte of the line's content, the window of that byte is. */
  lemma PositionRefusedMeans(b: seq<Byte>, tail: CutTail, i: nat) returns (cuts: seq<nat>)
    requires WellFormed(b) && i <= |b|
    ensures var start := LineStart(b, i);
            var line := LineBytes(b, start);
            && start <= i && Cuts(line, cuts)
            && (PositionRefused(b, tail, i) <==>
                  || SomeChunkRefused(line, tail, cuts)
                  || (i <= ContentEnd(b, start) && line != [] && ByteWindowRefused(line, tail, cuts, i - start)))
  {
    hide ChunkRefused, WindowRefused, WindowFor, SomeChunkRefused, ByteWindowRefused, ScalarAt, CompleteAt;
    var start := LineStart(b, i);
    LineStartStarts(b, i);
    LineFacts(b, start);
    var line := LineBytes(b, start);
    cuts := ChunksCut(line, tail, 0);
    if i <= ContentEnd(b, start) && line != [] {
      ByteWindowIs(line, tail, cuts, i - start);
    }
  }

  /** The lookup of an offset likewise, by the column's window when the line reaches past the column. */
  lemma OffsetRefusedMeans(b: seq<Byte>, tail: CutTail, line: nat, column: nat) returns (cuts: seq<nat>)
    requires WellFormed(b)
    ensures var content := LineBytes(b, NthStart(b, 0, line));
            && Cuts(content, cuts)
            && (OffsetRefused(b, tail, line, column) <==>
                  || SomeChunkRefused(content, tail, cuts)
                  || (column < Units(content, |content|) && ColumnWindowRefused(content, tail, cuts, column)))
  {
    hide ChunkRefused, WindowRefused, WindowForColumn, SomeChunkRefused, ColumnWindowRefused, ScalarAt, CompleteAt;
    var start := NthStart(b, 0, line);
    NthStartStarts(b, 0, line);
    LineFacts(b, start);
    var content := LineBytes(b, start);
    cuts := ChunksCut(content, tail, 0);
    if column < Units(content, |content|) {
      NoUnits(content);
      ColumnWindowIs(content, tail, cuts, column);
    }
  }
}
