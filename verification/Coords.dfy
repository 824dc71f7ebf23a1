/** `PositionMap` (crates/service-core/src/coords.rs): the line table, and per queried line a chunk index
    and windows, both filled on demand. An `Err` answer stands for the panic the source raises when the
    kernel reports an error. */
module Coords {
  import opened Outcomes
  import opened Utf8
  import opened CoordinateKernel
  import opened Positions
  import opened SourceLines
  import opened LineIndexing

  datatype SearchResult = Found(index: nat) | Insertion(index: nat)

  /** The standard library's binary search in a strictly ascending table. */
  function BinarySearch(s: seq<nat>, x: nat): (r: SearchResult)
    requires forall i, j :: 0 <= i < j < |s| ==> s[i] < s[j]
    ensures r.index <= |s|
    ensures forall i :: 0 <= i < r.index ==> s[i] < x
    ensures forall i :: r.index <= i < |s| ==> x <= s[i]
    ensures r.Found? <==> r.index < |s| && s[r.index] == x
  {
    var at := PartitionPoint(s, y => y < x);
    if at < |s| && s[at] == x then Found(at) else Insertion(at)
  }

  /** The right answer to a byte of a line: the scalar start at or below it, and the units before that. */
  ghost predicate ByteAnswer(line: seq<Byte>, tail: CutTail, local: nat, r: Result<(nat, nat)>) {
    && WellFormed(line) && local <= |line|
    && (r.Err? <==> line != [] && WindowRefused(line, tail, WindowFor(line, local)))
    && (r.Ok? ==> r.value == (Snap(line, local), Units(line, Snap(line, local))))
  }

  /** The right answer to a column the line has: the first boundary with that many units before it. */
  ghost predicate ColumnAnswer(line: seq<Byte>, tail: CutTail, column: nat, r: Result<nat>) {
    && WellFormed(line) && column < Units(line, |line|)
    && (r.Err? <==> WindowRefused(line, tail, WindowForColumn(line, column)))
    && (r.Ok? ==> r.value == FirstAtLeast(line, 0, |line|, column))
  }

  /** What a cached window must be. */
  ghost predicate WindowOk(line: seq<Byte>, tail: CutTail, chunks: seq<ChunkSummary>, key: (nat, nat), w: WindowIndex)
    requires WellFormed(line)
  {
    && key.0 < |chunks| && key.1 < |chunks[key.0].map_|
    && w.byteStart == chunks[key.0].byteStart + PackedByte(chunks[key.0].map_[key.1])
    && w.unitsBefore == chunks[key.0].unitsBefore + PackedUnits(chunks[key.0].map_[key.1])
    && w.mapLength == |w.map_|
    && w.byteStart <= |line| && Boundary(WindowBytes(line, w.byteStart), 0)
    && WindowMap(WindowBytes(line, w.byteStart), w.map_)
    && !WindowRefused(line, tail, w.byteStart)
  }

  class LineIndex {
    ghost const line: seq<Byte>
    ghost const tail: CutTail
    const chunks: seq<ChunkSummary>
    const units: nat
    var windows: map<(nat, nat), WindowIndex>

    ghost predicate Valid()
      reads this
    {
      && WellFormed(line)
      && ChunksOk(line, tail, chunks, |line|)
      && units == Units(line, |line|)
      && !ChunkRefused(line, tail, 0)
      && forall key :: key in windows ==> WindowOk(line, tail, chunks, key, windows[key])
    }

    constructor (ghost line: seq<Byte>, ghost tail: CutTail, chunks: seq<ChunkSummary>, units: nat)
      requires WellFormed(line) && ChunksOk(line, tail, chunks, |line|)
      requires units == Units(line, |line|) && !ChunkRefused(line, tail, 0)
      ensures Valid() && this.line == line && this.tail == tail && this.chunks == chunks && windows == map[]
    {
      this.line, this.tail, this.chunks, this.units, this.windows := line, tail, chunks, units, map[];
    }

    ghost predicate HasKey(chunkIndex: nat, checkpointIndex: nat) {
      && chunkIndex < |chunks| && checkpointIndex < |chunks[chunkIndex].map_|
      && WindowStart(chunkIndex, checkpointIndex) <= |line|
      && Boundary(line, WindowStart(chunkIndex, checkpointIndex))
    }

    function WindowStart(chunkIndex: nat, checkpointIndex: nat): nat
      requires chunkIndex < |chunks| && checkpointIndex < |chunks[chunkIndex].map_|
    {
      chunks[chunkIndex].byteStart + PackedByte(chunks[chunkIndex].map_[checkpointIndex])
    }

    /** `window_index`: the cached window behind one checkpoint. */
    method Window(bytes: seq<Byte>, decoder: CutTail, chunkIndex: nat, checkpointIndex: nat)
      returns (r: Result<WindowIndex>)
      requires Valid() && bytes == line && decoder == tail && HasKey(chunkIndex, checkpointIndex)
      modifies this
      ensures Valid()
      ensures r.Err? <==> WindowRefused(line, tail, WindowStart(chunkIndex, checkpointIndex))
      ensures r.Ok? ==> WindowOk(line, tail, chunks, (chunkIndex, checkpointIndex), r.value)
    {
      var key := (chunkIndex, checkpointIndex);
      if key in windows {
        return Ok(windows[key]);
      }
      var chunk := chunks[chunkIndex];
      var byteStart := WindowStart(chunkIndex, checkpointIndex);
      var windowEnd := Min(byteStart + WINDOW_INPUT_CAPACITY, |bytes|);
      var built := BuildWindow(line, decoder, byteStart, bytes[byteStart..windowEnd]);
      if built.Err? {
        return Err;
      }
      var window := WindowIndex(byteStart, chunk.unitsBefore + PackedUnits(chunk.map_[checkpointIndex]),
                                built.value.map_[..built.value.mapLength], built.value.mapLength);
      windows := windows[key := window];
      return Ok(window);
    }

    /** The part of `position_of` inside one line: the snapped byte and its column. */
    method AtByte(bytes: seq<Byte>, decoder: CutTail, local: nat) returns (r: Result<(nat, nat)>)
      requires Valid() && bytes == line && decoder == tail && local <= |line|
      modifies this
      ensures Valid()
      ensures ByteAnswer(line, tail, local, r)
    {
      hide WindowFor, ChunkFor, ChunksOk, WindowOk, WindowAt;
      var key := FindByte(line, tail, chunks, local);
      if key.None? {
        return Ok((local, 0));
      }
      var found := Window(bytes, decoder, key.value.0, key.value.1);
      if found.Err? {
        return Err;
      }
      KeyedWindow(line, tail, chunks, key.value, WindowFor(line, local), found.value);
      r := ReadByte(line, found.value, local);
    }

    /** The part of `offset_of` inside one line, for a column the line has. */
    method AtColumn(bytes: seq<Byte>, decoder: CutTail, column: nat) returns (r: Result<nat>)
      requires Valid() && bytes == line && decoder == tail && column < units
      modifies this
      ensures Valid()
      ensures ColumnAnswer(line, tail, column, r)
    {
      hide WindowForColumn, ChunkForColumn, ChunksOk, WindowOk, WindowAt;
      var key := FindColumn(line, tail, chunks, column);
      var found := Window(bytes, decoder, key.0, key.1);
      if found.Err? {
        return Err;
      }
      KeyedWindow(line, tail, chunks, key, WindowForColumn(line, column), found.value);
      r := ReadColumn(line, found.value, column);
    }
  }

  // ----- the two lookups inside one line -----------------------------------------------------

  /** A chunk and a checkpoint of it whose window starts at `w`. */
  ghost predicate KeyFor(line: seq<Byte>, chunks: seq<ChunkSummary>, key: (nat, nat), w: nat) {
    && key.0 < |chunks| && key.1 < |chunks[key.0].map_|
    && w <= |line| && Boundary(line, w)
    && chunks[key.0].byteStart + PackedByte(chunks[key.0].map_[key.1]) == w
    && chunks[key.0].unitsBefore + PackedUnits(chunks[key.0].map_[key.1]) == Units(line, w)
  }

  ghost predicate WindowAt(line: seq<Byte>, w: nat, window: WindowIndex) {
    && w <= |line| && window.byteStart == w && window.unitsBefore == Units(line, w)
    && window.mapLength == |window.map_| && Boundary(WindowBytes(line, w), 0)
       && WindowMap(WindowBytes(line, w), window.map_)
  }

  lemma KeyedWindow(line: seq<Byte>, tail: CutTail, chunks: seq<ChunkSummary>, key: (nat, nat), w: nat,
                    window: WindowIndex)
    requires WellFormed(line) && KeyFor(line, chunks, key, w) && WindowOk(line, tail, chunks, key, window)
    ensures WindowAt(line, w, window)
  {
  }

  /** `chunk_for_byte` and the checkpoint behind it. */
  method FindByte(ghost line: seq<Byte>, ghost tail: CutTail, chunks: seq<ChunkSummary>, local: nat)
    returns (r: Option<(nat, nat)>)
    requires WellFormed(line) && ChunksOk(line, tail, chunks, |line|) && local <= |line|
    ensures r.None? <==> line == []
    ensures r.Some? ==> KeyFor(line, chunks, r.value, WindowFor(line, local))
  {
    hide WellFormed, ChunksOk, WindowFor, ChunkFor, View, Checkpoints, ChunkEnd, Units, PackedByte, PackedUnits;
    ChunksSorted(line, tail, chunks);
    var at := PartitionPoint(chunks, (c: ChunkSummary) => c.byteStart <= local);
    ByteChunk(line, tail, chunks, local, at);
    if at == 0 {
      return None;
    }
    var chunk := chunks[at - 1];
    MapHasEnd(line, tail, chunk, NextStart(chunks, at - 1, |line|));
    var checkpoint := Min((local - chunk.byteStart) / CHECKPOINT_BYTES, chunk.mapLength - 1);
    ByteLookup(line, chunk, local, checkpoint);
    WindowForFacts(line, local);
    return Some((at - 1, checkpoint));
  }

  lemma MapHasEnd(line: seq<Byte>, tail: CutTail, c: ChunkSummary, next: nat)
    requires WellFormed(line) && ChunkOk(line, tail, c, next)
    ensures |c.map_| > 0
  {
  }

  method ReadByte(ghost line: seq<Byte>, window: WindowIndex, local: nat) returns (r: Result<(nat, nat)>)
    requires WellFormed(line) && line != [] && local <= |line| && WindowAt(line, WindowFor(line, local), window)
    ensures r == Ok((Snap(line, local), Units(line, Snap(line, local))))
  {
    hide WellFormed, WindowFor, ChunkFor, View, Snap, Units, WindowByte, WindowUnits, WindowEntryFor, EndEntry;
    WindowForFacts(line, local);
    WindowIs(line, window.byteStart, window.map_, local - window.byteStart);
    var packed := window.map_[local - window.byteStart];
    var byte: nat, units: nat := window.byteStart + WindowByte(packed), window.unitsBefore + WindowUnits(packed);
    return Ok((byte, units));
  }

  /** `chunk_for_column` and the last checkpoint at or below the column. */
  method FindColumn(ghost line: seq<Byte>, ghost tail: CutTail, chunks: seq<ChunkSummary>, column: nat)
    returns (r: (nat, nat))
    requires WellFormed(line) && ChunksOk(line, tail, chunks, |line|) && column < Units(line, |line|)
    ensures KeyFor(line, chunks, r, WindowForColumn(line, column))
  {
    hide WellFormed, ChunksOk, ChunkOk, WindowForColumn, ChunkForColumn, Units, PackedByte, PackedUnits, NextStart;
    ChunksSorted(line, tail, chunks);
    var at := PartitionPoint(chunks, (c: ChunkSummary) => c.unitsBefore <= column);
    ColumnChunk(line, tail, chunks, column, at);
    var k := CheckpointBelow(line, tail, chunks[at - 1], NextStart(chunks, at - 1, |line|), column);
    return (at - 1, k);
  }

  method CheckpointBelow(ghost line: seq<Byte>, ghost tail: CutTail, chunk: ChunkSummary, ghost next: nat, column: nat)
    returns (k: nat)
    requires WellFormed(line) && column < Units(line, |line|)
    requires chunk.byteStart == ChunkForColumn(line, column, 0) && ChunkOk(line, tail, chunk, next)
    ensures k < |chunk.map_|
    ensures chunk.byteStart + PackedByte(chunk.map_[k]) == WindowForColumn(line, column)
    ensures chunk.unitsBefore + PackedUnits(chunk.map_[k]) == Units(line, WindowForColumn(line, column))
  {
    hide WellFormed, View, WindowForColumn, ChunkEnd, Checkpoints, Units, PackedByte, PackedUnits, ChunkForColumn;
    forall i: nat, j: nat | i < j < |chunk.map_|
      ensures PackedUnits(chunk.map_[i]) <= PackedUnits(chunk.map_[j])
    {
      CheckpointsSorted(line, chunk, i, j);
    }
    var relative := column - chunk.unitsBefore;
    assert chunk.map_[..chunk.mapLength] == chunk.map_;
    var n := PartitionPoint(chunk.map_[..chunk.mapLength], (packed: nat) => PackedUnits(packed) <= relative);
    ColumnLookup(line, chunk, column, n);
    k := if n == 0 then 0 else n - 1;
  }

  method ReadColumn(ghost line: seq<Byte>, window: WindowIndex, column: nat) returns (r: Result<nat>)
    requires WellFormed(line) && column < Units(line, |line|) && WindowAt(line, WindowForColumn(line, column), window)
    ensures r == Ok(FirstAtLeast(line, 0, |line|, column))
  {
    hide WellFormed, WindowForColumn, FirstAtLeast, Units, Snap, WindowMap, WindowByte, WindowUnits;
    WindowForColumnFacts(line, column);
    ghost var v := WindowBytes(line, window.byteStart);
    var m := window.map_[..window.mapLength];
    assert m == window.map_;
    forall i: nat, j: nat | i < j < |m|
      ensures WindowUnits(m[i]) <= WindowUnits(m[j])
    {
      WindowSorted(v, m, i, j);
    }
    var remaining := if column < window.unitsBefore then 0 else column - window.unitsBefore;
    var k := PartitionPoint(m, (packed: nat) => WindowUnits(packed) < remaining);
    WindowColumn(line, column, m, k);
    var packed := window.map_[Min(k, window.mapLength - 1)];
    var byte: nat := window.byteStart + WindowByte(packed);
    return Ok(byte);
  }

  class PositionMap {
    /** The text the map was built from, and its bytes; every call passes the same bytes again. */
    ghost const text: string
    ghost const source: seq<Byte>
    const tail: CutTail
    const textLen: nat
    const lineStarts: seq<nat>
    var lines: map<nat, LineIndex>

    ghost predicate Valid()
      reads this, lines.Values
    {
      && source == Encode(text) && WellFormed(source)
      && textLen == |source|
      && lineStarts == LineStarts(source, |source|)
      && forall l :: l in lines ==>
           && l < |lineStarts| && lineStarts[l] <= |source|
           && lines[l].Valid() && lines[l].tail == tail
           && lines[l].line == LineBytes(source, lineStarts[l])
    }

    constructor (ghost text: string, bytes: seq<Byte>, tail: CutTail)
      requires bytes == Encode(text)
      ensures Valid() && this.text == text && source == bytes && this.tail == tail && lines == map[]
    {
      var starts := [0];
      for offset := 0 to |bytes|
        invariant starts == LineStarts(bytes, offset)
      {
        if bytes[offset] == NEWLINE {
          starts := starts + [offset + 1];
        }
      }
      EncodeWellFormed(text);
      this.text, source, this.tail, textLen, lineStarts, lines := text, bytes, tail, |bytes|, starts, map[];
    }

    function LineCount(): nat {
      |lineStarts|
    }

    /** `build_line_index` */
    method BuildLineIndex(bytes: seq<Byte>, line: nat) returns (r: Result<LineIndex>)
      requires Valid() && bytes == source && line < |lineStarts|
      ensures lineStarts[line] <= |bytes| && WellFormed(LineBytes(bytes, lineStarts[line]))
      ensures r.Err? <==> ChunkRefused(LineBytes(bytes, lineStarts[line]), tail, 0)
      ensures r.Ok? ==> r.value.Valid() && fresh(r.value) && r.value.windows == map[]
      ensures r.Ok? ==> r.value.line == LineBytes(bytes, lineStarts[line]) && r.value.tail == tail
    {
      NextStartOf(bytes, line);
      LineEndIs(bytes, line);
      LineFacts(bytes, lineStarts[line]);
      var lineBytes := bytes[lineStarts[line]..LineEndExclusive(bytes, lineStarts, line)];
      var built := BuildChunks(lineBytes, tail);
      if built.Err? {
        return Err;
      }
      var index := new LineIndex(lineBytes, tail, built.value.0, built.value.1);
      return Ok(index);
    }

    /** `line_index`: the cached index of a line, built when it is first asked for. */
    method LineIndexFor(bytes: seq<Byte>, line: nat) returns (r: Result<LineIndex>)
      requires Valid() && bytes == source && line < |lineStarts|
      modifies this
      ensures Valid() && fresh(lines.Values - old(lines.Values))
      ensures lineStarts[line] <= |bytes| && WellFormed(LineBytes(bytes, lineStarts[line]))
      ensures r.Err? <==> ChunkRefused(LineBytes(bytes, lineStarts[line]), tail, 0)
      ensures r.Ok? ==> line in lines && lines[line] == r.value
      ensures r.Ok? ==> r.value.units == Units(LineBytes(bytes, lineStarts[line]), |LineBytes(bytes, lineStarts[line])|)
    {
      hide WindowOk, ChunksOk, WellFormed, Encode, LineStarts, LineBytes, ChunkRefused, Units;
      if line in lines {
        return Ok(lines[line]);
      }
      r := BuildLineIndex(bytes, line);
      if r.Ok? {
        lines := lines[line := r.value];
      }
    }

    method ContentOf(bytes: seq<Byte>, line: nat) returns (content: seq<Byte>)
      requires Valid() && bytes == source && line < |lineStarts|
      ensures lineStarts[line] <= |source| && content == LineBytes(source, lineStarts[line])
    {
      LineEndIs(bytes, line);
      content := bytes[lineStarts[line]..LineEndExclusive(bytes, lineStarts, line)];
    }

    /** The cached index of a line answers for a byte of the line's content. */
    method LineAtByte(bytes: seq<Byte>, line: nat, local: nat) returns (r: Result<(nat, nat)>)
      requires Valid() && bytes == source && line in lines && local <= |lines[line].line|
      modifies lines[line]
      ensures Valid()
      ensures ByteAnswer(lines[line].line, tail, local, r)
    {
      hide ByteAnswer, LineIndex.Valid, LineBytes, LineStarts, Encode, WellFormed;
      var content := ContentOf(bytes, line);
      r := lines[line].AtByte(content, tail, local);
    }

    /** The same for a column the line has. */
    method LineAtColumn(bytes: seq<Byte>, line: nat, column: nat) returns (r: Result<nat>)
      requires Valid() && bytes == source && line in lines && column < lines[line].units
      modifies lines[line]
      ensures Valid()
      ensures ColumnAnswer(lines[line].line, tail, column, r)
    {
      hide ColumnAnswer, LineIndex.Valid, LineBytes, LineStarts, Encode, WellFormed;
      var content := ContentOf(bytes, line);
      r := lines[line].AtColumn(content, tail, column);
    }

    /** `position_of`: a byte offset's line and UTF-16 column, snapped down to the scalar's start. */
    method PositionOf(bytes: seq<Byte>, byte: nat) returns (r: Result<Position>)
      requires Valid() && bytes == source
      modifies this, lines.Values
      ensures Valid() && fresh(lines.Values - old(lines.Values))
      ensures PositionAnswer(text, tail, byte, r)
    {
      hide PositionAnswer, ByteAnswer, Newlines, LineStart, LineStarts, ContentEnd, LineEndExclusive, ChunkRefused,
          Units, Encode, LineIndex.Valid;
      var requested := Min(byte, textLen);
      var line := LineOfByte(bytes, lineStarts, requested);
      var lineStart := lineStarts[line];
      var contentEnd := LineEndExclusive(bytes, lineStarts, line);
      var built := LineIndexFor(bytes, line);
      if built.Err? {
        PositionUnindexed(text, tail, byte);
        return Err;
      }
      if requested > contentEnd {
        PositionPast(text, tail, byte, built.value.units);
        return Ok(Position(line, built.value.units + (requested - contentEnd), requested));
      }
      var found := LineAtByte(bytes, line, requested - lineStart);
      PositionFound(text, tail, byte, found);
      if found.Err? {
        return Err;
      }
      return Ok(Position(line, found.value.1, lineStart + found.value.0));
    }

    /** `offset_of`: the byte offset of a line and UTF-16 column, clamped to the text and the line. */
    method OffsetOf(bytes: seq<Byte>, line: nat, character: nat) returns (r: Result<nat>)
      requires Valid() && bytes == source
      modifies this, lines.Values
      ensures Valid() && fresh(lines.Values - old(lines.Values))
      ensures OffsetAnswer(text, tail, line, character, r)
    {
      hide OffsetAnswer, ColumnAnswer, LineStart, NthStart, LineStarts, ContentEnd, LineEndExclusive, ChunkRefused,
          Units, Encode, LineIndex.Valid;
      var clamped := Min(line, LineCount() - 1);
      ClampedLine(bytes, line);
      var lineStart := lineStarts[clamped];
      var lineEnd := LineEndExclusive(bytes, lineStarts, clamped);
      var built := LineIndexFor(bytes, clamped);
      if built.Err? {
        OffsetUnindexed(text, tail, line, character);
        return Err;
      }
      if character >= built.value.units {
        OffsetPast(text, tail, line, character);
        return Ok(lineEnd);
      }
      var found := LineAtColumn(bytes, clamped, character);
      OffsetFound(text, tail, line, character, lineStart, LineBytes(bytes, lineStart), found);
      if found.Err? {
        return Err;
      }
      return Ok(Min(Min(lineStart + found.value, lineEnd), textLen));
    }

    /** `range_of`: a span in both coordinate systems. */
    method RangeOf(bytes: seq<Byte>, start: nat, end: nat) returns (r: Result<RangeInfo>)
      requires Valid() && bytes == source
      modifies this, lines.Values
      ensures Valid() && fresh(lines.Values - old(lines.Values))
      ensures RangeAnswer(text, tail, start, end, r)
    {
      hide PositionRefused, ReferencePosition, Encode, WellFormed, Valid;
      var from := PositionOf(bytes, start);
      if from.Err? {
        return Err;
      }
      var to := PositionOf(bytes, if start <= end then end else start);
      if to.Err? {
        return Err;
      }
      return Ok(RangeInfo(from.value.line, from.value.character, to.value.line, to.value.character, from.value.byte,
          to.value.byte));
    }
  }

  /** The right answer to a byte offset: the reference scan's, unless the decoder refuses a cut. */
  ghost predicate PositionAnswer(text: string, tail: CutTail, byte: nat, r: Result<Position>) {
    EncodeWellFormed(text);
    && (r.Err? <==> PositionRefused(Encode(text), tail, Min(byte, |Encode(text)|)))
    && (r.Ok? ==> r.value == ReferencePosition(text, byte))
  }

  /** The right answer to a span. */
  ghost predicate RangeAnswer(text: string, tail: CutTail, start: nat, end: nat, r: Result<RangeInfo>) {
    EncodeWellFormed(text);
    var b := Encode(text);
    && (r.Err? <==>
        || PositionRefused(b, tail, Min(start, |b|))
        || PositionRefused(b, tail, Min(if start <= end then end else start, |b|)))
    && (r.Ok? ==> r.value == ReferenceRange(text, start, end))
  }

  ghost predicate OffsetAnswer(text: string, tail: CutTail, line: nat, column: nat, r: Result<nat>) {
    EncodeWellFormed(text);
    && (r.Err? <==> OffsetRefused(Encode(text), tail, line, column))
    && (r.Ok? ==> r.value == ReferenceOffset(text, line, column))
  }

  /** The line a byte offset is on. */
  ghost function LineAt(text: string, byte: nat): (s: nat)
    ensures s <= Min(byte, |Encode(text)|) && s == LineStart(Encode(text), Min(byte, |Encode(text)|))
  {
    LineStart(Encode(text), Min(byte, |Encode(text)|))
  }

  lemma PositionUnindexed(text: string, tail: CutTail, byte: nat)
    requires var line := LineBytes(Encode(text), LineAt(text, byte)); WellFormed(line) && ChunkRefused(line, tail, 0)
    ensures PositionAnswer(text, tail, byte, Err)
  {
    EncodeWellFormed(text);
    PositionRefusedIs(Encode(text), tail, Min(byte, |Encode(text)|), LineBytes(Encode(text), LineAt(text, byte)));
  }

  lemma PositionPast(text: string, tail: CutTail, byte: nat, units: nat)
    requires var b := Encode(text); var i := Min(byte, |b|); var line := LineBytes(b, LineAt(text, byte));
             && i > ContentEnd(b, LineAt(text, byte)) && units == Units(line, |line|)
             && WellFormed(line) && !ChunkRefused(line, tail, 0)
    ensures var b := Encode(text); var i := Min(byte, |b|);
            PositionAnswer(text, tail, byte,
                Ok(Position(Newlines(b, i), units + (i - ContentEnd(b, LineAt(text, byte))), i)))
  {
    hide WellFormed, Encode, ReferencePosition, ContentEnd, PositionRefused, ChunkRefused, LineStart, Units;
    EncodeWellFormed(text);
    PositionParts(text, byte);
    PositionRefusedIs(Encode(text), tail, Min(byte, |Encode(text)|), LineBytes(Encode(text), LineAt(text, byte)));
  }

  lemma PositionFound(text: string, tail: CutTail, byte: nat, found: Result<(nat, nat)>)
    requires var b := Encode(text); var i := Min(byte, |b|); var line := LineBytes(b, LineAt(text, byte));
             && i <= ContentEnd(b, LineAt(text, byte)) && WellFormed(line) && !ChunkRefused(line, tail, 0)
             && ByteAnswer(line, tail, i - LineAt(text, byte), found)
    ensures var b := Encode(text); var i := Min(byte, |b|);
            PositionAnswer(text, tail, byte, if found.Err? then Err
              else Ok(Position(Newlines(b, i), found.value.1, LineAt(text, byte) + found.value.0)))
  {
    hide WellFormed, Encode, ReferencePosition, ContentEnd, PositionRefused, ChunkRefused, LineStart, Units, Snap,
        WindowFor;
    EncodeWellFormed(text);
    PositionParts(text, byte);
    PositionRefusedIs(Encode(text), tail, Min(byte, |Encode(text)|), LineBytes(Encode(text), LineAt(text, byte)));
  }

  lemma OffsetUnindexed(text: string, tail: CutTail, line: nat, column: nat)
    requires var content := LineBytes(Encode(text), NthStart(Encode(text), 0, line));
             WellFormed(content) && ChunkRefused(content, tail, 0)
    ensures OffsetAnswer(text, tail, line, column, Err)
  {
    EncodeWellFormed(text);
    OffsetRefusedIs(Encode(text), tail, line, column, LineBytes(Encode(text), NthStart(Encode(text), 0, line)));
  }

  lemma OffsetPast(text: string, tail: CutTail, line: nat, column: nat)
    requires var content := LineBytes(Encode(text), NthStart(Encode(text), 0, line));
             WellFormed(content) && !ChunkRefused(content, tail, 0) && column >= Units(content, |content|)
    ensures OffsetAnswer(text, tail, line, column, Ok(ContentEnd(Encode(text), NthStart(Encode(text), 0, line))))
  {
    EncodeWellFormed(text);
    var start := NthStart(Encode(text), 0, line);
    OffsetParts(text, line, column, start, LineBytes(Encode(text), start));
    OffsetRefusedIs(Encode(text), tail, line, column, LineBytes(Encode(text), start));
  }

  lemma OffsetFound(text: string, tail: CutTail, line: nat, column: nat, start: nat, content: seq<Byte>,
                    found: Result<nat>)
    requires start == NthStart(Encode(text), 0, line) && content == LineBytes(Encode(text), start)
    requires WellFormed(content) && !ChunkRefused(content, tail, 0) && ColumnAnswer(content, tail, column, found)
    ensures found.Err? ==> OffsetAnswer(text, tail, line, column, Err)
    ensures found.Ok? ==> OffsetAnswer(text, tail, line, column, Ok(start + found.value))
    ensures found.Ok? ==> start + found.value <= ContentEnd(Encode(text), start)
  {
    hide WellFormed, Encode, ReferenceOffset, ContentEnd, OffsetRefused, ChunkRefused, NthStart, Units, FirstAtLeast,
        WindowForColumn, LineBytes;
    EncodeWellFormed(text);
    OffsetParts(text, line, column, start, content);
    OffsetRefusedIs(Encode(text), tail, line, column, content);
    assert found.Ok? ==> found.value <= |content|;
  }

  method LineOfByte(bytes: seq<Byte>, lineStarts: seq<nat>, requested: nat) returns (line: nat)
    requires requested <= |bytes| && lineStarts == LineStarts(bytes, |bytes|)
    ensures line == Newlines(bytes, requested) < |lineStarts|
    ensures lineStarts[line] == LineStart(bytes, requested)
    ensures line + 1 < |lineStarts| ==> lineStarts[line + 1] <= |bytes|
    ensures LineEndExclusive(bytes, lineStarts, line) == ContentEnd(bytes, LineStart(bytes, requested))
  {
    StartsAscend(bytes, |bytes|);
    StartsPrefix(bytes, 0, |bytes|);
    line := match BinarySearch(lineStarts, requested)
      case Found(found) => found
      case Insertion(insertion) => if insertion == 0 then 0 else insertion - 1;
    LineTableFinds(bytes, requested, line);
    LineEndIs(bytes, line);
  }

  /** The reference position in terms of the line the byte is on. */
  lemma PositionParts(text: string, byte: nat)
    ensures var b := Encode(text); var i := Min(byte, |b|); var s := LineStart(b, i); var line := LineBytes(b, s);
            && WellFormed(b) && WellFormed(line) && ContentEnd(b, s) == s + |line|
            && ReferencePosition(text, byte) ==
               if i > s + |line| then Position(Newlines(b, i), Units(line, |line|) + (i - (s + |line|)), i)
               else Position(Newlines(b, i), Units(line, Snap(line, i - s)), s + Snap(line, i - s))
  {
    hide ReferencePosition, Encode, Newlines, LineStart, ContentEnd, WellFormed, Snap, Units, PositionAt;
    EncodeWellFormed(text);
    ReferencePositionIs(text, byte);
    var b := Encode(text);
    var i := Min(byte, |b|);
    LineStartStarts(b, i);
    LineFacts(b, LineStart(b, i));
    if i > ContentEnd(b, LineStart(b, i)) {
      PositionPastLine(b, i);
    } else {
      PositionInLine(b, i);
    }
  }

  lemma PositionRefusedIs(b: seq<Byte>, tail: CutTail, i: nat, line: seq<Byte>)
    requires WellFormed(b) && i <= |b| && line == LineBytes(b, LineStart(b, i))
    ensures WellFormed(line) && ContentEnd(b, LineStart(b, i)) == LineStart(b, i) + |line|
    ensures PositionRefused(b, tail, i) <==> (
              || ChunkRefused(line, tail, 0)
              || (i <= LineStart(b, i) + |line| && line != []
                 && WindowRefused(line, tail, WindowFor(line, i - LineStart(b, i)))))
  {
    LineStartStarts(b, i);
    LineFacts(b, LineStart(b, i));
  }

  lemma ClampedLine(b: seq<Byte>, line: nat)
    ensures var starts := LineStarts(b, |b|); var l := Min(line, |starts| - 1);
            && starts[l] == NthStart(b, 0, line) && LineStart(b, starts[l]) == starts[l] <= |b|
            && (l + 1 < |starts| ==> starts[l + 1] <= |b|)
            && LineEndExclusive(b, starts, l) == ContentEnd(b, starts[l])
  {
    NthStartIs(b, 0, line);
    NextStartOf(b, Min(line, |LineStarts(b, |b|)| - 1));
    LineEndIs(b, Min(line, |LineStarts(b, |b|)| - 1));
    StartsPrefix(b, 0, |b|);
  }

  lemma OffsetRefusedIs(b: seq<Byte>, tail: CutTail, line: nat, column: nat, content: seq<Byte>)
    requires WellFormed(b) && content == LineBytes(b, NthStart(b, 0, line))
    ensures WellFormed(content)
    ensures OffsetRefused(b, tail, line, column) <==> (
              || ChunkRefused(content, tail, 0)
              || (column < Units(content, |content|) && WindowRefused(content, tail, WindowForColumn(content, column))))
  {
    NthStartStarts(b, 0, line);
    LineFacts(b, NthStart(b, 0, line));
  }

  /** The offset of a column in terms of the clamped line. */
  lemma OffsetInClamped(b: seq<Byte>, line: nat, column: nat, start: nat, content: seq<Byte>)
    requires WellFormed(b) && start == NthStart(b, 0, line) && content == LineBytes(b, start)
    ensures ContentEnd(b, start) == start + |content|
    ensures OffsetAt(b, line, column) == start + FirstAtLeast(content, 0, |content|, column)
    ensures column >= Units(content, |content|) ==> OffsetAt(b, line, column) == start + |content|
  {
    NthStartStarts(b, 0, line);
    OffsetInLine(b, start, column);
    hide LineStart, NthStart, FirstAtLeast, Units, WellFormed;
  }

  lemma OffsetParts(text: string, line: nat, column: nat, start: nat, content: seq<Byte>)
    requires start == NthStart(Encode(text), 0, line) && content == LineBytes(Encode(text), start)
    ensures WellFormed(Encode(text)) && ContentEnd(Encode(text), start) == start + |content|
    ensures ReferenceOffset(text, line, column) == start + FirstAtLeast(content, 0, |content|, column)
    ensures column >= Units(content, |content|) ==> ReferenceOffset(text, line, column) == start + |content|
  {
    EncodeWellFormed(text);
    ReferenceOffsetIs(text, line, column);
    OffsetInClamped(Encode(text), line, column, start, content);
    hide *;
  }

  /** `position_of` gives no answer exactly when its line's index, or the window it needs, ends inside a
      scalar and the decoder refuses that. Cached state has no say in it. */
  ghost predicate PositionRefused(b: seq<Byte>, tail: CutTail, i: nat)
    requires WellFormed(b) && i <= |b|
  {
    var start := LineStart(b, i);
    LineStartStarts(b, i);
    LineFacts(b, start);
    var line := LineBytes(b, start);
    || ChunkRefused(line, tail, 0)
    || (i <= ContentEnd(b, start) && line != [] && WindowRefused(line, tail, WindowFor(line, i - start)))
  }

  ghost predicate OffsetRefused(b: seq<Byte>, tail: CutTail, line: nat, column: nat)
    requires WellFormed(b)
  {
    var start := NthStart(b, 0, line);
    NthStartStarts(b, 0, line);
    LineFacts(b, start);
    var content := LineBytes(b, start);
    || ChunkRefused(content, tail, 0)
    || (column < Units(content, |content|) && WindowRefused(content, tail, WindowForColumn(content, column)))
  }

  lemma NthStartStarts(b: seq<Byte>, start: nat, line: nat)
    requires start <= |b| && LineStart(b, start) == start
    ensures LineStart(b, NthStart(b, start, line)) == NthStart(b, start, line)
    decreases line
  {
    if line > 0 && Terminated(b, start) {
      NthStartStarts(b, LineStop(b, start), line - 1);
    }
  }

  lemma LineTableFinds(b: seq<Byte>, i: nat, line: nat)
    requires i <= |b|
    requires line < |LineStarts(b, |b|)| && LineStarts(b, |b|)[line] <= i
    requires line + 1 < |LineStarts(b, |b|)| ==> i < LineStarts(b, |b|)[line + 1]
    ensures line == Newlines(b, i) && LineStarts(b, |b|)[line] == LineStart(b, i)
  {
    StartOf(b, i);
    StartsAscend(b, |b|);
  }

  /** The entries of one window: one per byte, and a closing one. */
  method BuildWindow(ghost line: seq<Byte>, tail: CutTail, ghost at: nat, bytes: seq<Byte>)
    returns (r: Result<CoordinateWindow>)
    requires WellFormed(line) && at <= |line| && Boundary(line, at) && bytes == WindowBytes(line, at)
    ensures r.Err? <==> WindowRefused(line, tail, at)
    ensures Boundary(bytes, 0)
    ensures r.Ok? ==> r.value.mapLength <= |r.value.map_| && WindowMap(bytes, r.value.map_[..r.value.mapLength])
  {
    ScalarsSlice(line, at, at + |bytes|);
    StraddleIs(line, tail, at, at + |bytes|);
    if Ascii(bytes) {
      var m: seq<nat> := seq(|bytes| + 1, i requires 0 <= i => PackWindow(i, i));
      AsciiWindow(bytes, m);
      return Ok(CoordinateWindow(true, m, |m|));
    }
    r := NativeCoordinateWindow(bytes, tail);
  }

  lemma AsciiWindow(v: seq<Byte>, m: seq<nat>)
    requires Ascii(v) && |v| <= WINDOW_INPUT_CAPACITY && |m| == |v| + 1
    requires forall i :: 0 <= i < |m| ==> m[i] == PackWindow(i, i)
    ensures Boundary(v, 0) && Complete(v) && WindowMap(v, m) && m[..|m|] == m
  {
    forall i: nat
      ensures CompleteAt(v, i)
    {
    }
    forall i | 0 <= i < |v|
      ensures WindowEntryFor(v, i, m[i])
    {
      SnapIs(v, i, i);
      UnitsAscii(v, 0, i);
    }
    UnitsAscii(v, 0, |v|);
  }

  // ----- building the chunks of a line -------------------------------------------------------

  /** The loop of `build_line_index`. */
  method BuildChunks(line: seq<Byte>, tail: CutTail) returns (r: Result<(seq<ChunkSummary>, nat)>)
    requires WellFormed(line)
    ensures r.Err? <==> ChunkRefused(line, tail, 0)
    ensures r.Ok? ==> ChunksOk(line, tail, r.value.0, |line|) && r.value.1 == Units(line, |line|)
  {
    hide ChunksOk, ChunkRefused, View, WellFormed, Units, ChunkOk, ChunkEnd;
    var chunks: seq<ChunkSummary> := [];
    var byteStart: nat, unitsBefore: nat := 0, 0;
    BuildingStarts(line, tail);
    while byteStart < |line|
      invariant Building(line, tail, chunks, byteStart, unitsBefore)
      decreases |line| - byteStart
    {
      ChunkRefusedStep(line, tail, byteStart);
      var summary, bytes, units := BuildChunk(line, tail, byteStart, unitsBefore);
      if summary.Err? {
        return Err;
      }
      BuildingContinues(line, tail, chunks, byteStart, unitsBefore, summary.value, bytes, units);
      chunks := chunks + [summary.value];
      byteStart, unitsBefore := byteStart + bytes, unitsBefore + units;
    }
    BuildingEnds(line, tail, chunks, byteStart, unitsBefore);
    return Ok((chunks, unitsBefore));
  }

  lemma BuildingStarts(line: seq<Byte>, tail: CutTail)
    requires WellFormed(line)
    ensures Building(line, tail, [], 0, 0)
  {
  }

  lemma BuildingEnds(line: seq<Byte>, tail: CutTail, chunks: seq<ChunkSummary>, at: nat, units: nat)
    requires WellFormed(line) && Building(line, tail, chunks, at, units) && at >= |line|
    ensures !ChunkRefused(line, tail, 0) && ChunksOk(line, tail, chunks, |line|) && units == Units(line, |line|)
  {
  }

  ghost predicate Building(line: seq<Byte>, tail: CutTail, chunks: seq<ChunkSummary>, at: nat, units: nat)
    requires WellFormed(line)
  {
    && Boundary(line, at)
    && units == Units(line, at)
    && ChunksOk(line, tail, chunks, at)
    && (ChunkRefused(line, tail, 0) <==> ChunkRefused(line, tail, at))
  }

  lemma BuildingContinues(line: seq<Byte>, tail: CutTail, chunks: seq<ChunkSummary>, at: nat, before: nat,
                          c: ChunkSummary, bytes: nat, units: nat)
    requires WellFormed(line) && Building(line, tail, chunks, at, before) && at < |line|
    requires ChunkOk(line, tail, c, ChunkEnd(line, at)) && c.byteStart == at && at + bytes == ChunkEnd(line, at)
    requires before + units == Units(line, at + bytes)
    requires !StraddleRefused(line, tail, at + |View(line, at)|)
    ensures Building(line, tail, chunks + [c], at + bytes, before + units)
  {
    hide ChunksOk, ChunkRefused, View, WellFormed, Units, ChunkOk;
    ChunkRefusedStep(line, tail, at);
    ChunkAppended(line, tail, chunks, at, c);
  }

  lemma ChunkRefusedStep(line: seq<Byte>, tail: CutTail, start: nat)
    requires WellFormed(line) && start < |line| && Boundary(line, start)
    ensures start < ChunkEnd(line, start)
    ensures ChunkRefused(line, tail, start) <==>
              StraddleRefused(line, tail, start + |View(line, start)|)
              || ChunkRefused(line, tail, ChunkEnd(line, start))
  {
    Progress(line, start);
  }

  /** One turn of that loop: the next chunk, and what it consumes. */
  method BuildChunk(line: seq<Byte>, tail: CutTail, byteStart: nat, unitsBefore: nat)
    returns (r: Result<ChunkSummary>, bytes: nat, units: nat)
    requires WellFormed(line) && byteStart < |line| && Boundary(line, byteStart)
    requires unitsBefore == Units(line, byteStart)
    ensures r.Err? <==> StraddleRefused(line, tail, byteStart + |View(line, byteStart)|)
    ensures r.Ok? ==> ChunkOk(line, tail, r.value, ChunkEnd(line, byteStart)) && r.value.byteStart == byteStart
    ensures r.Ok? ==> byteStart + bytes == ChunkEnd(line, byteStart)
    ensures r.Ok? ==> unitsBefore + units == Units(line, byteStart + bytes)
  {
    hide WellFormed, View, Checkpoints, Complete, Snap, Units, ChunkEnd, StraddleRefused, CutRefused;
    var target := Min(|line| - byteStart, CHUNK_BYTES);
    var progressEnd := byteStart + target;
    ViewFacts(line, byteStart);
    StraddleIs(line, tail, byteStart, byteStart + |View(line, byteStart)|);
    if Ascii(line[byteStart..progressEnd]) {
      AsciiTarget(line, byteStart);
      var m := AsciiMap(View(line, byteStart), target);
      NothingCut(View(line, byteStart), tail);
      return Ok(ChunkSummary(byteStart, unitsBefore, m, |m|)), target, target;
    }
    ViewConsumes(line, byteStart);
    var viewEnd := Min(byteStart + target + LOOKAHEAD_BYTES, |line|);
    LookaheadView(line, byteStart);
    var result := NativePositionChunk(line[byteStart..viewEnd], target, tail);
    if result.Err? {
      return Err, 0, 0;
    }
    var c := result.value;
    return Ok(ChunkSummary(byteStart, unitsBefore, c.map_[..c.mapLength], c.mapLength)), c.bytes, c.units;
  }

  lemma NothingCut(view: seq<Byte>, tail: CutTail)
    requires Boundary(view, 0) && Complete(view)
    ensures !CutRefused(view, tail)
  {
  }

  lemma LookaheadView(line: seq<Byte>, start: nat)
    requires start <= |line| && !Ascii(line[start..start + Target(line, start)])
    ensures View(line, start) == line[start..Min(start + Target(line, start) + LOOKAHEAD_BYTES, |line|)]
  {
  }

  /** The checkpoints of an ASCII chunk, written down without the kernel. */
  method AsciiMap(ghost view: seq<Byte>, target: nat) returns (m: seq<nat>)
    requires Ascii(view) && target == |view| <= CHUNK_BYTES
    ensures Boundary(view, 0) && Complete(view) && Checkpoints(view, m)
  {
    hide Checkpoints, Complete;
    var count := (target + CHECKPOINT_BYTES - 1) / CHECKPOINT_BYTES;
    m := seq(count, i requires 0 <= i => Pack(64 * i, 64 * i)) + [Pack(target, target)];
    AsciiCheckpoints(view, m);
  }

  lemma AsciiEntry(v: seq<Byte>, i: nat)
    requires Ascii(v) && i <= |v| <= CHUNK_BYTES
    ensures Boundary(v, 0) && Snap(v, i) == i && Units(v, i) == i
    ensures PackedByte(Pack(i, i)) == i && PackedUnits(Pack(i, i)) == i
  {
    SnapIs(v, i, i);
    UnitsAscii(v, 0, i);
  }

  lemma AsciiComplete(v: seq<Byte>)
    requires Ascii(v)
    ensures Boundary(v, 0) && Complete(v)
  {
    forall i: nat
      ensures CompleteAt(v, i)
    {
    }
  }

  lemma AsciiCheckpoints(v: seq<Byte>, m: seq<nat>)
    requires Ascii(v) && |v| <= CHUNK_BYTES && |m| == CheckpointCount(v) + 1
    requires forall i :: 0 <= i < CheckpointCount(v) ==> m[i] == Pack(64 * i, 64 * i)
    requires m[CheckpointCount(v)] == Pack(|v|, |v|)
    ensures Boundary(v, 0) && Complete(v) && Checkpoints(v, m)
  {
    hide Pack, PackedByte, PackedUnits, Snap, Units, Complete, Ascii;
    AsciiComplete(v);
    forall i | 0 <= i < CheckpointCount(v)
      ensures CheckpointFor(v, 64 * i, m[i])
    {
      AsciiEntry(v, 64 * i);
    }
    AsciiEntry(v, |v|);
  }

  lemma AsciiTarget(line: seq<Byte>, start: nat)
    requires WellFormed(line) && start < |line| && Boundary(line, start)
    requires Ascii(line[start..start + Target(line, start)])
    ensures View(line, start) == line[start..start + Target(line, start)] && Boundary(line, start + Target(line, start))
    ensures ChunkEnd(line, start) == start + Target(line, start)
    ensures Units(line, ChunkEnd(line, start)) == Units(line, start) + Target(line, start)
  {
    hide Units, Snap;
    var v := line[start..start + Target(line, start)];
    ViewFacts(line, start);
    assert forall k :: start <= k < start + Target(line, start) ==> line[k] == v[k - start];
    UnitsAscii(line, start, start + Target(line, start));
    SnapIs(line, start + Target(line, start), start + Target(line, start));
  }

  lemma ChunkAppended(line: seq<Byte>, tail: CutTail, chunks: seq<ChunkSummary>, at: nat, c: ChunkSummary)
    requires WellFormed(line) && ChunksOk(line, tail, chunks, at)
    requires at < |line| && ChunkOk(line, tail, c, ChunkEnd(line, at)) && c.byteStart == at
    ensures ChunksOk(line, tail, chunks + [c], ChunkEnd(line, at))
  {
    var cs := chunks + [c];
    forall i: nat
      ensures LinkOk(line, tail, cs, ChunkEnd(line, at), i)
    {
      assert LinkOk(line, tail, chunks, at, i);
    }
  }
}
