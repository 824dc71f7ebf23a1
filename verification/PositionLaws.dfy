/** Laws of the two coordinate systems: how the two translations undo each other, that positions are
    ordered like bytes, and when the index can answer at all. */
module PositionLaws {
  import opened Outcomes
  import opened Utf8
  import opened CoordinateKernel
  import opened Positions
  import opened SourceLines
  import opened LineIndexing
  import opened Coords

  // ----- round trip and order ----------------------------------------------------------------

  predicate AtMost(p: Position, q: Position) {
    p.byte <= q.byte && (p.line < q.line || (p.line == q.line && p.character <= q.character))
  }

  lemma {:induction false} NewlinesMonotone(b: seq<Byte>, i: nat, j: nat)
    requires i <= j <= |b|
    ensures Newlines(b, i) <= Newlines(b, j)
    ensures Newlines(b, i) == Newlines(b, j) ==> LineStart(b, i) == LineStart(b, j)
    decreases j
  {
    if i < j {
      NewlinesMonotone(b, i, j - 1);
    }
  }

  /** `position_of` is monotone in the byte. */
  lemma PositionMonotone(text: string, i: nat, j: nat)
    requires i <= j
    ensures AtMost(ReferencePosition(text, i), ReferencePosition(text, j))
  {
    ReferencePositionIs(text, i);
    ReferencePositionIs(text, j);
    var b := Encode(text);
    var s, t := Snap(b, Min(i, |b|)), Snap(b, Min(j, |b|));
    SnapMonotone(b, Min(i, |b|), Min(j, |b|));
    NewlinesMonotone(b, s, t);
    UnitsMonotone(b, s, t);
  }

  /** The line of byte `i`, and its offset in it, as `offset_of` finds it again. */
  lemma LineAgain(b: seq<Byte>, i: nat)
    requires i <= |b|
    ensures NthStart(b, 0, Newlines(b, i)) == LineStart(b, i)
  {
    StartOf(b, i);
    NthStartIs(b, 0, Newlines(b, i));
    StartsPrefix(b, 0, |b|);
  }

  lemma FirstAtOwnUnits(b: seq<Byte>, s: nat, at: nat, end: nat)
    requires s <= at <= end <= |b| && Boundary(b, at)
    ensures FirstAtLeast(b, s, end, Units(b, at)) == at
  {
    var r := FirstAtLeast(b, s, end, Units(b, at));
    if r < at {
      UnitsMonotone(b, r, at);
    }
  }

  lemma BackFromContent(b: seq<Byte>, i: nat)
    requires WellFormed(b) && i <= |b| && i <= ContentEnd(b, LineStart(b, i))
    ensures var p := PositionAt(b, Snap(b, i)); OffsetAt(b, p.line, p.character) == p.byte
  {
    hide ScalarAt, CompleteAt, Snap, Units, Newlines;
    var s := LineStart(b, i);
    LineAgain(b, i);
    LineStartStarts(b, i);
    LineFacts(b, s);
    SnapHighest(b, i, s);
    PositionFromStart(b, Snap(b, i), i);
    FirstAtOwnUnits(b, s, Snap(b, i), ContentEnd(b, s));
  }

  lemma NotBackFromPast(b: seq<Byte>, i: nat)
    requires WellFormed(b) && i <= |b| && i > ContentEnd(b, LineStart(b, i))
    ensures var p := PositionAt(b, Snap(b, i)); OffsetAt(b, p.line, p.character) < p.byte
  {
    LineAgain(b, i);
    PastContent(b, i);
    AsciiThenBoundary(b, i);
  }

  /** `offset_of(position_of(byte))` is the scalar start at or below the byte exactly when that byte is
      not past its line's content, that is, not between a return and its newline. */
  lemma RoundTrip(text: string, byte: nat)
    ensures var b := Encode(text); var i := Min(byte, |b|); var p := ReferencePosition(text, byte);
            && Boundary(b, 0) && p.byte == Snap(b, i)
            && (ReferenceOffset(text, p.line, p.character) == p.byte <==> i <= ContentEnd(b, LineStart(b, i)))
  {
    EncodeWellFormed(text);
    var b := Encode(text);
    var i := Min(byte, |b|);
    var p := ReferencePosition(text, byte);
    ReferencePositionIs(text, byte);
    ReferenceOffsetIs(text, p.line, p.character);
    if i <= ContentEnd(b, LineStart(b, i)) {
      BackFromContent(b, i);
    } else {
      NotBackFromPast(b, i);
    }
  }

  // ----- when the index answers --------------------------------------------------------------

  /** A decoder that takes every cut scalar never refuses, so then the index answers every query. */
  lemma {:induction false} AbsorbingAnswers(line: seq<Byte>, tail: CutTail, start: nat)
    requires WellFormed(line) && Boundary(line, start) && forall cut :: tail(cut).Some?
    ensures !ChunkRefused(line, tail, start)
    ensures forall at :: 0 <= at <= |line| ==> !WindowRefused(line, tail, at)
    decreases |line| - start
  {
    if start < |line| {
      Progress(line, start);
      AbsorbingAnswers(line, tail, ChunkEnd(line, start));
    }
  }

  /** No decoder refuses an ASCII line. */
  lemma {:induction false} AsciiAnswers(line: seq<Byte>, tail: CutTail, start: nat)
    requires WellFormed(line) && Ascii(line) && start <= |line|
    ensures !ChunkRefused(line, tail, start)
    ensures forall at :: 0 <= at <= |line| ==> !WindowRefused(line, tail, at)
    decreases |line| - start
  {
    if start < |line| {
      Progress(line, start);
      AsciiAnswers(line, tail, ChunkEnd(line, start));
    }
  }

  lemma {:induction false} EncodeAscii(s: string)
    requires forall k :: 0 <= k < |s| ==> s[k] == 'a'
    ensures |Encode(s)| == |s| && forall k :: 0 <= k < |s| ==> Encode(s)[k] == 97
  {
    if s != [] {
      EncodeAscii(s[1..]);
    }
  }

  function Straddling(): string {
    seq(68, _ => 'a') + ['\U{01D11E}']
  }

  lemma StraddlingBytes()
    ensures var b := Encode(Straddling());
            && WellFormed(b) && |b| == 72 && b[68..] == [0xF0, 0x9D, 0x84, 0x9E]
            && forall k :: 0 <= k < |b| ==> b[k] != NEWLINE
  {
    var a: string := seq(68, _ => 'a');
    EncodeWellFormed(Straddling());
    EncodeAscii(a);
    EncodeConcat(a, ['\U{01D11E}']);
    assert Encode(['\U{01D11E}']) == [0xF0, 0x9D, 0x84, 0x9E];
  }

  lemma StraddlingLine(b: seq<Byte>, tail: CutTail)
    requires WellFormed(b) && |b| == 72 && b[68..] == [0xF0, 0x9D, 0x84, 0x9E]
    requires forall k :: 0 <= k < |b| ==> b[k] != NEWLINE
    ensures LineBytes(b, LineStart(b, 0)) == b && ContentEnd(b, 0) == |b| && WindowFor(b, 0) == 0
    ensures WindowRefused(b, tail, 0) <==> tail([0xF0, 0x9D]).None?
    ensures !ChunkRefused(b, tail, 0)
  {
    assert b[68] == b[68..][0] && b[69] == b[68..][1] && b[70] == b[68..][2];
    assert b[68..70] == [0xF0, 0x9D];
    SnapIs(b, 70, 68);
    WithinLine(b, 0, |b|);
    Progress(b, 0);
  }

  /** There are texts the index answers for or not as the decoder pleases: here byte 70, the end of the first
      window, lies inside a four-byte scalar, and asking for byte 0 fails exactly when its first two bytes are
      refused. */
  lemma RefusedExample(tail: CutTail)
    ensures PositionAnswer(Straddling(), tail, 0, Err) <==> tail([0xF0, 0x9D]).None?
  {
    var b := Encode(Straddling());
    StraddlingBytes();
    assert Boundary(b, 0);
    hide Encode, Straddling, WindowFor, WindowRefused, ChunkRefused, WellFormed;
    StraddlingLine(b, tail);
    PositionRefusedIs(b, tail, 0, b);
  }
}
