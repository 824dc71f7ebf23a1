/** Applying text changes (crates/service-core/src/edits.rs). Texts travel as their UTF-8 bytes, as they
    do in the source; the specification speaks of the text itself. */
module Edits {
  import opened Outcomes
  import opened Utf8
  import opened CoordinateKernel
  import opened Positions
  import opened LineIndexing
  import opened Coords
  import opened PositionLaws

  datatype TextRange = TextRange(startLine: nat, startCharacter: nat, endLine: nat, endCharacter: nat)

  /** A change without a range replaces the whole text. */
  datatype TextChange = TextChange(range: Option<TextRange>, text: string)

  // ----- specification -----------------------------------------------------------------------

  /** How many scalars the first `byte` bytes of a text hold. */
  function ScalarsBefore(text: string, byte: nat): (k: nat)
    ensures k <= |text|
  {
    if text == [] || byte < Width8(text[0]) then 0 else 1 + ScalarsBefore(text[1..], byte - Width8(text[0]))
  }

  function Ends(text: string, range: TextRange): (nat, nat) {
    var a := ScalarsBefore(text, ReferenceOffset(text, range.startLine, range.startCharacter));
    var b := ScalarsBefore(text, ReferenceOffset(text, range.endLine, range.endCharacter));
    if a <= b then (a, b) else (b, a)
  }

  function Edited(text: string, change: TextChange): string {
    match change.range
    case None => change.text
    case Some(range) =>
      var ends := Ends(text, range);
      text[..ends.0] + change.text + text[ends.1..]
  }

  function EditedAll(text: string, changes: seq<TextChange>): string
    decreases |changes|
  {
    if changes == [] then text else EditedAll(Edited(text, changes[0]), changes[1..])
  }

  /** Some lookup of some change is refused by the decoder. */
  ghost predicate Refused(text: string, tail: CutTail, changes: seq<TextChange>)
    decreases |changes|
  {
    changes != [] && (RefusedOne(text, tail, changes[0]) || Refused(Edited(text, changes[0]), tail, changes[1..]))
  }

  ghost predicate RefusedOne(text: string, tail: CutTail, change: TextChange) {
    EncodeWellFormed(text);
    match change.range
    case None => false
    case Some(range) =>
      || OffsetRefused(Encode(text), tail, range.startLine, range.startCharacter)
      || OffsetRefused(Encode(text), tail, range.endLine, range.endCharacter)
  }

  // ----- offsets are scalar boundaries -------------------------------------------------------

  lemma {:induction false} ScalarsBeforeOffset(text: string, k: nat)
    requires k <= |text|
    ensures ScalarsBefore(text, Offset(text, k)) == k
  {
    if k > 0 {
      assert text[..k][0] == text[0] && text[..k][1..] == text[1..][..k - 1];
      ScalarsBeforeOffset(text[1..], k - 1);
    }
  }

  /** Every offset `offset_of` gives is the end of some prefix of the text. */
  lemma OffsetIsPrefix(text: string, line: nat, column: nat) returns (k: nat)
    ensures k <= |text| && ReferenceOffset(text, line, column) == Offset(text, k)
    ensures ScalarsBefore(text, ReferenceOffset(text, line, column)) == k
  {
    ReferenceOffsetIs(text, line, column);
    OffsetIsBoundary(text, line, column);
    k := BoundaryIsPrefix(text, ReferenceOffset(text, line, column));
    ScalarsBeforeOffset(text, k);
  }

  lemma OffsetIsBoundary(text: string, line: nat, column: nat)
    ensures Boundary(Encode(text), OffsetAt(Encode(text), line, column))
  {
    hide Encode, WellFormed, ContentEnd, NthStart, Units;
    var b := Encode(text);
    EncodeWellFormed(text);
    NthStartStarts(b, 0, line);
    SourceLines.LineFacts(b, NthStart(b, 0, line));
  }

  lemma {:induction false} OffsetMonotone(text: string, i: nat, j: nat)
    requires i <= j <= |text|
    ensures Offset(text, i) + (j - i) <= Offset(text, j)
    decreases j
  {
    if i < j {
      OffsetMonotone(text, i, j - 1);
      ScalarBytes(text, j - 1);
    }
  }

  lemma SlicePrefix(text: string, k: nat)
    requires k <= |text|
    ensures Offset(text, k) <= |Encode(text)|
    ensures Encode(text)[..Offset(text, k)] == Encode(text[..k])
    ensures Encode(text)[Offset(text, k)..] == Encode(text[k..])
  {
    EncodePrefix(text, k);
  }

  // ----- the source's two functions ----------------------------------------------------------

  method ApplyOne(ghost text: string, current: seq<Byte>, change: TextChange, tail: CutTail)
    returns (r: Result<seq<Byte>>)
    requires current == Encode(text)
    ensures r.Err? <==> RefusedOne(text, tail, change)
    ensures r.Ok? ==> r.value == Encode(Edited(text, change))
  {
    if change.range.None? {
      return Ok(Encode(change.text));
    }
    var range := change.range.value;
    var map_ := new PositionMap(text, current, tail);
    var from := map_.OffsetOf(current, range.startLine, range.startCharacter);
    if from.Err? {
      return Err;
    }
    var to := map_.OffsetOf(current, range.endLine, range.endCharacter);
    if to.Err? {
      return Err;
    }
    var start, end := from.value, to.value;
    if start > end {
      start, end := end, start;
    }
    SpanEdits(text, change, range, start, end);
    return Ok(current[..start] + Encode(change.text) + current[end..]);
  }

  lemma SpanEdits(text: string, change: TextChange, range: TextRange, start: nat, end: nat)
    requires change.range == Some(range) && start <= end
    requires var a := ReferenceOffset(text, range.startLine, range.startCharacter);
             var b := ReferenceOffset(text, range.endLine, range.endCharacter);
             (start, end) == if a <= b then (a, b) else (b, a)
    ensures end <= |Encode(text)|
    ensures Encode(Edited(text, change)) == Encode(text)[..start] + Encode(change.text) + Encode(text)[end..]
  {
    hide Encode, ReferenceOffset, ScalarsBefore, Ends, Offset;
    EndsSorted(text, range);
    SpliceBytes(text, Ends(text, range).0, Ends(text, range).1, change.text);
  }

  lemma EndsSorted(text: string, range: TextRange)
    ensures var a := ReferenceOffset(text, range.startLine, range.startCharacter);
            var b := ReferenceOffset(text, range.endLine, range.endCharacter);
            && Ends(text, range).0 <= Ends(text, range).1 <= |text|
            && (Offset(text, Ends(text, range).0), Offset(text, Ends(text, range).1)) == if a <= b then (a, b)
                else (b, a)
  {
    var j := OffsetIsPrefix(text, range.startLine, range.startCharacter);
    var k := OffsetIsPrefix(text, range.endLine, range.endCharacter);
    hide Encode, ReferenceOffset, ScalarsBefore, Offset;
    if k < j {
      OffsetMonotone(text, k, j);
    } else {
      OffsetMonotone(text, j, k);
    }
  }

  lemma SpliceBytes(text: string, i: nat, j: nat, t: string)
    requires i <= |text| && j <= |text|
    ensures Offset(text, i) <= |Encode(text)| && Offset(text, j) <= |Encode(text)|
    ensures Encode(text[..i] + t + text[j..])
              == Encode(text)[..Offset(text, i)] + Encode(t) + Encode(text)[Offset(text, j)..]
  {
    SlicePrefix(text, i);
    SlicePrefix(text, j);
    EncodeConcat(text[..i] + t, text[j..]);
    EncodeConcat(text[..i], t);
    hide Encode;
  }

  method ApplyChanges(ghost text: string, current: seq<Byte>, changes: seq<TextChange>, tail: CutTail)
    returns (r: Result<seq<Byte>>)
    requires current == Encode(text)
    ensures r.Err? <==> Refused(text, tail, changes)
    ensures r.Ok? ==> r.value == Encode(EditedAll(text, changes))
  {
    var bytes := current;
    ghost var now := text;
    for i := 0 to |changes|
      invariant bytes == Encode(now)
      invariant EditedAll(text, changes) == EditedAll(now, changes[i..])
      invariant Refused(text, tail, changes) <==> Refused(now, tail, changes[i..])
    {
      assert changes[i..][0] == changes[i] && changes[i..][1..] == changes[i + 1..];
      var next := ApplyOne(now, bytes, changes[i], tail);
      if next.Err? {
        return Err;
      }
      bytes := next.value;
      now := Edited(now, changes[i]);
    }
    return Ok(bytes);
  }

  // ----- laws --------------------------------------------------------------------------------

  /** An edit replaces one span between scalar boundaries and keeps all the rest. */
  lemma KeepsOutside(text: string, change: TextChange)
    requires change.range.Some?
    ensures var ends := Ends(text, change.range.value); var e := Edited(text, change);
            && ends.0 <= ends.1 <= |text|
            && e[..ends.0] == text[..ends.0]
            && e[ends.0..ends.0 + |change.text|] == change.text
            && e[ends.0 + |change.text|..] == text[ends.1..]
  {
  }

  /** The two ends of a range may come in either order. */
  lemma SwapsEnds(text: string, range: TextRange, t: string)
    ensures Edited(text, TextChange(Some(range), t))
            == Edited(text, TextChange(Some(TextRange(range.endLine, range.endCharacter, range.startLine,
                range.startCharacter)), t))
  {
  }

  /** Change lists compose. */
  lemma {:induction false} EditsCompose(text: string, a: seq<TextChange>, b: seq<TextChange>)
    ensures EditedAll(text, a + b) == EditedAll(EditedAll(text, a), b)
    decreases |a|
  {
    if a == [] {
      assert a + b == b;
    } else {
      assert (a + b)[0] == a[0] && (a + b)[1..] == a[1..] + b;
      EditsCompose(Edited(text, a[0]), a[1..], b);
    }
  }

  /** The range that names scalars `i` to `j` of a text, in the service's own positions. */
  function RangeOf(text: string, i: nat, j: nat): TextRange
    requires i <= j <= |text|
  {
    var from, to := ReferencePosition(text, Offset(text, i)), ReferencePosition(text, Offset(text, j));
    TextRange(from.line, from.character, to.line, to.character)
  }

  /** Scalar `k` of a text is not the newline of a return-newline pair. */
  predicate Addressable(text: string, k: nat)
    requires k <= |text|
  {
    !(0 < k < |text| && text[k - 1] == '\r' && text[k] == '\n')
  }

  lemma AddressableContent(text: string, k: nat)
    requires k <= |text| && Addressable(text, k)
    ensures var b, i := Encode(text), Offset(text, k); i <= |b| && Boundary(b, i) && i <= ContentEnd(b, LineStart(b, i))
  {
    hide Encode, LineStart, ContentEnd, Boundary;
    var b, i := Encode(text), Offset(text, k);
    EncodePrefix(text, k);
    if i > ContentEnd(b, LineStart(b, i)) {
      SourceLines.PastContent(b, i);
      OffsetStarts(text);
      NewlinePair(text, k);
    }
  }

  lemma AddressableIs(text: string, k: nat)
    requires k <= |text| && Addressable(text, k)
    ensures var p := ReferencePosition(text, Offset(text, k));
            ScalarsBefore(text, ReferenceOffset(text, p.line, p.character)) == k
  {
    hide Encode, Offset, ReferencePosition, ReferenceOffset, ScalarsBefore, LineStart, ContentEnd, Addressable;
    AddressableContent(text, k);
    RoundTrip(text, Offset(text, k));
    ScalarsBeforeOffset(text, k);
  }

  lemma NewlinePair(text: string, k: nat)
    requires 0 < k < |text| && Offset(text, k) < |Encode(text)| && 0 < Offset(text, k)
    requires Encode(text)[Offset(text, k)] == NEWLINE && Encode(text)[Offset(text, k) - 1] == RETURN
    ensures !Addressable(text, k)
  {
    ScalarSitsAt(text, k);
    ScalarSitsAt(text, k - 1);
    hide Encode, Offset;
  }

  /** Replacing what an edit put in by what it took out undoes the edit, whatever the texts, as long as
      the two ends of the inserted text can be addressed. */
  lemma Undo(text: string, change: TextChange)
    requires change.range.Some?
    ensures var ends := Ends(text, change.range.value); var e := Edited(text, change);
            && ends.0 + |change.text| <= |e|
            && (Addressable(e, ends.0) && Addressable(e, ends.0 + |change.text|) ==>
                  EditedAll(text, [change,
                      TextChange(Some(RangeOf(e, ends.0, ends.0 + |change.text|)), text[ends.0..ends.1])]) == text)
  {
    var ends := Ends(text, change.range.value);
    var e := Edited(text, change);
    if Addressable(e, ends.0) && Addressable(e, ends.0 + |change.text|) {
      var undo := TextChange(Some(RangeOf(e, ends.0, ends.0 + |change.text|)), text[ends.0..ends.1]);
      EndsOfRange(e, ends.0, ends.0 + |change.text|);
      hide RangeOf, Ends, EditedAll;
      Spliced(text, ends.0, ends.1, change.text);
      EditedTwice(text, change, undo);
    }
  }

  lemma Spliced(text: string, i: nat, j: nat, t: string)
    requires i <= j <= |text|
    ensures var e := text[..i] + t + text[j..]; e[..i] + text[i..j] + e[i + |t|..] == text
  {
  }

  lemma EndsOfRange(text: string, i: nat, j: nat)
    requires i <= j <= |text| && Addressable(text, i) && Addressable(text, j)
    ensures Ends(text, RangeOf(text, i, j)) == (i, j)
  {
    AddressableIs(text, i);
    AddressableIs(text, j);
    hide ReferencePosition, ReferenceOffset, ScalarsBefore, Offset;
  }

  lemma EditedTwice(text: string, a: TextChange, b: TextChange)
    ensures EditedAll(text, [a, b]) == Edited(Edited(text, a), b)
  {
    hide Edited;
    assert [a, b][1..] == [b] && [b][1..] == [];
    assert EditedAll(Edited(text, a), [b]) == EditedAll(Edited(Edited(text, a), b), []);
  }
}
