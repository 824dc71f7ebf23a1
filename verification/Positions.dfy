/** What a source position means, twice over: as a plain left-to-right scan of a text's scalars, and as the
    same notion on the encoded bytes, which is what the coordinate index works on. The two are proved equal
    here. */
module Positions {
  import opened Utf8

  datatype Position = Position(line: nat, character: nat, byte: nat)

  /** A span in both coordinate systems. */
  datatype RangeInfo =
    RangeInfo(startLine: nat, startCharacter: nat, endLine: nat, endCharacter: nat, startByte: nat, endByte: nat)

  // ----- the reference: one pass over the scalars --------------------------------------------

  /** Scan until the next scalar is no longer wholly at or before byte `requested`. */
  function ScanFrom(text: string, requested: nat, at: Position): Position
    decreases |text|
  {
    if text == [] || requested < at.byte + Width8(text[0]) then at
    else if text[0] == '\n' then ScanFrom(text[1..], requested, Position(at.line + 1, 0, at.byte + 1))
    else ScanFrom(text[1..], requested, Position(at.line, at.character + Width16(text[0]), at.byte + Width8(text[0])))
  }

  function ReferencePosition(text: string, requested: nat): Position {
    ScanFrom(text, requested, Position(0, 0, 0))
  }

  /** A span by the positions of its two ends; an end before the start counts as the start. */
  function ReferenceRange(text: string, start: nat, end: nat): RangeInfo {
    var p, q := ReferencePosition(text, start), ReferencePosition(text, if start <= end then end else start);
    RangeInfo(p.line, p.character, q.line, q.character, p.byte, q.byte)
  }

  /** The text from the start of line `line` on; the last line when there are fewer. */
  function SkipLines(text: string, line: nat): (rest: string)
    ensures |rest| <= |text| && |Encode(rest)| <= |Encode(text)|
    decreases |text|
  {
    if line == 0 || !HasNewline(text) then text
    else if text[0] == '\n' then SkipLines(text[1..], line - 1)
    else SkipLines(text[1..], line)
  }

  predicate HasNewline(text: string) {
    exists k :: 0 <= k < |text| && text[k] == '\n'
  }

  /** The first line of a text without its line end. */
  function FirstLine(text: string): (content: string)
    ensures content <= text
    decreases |text|
  {
    if text == [] || text[0] == '\n' || (text[0] == '\r' && |text| > 1 && text[1] == '\n') then []
    else [text[0]] + FirstLine(text[1..])
  }

  /** Bytes of the shortest prefix of `content` that takes at least `column` units, or of all of it. */
  function Walk(content: string, column: nat): nat
    decreases |content|
  {
    if content == [] || column == 0 then 0
    else Width8(content[0]) + Walk(content[1..], if column < Width16(content[0]) then 0
        else column - Width16(content[0]))
  }

  function ReferenceOffset(text: string, line: nat, column: nat): nat {
    var rest := SkipLines(text, line);
    |Encode(text)| - |Encode(rest)| + Walk(FirstLine(rest), column)
  }

  // ----- the same on bytes -------------------------------------------------------------------

  function Newlines(b: seq<Byte>, i: nat): (n: nat)
    requires i <= |b|
  {
    if i == 0 then 0 else Newlines(b, i - 1) + (if b[i - 1] == NEWLINE then 1 else 0)
  }

  /** Where the line of byte `i` starts. */
  function LineStart(b: seq<Byte>, i: nat): (s: nat)
    requires i <= |b|
    ensures s <= i && (s == 0 || b[s - 1] == NEWLINE)
    ensures forall k :: s <= k < i ==> b[k] != NEWLINE
  {
    if i == 0 || b[i - 1] == NEWLINE then i else LineStart(b, i - 1)
  }

  /** The byte after the line of byte `i`, its newline included. */
  function LineStop(b: seq<Byte>, i: nat): (e: nat)
    requires i <= |b|
    ensures i <= e <= |b|
    ensures e < |b| || (i < |b| && b[|b| - 1] == NEWLINE) ==> i < e && b[e - 1] == NEWLINE
    ensures forall k :: i <= k < e - 1 ==> b[k] != NEWLINE
    decreases |b| - i
  {
    if i == |b| then i else if b[i] == NEWLINE then i + 1 else LineStop(b, i + 1)
  }

  /** The line of byte `i` ends with a newline. */
  predicate Terminated(b: seq<Byte>, i: nat)
    requires i <= |b|
  {
    LineStop(b, i) > i && b[LineStop(b, i) - 1] == NEWLINE
  }

  /** The end of a line's content: its newline, and a return right before it, do not count. */
  function ContentEnd(b: seq<Byte>, start: nat): (e: nat)
    requires start <= |b|
    ensures start <= e <= |b|
  {
    var e := LineStop(b, start);
    if !Terminated(b, start) then e else if e - 1 > start && b[e - 2] == RETURN then e - 2 else e - 1
  }

  /** The start of the `line`-th line after the one at `start`, or of the last one. */
  function NthStart(b: seq<Byte>, start: nat, line: nat): (s: nat)
    requires start <= |b|
    ensures start <= s <= |b|
    decreases line
  {
    if line == 0 || !Terminated(b, start) then start else NthStart(b, LineStop(b, start), line - 1)
  }

  /** The position of scalar boundary `i`. */
  function PositionAt(b: seq<Byte>, i: nat): (p: Position)
    requires i <= |b|
    ensures p.byte == i
  {
    UnitsMonotone(b, LineStart(b, i), i);
    Position(Newlines(b, i), Units(b, i) - Units(b, LineStart(b, i)), i)
  }

  /** The first scalar boundary from `i` on that has `units` units before it, or `end`. */
  function FirstAtLeast(b: seq<Byte>, i: nat, end: nat, units: nat): (r: nat)
    requires i <= end <= |b|
    ensures i <= r <= end
    ensures r < end ==> Boundary(b, r) && Units(b, r) >= units
    ensures forall k :: i <= k < r && Boundary(b, k) ==> Units(b, k) < units
    decreases end - i
  {
    if i == end || (Boundary(b, i) && Units(b, i) >= units) then i else FirstAtLeast(b, i + 1, end, units)
  }

  function OffsetAt(b: seq<Byte>, line: nat, column: nat): nat {
    var start := NthStart(b, 0, line);
    FirstAtLeast(b, start, ContentEnd(b, start), Units(b, start) + column)
  }

  // ----- the two agree -----------------------------------------------------------------------

  /** Byte offset of the `k`-th scalar. */
  function Offset(text: string, k: nat): nat
    requires k <= |text|
  {
    |Encode(text[..k])|
  }

  lemma OffsetStarts(text: string)
    ensures Offset(text, 0) == 0 && Offset(text, |text|) == |Encode(text)|
  {
    assert text[..|text|] == text;
  }

  /** How scalar `k` of a text shows up in its bytes. */
  ghost predicate ScalarSits(text: string, k: nat)
    requires k < |text|
  {
    var b, at, w := Encode(text), Offset(text, k), Width8(text[k]);
    && at + w == Offset(text, k + 1) <= |b|
    && Boundary(b, at) && Boundary(b, at + w)
    && (forall j :: at < j < at + w ==> !Boundary(b, j))
    && Units(b, at + w) == Units(b, at) + Width16(text[k])
    && (text[k] == '\n' <==> b[at] == NEWLINE)
    && (text[k] == '\r' <==> b[at] == RETURN)
    && (forall j :: at < j < at + w ==> b[j] >= 0x80)
  }

  lemma ScalarBytes(text: string, k: nat)
    requires k < |text|
    ensures Offset(text, k) + Width8(text[k]) == Offset(text, k + 1) <= |Encode(text)|
    ensures Encode(text)[Offset(text, k)..Offset(text, k + 1)] == EncodeChar(text[k])
    ensures Boundary(Encode(text), Offset(text, k)) && Boundary(Encode(text), Offset(text, k + 1))
  {
    hide EncodeChar;
    EncodePrefix(text, k);
    EncodePrefix(text, k + 1);
    EncodePrefix(text[..k + 1], k);
    assert text[..k + 1][..k] == text[..k] && text[..k + 1][k..] == [text[k]];
    assert Encode([text[k]]) == EncodeChar(text[k]);
  }

  lemma ScalarSitsAt(text: string, k: nat)
    requires k < |text|
    ensures ScalarSits(text, k)
  {
    hide EncodeChar, Encode;
    var b, at, r := Encode(text), Offset(text, k), EncodeChar(text[k]);
    ScalarBytes(text, k);
    assert forall j :: 0 <= j < |r| ==> b[at + j] == r[j];
    EncodeWellFormed(text);
    UnitsStep(b, at);
  }

  lemma {:induction false} WithinLine(b: seq<Byte>, i: nat, j: nat)
    requires i <= j <= |b|
    requires forall k :: i <= k < j ==> b[k] != NEWLINE
    ensures LineStart(b, j) == LineStart(b, i) && Newlines(b, j) == Newlines(b, i)
    ensures LineStop(b, i) == LineStop(b, j) && (j < |b| ==> (Terminated(b, i) <==> Terminated(b, j)))
  {
    if i < j {
      WithinLine(b, i, j - 1);
    }
  }

  lemma PositionSteps(text: string, k: nat)
    requires k < |text|
    ensures Offset(text, k) <= Offset(text, k + 1) <= |Encode(text)|
    ensures var p, c := PositionAt(Encode(text), Offset(text, k)), text[k];
            PositionAt(Encode(text), Offset(text, k + 1)) ==
            if c == '\n' then Position(p.line + 1, 0, p.byte + 1)
            else Position(p.line, p.character + Width16(c), p.byte + Width8(c))
  {
    hide EncodeChar, Encode, Boundary;
    ScalarSitsAt(text, k);
    if text[k] != '\n' {
      WithinLine(Encode(text), Offset(text, k), Offset(text, k + 1));
    }
  }

  lemma {:induction false} ScanFromIsPosition(text: string, k: nat, requested: nat)
    requires k <= |text| && Offset(text, k) <= |Encode(text)| && Offset(text, k) <= requested
    ensures var b := Encode(text);
            Boundary(b, 0) && ScanFrom(text[k..], requested, PositionAt(b, Offset(text, k)))
            == PositionAt(b, Snap(b, if requested <= |b| then requested else |b|))
    decreases |text| - k
  {
    hide EncodeChar, Encode, PositionAt;
    EncodeWellFormed(text);
    var b, at := Encode(text), Offset(text, k);
    if k == |text| {
      assert text[..k] == text;
    } else {
      ScalarSitsAt(text, k);
      if requested < at + Width8(text[k]) {
        SnapIs(b, requested, at);
      } else {
        PositionSteps(text, k);
        ScanFromIsPosition(text, k + 1, requested);
        assert text[k..][1..] == text[k + 1..];
      }
    }
  }

  /** The scan stops on the scalar start at or below the requested byte, clamped to the text. */
  lemma ReferencePositionIs(text: string, requested: nat)
    ensures var b := Encode(text);
            Boundary(b, 0) && ReferencePosition(text, requested)
            == PositionAt(b, Snap(b, if requested <= |b| then requested else |b|))
  {
    assert text[0..] == text && Encode(text[..0]) == [];
    ScanFromIsPosition(text, 0, requested);
  }

  lemma NewlineAfter(c: char, s: string)
    requires c != '\n'
    ensures HasNewline([c] + s) <==> HasNewline(s)
  {
    var t := [c] + s;
    if HasNewline(s) {
      var k :| 0 <= k < |s| && s[k] == '\n';
      assert t[k + 1] == '\n';
    }
    if HasNewline(t) {
      var k :| 0 <= k < |t| && t[k] == '\n';
      assert s[k - 1] == '\n';
    }
  }

  lemma {:induction false} TerminatedMeansNewline(text: string, k: nat)
    requires k <= |text| && Offset(text, k) <= |Encode(text)|
    ensures HasNewline(text[k..]) <==> Terminated(Encode(text), Offset(text, k))
    decreases |text| - k
  {
    hide EncodeChar, Encode;
    if k == |text| {
      assert text[..k] == text;
    } else {
      ScalarSitsAt(text, k);
      if text[k] == '\n' {
        assert text[k..][0] == '\n';
      } else {
        TerminatedMeansNewline(text, k + 1);
        assert text[k..] == [text[k]] + text[k + 1..];
        NewlineAfter(text[k], text[k + 1..]);
        WithinLine(Encode(text), Offset(text, k), Offset(text, k + 1));
      }
    }
  }

  lemma {:induction false} SkipLinesIs(text: string, k: nat, line: nat) returns (k': nat)
    requires k <= |text| && Offset(text, k) <= |Encode(text)|
    ensures k' <= |text| && SkipLines(text[k..], line) == text[k'..]
    ensures Offset(text, k') == NthStart(Encode(text), Offset(text, k), line)
    decreases |text| - k
  {
    hide EncodeChar, Encode, Boundary, Units;
    k' := k;
    TerminatedMeansNewline(text, k);
    if line > 0 && HasNewline(text[k..]) {
      ScalarSitsAt(text, k);
      assert text[k..][1..] == text[k + 1..];
      if text[k] == '\n' {
        k' := SkipLinesIs(text, k + 1, line - 1);
      } else {
        WithinLine(Encode(text), Offset(text, k), Offset(text, k + 1));
        k' := SkipLinesIs(text, k + 1, line);
      }
    }
  }

  lemma ContentEndOver(b: seq<Byte>, i: nat, j: nat)
    requires i < j <= |b|
    requires forall k :: i <= k < j ==> b[k] != NEWLINE
    requires j < |b| && b[j] == NEWLINE ==> b[j - 1] != RETURN
    ensures ContentEnd(b, i) == ContentEnd(b, j)
  {
    WithinLine(b, i, j);
  }

  lemma ContentEndHere(b: seq<Byte>, i: nat)
    requires i == |b| || (i < |b| && b[i] == NEWLINE) || (i + 1 < |b| && b[i] == RETURN && b[i + 1] == NEWLINE)
    ensures ContentEnd(b, i) == i
  {
  }

  lemma FirstLineStep(text: string, k: nat)
    requires k < |text|
    ensures if text[k] == '\n' || (text[k] == '\r' && k + 1 < |text| && text[k + 1] == '\n')
              then FirstLine(text[k..]) == []
            else FirstLine(text[k..]) == [text[k]] + FirstLine(text[k + 1..])
  {
    assert text[k..][1..] == text[k + 1..];
  }

  lemma ContentEndSteps(text: string, k: nat)
    requires k < |text|
    ensures Offset(text, k) <= Offset(text, k + 1) <= |Encode(text)|
    ensures FirstLine(text[k..]) == [] ==> ContentEnd(Encode(text), Offset(text, k)) == Offset(text, k)
    ensures FirstLine(text[k..]) != [] ==>
              && FirstLine(text[k..]) == [text[k]] + FirstLine(text[k + 1..])
              && ContentEnd(Encode(text), Offset(text, k)) == ContentEnd(Encode(text), Offset(text, k + 1))
  {
    hide EncodeChar, Encode, FirstLine, ContentEnd, Units, Boundary, Offset;
    FirstLineStep(text, k);
    ScalarSitsAt(text, k);
    if k + 1 < |text| {
      ScalarSitsAt(text, k + 1);
    } else {
      OffsetStarts(text);
    }
    if FirstLine(text[k..]) != [] {
      ContentEndOver(Encode(text), Offset(text, k), Offset(text, k + 1));
    } else {
      ContentEndHere(Encode(text), Offset(text, k));
    }
  }

  lemma {:induction false} FirstAtLeastSkips(b: seq<Byte>, i: nat, j: nat, end: nat, units: nat)
    requires i <= j <= end <= |b|
    requires forall k :: i <= k < j && Boundary(b, k) ==> Units(b, k) < units
    ensures FirstAtLeast(b, i, end, units) == FirstAtLeast(b, j, end, units)
    decreases j - i
  {
    if i < j {
      FirstAtLeastSkips(b, i + 1, j, end, units);
    }
  }

  lemma FirstAtLeastNow(b: seq<Byte>, i: nat, end: nat, units: nat)
    requires i <= end <= |b| && (i == end || (Boundary(b, i) && Units(b, i) >= units))
    ensures FirstAtLeast(b, i, end, units) == i
  {
  }

  /** The search for enough units passes over one scalar like the walk does. */
  lemma FirstAtLeastOver(text: string, k: nat, end: nat, column: nat)
    requires k < |text| && column > 0 && Offset(text, k + 1) <= end <= |Encode(text)|
    ensures Offset(text, k) <= Offset(text, k + 1)
    ensures var b, at, next := Encode(text), Offset(text, k), Offset(text, k + 1);
            var rest := if column < Width16(text[k]) then 0 else column - Width16(text[k]);
            FirstAtLeast(b, at, end, Units(b, at) + column) == FirstAtLeast(b, next, end, Units(b, next) + rest)
  {
    hide EncodeChar, Encode, Units, Offset;
    ScalarSitsAt(text, k);
    var b, at, next := Encode(text), Offset(text, k), Offset(text, k + 1);
    FirstAtLeastSkips(b, at, next, end, Units(b, at) + column);
    if column < Width16(text[k]) {
      FirstAtLeastNow(b, next, end, Units(b, at) + column);
      FirstAtLeastNow(b, next, end, Units(b, next));
    }
  }

  lemma {:induction false} WalkIs(text: string, k: nat, column: nat)
    requires k <= |text| && Offset(text, k) <= |Encode(text)|
    ensures var b, at := Encode(text), Offset(text, k);
            at + Walk(FirstLine(text[k..]), column) == FirstAtLeast(b, at, ContentEnd(b, at), Units(b, at) + column)
    decreases |text| - k
  {
    hide EncodeChar, Encode, Units, FirstAtLeast, ContentEnd, Offset;
    var b, at := Encode(text), Offset(text, k);
    if k == |text| {
      OffsetStarts(text);
      FirstAtLeastNow(b, at, ContentEnd(b, at), Units(b, at) + column);
    } else {
      ContentEndSteps(text, k);
      if FirstLine(text[k..]) == [] || column == 0 {
        ScalarBytes(text, k);
        FirstAtLeastNow(b, at, ContentEnd(b, at), Units(b, at) + column);
      } else {
        var w16 := Width16(text[k]);
        ScalarBytes(text, k);
        WalkIs(text, k + 1, if column < w16 then 0 else column - w16);
        FirstAtLeastOver(text, k, ContentEnd(b, at), column);
      }
    }
  }

  /** The reference offset is the first boundary of the line with at least that many units before it. */
  lemma ReferenceOffsetIs(text: string, line: nat, column: nat)
    ensures ReferenceOffset(text, line, column) == OffsetAt(Encode(text), line, column)
  {
    hide EncodeChar, Encode, NthStart, FirstAtLeast, ContentEnd, Walk, FirstLine, SkipLines, Units;
    assert text[0..] == text;
    OffsetStarts(text);
    var k := SkipLinesIs(text, 0, line);
    EncodePrefix(text, k);
    WalkIs(text, k, column);
  }
}
