/** What positions and offsets mean, without the scan: lines are counted by newlines, columns by the UTF-16
    encoding of the scalars before, bytes by their UTF-8 encoding. */
module PositionMeaning {
  import opened Outcomes
  import opened Utf8
  import opened Encodings
  import opened Positions

  /** How many newlines a text holds. */
  function LineBreaks(text: string): nat {
    multiset(text)['\n']
  }

  lemma OneMore(text: string, k: nat)
    requires k < |text|
    ensures text[..k + 1] == text[..k] + [text[k]]
    ensures LineBreaks(text[..k + 1]) == LineBreaks(text[..k]) + (if text[k] == '\n' then 1 else 0)
    ensures |Encode(text[..k + 1])| == |Encode(text[..k])| + Width8(text[k])
  {
    hide EncodeChar;
    assert text[..k + 1] == text[..k] + [text[k]];
    EncodeConcat(text[..k], [text[k]]);
    assert Encode([text[k]]) == EncodeChar(text[k]) + [];
  }

  /** Scalars `start` to `k` stand on one line, which starts at `start`. */
  predicate OnLine(text: string, start: nat, k: nat) {
    && start <= k <= |text|
    && (start == 0 || text[start - 1] == '\n')
    && forall j :: start <= j < k ==> text[j] != '\n'
  }

  /** The position before scalar `k`, on the line that starts at `start`. */
  function PositionHere(text: string, start: nat, k: nat): Position
    requires start <= k <= |text|
  {
    Position(LineBreaks(text[..k]), |Utf16(text[start..k])|, |Encode(text[..k])|)
  }

  lemma ScanStep(text: string, k: nat, requested: nat, at: Position)
    requires k < |text| && at.byte == |Encode(text[..k])|
    ensures |Encode(text[..k + 1])| > requested ==> ScanFrom(text[k..], requested, at) == at
    ensures |Encode(text[..k + 1])| <= requested ==>
              ScanFrom(text[k..], requested, at) ==
              ScanFrom(text[k + 1..], requested,
                       if text[k] == '\n' then Position(at.line + 1, 0, |Encode(text[..k + 1])|)
                       else Position(at.line, at.character + Width16(text[k]), |Encode(text[..k + 1])|))
  {
    hide Encode;
    OneMore(text, k);
    assert text[k..][0] == text[k] && text[k..][1..] == text[k + 1..];
    if text[k] == '\n' {
      assert Width8('\n') == 1;
    }
  }

  lemma ScanNothing(text: string, requested: nat, at: Position)
    ensures ScanFrom(text[|text|..], requested, at) == at
  {
  }

  lemma {:induction false} ScanMeans(text: string, start: nat, k: nat, requested: nat) returns (from: nat, upto: nat)
    requires OnLine(text, start, k) && |Encode(text[..k])| <= requested
    ensures OnLine(text, from, upto)
    ensures ScanFrom(text[k..], requested, PositionHere(text, start, k)) == PositionHere(text, from, upto)
    ensures |Encode(text[..upto])| <= requested
    ensures upto < |text| ==> requested < |Encode(text[..upto + 1])|
    decreases |text| - k
  {
    hide Encode, Utf16, ScanFrom, LineBreaks;
    from, upto := start, k;
    if k == |text| {
      ScanNothing(text, requested, PositionHere(text, start, k));
    } else {
      OneMore(text, k);
      ScanStep(text, k, requested, PositionHere(text, start, k));
      if |Encode(text[..k + 1])| <= requested {
        if text[k] == '\n' {
          NothingYet(text, k + 1);
          from, upto := ScanMeans(text, k + 1, k + 1, requested);
        } else {
          assert text[start..k + 1] == text[start..k] + [text[k]];
          Utf16Grows(text[start..k], text[k]);
          WidthIs(text[k]);
          from, upto := ScanMeans(text, start, k + 1, requested);
        }
      }
    }
  }

  lemma NothingYet(text: string, k: nat)
    requires k <= |text|
    ensures Utf16(text[k..k]) == []
  {
  }

  /** `position_of` answers for the last scalar boundary at or below the byte: its line is the number of newlines
      before it, its column the length of the UTF-16 encoding of the scalars before it on its line, its byte the
      length of the UTF-8 encoding of everything before it. */
  lemma PositionMeans(text: string, requested: nat) returns (start: nat, k: nat)
    ensures OnLine(text, start, k)
    ensures |Encode(text[..k])| <= requested && (k < |text| ==> requested < |Encode(text[..k + 1])|)
    ensures var p := ReferencePosition(text, requested);
            && p.line == multiset(text[..k])['\n']
            && p.character == |Utf16(text[start..k])|
            && p.byte == |Encode(text[..k])|
  {
    assert text[..0] == "" && text[0..] == text;
    NothingYet(text, 0);
    start, k := ScanMeans(text, 0, 0, requested);
  }

  // ----- offsets -----------------------------------------------------------------------------

  /** Where the content of a line ends: at the end of the text, or before its newline or return and newline. */
  predicate ContentStops(text: string, k: nat) {
    || k == |text|
    || (k < |text| && text[k] == '\n')
    || (k + 1 < |text| && text[k] == '\r' && text[k + 1] == '\n')
  }

  lemma {:induction false} SkipMeans(text: string, k: nat, line: nat) returns (start: nat)
    requires k <= |text|
    ensures k <= start <= |text| && SkipLines(text[k..], line) == text[start..]
    ensures start == k || text[start - 1] == '\n'
    ensures LineBreaks(text[k..start]) == line
            || (LineBreaks(text[k..start]) < line && forall j :: start <= j < |text| ==> text[j] != '\n')
    decreases |text| - k
  {
    hide SkipLines, LineBreaks;
    start := k;
    var rest := text[k..];
    SkipStep(rest, line);
    BreaksFrom(text, k, k);
    if !HasNewline(rest) {
      forall j | k <= j < |text|
        ensures text[j] != '\n'
      {
        assert rest[j - k] == text[j];
      }
    } else if line > 0 {
      assert rest[1..] == text[k + 1..];
      start := SkipMeans(text, k + 1, if rest[0] == '\n' then line - 1 else line);
      BreaksFrom(text, k, start);
      BreaksFrom(text, k + 1, k + 1);
    }
  }

  lemma BreaksFrom(text: string, k: nat, start: nat)
    requires k <= start <= |text|
    ensures LineBreaks(text[k..start]) ==
              if k == start then 0 else (if text[k] == '\n' then 1 else 0) + LineBreaks(text[k + 1..start])
  {
    if k < start {
      assert text[k..start] == [text[k]] + text[k + 1..start];
    }
  }

  lemma SkipStep(rest: string, line: nat)
    ensures line == 0 || !HasNewline(rest) ==> SkipLines(rest, line) == rest
    ensures line > 0 && HasNewline(rest) ==>
              rest != "" && SkipLines(rest, line) == SkipLines(rest[1..], if rest[0] == '\n' then line - 1 else line)
  {
  }

  lemma {:induction false} FirstLineMeans(text: string, start: nat) returns (end: nat)
    requires start <= |text|
    ensures start <= end <= |text| && FirstLine(text[start..]) == text[start..end]
    ensures ContentStops(text, end) && forall j :: start <= j < end ==> !ContentStops(text, j)
    decreases |text| - start
  {
    end := start;
    if !ContentStops(text, start) {
      FirstLineStep(text, start);
      end := FirstLineMeans(text, start + 1);
      assert text[start..end] == [text[start]] + text[start + 1..end];
    }
  }

  lemma {:induction false} WalkMeans(content: string, k: nat, column: nat) returns (upto: nat)
    requires k <= |content|
    requires forall j :: 0 <= j < k ==> |Utf16(content[..j])| < column
    ensures k <= upto <= |content|
    ensures var left := if column < |Utf16(content[..k])| then 0 else column - |Utf16(content[..k])|;
            |Encode(content[..k])| + Walk(content[k..], left) == |Encode(content[..upto])|
    ensures upto == |content| || |Utf16(content[..upto])| >= column
    ensures forall j :: 0 <= j < upto ==> |Utf16(content[..j])| < column
    decreases |content| - k
  {
    hide Encode, Utf16;
    upto := k;
    if k < |content| && |Utf16(content[..k])| < column {
      OneMore(content, k);
      Utf16Grows(content[..k], content[k]);
      WidthIs(content[k]);
      assert content[k..][1..] == content[k + 1..];
      upto := WalkMeans(content, k + 1, column);
    }
  }

  /** `offset_of` answers for a boundary on the line asked for, or the last line: the first one with at least the
      wanted units of UTF-16 before it on its line, or the end of the line's content. */
  lemma OffsetMeans(text: string, line: nat, column: nat) returns (start: nat, k: nat, end: nat)
    ensures start <= k <= end <= |text| && (start == 0 || text[start - 1] == '\n')
    ensures multiset(text[..start])['\n'] == line
            || (multiset(text[..start])['\n'] < line && forall j :: start <= j < |text| ==> text[j] != '\n')
    ensures ContentStops(text, end) && forall j :: start <= j < end ==> !ContentStops(text, j)
    ensures ReferenceOffset(text, line, column) == |Encode(text[..k])|
    ensures k == end || |Utf16(text[start..k])| >= column
    ensures forall j :: start <= j < k ==> |Utf16(text[start..j])| < column
  {
    hide SkipLines, FirstLine, Walk, Encode, Utf16, ContentStops;
    assert text[0..] == text;
    start := SkipMeans(text, 0, line);
    assert text[0..start] == text[..start];
    end := FirstLineMeans(text, start);
    var content := text[start..end];
    Empties(content);
    var upto := WalkMeans(content, 0, column);
    k := start + upto;
    assert content[0..] == content && content[..upto] == text[start..k];
    ColumnsInside(text, start, end, upto, column);
    BytesUpto(text, start, k);
  }

  lemma BytesUpto(text: string, start: nat, k: nat)
    requires start <= k <= |text|
    ensures |Encode(text)| - |Encode(text[start..])| + |Encode(text[start..k])| == |Encode(text[..k])|
  {
    hide Encode;
    EncodePrefix(text, start);
    assert text[..k] == text[..start] + text[start..k];
    EncodeConcat(text[..start], text[start..k]);
  }

  lemma ColumnsInside(text: string, start: nat, end: nat, upto: nat, column: nat)
    requires start <= end <= |text| && upto <= end - start
    requires forall j :: 0 <= j < upto ==> |Utf16(text[start..end][..j])| < column
    ensures forall j :: start <= j < start + upto ==> |Utf16(text[start..j])| < column
  {
    hide Utf16;
    forall j | start <= j < start + upto
      ensures |Utf16(text[start..j])| < column
    {
      assert text[start..end][..j - start] == text[start..j];
    }
  }

  lemma Empties(content: string)
    ensures content[..0] == "" && Encode("") == [] && Utf16("") == []
  {
  }

  // ----- two texts ---------------------------------------------------------------------------

  /** A euro sign takes three bytes and one unit, a clef four bytes and two. */
  lemma EuroAndClef()
    ensures ReferencePosition("\U{20AC}x", 3) == Position(0, 1, 3)
    ensures ReferencePosition("\U{01D11E}x", 4) == Position(0, 2, 4)
    ensures ReferenceOffset("\U{20AC}x", 0, 1) == 3 && ReferenceOffset("\U{01D11E}x", 0, 2) == 4
  {
    var e, c := "\U{20AC}x", "\U{01D11E}x";
    assert e[1..] == "x" && c[1..] == "x" && "x"[1..] == "";
    assert FirstLine("x") == "x" && FirstLine(e) == e && FirstLine(c) == c;
  }
}
