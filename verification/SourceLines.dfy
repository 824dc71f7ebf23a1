/** The line table of a text's bytes and what it says about single positions. */
module SourceLines {
  import opened Utf8
  import opened Positions

  /** Starts of the lines begun by byte `i`: line 0, and one after every newline. */
  function LineStarts(b: seq<Byte>, i: nat): (s: seq<nat>)
    requires i <= |b|
    ensures |s| == Newlines(b, i) + 1
    ensures s[|s| - 1] == LineStart(b, i)
  {
    if i == 0 then [0] else LineStarts(b, i - 1) + (if b[i - 1] == NEWLINE then [i] else [])
  }

  lemma {:induction false} StartsPrefix(b: seq<Byte>, i: nat, j: nat)
    requires i <= j <= |b|
    ensures LineStarts(b, i) <= LineStarts(b, j)
    ensures forall k :: |LineStarts(b, i)| <= k < |LineStarts(b, j)| ==> i < LineStarts(b, j)[k]
  {
    if i < j {
      StartsPrefix(b, i, j - 1);
    }
  }

  lemma {:induction false} StartsAscend(b: seq<Byte>, i: nat)
    requires i <= |b|
    ensures forall k :: 0 <= k < |LineStarts(b, i)| ==> LineStarts(b, i)[k] <= i
    ensures forall j, k :: 0 <= j < k < |LineStarts(b, i)| ==> LineStarts(b, i)[j] < LineStarts(b, i)[k]
  {
    if i > 0 {
      StartsAscend(b, i - 1);
    }
  }

  /** The line table entry of byte `i` is its line number's, and the next one lies past it. */
  lemma StartOf(b: seq<Byte>, i: nat)
    requires i <= |b|
    ensures var s, l := LineStarts(b, |b|), Newlines(b, i);
            l < |s| && s[l] == LineStart(b, i) && forall k :: l < k < |s| ==> i < s[k]
  {
    StartsPrefix(b, i, |b|);
  }

  /** Neighbouring entries of the line table are the two ends of a line. */
  lemma NextStartOf(b: seq<Byte>, l: nat)
    requires l < |LineStarts(b, |b|)|
    ensures var s := LineStarts(b, |b|);
            && s[l] <= |b| && LineStart(b, s[l]) == s[l] && Newlines(b, s[l]) == l
            && (if l + 1 < |s| then Terminated(b, s[l]) && s[l + 1] == LineStop(b, s[l])
                else !Terminated(b, s[l]) && LineStop(b, s[l]) == |b|)
  {
    var s := LineStarts(b, |b|);
    StartsAscend(b, |b|);
    StartEntry(b, |b|, l);
    var e := LineStop(b, s[l]);
    StartOf(b, e);
    if Terminated(b, s[l]) {
      WithinLine(b, s[l], e - 1);
    } else {
      WithinLine(b, s[l], e);
    }
  }

  lemma {:induction false} StartEntry(b: seq<Byte>, i: nat, l: nat)
    requires i <= |b| && l < |LineStarts(b, i)|
    ensures var s := LineStarts(b, i)[l]; s <= |b| && LineStart(b, s) == s && Newlines(b, s) == l
  {
    if i > 0 && l < |LineStarts(b, i - 1)| {
      StartEntry(b, i - 1, l);
    }
  }

  lemma {:induction false} NthStartIs(b: seq<Byte>, l: nat, n: nat)
    requires l < |LineStarts(b, |b|)|
    ensures var s := LineStarts(b, |b|);
            s[l] <= |b| && NthStart(b, s[l], n) == s[if l + n < |s| then l + n else |s| - 1]
    decreases n
  {
    NextStartOf(b, l);
    if n > 0 && l + 1 < |LineStarts(b, |b|)| {
      NthStartIs(b, l + 1, n - 1);
    }
  }

  // ----- a final newline ---------------------------------------------------------------------

  /** The lines of the table that hold a byte. */
  ghost function Occupied(b: seq<Byte>): set<nat> {
    set l: nat | l < |LineStarts(b, |b|)| && LineStarts(b, |b|)[l] < |b|
  }

  /** How many lines a text has when a final newline does not open another one. */
  ghost function LinesWithoutExtra(b: seq<Byte>): nat {
    if Occupied(b) == {} then 1 else |Occupied(b)|
  }

  /** The table counts one line more, an empty one at the end of the text, if and only if the text ends in a newline. */
  lemma FinalNewline(b: seq<Byte>)
    ensures var s := LineStarts(b, |b|);
            && (|s| != LinesWithoutExtra(b) <==> b != [] && b[|b| - 1] == NEWLINE)
            && (|s| != LinesWithoutExtra(b) ==> |s| == LinesWithoutExtra(b) + 1 && s[|s| - 1] == |b|)
  {
    var s := LineStarts(b, |b|);
    StartsAscend(b, |b|);
    var n := if s[|s| - 1] < |b| then |s| else |s| - 1;
    assert forall l :: 0 <= l < |s| - 1 ==> s[l] < s[|s| - 1];
    assert Occupied(b) == FirstLines(n);
    assert n == 0 <==> b == [] by {
      assert |s| == 1 ==> s[0] == 0 by {
        StartsPrefix(b, 0, |b|);
      }
    }
  }

  ghost function FirstLines(n: nat): (r: set<nat>)
    ensures |r| == n && forall l :: l in r <==> 0 <= l < n
  {
    if n == 0 then {} else FirstLines(n - 1) + {n - 1}
  }

  /** Three letters and a newline: two table entries where one line is meant. */
  lemma FinalNewlineExample()
    ensures var b := Encode("abc\n"); LineStarts(b, |b|) == [0, 4] && LinesWithoutExtra(b) == 1
  {
    var b := Encode("abc\n");
    assert "abc\n"[1..] == "bc\n" && "bc\n"[1..] == "c\n" && "c\n"[1..] == "\n" && "\n"[1..] == "";
    assert Encode("bc\n") == [98, 99, 10] by {
      assert Encode("c\n") == [99, 10];
    }
    assert b == [97, 98, 99, 10];
    assert LineStarts(b, 3) == [0] by {
      assert LineStarts(b, 1) == [0];
    }
    FinalNewline(b);
  }

  // ----- the content of one line -------------------------------------------------------------

  function LineBytes(b: seq<Byte>, start: nat): seq<Byte>
    requires start <= |b|
  {
    b[start..ContentEnd(b, start)]
  }

  lemma AsciiThenBoundary(b: seq<Byte>, i: nat)
    requires WellFormed(b) && i < |b| && b[i] < 0x80
    ensures Boundary(b, i) && Boundary(b, i + 1)
  {
    assert ScalarAt(b, i);
  }

  lemma LineFacts(b: seq<Byte>, start: nat)
    requires WellFormed(b) && start <= |b| && LineStart(b, start) == start
    ensures Boundary(b, start) && Boundary(b, ContentEnd(b, start)) && WellFormed(LineBytes(b, start))
    ensures forall k :: start <= k < ContentEnd(b, start) ==> b[k] != NEWLINE
  {
    if start > 0 {
      AsciiThenBoundary(b, start - 1);
    }
    var e := ContentEnd(b, start);
    if e < |b| {
      AsciiThenBoundary(b, e);
    }
    WellFormedSlice(b, start, e);
  }

  /** A slice of whole scalars answers for the positions in it. */
  lemma SliceAnswers(b: seq<Byte>, from: nat, to: nat, i: nat)
    requires WellFormed(b) && from <= i <= to <= |b| && Boundary(b, from) && Boundary(b, to)
    ensures Boundary(b[from..to], 0)
    ensures from <= Snap(b, i) && Snap(b[from..to], i - from) == Snap(b, i) - from
    ensures Units(b[from..to], Snap(b, i) - from) == Units(b, Snap(b, i)) - Units(b, from)
  {
    SnapSlice(b, from, to, i - from);
    SnapHighest(b, i, from);
    UnitsSlice(b, from, to, Snap(b, i) - from);
  }

  /** Positions inside a line's content are read off the line alone. */
  lemma PositionInLine(b: seq<Byte>, i: nat)
    requires WellFormed(b) && i <= |b|
    requires i <= ContentEnd(b, LineStart(b, i))
    ensures var s := LineStart(b, i); var line := LineBytes(b, s);
            && LineStart(b, s) == s && WellFormed(line) && i - s <= |line|
            && PositionAt(b, Snap(b, i))
               == Position(Newlines(b, i), Units(line, Snap(line, i - s)), s + Snap(line, i - s))
  {
    hide PositionAt, ContentEnd, LineStart, Newlines, Snap, Units, ScalarAt, CompleteAt;
    var s := LineStart(b, i);
    LineStartStarts(b, i);
    LineFacts(b, s);
    SliceAnswers(b, s, ContentEnd(b, s), i);
    PositionFromStart(b, Snap(b, i), i);
  }

  lemma PositionFromStart(b: seq<Byte>, at: nat, i: nat)
    requires i <= |b| && LineStart(b, i) <= at <= i
    ensures Units(b, LineStart(b, i)) <= Units(b, at)
    ensures PositionAt(b, at) == Position(Newlines(b, i), Units(b, at) - Units(b, LineStart(b, i)), at)
  {
    var s := LineStart(b, i);
    LineStartStarts(b, i);
    WithinLine(b, s, at);
    WithinLine(b, s, i);
    UnitsMonotone(b, s, at);
  }

  lemma {:induction false} LineStartStarts(b: seq<Byte>, i: nat)
    requires i <= |b|
    ensures LineStart(b, LineStart(b, i)) == LineStart(b, i)
  {
  }

  /** Past the content there is only the newline behind a return. */
  lemma PositionPastLine(b: seq<Byte>, i: nat)
    requires WellFormed(b) && i <= |b|
    requires i > ContentEnd(b, LineStart(b, i))
    ensures var s := LineStart(b, i); var line := LineBytes(b, s);
            && LineStart(b, s) == s && WellFormed(line) && i == s + |line| + 1
            && PositionAt(b, Snap(b, i)) == Position(Newlines(b, i), Units(line, |line|) + 1, i)
  {
    var s := LineStart(b, i);
    LineStartStarts(b, i);
    LineFacts(b, s);
    var e := ContentEnd(b, s);
    PastContent(b, i);
    AsciiThenBoundary(b, i);
    UnitsSlice(b, s, e, e - s);
  }

  lemma PastContent(b: seq<Byte>, i: nat)
    requires i <= |b| && i > ContentEnd(b, LineStart(b, i))
    ensures i < |b| && b[i] == NEWLINE && b[i - 1] == RETURN && ContentEnd(b, LineStart(b, i)) == i - 1
  {
    var s := LineStart(b, i);
    assert forall k :: s <= k < i ==> b[k] != NEWLINE;
  }

  /** `line_end_exclusive`: the content end of a line, from the line table. */
  function LineEndExclusive(text: seq<Byte>, starts: seq<nat>, line: nat): nat
    requires line + 1 < |starts| ==> starts[line + 1] <= |text|
  {
    if line + 1 < |starts| then
      var end := starts[line + 1];
      if end >= 1 && text[end - 1] == NEWLINE then
        if end - 1 >= 1 && text[end - 2] == RETURN then end - 2 else end - 1
      else end
    else |text|
  }

  lemma LineEndIs(b: seq<Byte>, l: nat)
    requires l < |LineStarts(b, |b|)|
    ensures var s := LineStarts(b, |b|);
            && s[l] <= |b| && (l + 1 < |s| ==> s[l + 1] <= |b|)
            && LineEndExclusive(b, s, l) == ContentEnd(b, s[l])
  {
    NextStartOf(b, l);
    if l + 1 < |LineStarts(b, |b|)| {
      NextStartOf(b, l + 1);
    }
  }

  /** The offset of a column, read off the line alone. */
  lemma OffsetInLine(b: seq<Byte>, s: nat, column: nat)
    requires WellFormed(b) && s <= |b| && LineStart(b, s) == s
    ensures var line := LineBytes(b, s);
            FirstAtLeast(b, s, ContentEnd(b, s), Units(b, s) + column) == s + FirstAtLeast(line, 0, |line|, column)
    ensures var line := LineBytes(b, s); WellFormed(line) && (column >= Units(line, |line|) ==>
            s + FirstAtLeast(line, 0, |line|, column) == ContentEnd(b, s))
  {
    LineFacts(b, s);
    var line := LineBytes(b, s);
    FirstAtLeastSlice(b, s, ContentEnd(b, s), 0, column);
    var r := FirstAtLeast(line, 0, |line|, column);
    if column >= Units(line, |line|) && r < |line| {
      UnitsMonotone(line, r, |line|);
    }
  }

  lemma {:induction false} FirstAtLeastSlice(b: seq<Byte>, s: nat, e: nat, i: nat, column: nat)
    requires s <= s + i <= e <= |b|
    ensures FirstAtLeast(b, s + i, e, Units(b, s) + column) == s + FirstAtLeast(b[s..e], i, e - s, column)
    decreases e - s - i
  {
    if s + i < e {
      UnitsSlice(b, s, e, i);
      FirstAtLeastSlice(b, s, e, i + 1, column);
      assert Boundary(b[s..e], i) <==> Boundary(b, s + i);
    }
  }
}
