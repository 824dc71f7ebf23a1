/** The laws of the formatter, for every text: when it answers, what it keeps, what its result looks like,
    and when formatting twice is formatting once. */
module FormatLaws {
  import opened Outcomes
  import opened Format
  import opened FormatText
  import opened FormatLines

  // ----- squeezed lines stay squeezed --------------------------------------------------------

  predicate NoAdjacentBlanks(lines: seq<string>) {
    forall i :: 0 <= i < |lines| - 1 ==> lines[i] != "" || lines[i + 1] != ""
  }

  /** No blank line at either end, and no two in a row. */
  predicate Compact(lines: seq<string>) {
    NoAdjacentBlanks(lines) && (lines != [] ==> lines[0] != "" && lines[|lines| - 1] != "")
  }

  lemma OneMore(lines: seq<string>, last: string)
    requires NoAdjacentBlanks(lines) && (lines != [] ==> last != "" || lines[|lines| - 1] != "")
    ensures NoAdjacentBlanks(lines + [last])
  {
  }

  lemma {:induction false} CollapseShape(lines: seq<string>)
    ensures NoAdjacentBlanks(Collapse(lines))
    ensures lines != [] ==>
              Collapse(lines) != [] && (Collapse(lines)[|Collapse(lines)| - 1] == "" <==> lines[|lines| - 1] == "")
    decreases |lines|
  {
    if lines != [] {
      var front, last := lines[..|lines| - 1], lines[|lines| - 1];
      CollapseShape(front);
      if Collapse(lines) != Collapse(front) {
        OneMore(Collapse(front), last);
      }
    }
  }

  lemma {:induction false} DropLeadingShape(lines: seq<string>)
    requires NoAdjacentBlanks(lines)
    ensures NoAdjacentBlanks(DropLeading(lines)) && (DropLeading(lines) != [] ==> DropLeading(lines)[0] != "")
    decreases |lines|
  {
    if lines != [] && lines[0] == "" {
      DropLeadingShape(lines[1..]);
    }
  }

  lemma {:induction false} DropTrailingShape(lines: seq<string>)
    requires NoAdjacentBlanks(lines) && (lines != [] ==> lines[0] != "")
    ensures Compact(DropTrailing(lines))
    decreases |lines|
  {
    if lines != [] && lines[|lines| - 1] == "" {
      DropTrailingShape(lines[..|lines| - 1]);
    }
  }

  lemma SqueezedShape(lines: seq<string>)
    ensures Compact(Squeezed(lines))
  {
    CollapseShape(lines);
    DropLeadingShape(Collapse(lines));
    DropTrailingShape(DropLeading(Collapse(lines)));
  }

  lemma {:induction false} CollapseNothing(lines: seq<string>)
    requires NoAdjacentBlanks(lines)
    ensures Collapse(lines) == lines
    decreases |lines|
  {
    if lines != [] {
      CollapseNothing(lines[..|lines| - 1]);
      assert |lines| > 1 ==> lines[|lines| - 2] != "" || lines[|lines| - 2 + 1] != "";
      assert lines == lines[..|lines| - 1] + [lines[|lines| - 1]];
    }
  }

  lemma SqueezeNothing(lines: seq<string>)
    requires Compact(lines)
    ensures Squeezed(lines) == lines
  {
    CollapseNothing(lines);
  }

  // ----- lists of trimmed lines --------------------------------------------------------------

  predicate AllIsTrimmed(lines: seq<string>) {
    forall i :: 0 <= i < |lines| ==> IsTrimmed(lines[i])
  }

  /** What every squeeze does to the members of a list: none is new. */
  predicate From(lines: seq<string>, out: seq<string>) {
    forall i :: 0 <= i < |out| ==> out[i] in lines
  }

  lemma {:induction false} CollapseFrom(lines: seq<string>)
    ensures From(lines, Collapse(lines))
    decreases |lines|
  {
    if lines != [] {
      CollapseFrom(lines[..|lines| - 1]);
    }
  }

  lemma {:induction false} DropFrom(lines: seq<string>)
    ensures From(lines, DropLeading(lines)) && From(lines, DropTrailing(lines))
    decreases |lines|
  {
    if lines != [] {
      DropFrom(lines[1..]);
      DropFrom(lines[..|lines| - 1]);
    }
  }

  lemma SqueezedFrom(lines: seq<string>)
    ensures From(lines, Squeezed(lines))
  {
    CollapseFrom(lines);
    DropFrom(Collapse(lines));
    DropFrom(DropLeading(Collapse(lines)));
  }

  /** The trimmed, squeezed lines a text comes down to. */
  function Core(lines: seq<string>): seq<string> {
    Squeezed(AllTrimmed(lines))
  }

  lemma CoreShape(lines: seq<string>)
    requires NewlineFree(lines)
    ensures Compact(Core(lines)) && AllIsTrimmed(Core(lines)) && NewlineFree(Core(lines))
  {
    SqueezedShape(AllTrimmed(lines));
    SqueezedFrom(AllTrimmed(lines));
    forall i | 0 <= i < |lines|
      ensures IsTrimmed(AllTrimmed(lines)[i]) && '\n' !in AllTrimmed(lines)[i]
    {
      TrimmedIsTrimmed(lines[i]);
    }
  }

  lemma PlacedFacts(line: string, st: State)
    requires IsTrimmed(line) && '\n' !in line
    ensures var out := Placed(line, st);
            && IsTrimmed(out) && '\n' !in out && !HasCode(Margin(out)) && (out == "" <==> line == "")
               && Trimmed(out) == out
  {
    PlacedShape(line, st);
    MarginAndContent(line);
    TrimmedIsTrimmed(Placed(line, st));
    hide IsWhitespace, TrimTrailing, TrimStart, Levels;
  }

  lemma IndentedShape(lines: seq<string>, st: State)
    requires Compact(lines) && AllIsTrimmed(lines) && NewlineFree(lines)
    ensures var out := Indented(lines, st);
            && Compact(out) && AllIsTrimmed(out) && NewlineFree(out) && AllTrimmed(out) == out
            && forall i :: 0 <= i < |out| ==> !HasCode(Margin(out[i]))
  {
    hide IsTrimmed, HasCode, Margin, Placed, Trimmed;
    var out := Indented(lines, st);
    forall i | 0 <= i < |out|
      ensures IsTrimmed(out[i]) && '\n' !in out[i] && !HasCode(Margin(out[i])) && (out[i] == "" <==> lines[i] == "")
      ensures Trimmed(out[i]) == out[i]
    {
      IndentedAt(lines, st, i);
      PlacedFacts(lines[i], After(lines[..i], st));
    }
  }

  // ----- hidden closes over a list -----------------------------------------------------------

  /** Somewhere a line's margin hides its leading close. */
  predicate SomeHidden(lines: seq<string>, st: State)
    decreases |lines|
  {
    lines != [] && (Hidden(lines[0], st) || SomeHidden(lines[1..], Advance(lines[0], st)))
  }

  lemma {:induction false} IndentedAgain(lines: seq<string>, st: State)
    requires AllIsTrimmed(lines)
    ensures Indented(Indented(lines, st), st) == Indented(lines, st) <==> !SomeHidden(lines, st)
    decreases |lines|
  {
    if lines != [] {
      var out := Indented(lines, st);
      PlacedAgain(lines[0], st);
      IndentedAgain(lines[1..], Advance(lines[0], st));
      assert out[1..] == Indented(lines[1..], Advance(lines[0], st));
      var again := Indented(out, st);
      assert again[1..] == Indented(out[1..], Advance(out[0], st));
      assert again == out <==> again[0] == out[0] && again[1..] == out[1..];
    }
  }

  lemma {:induction false} NothingHidden(lines: seq<string>, st: State)
    requires forall i :: 0 <= i < |lines| ==> !HasCode(Margin(lines[i]))
    ensures !SomeHidden(lines, st)
    decreases |lines|
  {
    if lines != [] {
      NothingHidden(lines[1..], Advance(lines[0], st));
    }
  }

  lemma {:induction false} IndentedScannable(lines: seq<string>, st: State)
    requires AllIsTrimmed(lines) && !Unscannable(lines, st)
    ensures !Unscannable(Indented(lines, st), st)
    decreases |lines|
  {
    if lines != [] {
      var out := Indented(lines, st);
      PlacedNoPanic(lines[0], st, st.inBlock);
      PlacedAgain(lines[0], st);
      IndentedScannable(lines[1..], Advance(lines[0], st));
      assert out[1..] == Indented(lines[1..], Advance(lines[0], st));
    }
  }

  // ----- squeezing and panics ----------------------------------------------------------------

  lemma {:induction false} UnscannableConcat(a: seq<string>, b: seq<string>, st: State)
    ensures Unscannable(a + b, st) <==> Unscannable(a, st) || Unscannable(b, After(a, st))
    decreases |a|
  {
    if a == [] {
      assert a + b == b;
    } else {
      assert (a + b)[0] == a[0] && (a + b)[1..] == a[1..] + b;
      UnscannableConcat(a[1..], b, Advance(a[0], st));
    }
  }

  lemma {:induction false} CollapseScannable(lines: seq<string>, st: State)
    requires Tidy(lines) && !Unscannable(lines, st)
    ensures !Unscannable(Collapse(lines), st)
    decreases |lines|
  {
    if lines != [] {
      var front, last := lines[..|lines| - 1], lines[|lines| - 1];
      assert lines == front + [last];
      UnscannableConcat(front, [last], st);
      CollapseIndented(front, st);
      CollapseScannable(front, st);
      UnscannableConcat(Collapse(front), [last], st);
    }
  }

  lemma {:induction false} DropLeadingScannable(lines: seq<string>, st: State)
    requires !Unscannable(lines, st)
    ensures !Unscannable(DropLeading(lines), st)
    decreases |lines|
  {
    if lines != [] && lines[0] == "" {
      DropLeadingScannable(lines[1..], st);
    }
  }

  lemma {:induction false} DropTrailingScannable(lines: seq<string>, st: State)
    requires !Unscannable(lines, st)
    ensures !Unscannable(DropTrailing(lines), st)
    decreases |lines|
  {
    if lines != [] && lines[|lines| - 1] == "" {
      var front, last := lines[..|lines| - 1], lines[|lines| - 1];
      assert lines == front + [last];
      UnscannableConcat(front, [last], st);
      DropTrailingScannable(front, st);
    }
  }

  lemma SqueezedScannable(lines: seq<string>, st: State)
    requires Tidy(lines) && !Unscannable(lines, st)
    ensures !Unscannable(Squeezed(lines), st)
  {
    CollapseScannable(lines, st);
    DropLeadingScannable(Collapse(lines), st);
    DropTrailingScannable(DropLeading(Collapse(lines)), st);
  }

  // ----- lines that end in a return ----------------------------------------------------------

  /** The line ends in a return, with no blank right before it. */
  predicate Tight(line: string) {
    EndsInReturn(line) && |line| >= 2 && !IsSpace(line[|line| - 2])
  }

  predicate AllTight(lines: seq<string>) {
    forall i :: 0 <= i < |lines| ==> Tight(lines[i])
  }

  function ShornAll(lines: seq<string>): (r: seq<string>)
    ensures |r| == |lines| && forall i :: 0 <= i < |r| ==> r[i] == Shorn(lines[i])
  {
    seq(|lines|, i requires 0 <= i < |lines| => Shorn(lines[i]))
  }

  lemma {:induction false} ShornAdvance(lines: seq<string>, st: State)
    requires AllIsTrimmed(lines)
    ensures After(ShornAll(lines), st) == After(lines, st)
    ensures !Unscannable(lines, st) ==> !Unscannable(ShornAll(lines), st)
    decreases |lines|
  {
    if lines != [] {
      ShornSame(lines[0], st);
      if !Panics(lines[0], st.inBlock) {
        ShornNoPanic(lines[0], st.inBlock);
      }
      ShornAdvance(lines[1..], Advance(lines[0], st));
      assert ShornAll(lines)[1..] == ShornAll(lines[1..]);
    }
  }

  lemma ChopBlank(line: string)
    requires EndsInReturn(line)
    ensures IsBlank(Chop(line)) <==> IsBlank(line)
  {
    hide IsWhitespace;
    ReturnIsWhitespace();
    assert forall k :: 0 <= k < |line| - 1 ==> Chop(line)[k] == line[k];
  }

  lemma TightByTail(d: string, line: string)
    requires line == d + "\r" && IsTrimmed(d) && d != ""
    ensures Tight(line)
  {
  }

  lemma TightIff(line: string)
    requires IsTrimmed(line) && line != ""
    ensures Tight(line) <==> line == Shorn(line) + "\r"
  {
    hide IsBlank;
    if Tight(line) {
      ChopBlank(line);
      assert TrimTrailing(Chop(line)) == Chop(line);
    }
    if line == Shorn(line) + "\r" {
      var w := ShornShape(line);
      TightByTail(Shorn(line), line);
    }
  }

  lemma ReturnIsWhitespace()
    ensures IsWhitespace('\r') && !IsSpace('\r')
  {
  }

  lemma ChopOne(again: string, line: string)
    requires again + "\r" == line && IsTrimmed(again)
    ensures line == Shorn(line) + "\r"
  {
    hide Trimmed;
    assert Chop(line) == again;
    TrimmedIsTrimmed(again);
  }

  /** Putting the return back gives the line again exactly when the line is tight and in its place. */
  lemma ReturnAgain(line: string, st: State)
    requires IsTrimmed(line)
    ensures Placed(Shorn(line), st) + "\r" == line <==> Tight(line) && Placed(line, st) == line
  {
    hide IsTrimmed, Levels, TrimStart, Trimmed, Chop;
    ShornSame(line, st);
    if line != "" {
      var w := ShornShape(line);
      var again := Placed(Shorn(line), st);
      PlacedShape(Shorn(line), st);
      TightIff(line);
      if again + "\r" == line {
        ChopOne(again, line);
      }
      if line == Shorn(line) + "\r" {
        assert w == "\r";
        assert again + "\r" == Placed(line, st);
      }
    }
  }
}
