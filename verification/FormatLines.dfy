/** What formatting a line again does to it: margins and trailing whitespace never change what a line
    opens or closes, and they change its place only by hiding a leading close. */
module FormatLines {
  import opened Outcomes
  import opened Format
  import opened FormatText

  // ----- scanning around whitespace ----------------------------------------------------------

  predicate HasCode(margin: string) {
    exists k :: 0 <= k < |margin| && !IsSpace(margin[k])
  }

  /** A margin passes through the scan; outside block comments whitespace other than space and tab counts
      as code. */
  lemma {:induction false} ScanMargin(p: string, c: string, s: Scan)
    requires IsBlank(p)
    ensures ScanRest(p + c, s) == ScanRest(c, s.(seenCode := s.seenCode || (!s.inBlock && HasCode(p))))
    ensures Scanned(p + c, s.inBlock) == |p| + Scanned(c, s.inBlock)
  {
    if p == "" {
      assert p + c == c;
      assert s.(seenCode := s.seenCode) == s;
    } else {
      assert (p + c)[1..] == p[1..] + c && (p + c)[0] == p[0] && IsWhitespace(p[0]);
      assert HasCode(p) <==> !IsSpace(p[0]) || HasCode(p[1..]) by {
        assert p == [p[0]] + p[1..];
        assert forall k :: 0 < k < |p| ==> p[k] == p[1..][k - 1];
      }
      ScanMargin(p[1..], c, if s.inBlock then s else Step(p[0], s));
    }
  }

  /** Whether code was seen before decides nothing but the count of leading closes. */
  lemma {:induction false} SeenOnly(c: string, s: Scan, seen: bool)
    requires s.seenCode ==> seen
    ensures var a, b := ScanRest(c, s), ScanRest(c, s.(seenCode := seen));
            && a.net == b.net && a.inBlock == b.inBlock && (seen ==> b.leadingCloses == s.leadingCloses)
            && s.leadingCloses <= a.leadingCloses <= s.leadingCloses + (if s.seenCode then 0 else 1)
    decreases |c|
  {
    if c == "" {
    } else if s.inBlock {
      if StartsWith(c, '*', '/') {
        SeenOnly(c[2..], s.(inBlock := false), seen);
      } else {
        SeenOnly(c[1..], s, seen);
      }
    } else if StartsWith(c, '/', '/') {
    } else if StartsWith(c, '/', '*') {
      SeenOnly(c[2..], s.(inBlock := true), seen);
    } else {
      SeenFirst(c[0], s, seen);
      var t, u := Step(c[0], s), Step(c[0], s.(seenCode := seen));
      SeenOnly(c[1..], t, u.seenCode);
      NetShift(c[1..], t.(seenCode := u.seenCode), u);
    }
  }

  lemma SeenFirst(x: char, s: Scan, seen: bool)
    requires s.seenCode ==> seen
    ensures var t, u := Step(x, s), Step(x, s.(seenCode := seen));
            && t.net == u.net && t.inBlock == u.inBlock && (t.seenCode ==> u.seenCode)
            && (seen ==> u.leadingCloses == s.leadingCloses)
            && s.leadingCloses <= t.leadingCloses <= s.leadingCloses + (if s.seenCode || !t.seenCode then 0 else 1)
  {
  }

  /** The count of leading closes before does not influence the scan. */
  lemma {:induction false} NetShift(c: string, t: Scan, u: Scan)
    requires t == u.(leadingCloses := t.leadingCloses)
    ensures var a, b := ScanRest(c, t), ScanRest(c, u);
            && a.net == b.net && a.inBlock == b.inBlock
               && a.leadingCloses - t.leadingCloses == b.leadingCloses - u.leadingCloses
    decreases |c|
  {
    if c == "" {
    } else if t.inBlock {
      if StartsWith(c, '*', '/') {
        NetShift(c[2..], t.(inBlock := false), u.(inBlock := false));
      } else {
        NetShift(c[1..], t, u);
      }
    } else if StartsWith(c, '/', '/') {
    } else if StartsWith(c, '/', '*') {
      NetShift(c[2..], t.(inBlock := true), u.(inBlock := true));
    } else {
      NetShift(c[1..], Step(c[0], t), Step(c[0], u));
    }
  }

  /** Whitespace behind a line forms no comment mark with it. */
  lemma HeadsAgree(d: string, w: string)
    requires IsBlank(w) && d != ""
    ensures StartsWith(d + w, '*', '/') <==> StartsWith(d, '*', '/')
    ensures StartsWith(d + w, '/', '/') <==> StartsWith(d, '/', '/')
    ensures StartsWith(d + w, '/', '*') <==> StartsWith(d, '/', '*')
    ensures (d + w)[0] == d[0] && (d + w)[1..] == d[1..] + w
    ensures |d| >= 2 ==> (d + w)[2..] == d[2..] + w
  {
    if |d| == 1 && w != "" {
      assert (d + w)[1] == w[0];
    }
  }

  /** Trailing whitespace changes nothing but whether code was seen. */
  lemma {:induction false} ScanTail(d: string, w: string, s: Scan)
    requires IsBlank(w)
    ensures ScanRest(d + w, s).(seenCode := true) == ScanRest(d, s).(seenCode := true)
    ensures Scanned(d, s.inBlock) <= Scanned(d + w, s.inBlock)
    decreases |d|
  {
    if d == "" {
      assert d + w == w == w + "";
      ScanMargin(w, "", s);
    } else {
      hide IsWhitespace, Step, IsBlank;
      HeadsAgree(d, w);
      if s.inBlock {
        if StartsWith(d, '*', '/') {
          ScanTail(d[2..], w, s.(inBlock := false));
        } else {
          ScanTail(d[1..], w, s);
        }
      } else if StartsWith(d, '/', '/') {
      } else if StartsWith(d, '/', '*') {
        ScanTail(d[2..], w, s.(inBlock := true));
      } else {
        ScanTail(d[1..], w, Step(d[0], s));
      }
    }
  }

  // ----- placing a line that was placed before -----------------------------------------------

  predicate IsTrimmed(line: string) {
    line == "" || (!IsBlank(line) && !IsSpace(line[|line| - 1]))
  }

  /** A margin with other whitespace than space and tab hides the close bracket a line leads with. */
  predicate Hidden(line: string, st: State) {
    && !st.inBlock && st.depth > 0
    && HasCode(Margin(line)) && LeadingCloses(TrimStart(line), false) > 0
  }

  lemma {:induction false} TrimStartOf(p: string, c: string)
    requires IsBlank(p) && (c == "" || !IsWhitespace(c[0]))
    ensures TrimStart(p + c) == c
  {
    if p == "" {
      assert p + c == c;
    } else {
      assert (p + c)[1..] == p[1..] + c && IsWhitespace(p[0]);
      TrimStartOf(p[1..], c);
    }
  }

  lemma TrimmedIsTrimmed(line: string)
    ensures IsTrimmed(Trimmed(line))
    ensures IsTrimmed(line) ==> Trimmed(line) == line
  {
  }

  /** The scan of a line and of its content agree on what they open and close. */
  lemma ContentScan(line: string, inBlock: bool)
    ensures var a, b := ScanRest(line, Fresh(inBlock)), ScanRest(TrimStart(line), Fresh(inBlock));
            && a.net == b.net && a.inBlock == b.inBlock && b.leadingCloses <= 1
            && a.leadingCloses == (if !inBlock && HasCode(Margin(line)) then 0 else b.leadingCloses)
  {
    var p, c := Margin(line), TrimStart(line);
    var seen := !inBlock && HasCode(p);
    MarginAndContent(line);
    ScanMargin(p, c, Fresh(inBlock));
    SeenOnly(c, Fresh(inBlock), seen);
  }

  /** A placed line is trimmed, has the same content, and its margin is made of spaces. */
  lemma PlacedShape(line: string, st: State)
    requires IsTrimmed(line)
    ensures IsTrimmed(Placed(line, st)) && TrimStart(Placed(line, st)) == TrimStart(line)
    ensures !HasCode(Margin(Placed(line, st)))
    ensures Placed(line, st) == "" <==> line == ""
  {
    if line != "" {
      MarginAndContent(line);
      var c := TrimStart(line);
      assert c[|c| - 1] == line[|line| - 1];
      TrimStartOf(Spaces(Levels(line, st) * INDENT_WIDTH), c);
      assert Placed(line, st)[Levels(line, st) * INDENT_WIDTH] == c[0];
    }
  }

  /** Formatting a line again opens and closes the same, and moves the line exactly when a close was hidden. */
  lemma PlacedAgain(line: string, st: State)
    requires IsTrimmed(line)
    ensures Advance(Placed(line, st), st) == Advance(line, st)
    ensures Placed(Placed(line, st), st) == Placed(line, st) <==> !Hidden(line, st)
  {
    var o := Placed(line, st);
    PlacedShape(line, st);
    ContentScan(line, st.inBlock);
    ContentScan(o, st.inBlock);
    if line != "" {
      SameLength(Levels(line, st), Levels(o, st), TrimStart(line));
    }
  }

  lemma SameLength(m: nat, n: nat, c: string)
    ensures Spaces(m * INDENT_WIDTH) + c == Spaces(n * INDENT_WIDTH) + c <==> m == n
  {
    if m != n {
      assert |Spaces(m * INDENT_WIDTH) + c| != |Spaces(n * INDENT_WIDTH) + c|;
    }
  }

  lemma PlacedNoPanic(line: string, st: State, inBlock: bool)
    requires IsTrimmed(line) && !Panics(line, inBlock)
    ensures !Panics(Placed(line, st), inBlock)
  {
    var o := Placed(line, st);
    if line != "" {
      var p, c := Margin(line), TrimStart(line);
      var q := Spaces(Levels(line, st) * INDENT_WIDTH);
      MarginAndContent(line);
      ScanMargin(p, c, Fresh(inBlock));
      ScanMargin(q, c, Fresh(inBlock));
      forall k | 0 <= k < Scanned(o, inBlock)
        ensures IsAscii(o[k])
      {
        if k >= |q| {
          assert o[k] == c[k - |q|] == line[|p| + (k - |q|)];
        }
      }
    }
  }

  // ----- placing a line that lost a return ---------------------------------------------------

  lemma {:induction false} WordTail(d: string, w: string)
    requires IsBlank(w)
    ensures Word(d + w) == Word(d)
  {
    if d == "" {
      assert d + w == w;
    } else {
      assert (d + w)[0] == d[0] && (d + w)[1..] == d[1..] + w;
      WordTail(d[1..], w);
    }
  }

  /** What is left of a placed line when a return at its end is taken for part of the line end. */
  function Shorn(line: string): string {
    Trimmed(Chop(line))
  }

  lemma CutWhere(p: string, c: string, d: string, w: string)
    requires p + c == d + w && IsBlank(p) && IsBlank(w) && c != "" && !IsWhitespace(c[0])
    ensures |p| < |d| && d == p + c[..|d| - |p|] && c == c[..|d| - |p|] + w
  {
    assert (d + w)[|p|] == c[0];
    assert forall k :: |d| <= k < |d + w| ==> (d + w)[k] == w[k - |d|];
    assert |p| < |d|;
    assert d == (p + c)[..|d|] && w == (p + c)[|d|..];
  }

  /** Cutting whitespace off the end of a line that holds something leaves its margin alone. */
  lemma CutTail(p: string, c: string, d: string, w: string)
    requires p + c == d + w && IsBlank(p) && IsBlank(w) && c != "" && !IsWhitespace(c[0])
    ensures |p| < |d| && d == p + c[..|d| - |p|] && c == c[..|d| - |p|] + w
    ensures !IsBlank(d) && TrimStart(d) == c[..|d| - |p|] && Margin(d) == p
  {
    CutWhere(p, c, d, w);
    hide IsWhitespace, TrimStart;
    TrimStartOf(p, c[..|d| - |p|]);
    assert d[|p|] == c[0];
  }

  lemma ChopTail(line: string) returns (w: string)
    ensures IsBlank(w) && line == TrimTrailing(Chop(line)) + w
    ensures line != "" && !IsSpace(line[|line| - 1]) ==> (w == "" <==> !EndsInReturn(line))
  {
    w := line[|TrimTrailing(Chop(line))|..];
  }

  lemma ShornShape(line: string) returns (w: string)
    requires IsTrimmed(line) && line != ""
    ensures IsBlank(w) && line == Shorn(line) + w && TrimStart(line) == TrimStart(Shorn(line)) + w
    ensures Margin(Shorn(line)) == Margin(line) && Shorn(line) != "" && IsTrimmed(Shorn(line))
    ensures w == "" <==> !EndsInReturn(line)
  {
    hide Margin, TrimStart, TrimTrailing, Chop;
    MarginAndContent(line);
    w := ChopTail(line);
    CutTail(Margin(line), TrimStart(line), TrimTrailing(Chop(line)), w);
    TrimmedIsTrimmed(Chop(line));
  }

  lemma ShornSame(line: string, st: State)
    requires IsTrimmed(line)
    ensures Advance(Shorn(line), st) == Advance(line, st)
    ensures line != "" ==> Levels(Shorn(line), st) == Levels(line, st)
    ensures Shorn(line) == "" <==> line == ""
  {
    if line != "" {
      var w := ShornShape(line);
      ScanTail(Shorn(line), w, Fresh(st.inBlock));
      WordTail(TrimStart(Shorn(line)), w);
    }
  }

  lemma ShornNoPanic(line: string, inBlock: bool)
    requires IsTrimmed(line) && !Panics(line, inBlock)
    ensures !Panics(Shorn(line), inBlock)
  {
    if line != "" {
      var w := ShornShape(line);
      ScanTail(Shorn(line), w, Fresh(inBlock));
      assert forall k :: 0 <= k < |Shorn(line)| ==> Shorn(line)[k] == line[k];
    }
  }
}
