/** How the formatter's text operations (split, join, replace) act on texts laid out line by line. */
module FormatText {
  import opened Outcomes
  import opened Format

  predicate NewlineFree(lines: seq<string>) {
    forall i :: 0 <= i < |lines| ==> '\n' !in lines[i]
  }

  predicate EndsInReturn(line: string) {
    line != "" && line[|line| - 1] == '\r'
  }

  predicate SomeReturn(lines: seq<string>) {
    exists i :: 0 <= i < |lines| && EndsInReturn(lines[i])
  }

  /** A line without the return that a newline behind it would make part of the line end. */
  function Chop(line: string): string {
    if EndsInReturn(line) then line[..|line| - 1] else line
  }

  function Chopped(lines: seq<string>): (r: seq<string>)
    ensures |r| == |lines| && forall i :: 0 <= i < |r| ==> r[i] == Chop(lines[i])
  {
    seq(|lines|, i requires 0 <= i < |lines| => Chop(lines[i]))
  }

  function WithReturns(lines: seq<string>): (r: seq<string>)
    ensures |r| == |lines| && forall i :: 0 <= i < |r| ==> r[i] == lines[i] + "\r"
  {
    seq(|lines|, i requires 0 <= i < |lines| => lines[i] + "\r")
  }

  lemma ChoppedReturns(lines: seq<string>)
    ensures Chopped(WithReturns(lines)) == lines
    ensures lines != [] ==> SomeReturn(WithReturns(lines))
    ensures NewlineFree(lines) ==> NewlineFree(WithReturns(lines))
  {
    forall i | 0 <= i < |lines|
      ensures Chop(WithReturns(lines)[i]) == lines[i] && EndsInReturn(WithReturns(lines)[i])
    {
    }
    assert lines != [] ==> EndsInReturn(WithReturns(lines)[0]);
  }

  lemma ChoppedAlready(lines: seq<string>)
    requires !SomeReturn(lines)
    ensures Chopped(lines) == lines
  {
    assert forall i :: 0 <= i < |lines| ==> !EndsInReturn(lines[i]);
  }

  // ----- one line and the rest ---------------------------------------------------------------

  lemma {:induction false} SplitFirst(a: string, s: string)
    requires '\n' !in a
    ensures Split(a + "\n" + s) == [a] + Split(s)
  {
    var t := a + "\n" + s;
    if a == "" {
      assert t[1..] == s;
    } else {
      assert t[1..] == a[1..] + "\n" + s;
      SplitFirst(a[1..], s);
      assert a == [a[0]] + a[1..];
    }
  }

  lemma StripStep(s: string)
    requires s != ""
    ensures Strip(s) == if StartsWith(s, '\r', '\n') then "\n" + Strip(s[2..]) else [s[0]] + Strip(s[1..])
  {
  }

  lemma {:induction false} StripFirst(a: string, s: string)
    requires '\n' !in a
    ensures Strip(a + "\n" + s) == Chop(a) + "\n" + Strip(s)
  {
    hide Strip;
    var t := a + "\n" + s;
    StripStep(t);
    if a == "" {
      assert t[1..] == s;
    } else if a == "\r" {
      assert t[2..] == s;
    } else {
      assert t[1..] == a[1..] + "\n" + s && t[0] == a[0];
      StripFirst(a[1..], s);
      ChopStep(a);
      assert |a| > 1 ==> t[1] == a[1];
    }
  }

  lemma ChopStep(a: string)
    requires a != "" && a != "\r"
    ensures Chop(a) == [a[0]] + Chop(a[1..])
  {
  }

  lemma {:induction false} ExpandFirst(a: string, s: string)
    requires '\n' !in a
    ensures Expand(a + "\n" + s) == a + "\r" + "\n" + Expand(s)
  {
    var t := a + "\n" + s;
    if a == "" {
      assert t[1..] == s;
    } else {
      assert t[1..] == a[1..] + "\n" + s && t[0] == a[0];
      ExpandFirst(a[1..], s);
      assert a + "\r" + "\n" + Expand(s) == [a[0]] + (a[1..] + "\r" + "\n" + Expand(s));
    }
  }

  lemma ReturnNewlineFirst(a: string, s: string)
    requires '\n' !in a
    ensures HasReturnNewline(a + "\n" + s) <==> EndsInReturn(a) || HasReturnNewline(s)
  {
    var t := a + "\n" + s;
    assert forall k :: 0 <= k < |s| ==> t[|a| + 1 + k] == s[k];
    if EndsInReturn(a) {
      assert t[|a| - 1] == '\r' && t[|a| - 1 + 1] == '\n';
    }
    if HasReturnNewline(s) {
      var k :| 0 <= k < |s| - 1 && s[k] == '\r' && s[k + 1] == '\n';
      assert t[|a| + 1 + k] == '\r' && t[|a| + 1 + k + 1] == '\n';
    }
    if HasReturnNewline(t) {
      var k :| 0 <= k < |t| - 1 && t[k] == '\r' && t[k + 1] == '\n';
      assert forall i :: 0 <= i < |a| ==> t[i] in a;
      if k > |a| {
        assert s[k - |a| - 1] == '\r' && s[k - |a| - 1 + 1] == '\n';
      }
    }
  }

  // ----- whole texts -------------------------------------------------------------------------

  lemma LayFirst(lines: seq<string>)
    requires lines != []
    ensures Lay(lines) == lines[0] + "\n" + Lay(lines[1..])
  {
  }

  lemma {:induction false} SplitLay(lines: seq<string>)
    requires NewlineFree(lines)
    ensures Split(Lay(lines)) == lines + [""]
  {
    hide Split, Lay;
    if lines == [] {
      SplitNothing();
    } else {
      LayFirst(lines);
      SplitFirst(lines[0], Lay(lines[1..]));
      SplitLay(lines[1..]);
      assert lines == [lines[0]] + lines[1..];
    }
  }

  lemma SplitNothing()
    ensures Split(Lay([])) == [""] && Strip(Lay([])) == Lay([]) && Expand(Lay([])) == Lay([])
            && !HasReturnNewline(Lay([]))
  {
  }

  lemma {:induction false} StripLay(lines: seq<string>)
    requires NewlineFree(lines)
    ensures Strip(Lay(lines)) == Lay(Chopped(lines)) && NewlineFree(Chopped(lines))
  {
    hide Strip, Lay;
    if lines == [] {
      SplitNothing();
    } else {
      LayFirst(lines);
      LayFirst(Chopped(lines));
      StripFirst(lines[0], Lay(lines[1..]));
      StripLay(lines[1..]);
      assert Chopped(lines)[1..] == Chopped(lines[1..]);
    }
  }

  lemma {:induction false} ExpandLay(lines: seq<string>)
    requires NewlineFree(lines)
    ensures Expand(Lay(lines)) == Lay(WithReturns(lines))
  {
    hide Expand, Lay;
    if lines == [] {
      SplitNothing();
    } else {
      LayFirst(lines);
      LayFirst(WithReturns(lines));
      ExpandFirst(lines[0], Lay(lines[1..]));
      ExpandLay(lines[1..]);
      assert WithReturns(lines)[1..] == WithReturns(lines[1..]);
    }
  }

  lemma {:induction false} ReturnNewlineLay(lines: seq<string>)
    requires NewlineFree(lines)
    ensures HasReturnNewline(Lay(lines)) <==> SomeReturn(lines)
  {
    hide HasReturnNewline, Lay;
    if lines == [] {
      SplitNothing();
    } else {
      LayFirst(lines);
      ReturnNewlineFirst(lines[0], Lay(lines[1..]));
      ReturnNewlineLay(lines[1..]);
      assert SomeReturn(lines) <==> EndsInReturn(lines[0]) || SomeReturn(lines[1..]) by {
        assert forall i :: 0 < i < |lines| ==> lines[i] == lines[1..][i - 1];
      }
    }
  }

  lemma LayInjective(a: seq<string>, b: seq<string>)
    requires NewlineFree(a) && NewlineFree(b)
    ensures Lay(a) == Lay(b) <==> a == b
  {
    SplitLay(a);
    SplitLay(b);
    assert (a + [""])[..|a|] == a && (b + [""])[..|b|] == b;
  }

  lemma LinesLay(lines: seq<string>)
    requires NewlineFree(lines) && lines != []
    ensures Lay(lines) != "" && Lines(Lay(lines)) == Chopped(lines)
  {
    StripLay(lines);
    SplitLay(Chopped(lines));
    assert (Chopped(lines) + [""])[..|lines|] == Chopped(lines);
    LayFirst(lines);
  }

  /** The lines of any text are free of newlines. */
  lemma LinesNewlineFree(text: string)
    ensures NewlineFree(Lines(text))
  {
  }
}
