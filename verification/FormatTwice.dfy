/** Formatting what was formatted before: when nothing changes any more, for every text. */
module FormatTwice {
  import opened Outcomes
  import opened Format
  import opened FormatText
  import opened FormatLines
  import opened FormatLaws

  /** The lines of the result, from the lines of the text. */
  function Canon(lines: seq<string>): seq<string> {
    var out := Indented(Core(lines), START);
    if out == [] then [""] else out
  }

  /** A text made of these lines, with the line end the formatter chose. */
  function Written(crlf: bool, lines: seq<string>): string {
    Lay(if crlf then WithReturns(lines) else lines)
  }

  lemma WrittenInjective(crlf: bool, a: seq<string>, other: bool, b: seq<string>)
    requires NewlineFree(a) && NewlineFree(b)
    ensures Written(crlf, a) == Written(other, b) <==>
              (if crlf then WithReturns(a) else a) == (if other then WithReturns(b) else b)
  {
    ChoppedReturns(a);
    ChoppedReturns(b);
    LayInjective(if crlf then WithReturns(a) else a, if other then WithReturns(b) else b);
  }

  // ----- canonical lines ---------------------------------------------------------------------

  /** What makes lines those of a formatted text. */
  predicate IsCanonical(lines: seq<string>) {
    lines != [] && NewlineFree(lines) && AllIsTrimmed(lines) && AllTrimmed(lines) == lines
    && (lines == [""] || Compact(lines))
    && forall i :: 0 <= i < |lines| ==> !HasCode(Margin(lines[i]))
  }

  lemma CanonIsCanonical(lines: seq<string>)
    requires NewlineFree(lines)
    ensures IsCanonical(Canon(lines))
  {
    hide AllTrimmed, Core, Compact, Indented;
    CoreShape(lines);
    IndentedShape(Core(lines), START);
    if Indented(Core(lines), START) == [] {
      assert IsTrimmed("") && !HasCode(Margin(""));
      assert AllTrimmed([""]) == [""];
    }
  }

  lemma FormattedIs(text: string)
    requires text != ""
    ensures NewlineFree(Lines(text)) && NewlineFree(Canon(Lines(text)))
    ensures Formatted(text) ==
              if Unscannable(AllTrimmed(Lines(text)), START) then None
              else Some(Written(HasReturnNewline(text), Canon(Lines(text))))
  {
    hide Lines, Indented, Core, HasReturnNewline, Expand, Lay;
    LinesNewlineFree(text);
    CanonIsCanonical(Lines(text));
    ExpandLay(Canon(Lines(text)));
    CoreIs(text);
  }

  lemma CoreIs(text: string)
    ensures Canonical(text) == Canon(Lines(text))
  {
  }

  /** The lines the second pass sees, and the line end it chooses. */
  lemma WrittenLines(crlf: bool, lines: seq<string>)
    requires NewlineFree(lines) && lines != []
    ensures var text := Written(crlf, lines);
            && text != ""
            && HasReturnNewline(text) == (crlf || SomeReturn(lines))
            && Lines(text) == (if crlf then lines else Chopped(lines))
  {
    hide Lines, HasReturnNewline, Lay;
    ChoppedReturns(lines);
    var laid := if crlf then WithReturns(lines) else lines;
    LinesLay(laid);
    ReturnNewlineLay(laid);
  }

  // ----- the core of canonical lines ---------------------------------------------------------

  lemma BlankCore()
    ensures Core([""]) == []
  {
    var b := AllTrimmed([""]);
    assert b == [""];
    assert b[..0] == [] && b[1..] == [];
    assert Collapse(b) == [""];
    assert DropLeading([""]) == [] by {
      assert [""][1..] == [];
    }
  }

  lemma CanonicalCore(lines: seq<string>)
    requires IsCanonical(lines)
    ensures Core(lines) == (if lines == [""] then [] else lines)
  {
    hide AllTrimmed, Squeezed;
    if lines == [""] {
      BlankCore();
    } else {
      SqueezeNothing(lines);
    }
  }

  lemma ShornCanonical(lines: seq<string>)
    requires IsCanonical(lines)
    ensures AllTrimmed(Chopped(lines)) == ShornAll(lines)
    ensures Core(Chopped(lines)) == (if lines == [""] then [] else ShornAll(lines))
    ensures lines != [""] ==> Compact(ShornAll(lines))
  {
    hide Squeezed, Trimmed, Chop;
    assert AllTrimmed(Chopped(lines)) == ShornAll(lines);
    forall i | 0 <= i < |lines|
      ensures Shorn(lines[i]) == "" <==> lines[i] == ""
    {
      ShornSame(lines[i], START);
    }
    if lines == [""] {
      BlankCore();
      assert ShornAll(lines) == [""] == AllTrimmed([""]);
    } else {
      SqueezeNothing(ShornAll(lines));
    }
  }

  // ----- the second pass ---------------------------------------------------------------------

  /** Putting every return back gives the same lines exactly when all are tight and in their place. */
  lemma {:induction false} ReturnsAgain(lines: seq<string>, st: State)
    requires AllIsTrimmed(lines)
    ensures WithReturns(Indented(ShornAll(lines), st)) == lines <==> AllTight(lines) && Indented(lines, st) == lines
    decreases |lines|
  {
    hide Shorn, Placed, Advance, Tight, IsTrimmed;
    if lines != [] {
      var rest, next := lines[1..], Advance(lines[0], st);
      ReturnAgain(lines[0], st);
      ShornSame(lines[0], st);
      ReturnsAgain(rest, next);
      assert ShornAll(lines)[1..] == ShornAll(rest);
      var out := WithReturns(Indented(ShornAll(lines), st));
      assert out[0] == Placed(Shorn(lines[0]), st) + "\r";
      assert out[1..] == WithReturns(Indented(ShornAll(rest), next));
      assert lines == [lines[0]] + rest;
      assert out == [out[0]] + out[1..];
      assert AllTight(lines) <==> Tight(lines[0]) && AllTight(rest);
      assert Indented(lines, st) == lines <==> Placed(lines[0], st) == lines[0] && Indented(rest, next) == rest;
    }
  }

  lemma CanonicalScannable(lines: seq<string>)
    requires IsCanonical(lines) && !Unscannable(lines, START)
    ensures !Unscannable(AllTrimmed(Chopped(lines)), START)
  {
    hide IsTrimmed, Trimmed, Chop, Unscannable;
    ShornCanonical(lines);
    ShornAdvance(lines, START);
  }

  /** The second pass over lines without a return at any end, or with one at every end. */
  lemma AgainPlain(crlf: bool, lines: seq<string>)
    requires IsCanonical(lines) && !Unscannable(lines, START) && (crlf || !SomeReturn(lines))
    ensures Formatted(Written(crlf, lines)).Some?
    ensures Formatted(Written(crlf, lines)).value == Written(crlf, lines) <==> Indented(lines, START) == lines
  {
    hide Lines, Unscannable, Indented, AllTrimmed, Squeezed, HasReturnNewline, Written;
    WrittenLines(crlf, lines);
    if !crlf {
      ChoppedAlready(lines);
    }
    CanonicalCore(lines);
    FormattedIs(Written(crlf, lines));
    WrittenInjective(crlf, Canon(lines), crlf, lines);
    SameReturns(Canon(lines), lines);
    BlankIndented();
  }

  lemma SameReturns(a: seq<string>, b: seq<string>)
    ensures WithReturns(a) == WithReturns(b) <==> a == b
  {
    ChoppedReturns(a);
    ChoppedReturns(b);
  }

  lemma BlankIndented()
    ensures Indented([""], START) == [""]
  {
  }

  /** The second pass over lines some of which end in a return, though no line end does. */
  lemma AgainReturns(lines: seq<string>)
    requires IsCanonical(lines) && !Unscannable(lines, START) && SomeReturn(lines)
    ensures Formatted(Written(false, lines)).Some?
    ensures Formatted(Written(false, lines)).value == Written(false, lines) <==>
              AllTight(lines) && Indented(lines, START) == lines
  {
    hide Lines, Unscannable, Indented, AllTrimmed, Squeezed, HasReturnNewline, Written;
    WrittenLines(false, lines);
    ShornCanonical(lines);
    CanonicalScannable(lines);
    assert lines != [""];
    var again := Canon(Chopped(lines));
    assert again == Indented(ShornAll(lines), START);
    FormattedIs(Written(false, lines));
    WrittenInjective(true, again, false, lines);
    ReturnsAgain(lines, START);
  }

  // ----- from the text -----------------------------------------------------------------------

  /** The end of a line survives its placing. */
  lemma PlacedEnd(line: string, st: State)
    requires IsTrimmed(line)
    ensures EndsInReturn(Placed(line, st)) <==> EndsInReturn(line)
    ensures Tight(Placed(line, st)) <==> Tight(line)
  {
    if line != "" {
      MarginAndContent(line);
      hide IsWhitespace, IsSpace, TrimStart;
      var p, c, q := Margin(line), TrimStart(line), Spaces(Levels(line, st) * INDENT_WIDTH);
      ContentEnd(p, c);
      ContentEnd(q, c);
    }
  }

  lemma ContentEnd(p: string, c: string)
    requires c != "" && !IsWhitespace(c[0])
    ensures EndsInReturn(p + c) <==> EndsInReturn(c)
    ensures Tight(p + c) <==> Tight(c)
  {
    ReturnIsWhitespace();
    assert (p + c)[|p + c| - 1] == c[|c| - 1];
    assert |c| >= 2 ==> (p + c)[|p + c| - 2] == c[|c| - 2];
  }

  lemma IndentedEnds(lines: seq<string>, st: State)
    requires AllIsTrimmed(lines)
    ensures SomeReturn(Indented(lines, st)) <==> SomeReturn(lines)
    ensures AllTight(Indented(lines, st)) <==> AllTight(lines)
  {
    hide IsTrimmed, Placed, EndsInReturn, Tight;
    var out := Indented(lines, st);
    forall i | 0 <= i < |out|
      ensures (EndsInReturn(out[i]) <==> EndsInReturn(lines[i])) && (Tight(out[i]) <==> Tight(lines[i]))
    {
      IndentedAt(lines, st, i);
      PlacedEnd(lines[i], After(lines[..i], st));
    }
  }

  /** What a caller can look for before formatting: no close hidden by a margin, and no line end that only
      formatting would turn into a carriage return and a newline. */
  predicate Settled(text: string) {
    var core := Core(Lines(text));
    && !SomeHidden(core, START)
    && (HasReturnNewline(text) || !SomeReturn(core) || AllTight(core))
  }

  lemma FormattedScannable(text: string)
    requires text != "" && Formatted(text).Some?
    ensures !Unscannable(Canon(Lines(text)), START)
  {
    hide Lines, Squeezed, HasReturnNewline;
    FormattedIs(text);
    var lines := Lines(text);
    TrimmedIsTidy(lines);
    SqueezedScannable(AllTrimmed(lines), START);
    CoreShape(lines);
    IndentedScannable(Core(lines), START);
    hide Indented, AllTrimmed;
    BlankScannable();
  }

  lemma BlankScannable()
    ensures !Unscannable([""], START)
  {
  }

  lemma SettledCanon(text: string)
    ensures IsCanonical(Canon(Lines(text)))
    ensures var canon := Canon(Lines(text));
            Settled(text) <==>
              && Indented(canon, START) == canon
              && (HasReturnNewline(text) || !SomeReturn(canon) || AllTight(canon))
  {
    hide Lines, Squeezed, HasReturnNewline, AllTrimmed, EndsInReturn;
    LinesNewlineFree(text);
    CanonIsCanonical(Lines(text));
    CoreShape(Lines(text));
    IndentedAgain(Core(Lines(text)), START);
    IndentedEnds(Core(Lines(text)), START);
    if Indented(Core(Lines(text)), START) == [] {
      BlankIndented();
      BlankEnd();
    }
  }

  lemma BlankEnd()
    ensures !SomeReturn([""]) && !SomeReturn([])
  {
  }

  /** Formatting a formatted text never panics, and it changes nothing exactly when the first text was settled. */
  lemma Idempotent(text: string)
    requires Formatted(text).Some?
    ensures var once := Formatted(text).value;
            && Formatted(once).Some?
            && (Formatted(once).value == once <==> text == "" || Settled(text))
  {
    hide Lines, Squeezed, HasReturnNewline, AllTrimmed, Unscannable, Core, Settled;
    if text != "" {
      FormattedIs(text);
      FormattedScannable(text);
      SettledCanon(text);
      var canon := Canon(Lines(text));
      if HasReturnNewline(text) || !SomeReturn(canon) {
        AgainPlain(HasReturnNewline(text), canon);
      } else {
        AgainReturns(canon);
      }
    }
  }

  // ----- every text settles ------------------------------------------------------------------

  lemma ShornMargins(lines: seq<string>)
    requires IsCanonical(lines) && lines != [""]
    ensures forall i :: 0 <= i < |lines| ==> !HasCode(Margin(ShornAll(lines)[i]))
  {
    hide Margin, HasCode, Shorn, AllTrimmed;
    forall i | 0 <= i < |lines|
      ensures !HasCode(Margin(ShornAll(lines)[i]))
    {
      ShornSame(lines[i], START);
      if lines[i] != "" {
        var w := ShornShape(lines[i]);
      }
    }
  }

  /** Whatever a text was, its formatted form is settled. */
  lemma WrittenSettled(crlf: bool, lines: seq<string>)
    requires IsCanonical(lines)
    ensures Settled(Written(crlf, lines))
  {
    hide Lines, AllTrimmed, HasReturnNewline, Written, Margin, HasCode, Compact, Squeezed, EndsInReturn;
    WrittenLines(crlf, lines);
    if crlf || !SomeReturn(lines) {
      if !crlf {
        ChoppedAlready(lines);
      }
      CanonicalCore(lines);
      NothingHidden(Core(lines), START);
    } else {
      ShornCanonical(lines);
      if lines != [""] {
        ShornMargins(lines);
      }
      NothingHidden(Core(Chopped(lines)), START);
    }
  }

  lemma FormattedSettled(text: string)
    requires text != "" && Formatted(text).Some?
    ensures Settled(Formatted(text).value)
  {
    hide Lines, HasReturnNewline, Unscannable, Core, Settled, Written, IsCanonical, Formatted;
    FormattedIs(text);
    SettledCanon(text);
    WrittenSettled(HasReturnNewline(text), Canon(Lines(text)));
  }

  /** Formatting a third time never changes anything. */
  lemma Settles(text: string)
    requires Formatted(text).Some?
    ensures var once := Formatted(text).value;
            && Formatted(once).Some?
            && Formatted(Formatted(once).value) == Formatted(once)
  {
    if text == "" {
    } else {
      hide Settled, Formatted;
      FormattedSettled(text);
      Idempotent(text);
      Idempotent(Formatted(text).value);
    }
  }
}
