/** Texts whose brackets match: a line's depth is the number of brackets open at its start. */
module FormatDepths {
  import opened Outcomes
  import opened FormatPlaces

  // ----- matching brackets -------------------------------------------------------------------

  /** The brackets open after some code, innermost last; none when one is closed by the wrong bracket or was never
      opened. */
  function OpenBrackets(code: string): Option<string> {
    if code == "" then Some("")
    else
      var before, last := OpenBrackets(code[..|code| - 1]), code[|code| - 1];
      if before.None? then None
      else
        var stack := before.value;
        if last == '{' || last == '[' then Some(stack + [last])
        else if last == '}' || last == ']' then
          if stack != "" && stack[|stack| - 1] == (if last == '}' then '{' else '[') then Some(stack[..|stack| - 1])
          else None
        else before
  }

  lemma {:induction false} OpenEarlier(a: string, b: string)
    requires OpenBrackets(a + b).Some?
    ensures OpenBrackets(a).Some?
    decreases |b|
  {
    if b == "" {
      assert a + b == a;
    } else {
      assert (a + b)[..|a + b| - 1] == a + b[..|b| - 1];
      OpenEarlier(a, b[..|b| - 1]);
    }
  }

  lemma {:induction false} OpenCount(code: string)
    requires OpenBrackets(code).Some?
    ensures Balance(code) == |OpenBrackets(code).value|
    decreases |code|
  {
    hide Balance;
    BalanceOne(' ');
    if code != "" {
      var front, last := code[..|code| - 1], code[|code| - 1];
      assert code == front + [last];
      OpenCount(front);
      BalanceAdds(front, [last]);
      BalanceOne(last);
    }
  }

  /** The brackets of the code match, pair by pair. */
  predicate BracketsMatch(lines: seq<string>) {
    OpenBrackets(CodeBefore(lines, |lines|)) == Some("")
  }

  lemma {:induction false} CodeGrows(lines: seq<string>, k: nat, n: nat) returns (more: string)
    requires k <= n <= |lines|
    ensures CodeBefore(lines, n) == CodeBefore(lines, k) + more
    decreases n
  {
    hide CodeOf;
    more := "";
    if k < n {
      more := CodeGrows(lines, k, n - 1);
      var line := CodeOf(lines[n - 1], InComment(lines, n - 1));
      SeqJoins(CodeBefore(lines, k), more, line);
      more := more + line;
    }
  }

  lemma {:induction false} LowestIsZero(lines: seq<string>, k: nat)
    requires k <= |lines| && OpenBrackets(CodeBefore(lines, k)).Some?
    ensures Lowest(lines, k) == 0
  {
    hide Balance, CodeOf;
    BalanceOne(' ');
    OpenCount(CodeBefore(lines, k));
    if k > 0 {
      OpenEarlier(CodeBefore(lines, k - 1), CodeOf(lines[k - 1], InComment(lines, k - 1)));
      LowestIsZero(lines, k - 1);
    }
  }

  /** In a text whose brackets match, a line's depth is the number of brackets open at its start, and in the end none
      is. */
  lemma MatchedDepth(lines: seq<string>, k: nat)
    requires k <= |lines| && BracketsMatch(lines)
    ensures OpenBrackets(CodeBefore(lines, k)).Some? && Depth(lines, k) == |OpenBrackets(CodeBefore(lines, k)).value|
    ensures Depth(lines, |lines|) == 0
  {
    hide Balance, CodeBefore, OpenBrackets;
    var more := CodeGrows(lines, k, |lines|);
    OpenEarlier(CodeBefore(lines, k), more);
    LowestIsZero(lines, k);
    OpenCount(CodeBefore(lines, k));
    LowestIsZero(lines, |lines|);
    OpenCount(CodeBefore(lines, |lines|));
  }

  /** So in such a text every line stands four spaces in for each bracket open at its start, less four when it leads
      with a close, plus four when it is a clause. */
  lemma MatchedPlaces(lines: seq<string>, k: nat)
    requires k < |lines| && BracketsMatch(lines) && !Nothing(lines[k])
    ensures OpenBrackets(CodeBefore(lines, k)).Some?
    ensures var open := |OpenBrackets(CodeBefore(lines, k)).value|;
            var closes := if LeadsWithClose(CodeOf(lines[k], InComment(lines, k))) then 1 else 0;
            var clause := if LeadsWithClause(Content(lines[k])) then 1 else 0;
            && closes <= open
            && PlacedLine(lines, k) == seq(4 * (open - closes + clause), _ => ' ') + Content(lines[k])
  {
    hide Balance, CodeBefore, OpenBrackets, LeadsWithClause, Content, CodeOf;
    MatchedDepth(lines, k);
    if LeadsWithClose(CodeOf(lines[k], InComment(lines, k))) {
      MatchedDepth(lines, k + 1);
      ClosesOpen(lines, k);
    }
  }

  lemma {:induction false} CloseNeedsOpen(before: string, code: string)
    requires LeadsWithClose(code) && OpenBrackets(before + code).Some?
    ensures OpenBrackets(before).Some? && OpenBrackets(before).value != ""
    decreases |code|
  {
    var first, rest := [code[0]], code[1..];
    assert before + code == (before + first) + rest;
    OpenEarlier(before + first, rest);
    assert (before + first)[..|before|] == before;
    if code[0] != '}' && code[0] != ']' {
      CloseNeedsOpen(before + first, rest);
    }
  }

  lemma ClosesOpen(lines: seq<string>, k: nat)
    requires k < |lines| && LeadsWithClose(CodeOf(lines[k], InComment(lines, k)))
    requires OpenBrackets(CodeBefore(lines, k + 1)).Some?
    ensures OpenBrackets(CodeBefore(lines, k)).Some? && OpenBrackets(CodeBefore(lines, k)).value != ""
  {
    hide OpenBrackets, LeadsWithClose, CodeOf;
    CloseNeedsOpen(CodeBefore(lines, k), CodeOf(lines[k], InComment(lines, k)));
  }

  // ----- one text ----------------------------------------------------------------------------

  /** Square brackets close what they opened: the line after them keeps its depth. */
  lemma SquaresKeepDepth()
    ensures var lines := ["{", "[]", "y", "}"]; BracketsMatch(lines) && Depth(lines, 2) == 1 && Depth(lines, 4) == 0
  {
    var lines := ["{", "[]", "y", "}"];
    Plain("{");
    Plain("[]");
    Plain("y");
    Plain("}");
    CodesOf(lines);
    OpensSquares();
    MatchedDepth(lines, 2);
  }

  lemma CodesOf(lines: seq<string>)
    requires lines == ["{", "[]", "y", "}"]
    requires forall k :: 0 <= k < 4 ==> CodeOf(lines[k], false) == lines[k] && !CommentAfter(lines[k], false)
    ensures CodeBefore(lines, 2) == "{[]" && CodeBefore(lines, 4) == "{[]y}"
  {
    hide CodeOf, CommentAfter;
    assert CodeBefore(lines, 1) == "{" && !InComment(lines, 1);
    assert CodeBefore(lines, 2) == "{[]" && !InComment(lines, 2);
    assert CodeBefore(lines, 3) == "{[]y" && !InComment(lines, 3);
  }

  lemma {:induction false} Plain(line: string)
    requires '/' !in line
    ensures CodeOf(line, false) == line && !CommentAfter(line, false)
    decreases |line|
  {
    if line != "" {
      Plain(line[1..]);
      assert line == [line[0]] + line[1..];
    }
  }

  lemma OpenStep(code: string, c: char)
    requires OpenBrackets(code).Some?
    ensures var stack := OpenBrackets(code).value;
            && (c == '{' || c == '[' ==> OpenBrackets(code + [c]) == Some(stack + [c]))
            && (c == ']' && stack != "" && stack[|stack| - 1] == '[' ==>
                  OpenBrackets(code + [c]) == Some(stack[..|stack| - 1]))
            && (c == '}' && stack != "" && stack[|stack| - 1] == '{' ==>
                  OpenBrackets(code + [c]) == Some(stack[..|stack| - 1]))
            && (c !in "{}[]" ==> OpenBrackets(code + [c]) == Some(stack))
  {
    assert (code + [c])[..|code|] == code;
  }

  lemma OpensSquares()
    ensures OpenBrackets("{[]") == Some("{") && OpenBrackets("{[]y}") == Some("")
  {
    assert OpenBrackets("") == Some("");
    hide OpenBrackets;
    OpenStep("", '{');
    assert "" + ['{'] == "{";
    OpenStep("{", '[');
    assert "{" + ['['] == "{[";
    OpenStep("{[", ']');
    assert "{[" + [']'] == "{[]" && "{["[..1] == "{";
    OpenStep("{[]", 'y');
    assert "{[]" + ['y'] == "{[]y";
    OpenStep("{[]y", '}');
    assert "{[]y" + ['}'] == "{[]y}" && "{"[..0] == "";
  }
}
