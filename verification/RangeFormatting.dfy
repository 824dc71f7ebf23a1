/** Formatting part of a document (crates/service-core/src/format.rs): whole-line edits in the service's own
    positions, and what applying them comes to. An edit names its span twice, by line and column and by byte;
    the two halves do not always mean the same span. */
module RangeFormatting {
  import opened Outcomes
  import opened Utf8
  import opened CoordinateKernel
  import opened Positions
  import opened LineIndexing
  import opened Coords
  import opened Edits
  import F = Format
  import L = FormatLaws
  import T = FormatText

  // ----- a text line by line -----------------------------------------------------------------

  function Units16(s: string): nat {
    if s == "" then 0 else Width16(s[0]) + Units16(s[1..])
  }

  lemma EncodeLength(s: string, t: string)
    ensures |Encode(s + t)| == |Encode(s)| + |Encode(t)|
  {
    EncodeConcat(s, t);
  }

  lemma {:induction false} ScanText(a: string, s: string, requested: nat, at: Position)
    requires '\n' !in a && requested >= at.byte + |Encode(a)|
    ensures ScanFrom(a + s, requested, at)
              == ScanFrom(s, requested, Position(at.line, at.character + Units16(a), at.byte + |Encode(a)|))
    decreases |a|
  {
    if a == "" {
      assert a + s == s;
    } else {
      assert (a + s)[0] == a[0] && (a + s)[1..] == a[1..] + s;
      ScanText(a[1..], s, requested, Position(at.line, at.character + Width16(a[0]), at.byte + Width8(a[0])));
    }
  }

  lemma ScanNewline(s: string, requested: nat, at: Position)
    requires requested > at.byte
    ensures ScanFrom("\n" + s, requested, at) == ScanFrom(s, requested, Position(at.line + 1, 0, at.byte + 1))
  {
    assert ("\n" + s)[1..] == s;
  }

  lemma ScanStops(s: string, at: Position)
    ensures ScanFrom(s, at.byte, at) == at
  {
  }

  lemma {:induction false} ScanLay(lines: seq<string>, s: string, requested: nat, at: Position)
    requires T.NewlineFree(lines) && requested >= at.byte + |Encode(F.Lay(lines))| && at.character == 0
    ensures ScanFrom(F.Lay(lines) + s, requested, at)
            == ScanFrom(s, requested, Position(at.line + |lines|, 0, at.byte + |Encode(F.Lay(lines))|))
    decreases |lines|
  {
    hide ScanFrom, Encode, F.Lay;
    if lines == [] {
      LayNothing();
      assert "" + s == s;
    } else {
      var a, rest := lines[0], F.Lay(lines[1..]);
      LayParts(lines);
      assert F.Lay(lines) + s == a + ("\n" + (rest + s));
      ScanText(a, "\n" + (rest + s), requested, at);
      ScanNewline(rest + s, requested, Position(at.line, at.character + Units16(a), at.byte + |Encode(a)|));
      ScanLay(lines[1..], s, requested, Position(at.line + 1, 0, at.byte + |Encode(a)| + 1));
    }
  }

  lemma LayNothing()
    ensures F.Lay([]) == "" && Encode("") == []
  {
  }

  lemma LayParts(lines: seq<string>)
    requires lines != []
    ensures F.Lay(lines) == lines[0] + "\n" + F.Lay(lines[1..])
    ensures |Encode(F.Lay(lines))| == |Encode(lines[0])| + 1 + |Encode(F.Lay(lines[1..]))|
  {
    EncodeLength(lines[0] + "\n", F.Lay(lines[1..]));
    EncodeLength(lines[0], "\n");
    assert |Encode("\n")| == 1;
  }

  lemma {:induction false} SkipOne(a: string, s: string, n: nat)
    requires '\n' !in a && n > 0
    ensures SkipLines(a + "\n" + s, n) == SkipLines(s, n - 1)
    decreases |a|
  {
    var t := a + "\n" + s;
    assert t[|a|] == '\n';
    if a == "" {
      assert t[1..] == s;
    } else {
      assert t[0] == a[0] && t[1..] == a[1..] + "\n" + s;
      SkipOne(a[1..], s, n);
    }
  }

  lemma {:induction false} SkipLay(lines: seq<string>, s: string)
    requires T.NewlineFree(lines)
    ensures SkipLines(F.Lay(lines) + s, |lines|) == s
    decreases |lines|
  {
    hide Encode, F.Lay;
    if lines == [] {
      LayNothing();
      assert "" + s == s;
    } else {
      LayParts(lines);
      var rest := F.Lay(lines[1..]);
      assert F.Lay(lines) + s == lines[0] + "\n" + (rest + s);
      SkipOne(lines[0], rest + s, |lines|);
      SkipLay(lines[1..], s);
    }
  }

  lemma {:induction false} FirstLineOf(a: string, s: string)
    requires '\n' !in a
    ensures FirstLine(a + "\n" + s) == T.Chop(a) && FirstLine(a) == a
    decreases |a|
  {
    var t := a + "\n" + s;
    if a != "" {
      assert t[0] == a[0] && t[1..] == a[1..] + "\n" + s;
      assert |a| > 1 ==> t[1] == a[1];
      assert |a| == 1 ==> t[1] == '\n';
      FirstLineOf(a[1..], s);
      assert a == [a[0]] + a[1..];
      if |a| > 1 {
        assert T.Chop(a) == [a[0]] + T.Chop(a[1..]);
      }
    }
  }

  lemma {:induction false} WalkAll(content: string, column: nat)
    requires column >= Units16(content)
    ensures Walk(content, column) == |Encode(content)|
    decreases |content|
  {
    if content != "" {
      WalkAll(content[1..], column - Width16(content[0]));
    }
  }

  lemma {:induction false} ChopUnits(a: string)
    ensures Units16(T.Chop(a)) <= Units16(a)
    decreases |a|
  {
    if |a| > 1 {
      ChopUnits(a[1..]);
      assert T.Chop(a) == [a[0]] + T.Chop(a[1..]);
    }
  }

  // ----- one whole-line edit -----------------------------------------------------------------

  /** What stands behind a line: nothing, or a newline and more. */
  predicate Behind(rest: string) {
    rest == "" || rest[0] == '\n'
  }

  /** The part of a line that positions can address: all of it, but for a return before a newline. */
  function Content(line: string, rest: string): string {
    if rest == "" then line else T.Chop(line)
  }

  lemma FirstLineContent(line: string, rest: string)
    requires '\n' !in line && Behind(rest)
    ensures FirstLine(line + rest) == Content(line, rest)
  {
    hide FirstLine, T.Chop;
    if rest == "" {
      FirstLineOf(line, "");
      assert line + rest == line;
    } else {
      FirstLineOf(line, rest[1..]);
      assert line + rest == line + "\n" + rest[1..];
    }
  }

  lemma ContentSplits(line: string, rest: string)
    ensures line == Content(line, rest) + (if rest != "" && T.EndsInReturn(line) then "\r" else "")
  {
  }

  lemma ContentIs(line: string, rest: string)
    requires '\n' !in line && Behind(rest)
    ensures FirstLine(line + rest) == Content(line, rest) && Units16(Content(line, rest)) <= Units16(line)
    ensures line == Content(line, rest) + (if rest != "" && T.EndsInReturn(line) then "\r" else "")
  {
    hide FirstLine, T.Chop, Units16;
    ChopUnits(line);
    FirstLineContent(line, rest);
    ContentSplits(line, rest);
  }

  function WholeLine(line: string, index: nat, replacement: string): TextChange {
    TextChange(Some(TextRange(index, 0, index, Units16(line))), replacement)
  }

  lemma OffsetsOf(before: seq<string>, line: string, rest: string)
    requires T.NewlineFree(before) && '\n' !in line && Behind(rest)
    ensures var text := F.Lay(before) + (line + rest);
            && ReferenceOffset(text, |before|, 0) == |Encode(F.Lay(before))|
            && ReferenceOffset(text, |before|, Units16(line)) == |Encode(F.Lay(before) + Content(line, rest))|
  {
    hide Encode, F.Lay, Walk, SkipLines, FirstLine, Content;
    SkipLay(before, line + rest);
    ContentIs(line, rest);
    WalkAll(Content(line, rest), Units16(line));
    WalkNothing(Content(line, rest));
    EncodeLength(F.Lay(before), line + rest);
    EncodeLength(F.Lay(before), Content(line, rest));
  }

  lemma WalkNothing(content: string)
    ensures Walk(content, 0) == 0
  {
  }

  lemma ScalarsBeforePrefix(p: string, q: string)
    ensures ScalarsBefore(p + q, |Encode(p)|) == |p|
  {
    hide Encode, ScalarsBefore;
    ScalarsBeforeOffset(p + q, |p|);
    assert (p + q)[..|p|] == p;
  }

  lemma EndsHere(before: seq<string>, line: string, rest: string)
    requires T.NewlineFree(before) && '\n' !in line && Behind(rest)
    ensures var head, content := F.Lay(before), Content(line, rest);
            Ends(head + (line + rest), WholeLine(line, |before|, "").range.value) == (|head|, |head + content|)
  {
    hide Encode, F.Lay, ReferenceOffset, ScalarsBefore, Content;
    var head, content := F.Lay(before), Content(line, rest);
    var kept := if rest != "" && T.EndsInReturn(line) then "\r" else "";
    ContentIs(line, rest);
    OffsetsOf(before, line, rest);
    ScalarsBeforePrefix(head, line + rest);
    assert head + (line + rest) == (head + content) + (kept + rest);
    ScalarsBeforePrefix(head + content, kept + rest);
  }

  lemma Splice(head: string, content: string, tail: string, replacement: string)
    ensures var text := head + (content + tail);
            text[..|head|] + replacement + text[|head + content|..] == head + (replacement + tail)
  {
    assert head + (content + tail) == (head + content) + tail;
  }

  /** The edit that names a whole line replaces what positions can address of it; a return before the line's
      newline stays. */
  lemma EditHere(before: seq<string>, line: string, rest: string, replacement: string)
    requires T.NewlineFree(before) && '\n' !in line && Behind(rest)
    ensures Edited(F.Lay(before) + (line + rest), WholeLine(line, |before|, replacement))
            == F.Lay(before) + (replacement + (if rest != "" && T.EndsInReturn(line) then "\r" else "") + rest)
  {
    hide Ends, F.Lay, Content, T.EndsInReturn, T.NewlineFree, Behind, Encode, Units16, Edited;
    var kept := if rest != "" && T.EndsInReturn(line) then "\r" else "";
    ContentIs(line, rest);
    EndsHere(before, line, rest);
    SeqAssociates(Content(line, rest), kept, rest);
    SeqAssociates(replacement, kept, rest);
    EditedBetween(F.Lay(before), Content(line, rest), kept + rest, WholeLine(line, |before|, replacement));
  }

  lemma EditedBetween(head: string, content: string, tail: string, change: TextChange)
    requires change.range.Some?
    requires var text := head + (content + tail); Ends(text, change.range.value) == (|head|, |head + content|)
    ensures Edited(head + (content + tail), change) == head + (change.text + tail)
  {
    hide Ends;
    Splice(head, content, tail, change.text);
  }

  // ----- the edits of a range ----------------------------------------------------------------

  datatype SingleEdit = SingleEdit(range: RangeInfo, newText: string)

  /** The line and column half of an edit. */
  function AsChange(edit: SingleEdit): TextChange {
    var range := edit.range;
    TextChange(Some(TextRange(range.startLine, range.startCharacter, range.endLine, range.endCharacter)), edit.newText)
  }

  function AsChanges(edits: seq<SingleEdit>): seq<TextChange> {
    if edits == [] then [] else [AsChange(edits[0])] + AsChanges(edits[1..])
  }

  /** The edit that replaces line `k`. */
  function LineReplaced(current: seq<string>, k: nat, replacement: string): SingleEdit
    requires k < |current|
  {
    var start := |Encode(F.Lay(current[..k]))|;
    SingleEdit(RangeInfo(k, 0, k, Units16(current[k]), start, start + |Encode(current[k])|), replacement)
  }

  predicate Touched(current: seq<string>, formatted: seq<string>, from: nat, to: nat, k: nat)
    requires |current| == |formatted| && k < |current|
  {
    from <= k <= to && current[k] != formatted[k]
  }

  /** The edits for lines `k` and on. */
  function RangeEdits(current: seq<string>, formatted: seq<string>, from: nat, to: nat, k: nat): seq<SingleEdit>
    requires |current| == |formatted| && k <= |current|
    decreases |current| - k
  {
    if k == |current| then []
    else
      (if Touched(current, formatted, from, to, k) then [LineReplaced(current, k, formatted[k])] else [])
      + RangeEdits(current, formatted, from, to, k + 1)
  }

  /** Line `k` once the edits are applied. */
  function PatchedLine(current: seq<string>, formatted: seq<string>, from: nat, to: nat, k: nat): string
    requires |current| == |formatted| && k < |current|
  {
    if Touched(current, formatted, from, to, k)
    then formatted[k] + (if k + 1 < |current| && T.EndsInReturn(current[k]) then "\r" else "")
    else current[k]
  }

  function Patched(current: seq<string>, formatted: seq<string>, from: nat, to: nat): (r: seq<string>)
    requires |current| == |formatted|
    ensures |r| == |current| && forall k :: 0 <= k < |r| ==> r[k] == PatchedLine(current, formatted, from, to, k)
  {
    seq(|current|, k requires 0 <= k < |current| => PatchedLine(current, formatted, from, to, k))
  }

  lemma JoinedParts(lines: seq<string>, k: nat)
    requires k < |lines|
    ensures F.Joined(lines[k..]) == lines[k] + (if k + 1 < |lines| then "\n" + F.Joined(lines[k + 1..]) else "")
    ensures k + 1 < |lines| ==> F.Lay(lines[..k + 1]) == F.Lay(lines[..k]) + (lines[k] + "\n")
  {
    assert lines[k..][1..] == lines[k + 1..];
    if k + 1 < |lines| {
      assert lines[..k + 1] == lines[..k] + [lines[k]];
      LayConcat(lines[..k], [lines[k]]);
      assert [lines[k]][1..] == [];
      assert F.Lay([lines[k]]) == lines[k] + "\n" + "";
    }
  }

  lemma {:induction false} LayConcat(a: seq<string>, b: seq<string>)
    ensures F.Lay(a + b) == F.Lay(a) + F.Lay(b)
    decreases |a|
  {
    if a == [] {
      assert a + b == b;
    } else {
      assert (a + b)[0] == a[0] && (a + b)[1..] == a[1..] + b;
      LayConcat(a[1..], b);
    }
  }

  lemma OneEdit(text: string, edit: SingleEdit, more: seq<SingleEdit>)
    ensures EditedAll(text, AsChanges([edit] + more)) == EditedAll(Edited(text, AsChange(edit)), AsChanges(more))
    ensures EditedAll(text, AsChanges([] + more)) == EditedAll(text, AsChanges(more))
  {
    hide Edited;
    assert ([edit] + more)[1..] == more && [] + more == more;
    var rest := AsChanges(more);
    assert ([AsChange(edit)] + rest)[1..] == rest;
  }

  /** Applying the edits one after the other patches line after line. */
  lemma {:induction false} PatchesFrom(current: seq<string>, formatted: seq<string>, from: nat, to: nat, k: nat)
    requires |current| == |formatted| && k < |current| && T.NewlineFree(current) && T.NewlineFree(formatted)
    ensures var out := Patched(current, formatted, from, to);
            EditedAll(F.Lay(out[..k]) + F.Joined(current[k..]), AsChanges(RangeEdits(current, formatted, from, to, k)))
            == F.Lay(out[..k]) + F.Joined(out[k..])
    decreases |current| - k
  {
    hide Edited, EditedAll, AsChanges, Encode, Units16, F.Lay, F.Joined;
    var out := Patched(current, formatted, from, to);
    var rest := if k + 1 < |current| then "\n" + F.Joined(current[k + 1..]) else "";
    var text := F.Lay(out[..k]) + F.Joined(current[k..]);
    var more := RangeEdits(current, formatted, from, to, k + 1);
    JoinedParts(current, k);
    JoinedParts(out, k);
    PatchedFree(current, formatted, from, to);
    var next := F.Lay(out[..k]) + (out[k] + rest);
    if Touched(current, formatted, from, to, k) {
      EditHere(out[..k], current[k], rest, formatted[k]);
    }
    OneEdit(text, LineReplaced(current, k, formatted[k]), more);
    assert EditedAll(text, AsChanges(RangeEdits(current, formatted, from, to, k))) == EditedAll(next, AsChanges(more));
    if k + 1 < |current| {
      assert next == F.Lay(out[..k + 1]) + F.Joined(current[k + 1..]);
      PatchesFrom(current, formatted, from, to, k + 1);
      assert F.Lay(out[..k + 1]) + F.Joined(out[k + 1..])
          == F.Lay(out[..k]) + (out[k] + ("\n" + F.Joined(out[k + 1..])));
    } else {
      NoMoreEdits(next);
    }
  }

  lemma NoMoreEdits(text: string)
    ensures EditedAll(text, AsChanges([])) == text
  {
  }

  lemma PatchedFree(current: seq<string>, formatted: seq<string>, from: nat, to: nat)
    requires |current| == |formatted| && T.NewlineFree(current) && T.NewlineFree(formatted)
    ensures T.NewlineFree(Patched(current, formatted, from, to))
  {
  }

  // ----- the byte half of the edits ----------------------------------------------------------

  /** The edits' byte spans lie one behind the other between `at` and `end`. */
  predicate InOrder(edits: seq<SingleEdit>, at: nat, end: nat)
    decreases |edits|
  {
    && at <= end
    && (edits != [] ==>
          var range := edits[0].range;
          at <= range.startByte <= range.endByte <= end && InOrder(edits[1..], range.endByte, end))
  }

  /** The bytes from `at` on with each edit's span replaced, all at once. */
  function Spliced(b: seq<Byte>, edits: seq<SingleEdit>, at: nat): seq<Byte>
    requires InOrder(edits, at, |b|)
    decreases |edits|
  {
    if edits == [] then b[at..]
    else
      var range := edits[0].range;
      b[at..range.startByte] + (Encode(edits[0].newText) + Spliced(b, edits[1..], range.endByte))
  }

  /** The lines with those of the range taken from `formatted`. */
  function Replaced(current: seq<string>, formatted: seq<string>, from: nat, to: nat): (r: seq<string>)
    requires |current| == |formatted|
    ensures |r| == |current|
    ensures forall k :: 0 <= k < |r| ==> r[k] == if from <= k <= to then formatted[k] else current[k]
  {
    seq(|current|, k requires 0 <= k < |current| => if from <= k <= to then formatted[k] else current[k])
  }

  lemma SplitSlice<T>(b: seq<T>, at: nat, next: nat, start: nat, rest: seq<T>)
    requires at <= next <= start <= |b|
    ensures b[at..start] + rest == b[at..next] + (b[next..start] + rest)
  {
  }

  lemma SpliceSkips(b: seq<Byte>, edits: seq<SingleEdit>, at: nat, next: nat)
    requires at <= next && InOrder(edits, next, |b|)
    ensures InOrder(edits, at, |b|) && Spliced(b, edits, at) == b[at..next] + Spliced(b, edits, next)
  {
    if edits == [] {
      assert b[at..] == b[at..next] + b[next..];
    } else {
      var start, rest := edits[0].range.startByte, Encode(edits[0].newText)
          + Spliced(b, edits[1..], edits[0].range.endByte);
      SplitSlice(b, at, next, start, rest);
    }
  }

  lemma SpliceHere(b: seq<Byte>, edit: SingleEdit, more: seq<SingleEdit>)
    requires edit.range.startByte <= edit.range.endByte && InOrder(more, edit.range.endByte, |b|)
    ensures InOrder([edit] + more, edit.range.startByte, |b|)
    ensures Spliced(b, [edit] + more, edit.range.startByte)
              == Encode(edit.newText) + Spliced(b, more, edit.range.endByte)
  {
    assert ([edit] + more)[1..] == more;
    var rest := Encode(edit.newText) + Spliced(b, more, edit.range.endByte);
    assert b[edit.range.startByte..edit.range.startByte] + rest == rest;
  }

  /** Where line `k` and the newline behind it stand in the bytes. */
  lemma LineSpan(lines: seq<string>, k: nat)
    requires k < |lines|
    ensures var b := Encode(F.Joined(lines));
            var start := |Encode(F.Lay(lines[..k]))|;
            var end := start + |Encode(lines[k])|;
            && end <= |b| && b[start..end] == Encode(lines[k])
            && (k + 1 == |lines| ==> end == |b|)
            && (k + 1 < |lines| ==> end < |b| && b[end] == NEWLINE && |Encode(F.Lay(lines[..k + 1]))| == end + 1)
  {
    hide F.Lay, F.Joined, Encode;
    JoinedFrom(lines, k);
    JoinedParts(lines, k);
    var head, line := F.Lay(lines[..k]), lines[k];
    var rest := if k + 1 < |lines| then "\n" + F.Joined(lines[k + 1..]) else "";
    EncodeConcat(head, line + rest);
    EncodeConcat(line, rest);
    if k + 1 < |lines| {
      EncodeConcat(head, line + "\n");
      EncodeConcat(line, "\n");
      EncodeConcat("\n", F.Joined(lines[k + 1..]));
      EncodeNewline();
    } else {
      LayNothing();
    }
  }

  lemma EncodeNewline()
    ensures Encode("\n") == [NEWLINE]
  {
    assert "\n"[1..] == "";
  }

  lemma EncodeLine(line: string, rest: string)
    ensures Encode(line + ("\n" + rest)) == Encode(line) + ([NEWLINE] + Encode(rest))
  {
    hide Encode;
    EncodeConcat(line, "\n" + rest);
    EncodeConcat("\n", rest);
    EncodeNewline();
  }

  /** Splicing in the edits of lines `k` and on gives those lines, replaced where the range says so. */
  lemma {:induction false} SplicesFrom(current: seq<string>, formatted: seq<string>, from: nat, to: nat, k: nat)
    requires |current| == |formatted| && k < |current|
    ensures var b, edits := Encode(F.Joined(current)), RangeEdits(current, formatted, from, to, k);
            var at := |Encode(F.Lay(current[..k]))|;
            && InOrder(edits, at, |b|)
            && Spliced(b, edits, at) == Encode(F.Joined(Replaced(current, formatted, from, to)[k..]))
    decreases |current| - k
  {
    hide F.Lay, F.Joined, Encode, Spliced, InOrder, Units16;
    var b, out := Encode(F.Joined(current)), Replaced(current, formatted, from, to);
    var more := RangeEdits(current, formatted, from, to, k + 1);
    var start := |Encode(F.Lay(current[..k]))|;
    var end := start + |Encode(current[k])|;
    LineSpan(current, k);
    JoinedParts(out, k);
    if k + 1 < |current| {
      SplicesFrom(current, formatted, from, to, k + 1);
      SpliceSkips(b, more, end, end + 1);
      EncodeLine(out[k], F.Joined(out[k + 1..]));
      assert b[end..end + 1] == [NEWLINE];
    } else {
      SpliceNothing(b);
      EndOfBytes(out[k]);
    }
    if Touched(current, formatted, from, to, k) {
      SpliceHere(b, LineReplaced(current, k, formatted[k]), more);
    } else {
      SpliceSkips(b, more, start, end);
      assert [] + more == more;
    }
  }

  lemma SpliceNothing(b: seq<Byte>)
    ensures InOrder([], |b|, |b|) && Spliced(b, [], |b|) == []
  {
  }

  lemma EndOfBytes(line: string)
    ensures line + "" == line && Encode(line) + [] == Encode(line)
  {
  }

  /** For every text and every range, splicing the edits' byte spans into the text's bytes gives exactly the
      lines with those of the range formatted. */
  lemma ByteEditsExact(text: string, formatted: string, from: nat, to: nat)
    requires |F.Split(text)| == |F.Split(formatted)|
    ensures var current, wanted := F.Split(text), F.Split(formatted);
            var edits := RangeEdits(current, wanted, from, to, 0);
            && InOrder(edits, 0, |Encode(text)|)
            && Spliced(Encode(text), edits, 0) == Encode(F.Joined(Replaced(current, wanted, from, to)))
  {
    hide F.Split, F.Joined, F.Lay, RangeEdits, Encode, Spliced, InOrder;
    var current, wanted := F.Split(text), F.Split(formatted);
    SplitFree(text);
    JoinedSplit(text);
    LayNothing();
    SplicesFrom(current, wanted, from, to, 0);
    var out := Replaced(current, wanted, from, to);
    assert current[..0] == [] && out[0..] == out;
  }

  /** The byte edits of the whole document rebuild the formatted text, whatever its line ends. */
  lemma WholeRangeBytes(text: string, formatted: string, to: nat)
    requires |F.Split(text)| == |F.Split(formatted)| <= to + 1
    ensures var edits := RangeEdits(F.Split(text), F.Split(formatted), 0, to, 0);
            InOrder(edits, 0, |Encode(text)|) && Spliced(Encode(text), edits, 0) == Encode(formatted)
  {
    hide F.Split, F.Joined, RangeEdits, Encode, Spliced, InOrder;
    ByteEditsExact(text, formatted, 0, to);
    JoinedSplit(formatted);
    assert Replaced(F.Split(text), F.Split(formatted), 0, to) == F.Split(formatted);
  }

  // ----- whole texts -------------------------------------------------------------------------

  lemma {:induction false} JoinedSplit(s: string)
    ensures F.Joined(F.Split(s)) == s
    decreases |s|
  {
    if s != "" {
      var rest := F.Split(s[1..]);
      JoinedSplit(s[1..]);
      assert s == [s[0]] + s[1..];
      if s[0] == '\n' {
        assert ([""] + rest)[1..] == rest;
      } else {
        var all := [[s[0]] + rest[0]] + rest[1..];
        assert all[1..] == rest[1..];
        JoinedFirst(rest);
        JoinedFirst(all);
      }
    }
  }

  lemma JoinedFirst(lines: seq<string>)
    requires lines != []
    ensures F.Joined(lines) == lines[0] + (if |lines| == 1 then "" else "\n" + F.Joined(lines[1..]))
  {
  }

  lemma {:induction false} SplitJoined(lines: seq<string>)
    requires lines != [] && T.NewlineFree(lines)
    ensures F.Split(F.Joined(lines)) == lines
    decreases |lines|
  {
    if |lines| == 1 {
      SplitOne(lines[0]);
      assert lines == [lines[0]];
    } else {
      T.SplitFirst(lines[0], F.Joined(lines[1..]));
      SplitJoined(lines[1..]);
    }
  }

  lemma {:induction false} SplitOne(line: string)
    requires '\n' !in line
    ensures F.Split(line) == [line]
    decreases |line|
  {
    if line != "" {
      SplitOne(line[1..]);
      assert line == [line[0]] + line[1..];
    }
  }

  lemma JoinedInjective(a: seq<string>, b: seq<string>)
    requires a != [] && b != [] && T.NewlineFree(a) && T.NewlineFree(b)
    ensures F.Joined(a) == F.Joined(b) <==> a == b
  {
    SplitJoined(a);
    SplitJoined(b);
  }

  lemma SplitFree(s: string)
    ensures T.NewlineFree(F.Split(s)) && F.Split(s) != []
  {
  }

  /** Applying the edits of a range of lines gives the patched lines. */
  lemma EditsPatch(text: string, formatted: string, from: nat, to: nat)
    requires |F.Split(text)| == |F.Split(formatted)|
    ensures EditedAll(text, AsChanges(RangeEdits(F.Split(text), F.Split(formatted), from, to, 0)))
            == F.Joined(Patched(F.Split(text), F.Split(formatted), from, to))
  {
    hide F.Split, F.Lay, F.Joined, EditedAll, AsChanges;
    var current, wanted := F.Split(text), F.Split(formatted);
    SplitFree(text);
    SplitFree(formatted);
    PatchesFrom(current, wanted, from, to, 0);
    LayNothing();
    JoinedSplit(text);
    var out := Patched(current, wanted, from, to);
    assert out[..0] == [] && out[0..] == out && current[0..] == current;
    assert "" + text == text && "" + F.Joined(out) == F.Joined(out);
  }

  /** A touched line with a return before its newline. */
  predicate Torn(current: seq<string>, formatted: seq<string>, k: nat)
    requires |current| == |formatted| && k < |current|
  {
    k + 1 < |current| && current[k] != formatted[k] && T.EndsInReturn(current[k])
  }

  /** The line and column edits of a range format exactly the range if and only if no line of it that is to be
      changed ends in a return and a newline: positions cannot address that return, so an edit leaves it behind. */
  lemma RangeRebuilt(text: string, formatted: string, from: nat, to: nat)
    requires |F.Split(text)| == |F.Split(formatted)|
    ensures var current, wanted := F.Split(text), F.Split(formatted);
            EditedAll(text, AsChanges(RangeEdits(current, wanted, from, to, 0)))
                == F.Joined(Replaced(current, wanted, from, to))
            <==> forall k :: 0 <= k < |current| && from <= k <= to ==> !Torn(current, wanted, k)
  {
    hide F.Split, F.Joined, EditedAll, AsChanges, RangeEdits, T.EndsInReturn;
    var current, wanted := F.Split(text), F.Split(formatted);
    var patched, replaced := Patched(current, wanted, from, to), Replaced(current, wanted, from, to);
    EditsPatch(text, formatted, from, to);
    SplitFree(text);
    SplitFree(formatted);
    PatchedFree(current, wanted, from, to);
    JoinedInjective(patched, replaced);
    forall k | 0 <= k < |current|
      ensures patched[k] == replaced[k] <==> !(from <= k <= to && Torn(current, wanted, k))
    {
      Longer(wanted[k]);
    }
    if patched == replaced {
      forall k | 0 <= k < |current| && from <= k <= to
        ensures !Torn(current, wanted, k)
      {
        assert patched[k] == replaced[k];
      }
    }
  }

  /** So the line and column edits of the whole document rebuild the formatted text exactly when no line to be
      changed ends that way. */
  lemma WholeRange(text: string, formatted: string)
    requires |F.Split(text)| == |F.Split(formatted)|
    ensures var current, wanted := F.Split(text), F.Split(formatted);
            EditedAll(text, AsChanges(RangeEdits(current, wanted, 0, |current|, 0))) == formatted
            <==> forall k :: 0 <= k < |current| ==> !Torn(current, wanted, k)
  {
    hide F.Split, F.Joined, EditedAll, AsChanges, RangeEdits, Torn;
    var current, wanted := F.Split(text), F.Split(formatted);
    RangeRebuilt(text, formatted, 0, |current|);
    JoinedSplit(formatted);
    assert Replaced(current, wanted, 0, |current|) == wanted;
  }

  lemma Longer(line: string)
    ensures line + "\r" != line && line + "" == line
  {
    assert |line + "\r"| == |line| + 1;
  }

  /** Without a return before any newline the edits of the whole document rebuild the formatted text. */
  lemma WholeRangePlain(text: string, formatted: string)
    requires |F.Split(text)| == |F.Split(formatted)| && !F.HasReturnNewline(text)
    ensures EditedAll(text, AsChanges(RangeEdits(F.Split(text), F.Split(formatted), 0, |F.Split(text)|, 0)))
              == formatted
  {
    hide F.Split, F.Joined, EditedAll, AsChanges, RangeEdits, F.HasReturnNewline;
    WholeRange(text, formatted);
    var current, wanted := F.Split(text), F.Split(formatted);
    forall k | 0 <= k < |current|
      ensures !Torn(current, wanted, k)
    {
      if Torn(current, wanted, k) {
        SplitFree(text);
        JoinedSplit(text);
        ReturnBetween(current, k);
      }
    }
  }

  lemma ReturnBetween(lines: seq<string>, k: nat)
    requires k + 1 < |lines| && T.NewlineFree(lines) && T.EndsInReturn(lines[k])
    ensures F.HasReturnNewline(F.Joined(lines))
  {
    hide F.Lay, F.Joined;
    JoinedParts(lines, k);
    JoinedFrom(lines, k);
    var head, rest := F.Lay(lines[..k]), F.Joined(lines[k + 1..]);
    var text := F.Joined(lines);
    assert text == head + (lines[k] + ("\n" + rest));
    var at := |head| + |lines[k]| - 1;
    assert text[at] == '\r' && text[at + 1] == '\n';
  }

  lemma {:induction false} JoinedFrom(lines: seq<string>, k: nat)
    requires k < |lines|
    ensures F.Joined(lines) == F.Lay(lines[..k]) + F.Joined(lines[k..])
    decreases k
  {
    hide F.Lay, F.Joined;
    if k == 0 {
      LayNothing();
      assert lines[..0] == [] && lines[0..] == lines && "" + F.Joined(lines) == F.Joined(lines);
    } else {
      JoinedFrom(lines, k - 1);
      JoinedParts(lines, k - 1);
      assert F.Lay(lines[..k - 1]) + (lines[k - 1] + ("\n" + F.Joined(lines[k..])))
          == F.Lay(lines[..k - 1]) + (lines[k - 1] + "\n") + F.Joined(lines[k..]);
    }
  }

  /** Lines outside the range stay as they are, whatever the text. */
  lemma OutsideStays(text: string, formatted: string, from: nat, to: nat, k: nat)
    requires |F.Split(text)| == |F.Split(formatted)| && k < |F.Split(text)| && !(from <= k <= to)
    ensures var edited := EditedAll(text, AsChanges(RangeEdits(F.Split(text), F.Split(formatted), from, to, 0)));
            |F.Split(edited)| == |F.Split(text)| && F.Split(edited)[k] == F.Split(text)[k]
  {
    hide F.Split, F.Joined, EditedAll, AsChanges, RangeEdits, T.EndsInReturn;
    EditsPatch(text, formatted, from, to);
    SplitFree(text);
    SplitFree(formatted);
    PatchedFree(F.Split(text), F.Split(formatted), from, to);
    SplitJoined(Patched(F.Split(text), F.Split(formatted), from, to));
  }

  /** A line with a return before its newline and a blank to drop: the line and column edit leaves two returns,
      the byte edit one. */
  lemma TornLine()
    ensures var text, formatted := "x \r\n", "x\r\n";
            && F.Formatted(text) == Some(formatted)
            && F.Split(text) == ["x \r", ""] && F.Split(formatted) == ["x\r", ""]
            && Torn(F.Split(text), F.Split(formatted), 0)
            && var edits := RangeEdits(F.Split(text), F.Split(formatted), 0, 0, 0);
               && EditedAll(text, AsChanges(edits)) == "x\r\r\n"
               && InOrder(edits, 0, |Encode(text)|) && Spliced(Encode(text), edits, 0) == Encode("x\r\n")
  {
    hide F.Split, F.Lay, F.Joined, F.Formatted, RangeEdits, EditedAll, AsChanges, InOrder, Spliced, Encode;
    LayX("x \r");
    LayX("x\r");
    LayX("x\r\r");
    assert "x \r" + "\n" == "x \r\n" && "x\r" + "\n" == "x\r\n" && "x\r\r" + "\n" == "x\r\r\n";
    TornFormatted();
    EditsPatch("x \r\n", "x\r\n", 0, 0);
    assert "x\r" + "\r" == "x\r\r" && |"x \r"| == 3;
    assert Patched(["x \r", ""], ["x\r", ""], 0, 0) == ["x\r\r", ""];
    ByteEditsExact("x \r\n", "x\r\n", 0, 0);
    assert Replaced(["x \r", ""], ["x\r", ""], 0, 0) == ["x\r", ""];
  }

  lemma LayX(line: string)
    requires '\n' !in line
    ensures F.Lay([line]) == line + "\n" && F.Joined([line, ""]) == line + "\n"
    ensures F.Split(line + "\n") == [line, ""]
  {
    hide F.Split;
    assert [line][1..] == [] && [line, ""][1..] == [""];
    T.SplitLay([line]);
    assert [line] + [""] == [line, ""];
  }

  lemma TrimmedX()
    ensures F.AllTrimmed(["x "]) == ["x"]
  {
    assert F.Trimmed("x ") == "x";
  }

  lemma PlacedX()
    ensures F.Placed("x", F.START) == "x" && !F.Panics("x", false)
  {
    assert "x"[1..] == "";
    assert F.TrimStart("x") == "x" && !F.IsClauseContinuation("x") && F.LeadingCloses("x", false) == 0;
    assert F.Spaces(0) + "x" == "x";
  }

  lemma IndentedX()
    ensures F.Indented(["x"], F.START) == ["x"] && !F.Unscannable(["x"], F.START)
  {
    hide F.Placed, F.Panics, F.Advance;
    PlacedX();
    assert ["x"][1..] == [];
  }

  lemma TornFormatted()
    ensures F.Formatted(F.Lay(["x \r"])) == Some(F.Lay(["x\r"]))
  {
    hide F.Lay, F.AllTrimmed, F.Squeezed, F.Indented, F.Unscannable, F.Expand, F.HasReturnNewline, F.Lines;
    var lines := ["x \r"];
    T.LinesLay(lines);
    T.ReturnNewlineLay(lines);
    assert T.EndsInReturn(lines[0]);
    assert T.Chopped(lines)[0] == "x ";
    assert T.Chopped(lines) == ["x "];
    TrimmedX();
    L.SqueezeNothing(["x"]);
    IndentedX();
    T.ExpandLay(["x"]);
    assert T.WithReturns(["x"])[0] == "x\r";
    assert T.WithReturns(["x"]) == ["x\r"];
  }

  // ----- the operation -----------------------------------------------------------------------

  datatype Ranged = AlreadyFormatted | Unsupported | Changes(edits: seq<SingleEdit>)

  function Max(a: nat, b: nat): (r: nat)
    ensures a <= r && b <= r && (r == a || r == b)
  {
    if a <= b then b else a
  }

  /** Some lookup of line `k` is refused by the coordinate index. */
  ghost predicate LookupRefused(text: string, tail: CutTail, lines: seq<string>, k: nat)
    requires k < |lines|
  {
    EncodeWellFormed(text);
    var b := Encode(text);
    var start := ReferenceOffset(text, k, 0);
    || OffsetRefused(b, tail, k, 0)
    || PositionRefused(b, tail, Min(start, |b|))
    || PositionRefused(b, tail, Min(start + |Encode(lines[k])|, |b|))
  }

  /** The positions of a line's two ends, and so the edit's range: past the content of a line that ends in a
      return and a newline the column goes on counting, and the byte stays the one asked for. */
  lemma LineRange(text: string, lines: seq<string>, k: nat)
    requires lines == F.Split(text) && k < |lines|
    ensures var start := ReferenceOffset(text, k, 0);
            && start == |Encode(F.Lay(lines[..k]))|
            && ReferencePosition(text, start) == Position(k, 0, start)
            && ReferencePosition(text, start + |Encode(lines[k])|)
                == Position(k, Units16(lines[k]), start + |Encode(lines[k])|)
  {
    hide Encode, F.Lay, F.Joined, F.Split, ScanFrom, ReferenceOffset, Content;
    SplitFree(text);
    JoinedSplit(text);
    JoinedFrom(lines, k);
    JoinedParts(lines, k);
    var before, line, rest := lines[..k], lines[k], if k + 1 < |lines| then "\n" + F.Joined(lines[k + 1..]) else "";
    OffsetsOf(before, line, rest);
    var at := Position(0, 0, 0);
    var start := |Encode(F.Lay(before))|;
    ScanLay(before, line + rest, start, at);
    ScanStops(line + rest, Position(k, 0, start));
    ScanLay(before, line + rest, start + |Encode(line)|, at);
    ScanText(line, rest, start + |Encode(line)|, Position(k, 0, start));
    ScanStops(rest, Position(k, Units16(line), start + |Encode(line)|));
  }

  /** A touched line of the range has a lookup the index refuses. */
  ghost predicate SomeRefused(text: string, formatted: string, startLine: nat, endLine: nat, tail: CutTail) {
    var current, wanted := F.Split(text), F.Split(formatted);
    && formatted != text && |current| == |wanted|
    && exists k :: 0 <= k < |current|
                   && Touched(current, wanted, Min(startLine, endLine), Max(startLine, endLine), k)
                   && LookupRefused(text, tail, current, k)
  }

  lemma RangeEditsStep(current: seq<string>, formatted: seq<string>, from: nat, to: nat)
    requires |current| == |formatted|
    ensures RangeEdits(current, formatted, from, to, |current|) == []
    ensures forall k :: 0 <= k < |current| ==>
              RangeEdits(current, formatted, from, to, k) ==
                (if Touched(current, formatted, from, to, k) then [LineReplaced(current, k, formatted[k])] else [])
                + RangeEdits(current, formatted, from, to, k + 1)
  {
  }

  /** `range_formatting` */
  method RangeFormat(text: string, startLine: nat, endLine: nat, tail: CutTail) returns (r: Result<Ranged>)
    ensures r.Ok? ==>
              && F.Formatted(text).Some?
              && var formatted := F.Formatted(text).value;
                 var current, wanted := F.Split(text), F.Split(formatted);
                 r.value ==
                   if formatted == text then AlreadyFormatted
                   else if |current| != |wanted| then Unsupported
                   else
                     var edits := RangeEdits(current, wanted, Min(startLine, endLine), Max(startLine, endLine), 0);
                     if edits == [] then AlreadyFormatted else Changes(edits)
    ensures r.Err? <==> F.Formatted(text).None? || SomeRefused(text, F.Formatted(text).value, startLine, endLine, tail)
  {
    hide F.Formatted, F.Split, LookupRefused, RangeEdits, Touched;
    var result := F.FormatText(text);
    if result.None? {
      return Err;
    }
    var formatted := result.value;
    if formatted == text {
      return Ok(AlreadyFormatted);
    }
    var from, to := Min(startLine, endLine), Max(startLine, endLine);
    var current, wanted := F.Split(text), F.Split(formatted);
    if |current| != |wanted| {
      return Ok(Unsupported);
    }
    var edits := LineEdits(text, current, wanted, from, to, tail);
    if edits.Err? {
      return Err;
    }
    return Ok(if edits.value == [] then AlreadyFormatted else Changes(edits.value));
  }

  /** The loop over the lines. */
  method LineEdits(text: string, current: seq<string>, wanted: seq<string>, from: nat, to: nat, tail: CutTail)
    returns (r: Result<seq<SingleEdit>>)
    requires current == F.Split(text) && |current| == |wanted|
    ensures r.Ok? ==> r.value == RangeEdits(current, wanted, from, to, 0)
    ensures r.Err? <==>
              exists k :: 0 <= k < |current| && Touched(current, wanted, from, to, k) &&
                          LookupRefused(text, tail, current, k)
  {
    hide F.Split, Encode, LookupRefused, RangeEdits, PositionMap.Valid;
    var map_ := new PositionMap(text, Encode(text), tail);
    var edits: seq<SingleEdit> := [];
    RangeEditsStep(current, wanted, from, to);
    for index := 0 to |current|
      invariant fresh(map_) && fresh(map_.lines.Values) && map_.Valid() && map_.source == Encode(text)
                && map_.text == text && map_.tail == tail
      invariant edits + RangeEdits(current, wanted, from, to, index) == RangeEdits(current, wanted, from, to, 0)
      invariant forall k :: 0 <= k < index && Touched(current, wanted, from, to, k) ==>
                  !LookupRefused(text, tail, current, k)
    {
      RangeEditsStep(current, wanted, from, to);
      if from <= index <= to && current[index] != wanted[index] {
        var edit := LineEdit(map_, Encode(text), text, current, index, wanted[index]);
        if edit.Err? {
          return Err;
        }
        edits := edits + [edit.value];
      }
    }
    return Ok(edits);
  }

  /** The edit of one line, by three lookups. */
  method LineEdit(map_: PositionMap, bytes: seq<Byte>, ghost text: string, current: seq<string>, index: nat,
                  replacement: string)
    returns (r: Result<SingleEdit>)
    requires map_.Valid() && map_.source == bytes && map_.text == text
    requires current == F.Split(text) && index < |current|
    modifies map_, map_.lines.Values
    ensures map_.Valid() && fresh(map_.lines.Values - old(map_.lines.Values))
    ensures r.Ok? ==> r.value == LineReplaced(current, index, replacement)
    ensures r.Err? <==> LookupRefused(text, map_.tail, current, index)
  {
    hide F.Split, Encode, PositionMap.Valid, ReferenceOffset, ReferencePosition, PositionRefused, OffsetRefused;
    LineRange(text, current, index);
    var start := map_.OffsetOf(bytes, index, 0);
    if start.Err? {
      return Err;
    }
    var range := map_.RangeOf(bytes, start.value, start.value + |Encode(current[index])|);
    if range.Err? {
      return Err;
    }
    return Ok(SingleEdit(range.value, replacement));
  }
}
