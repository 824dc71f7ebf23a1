/** What a text change does, without the offsets: the places its range names, counted in lines and UTF-16 units, and
    the text between them. */
module EditMeaning {
  import opened Outcomes
  import opened Utf8
  import opened Encodings
  import opened Positions
  import opened PositionMeaning
  import opened Edits
  import opened DocumentStores

  /** Scalar `k` is where a line and a column lead: on that line, or the last one, the first place with at least so many
      units of UTF-16 before it, or else the end of the line's content. */
  ghost predicate LeadsTo(text: string, line: nat, column: nat, k: nat) {
    exists start: nat, end: nat :: OnLineFor(text, line, start, end) && AtColumn(text, column, start, k, end)
  }

  /** The line that starts at `start` and whose content ends at `end` is the one asked for, or the last one. */
  predicate OnLineFor(text: string, line: nat, start: nat, end: nat) {
    && start <= end <= |text| && (start == 0 || text[start - 1] == '\n')
    && (multiset(text[..start])['\n'] == line
        || (multiset(text[..start])['\n'] < line && forall j :: start <= j < |text| ==> text[j] != '\n'))
    && ContentStops(text, end) && forall j :: start <= j < end ==> !ContentStops(text, j)
  }

  predicate AtColumn(text: string, column: nat, start: nat, k: nat, end: nat) {
    && start <= k <= end <= |text|
    && (k == end || |Utf16(text[start..k])| >= column)
    && forall j :: start <= j < k ==> |Utf16(text[start..j])| < column
  }

  lemma OffsetLeads(text: string, line: nat, column: nat) returns (k: nat)
    ensures LeadsTo(text, line, column, k) && k <= |text|
    ensures ScalarsBefore(text, ReferenceOffset(text, line, column)) == k
  {
    hide Encode, Utf16;
    var start, at, end := OffsetMeans(text, line, column);
    k := at;
    assert OnLineFor(text, line, start, end) && AtColumn(text, column, start, k, end);
    ScalarsBeforeOffset(text, k);
  }

  /** A change with a range puts its text in place of what stands between the two places, whichever comes first; all
      before the first and all from the second on stays. */
  lemma EditMeans(text: string, range: TextRange, inserted: string) returns (from: nat, to: nat)
    ensures from <= to <= |text|
    ensures Edited(text, TextChange(Some(range), inserted)) == text[..from] + inserted + text[to..]
    ensures || (LeadsTo(text, range.startLine, range.startCharacter, from)
                && LeadsTo(text, range.endLine, range.endCharacter, to))
            || (LeadsTo(text, range.startLine, range.startCharacter, to)
                && LeadsTo(text, range.endLine, range.endCharacter, from))
  {
    hide LeadsTo;
    var a := OffsetLeads(text, range.startLine, range.startCharacter);
    var b := OffsetLeads(text, range.endLine, range.endCharacter);
    from, to := if a <= b then a else b, if a <= b then b else a;
  }

  /** The last change without a range. */
  predicate LastWhole(changes: seq<TextChange>, i: nat) {
    && i < |changes| && changes[i].range.None?
    && forall j :: i < j < |changes| ==> changes[j].range.Some?
  }

  lemma {:induction false} FullIs(changes: seq<TextChange>) returns (i: nat)
    ensures HasFull(changes) <==> i < |changes|
    ensures HasFull(changes) ==> LastWhole(changes, i) && LastFull(changes) == changes[i]
    ensures !HasFull(changes) ==> forall j :: 0 <= j < |changes| ==> changes[j].range.Some?
    decreases |changes|
  {
    var n := |changes| - 1;
    if changes == [] {
      i := 0;
    } else if changes[n].range.None? {
      i := n;
    } else {
      i := FullIs(changes[..n]);
      assert changes == changes[..n] + [changes[n]];
      i := if i < n then i else n + 1;
    }
  }

  /** A list of changes comes to the text of its last change without a range, or else to its changes one after the
      other. */
  lemma ChangesMean(current: string, changes: seq<TextChange>) returns (i: nat)
    ensures i < |changes| ==> LastWhole(changes, i) && Incremental(current, changes) == changes[i].text
    ensures i >= |changes| ==>
              && (forall j :: 0 <= j < |changes| ==> changes[j].range.Some?)
              && Incremental(current, changes) == EditedAll(current, changes)
  {
    hide EditedAll, HasFull, LastFull;
    i := FullIs(changes);
  }

  /** One change after the other. */
  lemma OneByOne(text: string, changes: seq<TextChange>)
    ensures EditedAll(text, []) == text
    ensures changes != [] ==> EditedAll(text, changes) ==
                                Edited(EditedAll(text, changes[..|changes| - 1]), changes[|changes| - 1])
  {
    if changes != [] {
      var front, last := changes[..|changes| - 1], changes[|changes| - 1];
      assert changes == front + [last];
      EditsCompose(text, front, [last]);
      assert [last][1..] == [];
      assert EditedAll(EditedAll(text, front), [last]) == EditedAll(Edited(EditedAll(text, front), last), [last][1..]);
    }
  }
}
