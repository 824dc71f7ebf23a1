/** The bounded completion collector (crates/service-core/src/render.rs): candidates in batches of 64, each
    batch filtered by the native kernel or by the host, duplicates dropped, the rest sorted and cut. */
module Completions {
  import opened Outcomes
  import opened Ordered
  import opened Utf8

  const MAX_TEXT_MATCH_ITEMS: nat := 64
  const MAX_TEXT_MATCH_BYTES: nat := 64
  const MAX_COMPLETION_ITEMS: nat := 200

  datatype Candidate = Candidate(labelText: string, detail: string)

  /** The native prefix kernel: any mask, or none. */
  type Kernel = (seq<string>, string) -> Option<seq<bool>>

  // ----- specification -----------------------------------------------------------------------

  predicate Has(prefix: string, c: Candidate) {
    prefix <= c.labelText
  }

  function Filtered(candidates: seq<Candidate>, prefix: string): seq<Candidate> {
    if candidates == [] then []
    else
      var n := |candidates| - 1;
      Filtered(candidates[..n], prefix) + (if Has(prefix, candidates[n]) then [candidates[n]] else [])
  }

  function Labels(candidates: seq<Candidate>): (r: seq<string>)
    ensures |r| == |candidates| && forall i :: 0 <= i < |r| ==> r[i] == candidates[i].labelText
  {
    seq(|candidates|, i requires 0 <= i < |candidates| => candidates[i].labelText)
  }

  ghost function LabelSet(candidates: seq<Candidate>): set<string> {
    set c | c in candidates :: c.labelText
  }

  lemma LabelSetGrows(candidates: seq<Candidate>, c: Candidate)
    ensures LabelSet(candidates + [c]) == LabelSet(candidates) + {c.labelText}
  {
    assert forall x :: x in candidates + [c] <==> x in candidates || x == c;
    assert c in candidates + [c];
  }

  /** The first candidate of every label. */
  ghost function Deduplicated(candidates: seq<Candidate>): seq<Candidate> {
    if candidates == [] then []
    else
      var n := |candidates| - 1;
      Deduplicated(candidates[..n])
          + (if candidates[n].labelText in LabelSet(candidates[..n]) then [] else [candidates[n]])
  }

  /** What the collector holds after some candidates. */
  ghost function Kept(candidates: seq<Candidate>, prefix: string, filter: bool, deduplicate: bool): seq<Candidate> {
    var passed := if filter then Filtered(candidates, prefix) else candidates;
    if deduplicate then Deduplicated(passed) else passed
  }

  /** What the kernel may be asked: at most 64 labels, each and the prefix of at most 64 bytes. */
  predicate InEnvelope(labels: seq<string>, prefix: string) {
    |labels| <= 64 && |Encode(prefix)| <= 64 && forall i :: 0 <= i < |labels| ==> |Encode(labels[i])| <= 64
  }

  /** Inside its envelope the kernel answers correctly whenever it answers with a mask of the right length. */
  ghost predicate Honest(kernel: Kernel) {
    forall labels, prefix :: InEnvelope(labels, prefix) ==> Rightly(labels, prefix, kernel(labels, prefix))
  }

  ghost predicate Rightly(labels: seq<string>, prefix: string, mask: Option<seq<bool>>) {
    mask.Some? && |mask.value| == |labels| ==> forall i :: 0 <= i < |labels| ==>
        (mask.value[i] <==> prefix <= labels[i])
  }

  // ----- the collector -----------------------------------------------------------------------

  class CompletionCollector {
    const prefix: string
    const filterByPrefix: bool
    const deduplicate: bool
    const kernel: Kernel
    var seen: set<string>
    var pending: seq<Candidate>
    var items: seq<Candidate>
    /** Every candidate considered so far. */
    ghost var considered: seq<Candidate>

    ghost predicate Valid()
      reads this
    {
      && |pending| < MAX_TEXT_MATCH_ITEMS && |pending| <= |considered|
      && pending == considered[|considered| - |pending|..]
      && (!filterByPrefix ==> pending == [])
      && Holds(considered[..|considered| - |pending|])
    }

    /** The items are what these candidates leave. */
    ghost predicate Holds(candidates: seq<Candidate>)
      reads this
    {
      && items == Kept(candidates, prefix, filterByPrefix, deduplicate)
      && (deduplicate ==> seen == LabelSet(items))
    }

    constructor (prefix: string, filterByPrefix: bool, deduplicate: bool, kernel: Kernel)
      ensures Valid() && considered == [] && this.kernel == kernel
      ensures this.prefix == prefix && this.filterByPrefix == filterByPrefix && this.deduplicate == deduplicate
    {
      this.prefix, this.filterByPrefix, this.deduplicate, this.kernel := prefix, filterByPrefix, deduplicate, kernel;
      seen, pending, items, considered := {}, [], [], [];
    }

    /** `push` */
    method Push(candidate: Candidate, ghost before: seq<Candidate>)
      requires Holds(before) && (filterByPrefix ==> Has(prefix, candidate))
      modifies this`seen, this`items
      ensures Holds(before + [candidate])
    {
      hide Kept, LabelSet;
      PushKeeps(before, prefix, filterByPrefix, deduplicate, candidate);
      LabelSetGrows(items, candidate);
      if !deduplicate || candidate.labelText !in seen {
        if deduplicate {
          seen := seen + {candidate.labelText};
        }
        items := items + [candidate];
      }
    }

    /** The native mask of a batch, when prefix and labels are short enough and the kernel answers for all. */
    method NativeMask(batch: seq<Candidate>) returns (mask: Option<seq<bool>>)
      requires Honest(kernel) && |batch| <= 64
      ensures mask.Some? ==> |mask.value| == |batch| && forall i :: 0 <= i < |batch| ==>
                (mask.value[i] <==> Has(prefix, batch[i]))
    {
      hide Honest, Encode, Has;
      mask := None;
      if |Encode(prefix)| <= MAX_TEXT_MATCH_BYTES && forall i :: 0 <= i < |batch| ==>
          |Encode(batch[i].labelText)| <= MAX_TEXT_MATCH_BYTES {
        assert InEnvelope(Labels(batch), prefix);
        mask := kernel(Labels(batch), prefix);
        if mask.Some? && |mask.value| != |batch| {
          mask := None;
        }
      }
      MaskIs(kernel, batch, prefix, mask);
    }

    /** `flush_prefix_batch` */
    method FlushPrefixBatch()
      requires filterByPrefix && Honest(kernel) && |pending| <= 64 && |pending| <= |considered|
               && pending == considered[|considered| - |pending|..]
      requires Holds(considered[..|considered| - |pending|])
      modifies this`seen, this`items, this`pending
      ensures Valid() && pending == []
    {
      hide Kept, LabelSet, Has;
      var batch := pending;
      ghost var before := considered[..|considered| - |pending|];
      pending := [];
      var mask := NativeMask(batch);
      assert before + batch[..0] == before;
      for index := 0 to |batch|
        invariant pending == [] && Holds(before + batch[..index])
      {
        var matches := if mask.Some? then mask.value[index] else Has(prefix, batch[index]);
        assert before + batch[..index + 1] == before + batch[..index] + [batch[index]];
        if matches {
          Push(batch[index], before + batch[..index]);
        } else {
          SkipKeeps(before + batch[..index], prefix, deduplicate, batch[index]);
        }
      }
      assert batch[..|batch|] == batch && before + batch == considered;
      assert considered[..|considered|] == considered && considered[|considered|..] == [];
    }

    /** `consider` */
    method Consider(candidate: Candidate)
      requires Valid() && Honest(kernel)
      modifies this
      ensures Valid() && considered == old(considered) + [candidate]
    {
      ghost var before := considered[..|considered| - |pending|];
      considered := considered + [candidate];
      if filterByPrefix {
        pending := pending + [candidate];
        assert considered[..|considered| - |pending|] == before;
        if |pending| == MAX_TEXT_MATCH_ITEMS {
          FlushPrefixBatch();
        }
      } else {
        assert before == old(considered);
        Push(candidate, before);
        assert considered[..|considered|] == considered;
      }
    }

    /** `finish` */
    method Finish(sortAndLimit: bool) returns (out: seq<Candidate>)
      requires Valid() && Honest(kernel)
      modifies this
      ensures var kept := Kept(considered, prefix, filterByPrefix, deduplicate);
              && (!sortAndLimit ==> out == kept)
              && (sortAndLimit ==> out == Head(SortedByLabel(kept), 200))
      ensures considered == old(considered)
    {
      if filterByPrefix {
        FlushPrefixBatch();
      }
      assert considered[..|considered|] == considered;
      out := items;
      if sortAndLimit {
        var sorted := SortLabels(items);
        out := Head(sorted, MAX_COMPLETION_ITEMS);
      }
    }
  }

  /** A mask the collector goes by says of every candidate of the batch whether it has the prefix. */
  lemma MaskIs(kernel: Kernel, batch: seq<Candidate>, prefix: string, mask: Option<seq<bool>>)
    requires Honest(kernel)
    requires mask.None? || (InEnvelope(Labels(batch), prefix) && mask == kernel(Labels(batch), prefix)
                            && |mask.value| == |batch|)
    ensures mask.Some? ==> forall i :: 0 <= i < |batch| ==> (mask.value[i] <==> Has(prefix, batch[i]))
  {
    hide InEnvelope;
    if mask.Some? {
      assert Rightly(Labels(batch), prefix, kernel(Labels(batch), prefix));
    }
    forall i | mask.Some? && 0 <= i < |batch|
      ensures mask.value[i] <==> Has(prefix, batch[i])
    {
      assert Labels(batch)[i] == batch[i].labelText;
    }
  }

  lemma PushKeeps(before: seq<Candidate>, prefix: string, filter: bool, deduplicate: bool, c: Candidate)
    requires filter ==> Has(prefix, c)
    ensures var kept := Kept(before, prefix, filter, deduplicate);
            Kept(before + [c], prefix, filter, deduplicate) == if deduplicate && c.labelText in LabelSet(kept)
                then kept else kept + [c]
  {
    hide Has;
    assert (before + [c])[..|before|] == before;
    var passed := if filter then Filtered(before, prefix) else before;
    assert (passed + [c])[..|passed|] == passed;
    SameLabels(passed);
  }

  lemma SkipKeeps(before: seq<Candidate>, prefix: string, deduplicate: bool, c: Candidate)
    requires !Has(prefix, c)
    ensures Kept(before + [c], prefix, true, deduplicate) == Kept(before, prefix, true, deduplicate)
  {
    assert (before + [c])[..|before|] == before;
    assert Filtered(before, prefix) + [] == Filtered(before, prefix);
  }

  lemma {:induction false} SameLabels(candidates: seq<Candidate>)
    ensures LabelSet(Deduplicated(candidates)) == LabelSet(candidates)
  {
    if candidates != [] {
      var n := |candidates| - 1;
      var front, last := candidates[..n], candidates[n];
      SameLabels(front);
      assert candidates == front + [last];
      LabelSetGrows(front, last);
      LabelSetGrows(Deduplicated(front), last);
      assert LabelSet(front) + {last.labelText} == LabelSet(candidates);
    }
  }

  // ----- sorting by label --------------------------------------------------------------------

  /** A candidate goes behind those whose label is not greater. */
  function Inserted(sorted: seq<Candidate>, c: Candidate): seq<Candidate> {
    if sorted == [] || !TextLess(c.labelText, sorted[|sorted| - 1].labelText) then sorted + [c]
    else Inserted(sorted[..|sorted| - 1], c) + [sorted[|sorted| - 1]]
  }

  function SortedByLabel(candidates: seq<Candidate>): seq<Candidate> {
    if candidates == [] then []
        else Inserted(SortedByLabel(candidates[..|candidates| - 1]), candidates[|candidates| - 1])
  }

  /** The standard library's stable `sort_by` on the label. */
  method SortLabels(candidates: seq<Candidate>) returns (sorted: seq<Candidate>)
    ensures sorted == SortedByLabel(candidates)
  {
    hide Inserted;
    sorted := [];
    for i := 0 to |candidates|
      invariant sorted == SortedByLabel(candidates[..i])
    {
      assert candidates[..i + 1][..i] == candidates[..i];
      sorted := Inserted(sorted, candidates[i]);
    }
    assert candidates[..|candidates|] == candidates;
  }

  ghost predicate LabelSorted(candidates: seq<Candidate>) {
    forall i, j :: 0 <= i < j < |candidates| ==> !TextLess(candidates[j].labelText, candidates[i].labelText)
  }

  lemma {:induction false} InsertedMembers(sorted: seq<Candidate>, c: Candidate)
    ensures forall i :: 0 <= i < |Inserted(sorted, c)| ==>
              Inserted(sorted, c)[i] == c || Inserted(sorted, c)[i] in sorted
  {
    if sorted != [] && TextLess(c.labelText, sorted[|sorted| - 1].labelText) {
      InsertedMembers(sorted[..|sorted| - 1], c);
    }
  }

  lemma {:induction false} InsertedIs(sorted: seq<Candidate>, c: Candidate)
    requires LabelSorted(sorted)
    ensures LabelSorted(Inserted(sorted, c)) && multiset(Inserted(sorted, c)) == multiset(sorted) + multiset{c}
  {
    hide TextLess;
    TextOrder();
    if sorted != [] && TextLess(c.labelText, sorted[|sorted| - 1].labelText) {
      var front, last := sorted[..|sorted| - 1], sorted[|sorted| - 1];
      assert sorted == front + [last];
      InsertedIs(front, c);
      InsertedMembers(front, c);
      var out := Inserted(front, c);
      forall i | 0 <= i < |out|
        ensures !TextLess(last.labelText, out[i].labelText)
      {
        assert out[i] == c || out[i] in front;
      }
    }
  }

  /** The sorted list ascends and holds the same candidates. */
  lemma {:induction false} SortedIs(candidates: seq<Candidate>)
    ensures LabelSorted(SortedByLabel(candidates)) && multiset(SortedByLabel(candidates)) == multiset(candidates)
  {
    if candidates != [] {
      var front, last := candidates[..|candidates| - 1], candidates[|candidates| - 1];
      assert candidates == front + [last];
      SortedIs(front);
      InsertedIs(SortedByLabel(front), last);
    }
  }

  // ----- what is kept ------------------------------------------------------------------------

  /** Candidate `i` is the first of its label. */
  predicate FirstOfLabel(candidates: seq<Candidate>, i: nat)
    requires i < |candidates|
  {
    forall j :: 0 <= j < i ==> candidates[j].labelText != candidates[i].labelText
  }

  lemma NewLabel(candidates: seq<Candidate>, n: nat)
    requires n < |candidates|
    ensures FirstOfLabel(candidates, n) <==> candidates[n].labelText !in LabelSet(candidates[..n])
  {
    assert forall j :: 0 <= j < n ==> candidates[..n][j] == candidates[j];
  }

  lemma LabelsIn(candidates: seq<Candidate>)
    ensures forall i :: 0 <= i < |candidates| ==> candidates[i].labelText in LabelSet(candidates)
  {
    assert forall i :: 0 <= i < |candidates| ==> candidates[i] in candidates;
  }

  /** The candidate is the first of its label somewhere in the list. */
  ghost predicate FirstIn(candidates: seq<Candidate>, c: Candidate) {
    exists i: nat :: i < |candidates| && candidates[i] == c && FirstOfLabel(candidates, i)
  }

  lemma FirstInGrows(front: seq<Candidate>, last: Candidate, c: Candidate)
    ensures FirstIn(front + [last], c) <==> FirstIn(front, c) || (c == last && last.labelText !in LabelSet(front))
  {
    var all := front + [last];
    NewLabel(all, |front|);
    assert all[..|front|] == front;
    hide LabelSet;
    assert forall i: nat :: i < |front| ==> all[i] == front[i] && (FirstOfLabel(front, i) <==> FirstOfLabel(all, i));
  }

  lemma {:induction false} DeduplicatedMembers(candidates: seq<Candidate>)
    ensures forall c :: c in Deduplicated(candidates) <==> FirstIn(candidates, c)
  {
    hide LabelSet, FirstIn;
    if candidates == [] {
      NoneFirst();
    } else {
      var n := |candidates| - 1;
      var front, last := candidates[..n], candidates[n];
      DeduplicatedMembers(front);
      assert candidates == front + [last];
      forall c
        ensures c in Deduplicated(candidates) <==> FirstIn(candidates, c)
      {
        FirstInGrows(front, last, c);
      }
    }
  }

  lemma NoneFirst()
    ensures forall c :: !FirstIn([], c)
  {
  }

  lemma {:induction false} DeduplicatedDistinct(candidates: seq<Candidate>)
    ensures forall i, j :: 0 <= i < j < |Deduplicated(candidates)| ==>
              Deduplicated(candidates)[i].labelText != Deduplicated(candidates)[j].labelText
  {
    hide LabelSet;
    if candidates != [] {
      var front := candidates[..|candidates| - 1];
      DeduplicatedDistinct(front);
      SameLabels(front);
      LabelsIn(Deduplicated(front));
    }
  }

  /** Deduplication keeps exactly the first candidate of every label, each label once. */
  lemma DeduplicatedIs(candidates: seq<Candidate>)
    ensures forall c :: c in Deduplicated(candidates) <==> FirstIn(candidates, c)
    ensures forall i, j :: 0 <= i < j < |Deduplicated(candidates)| ==>
              Deduplicated(candidates)[i].labelText != Deduplicated(candidates)[j].labelText
  {
    DeduplicatedMembers(candidates);
    DeduplicatedDistinct(candidates);
  }

  /** Filtering keeps exactly the candidates that have the prefix. */
  lemma {:induction false} FilteredIs(candidates: seq<Candidate>, prefix: string)
    ensures forall c :: c in Filtered(candidates, prefix) <==> c in candidates && Has(prefix, c)
  {
    if candidates != [] {
      var n := |candidates| - 1;
      FilteredIs(candidates[..n], prefix);
      assert candidates == candidates[..n] + [candidates[n]];
    }
  }

  /** Some candidate with the prefix, before which no other has its label. */
  ghost predicate Offered(candidates: seq<Candidate>, prefix: string, c: Candidate) {
    && prefix <= c.labelText
    && exists i :: 0 <= i < |candidates| && candidates[i] == c && FirstOfLabel(candidates, i)
  }

  /** The offered candidates in ascending order of their labels, no label twice, at most 200: those left out have
      greater labels than all that are there. */
  ghost predicate Offers(candidates: seq<Candidate>, prefix: string, out: seq<Candidate>) {
    && (forall c :: c in out ==> Offered(candidates, prefix, c))
    && (forall i, j :: 0 <= i < j < |out| ==> TextLess(out[i].labelText, out[j].labelText))
    && |out| <= 200
    && (forall c :: Offered(candidates, prefix, c) && c !in out ==>
          |out| == 200 && forall i :: 0 <= i < |out| ==> TextLess(out[i].labelText, c.labelText))
  }

  /** The first of a label among the candidates with a prefix is the first of it among all. */
  lemma {:induction false} FirstFiltered(candidates: seq<Candidate>, prefix: string, c: Candidate)
    ensures FirstIn(Filtered(candidates, prefix), c) <==> Offered(candidates, prefix, c)
  {
    hide FirstIn, LabelSet, Offered;
    OfferedIs(candidates, prefix, c);
    if candidates == [] {
      NoneFirst();
    } else {
      var n := |candidates| - 1;
      var front, last := candidates[..n], candidates[n];
      assert candidates == front + [last];
      assert Filtered(candidates, prefix) == Filtered(front, prefix) + (if Has(prefix, last) then [last] else []);
      FirstFiltered(front, prefix, c);
      FirstInGrows(front, last, c);
      OfferedIs(front, prefix, c);
      if Has(prefix, last) {
        FirstInGrows(Filtered(front, prefix), last, c);
        FilteredLabels(front, prefix, last.labelText);
      } else {
        assert Filtered(candidates, prefix) == Filtered(front, prefix);
      }
    }
  }

  lemma OfferedIs(candidates: seq<Candidate>, prefix: string, c: Candidate)
    ensures Offered(candidates, prefix, c) <==> Has(prefix, c) && FirstIn(candidates, c)
  {
  }

  lemma FilteredLabels(candidates: seq<Candidate>, prefix: string, text: string)
    requires prefix <= text
    ensures text in LabelSet(Filtered(candidates, prefix)) <==> text in LabelSet(candidates)
  {
    FilteredIs(candidates, prefix);
    if text in LabelSet(candidates) {
      var c :| c in candidates && c.labelText == text;
      assert c in Filtered(candidates, prefix);
    }
  }

  predicate DistinctLabels(candidates: seq<Candidate>) {
    forall i, j :: 0 <= i < j < |candidates| ==> candidates[i].labelText != candidates[j].labelText
  }

  lemma {:induction false} CountOnce(kept: seq<Candidate>, c: Candidate)
    requires DistinctLabels(kept)
    ensures multiset(kept)[c] <= 1
  {
    if kept != [] {
      var n := |kept| - 1;
      CountOnce(kept[..n], c);
      assert kept == kept[..n] + [kept[n]];
      assert kept[n] !in kept[..n];
    }
  }

  lemma CountTwice(sorted: seq<Candidate>, i: nat, j: nat)
    requires i < j < |sorted| && sorted[i] == sorted[j]
    ensures multiset(sorted)[sorted[i]] >= 2
  {
    assert sorted == sorted[..j] + sorted[j..];
    assert sorted[..j][i] == sorted[i] && sorted[j..][0] == sorted[j];
  }

  /** Sorted distinct labels ascend strictly. */
  lemma StrictLabels(kept: seq<Candidate>, sorted: seq<Candidate>)
    requires LabelSorted(sorted) && multiset(sorted) == multiset(kept) && DistinctLabels(kept)
    ensures forall i, j :: 0 <= i < j < |sorted| ==> TextLess(sorted[i].labelText, sorted[j].labelText)
  {
    hide TextLess;
    TextOrder();
    forall i, j | 0 <= i < j < |sorted|
      ensures sorted[i].labelText != sorted[j].labelText
    {
      SameTwice(kept, sorted, i, j);
    }
  }

  lemma SameTwice(kept: seq<Candidate>, sorted: seq<Candidate>, i: nat, j: nat)
    requires multiset(sorted) == multiset(kept) && DistinctLabels(kept) && i < j < |sorted|
    ensures sorted[i].labelText != sorted[j].labelText
  {
    CountOnce(kept, sorted[i]);
    if sorted[i] == sorted[j] {
      CountTwice(sorted, i, j);
    } else {
      assert sorted[i] in multiset(sorted) && sorted[j] in multiset(sorted);
      assert sorted[i] in kept && sorted[j] in kept;
    }
  }

  lemma Completed(candidates: seq<Candidate>, prefix: string)
    ensures Offers(candidates, prefix, Head(SortedByLabel(Deduplicated(Filtered(candidates, prefix))), 200))
  {
    hide TextLess, Filtered, Deduplicated, SortedByLabel, LabelSorted, FirstIn, Offered;
    var kept := Deduplicated(Filtered(candidates, prefix));
    var sorted := SortedByLabel(kept);
    DeduplicatedIs(Filtered(candidates, prefix));
    SortedIs(kept);
    StrictLabels(kept, sorted);
    var out := Head(sorted, 200);
    assert forall c :: c in sorted <==> c in kept by {
      assert forall c :: c in sorted <==> c in multiset(sorted);
    }
    forall c
      ensures c in sorted <==> Offered(candidates, prefix, c)
    {
      FirstFiltered(candidates, prefix, c);
    }
    assert forall k :: 0 <= k < |out| ==> sorted[k] == out[k] && sorted[k] in out;
    forall c | c in sorted && c !in out
      ensures |out| == 200 && forall i :: 0 <= i < |out| ==> TextLess(out[i].labelText, c.labelText)
    {
      var k :| 0 <= k < |sorted| && sorted[k] == c;
    }
  }

  // ----- the order of what is kept -----------------------------------------------------------

  /** Whether the collector keeps candidate `i`: it has the prefix when there is a filter, and no earlier one has its
      label when repeated labels are dropped. */
  predicate Keeps(candidates: seq<Candidate>, prefix: string, filter: bool, deduplicate: bool, i: nat)
    requires i < |candidates|
  {
    && (filter ==> prefix <= candidates[i].labelText)
    && (deduplicate ==> FirstOfLabel(candidates, i))
  }

  /** What is kept, filtered or not, with repeated labels or without, stands in the order it came in. */
  lemma {:induction false} KeptInOrder(candidates: seq<Candidate>, prefix: string, filter: bool, deduplicate: bool)
    returns (at: seq<nat>)
    ensures var kept := Kept(candidates, prefix, filter, deduplicate);
            && |at| == |kept|
            && (forall k :: 0 <= k < |at| ==> at[k] < |candidates| && kept[k] == candidates[at[k]])
            && (forall j, k :: 0 <= j < k < |at| ==> at[j] < at[k])
            && (forall i :: 0 <= i < |candidates| ==>
                              (i in at <==> Keeps(candidates, prefix, filter, deduplicate, i)))
  {
    hide LabelSet, Kept;
    if candidates == [] {
      at := [];
      NothingKept(prefix, filter, deduplicate);
    } else {
      var n := |candidates| - 1;
      var front, last := candidates[..n], candidates[n];
      assert candidates == front + [last];
      at := KeptInOrder(front, prefix, filter, deduplicate);
      forall i | 0 <= i < n
        ensures Keeps(candidates, prefix, filter, deduplicate, i) <==> Keeps(front, prefix, filter, deduplicate, i)
      {
        assert forall j :: 0 <= j <= i ==> front[j] == candidates[j];
      }
      KeptNext(front, prefix, filter, deduplicate, last);
      if Keeps(candidates, prefix, filter, deduplicate, n) {
        at := at + [n];
      }
    }
  }

  lemma NothingKept(prefix: string, filter: bool, deduplicate: bool)
    ensures Kept([], prefix, filter, deduplicate) == []
  {
  }

  lemma KeptNext(front: seq<Candidate>, prefix: string, filter: bool, deduplicate: bool, last: Candidate)
    ensures Kept(front + [last], prefix, filter, deduplicate) ==
              Kept(front, prefix, filter, deduplicate)
              + (if Keeps(front + [last], prefix, filter, deduplicate, |front|) then [last] else [])
  {
    hide LabelSet;
    var all := front + [last];
    assert all[..|front|] == front;
    if filter && !Has(prefix, last) {
      assert Filtered(front, prefix) + [] == Filtered(front, prefix);
    } else {
      var passed := if filter then Filtered(front, prefix) else front;
      assert (passed + [last])[..|passed|] == passed;
      NewLabel(all, |front|);
      if filter {
        FilteredLabels(front, prefix, last.labelText);
      }
    }
  }

  /** Any stream of candidates, in batches of 64 and whatever an honest kernel answers, ends as the first 200 of
      the label-sorted, first-occurrence-deduplicated candidates that have the prefix. */
  method Complete(candidates: seq<Candidate>, prefix: string, kernel: Kernel) returns (out: seq<Candidate>)
    requires Honest(kernel)
    ensures out == Head(SortedByLabel(Deduplicated(Filtered(candidates, prefix))), 200)
    ensures Offers(candidates, prefix, out)
  {
    hide Filtered, Deduplicated, SortedByLabel, Honest, Offers;
    Completed(candidates, prefix);
    var collector := new CompletionCollector(prefix, true, true, kernel);
    for i := 0 to |candidates|
      invariant fresh(collector) && collector.Valid() && collector.considered == candidates[..i]
    {
      collector.Consider(candidates[i]);
    }
    assert candidates[..|candidates|] == candidates;
    out := collector.Finish(true);
  }
}
