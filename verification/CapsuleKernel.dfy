/** The native ordering and admission kernel (mncs/semantic_capsule.mncs). The shared sort it calls is not
    part of this model: `SortUp` stands for it, with the contract the kernel relies on. */
module CapsuleKernel {
  import opened Ordered

  const HALF: nat := 32
  const WINDOW: nat := 64

  datatype Rank = Rank(severity: int, kind: int)

  function SeverityBand(severity: int): nat {
    if severity == 2 then 0 else if severity == 1 then 1 else if severity == 0 then 2 else 3
  }

  function KindBand(kind: int): nat {
    if 0 <= kind <= 3 then kind else 4
  }

  /** Priority first, position last. */
  function Code(r: Rank, i: nat): nat {
    (SeverityBand(r.severity) * 4 + KindBand(r.kind)) * WINDOW + i
  }

  predicate ValidRank(r: Rank) {
    0 <= r.severity <= 2 && 0 <= r.kind <= 3
  }

  predicate IntLess(a: nat, b: nat) {
    a < b
  }

  /** `sort_up`: the first `count` numbers ascend, the rest stay; here no two of them are equal. */
  method SortUp(codes: seq<nat>, count: nat) returns (r: seq<nat>)
    requires count <= |codes| && forall i, j :: 0 <= i < j < count ==> codes[i] != codes[j]
    ensures |r| == |codes| && Ascends(r[..count]) && forall c :: c in r[..count] <==> c in codes[..count]
  {
    var wanted := Members(codes[..count]);
    var sorted := InOrder(wanted, IntLess);
    AscendingIs(wanted, IntLess);
    Distinct(codes[..count]);
    r := sorted + codes[count..];
    assert r[..count] == sorted;
  }

  function Members(s: seq<nat>): (r: set<nat>)
    ensures forall c :: c in r <==> c in s
  {
    set c | c in s
  }

  lemma {:induction false} Distinct(s: seq<nat>)
    requires forall i, j :: 0 <= i < j < |s| ==> s[i] != s[j]
    ensures |Members(s)| == |s|
  {
    if s != [] {
      Distinct(s[1..]);
      assert s == [s[0]] + s[1..];
      assert Members(s) == {s[0]} + Members(s[1..]);
    }
  }

  // ----- the order ---------------------------------------------------------------------------

  ghost function CodesOf(findings: seq<Rank>, from: nat, to: nat): set<nat>
    requires from <= to <= |findings|
  {
    set i | from <= i < to :: Code(findings[i], i)
  }

  lemma CodeIs(r: Rank, i: nat)
    requires i < WINDOW
    ensures Code(r, i) % WINDOW == i
  {
  }

  lemma CodesDiffer(a: Rank, i: nat, b: Rank, j: nat)
    requires i < WINDOW && j < WINDOW && i != j
    ensures Code(a, i) != Code(b, j)
  {
    CodeIs(a, i);
    CodeIs(b, j);
  }

  /** The codes of one half of the window, and that half sorted. */
  method SortHalf(findings: seq<Rank>, from: nat, count: nat) returns (order: seq<nat>)
    requires |findings| == WINDOW && (from == 0 || from == HALF) && count <= HALF
    ensures |order| == HALF && Ascends(order[..count])
    ensures forall c :: c in order[..count] <==> c in CodesOf(findings, from, from + count)
  {
    var codes := seq<nat>(HALF, i requires 0 <= i < HALF => Code(findings[from + i], from + i));
    forall i, j | 0 <= i < j < count
      ensures codes[i] != codes[j]
    {
      CodesDiffer(findings[from + i], from + i, findings[from + j], from + j);
    }
    order := SortUp(codes, count);
    forall c
      ensures c in codes[..count] <==> c in CodesOf(findings, from, from + count)
    {
      if c in codes[..count] {
        var i :| 0 <= i < count && codes[..count][i] == c;
        assert c == Code(findings[from + i], from + i);
      }
      if c in CodesOf(findings, from, from + count) {
        var i :| from <= i < from + count && c == Code(findings[i], i);
        assert codes[..count][i - from] == c;
      }
    }
  }

  /** The merge so far: what was taken ascends, lies below what is left, and is the codes of the indices. */
  ghost predicate Merged(left: seq<nat>, right: seq<nat>, l: nat, r: nat, codes: seq<nat>, indices: seq<int>) {
    && l <= |left| && r <= |right| && |codes| == l + r <= |indices|
    && Ascends(codes)
    && (forall c :: c in codes <==> c in left[..l] || c in right[..r])
    && (forall i, k :: 0 <= i < |codes| && l <= k < |left| ==> codes[i] < left[k])
    && (forall i, k :: 0 <= i < |codes| && r <= k < |right| ==> codes[i] < right[k])
    && (forall i :: 0 <= i < |codes| ==> indices[i] == codes[i] % WINDOW)
  }

  lemma TakeLeft(left: seq<nat>, right: seq<nat>, l: nat, r: nat, codes: seq<nat>, indices: seq<int>)
    requires Merged(left, right, l, r, codes, indices) && Ascends(left) && Ascends(right)
    requires l < |left| && |codes| < |indices| && (r < |right| ==> left[l] < right[r])
    ensures Merged(left, right, l + 1, r, codes + [left[l]], indices[|codes| := left[l] % WINDOW])
  {
    assert left[..l + 1] == left[..l] + [left[l]];
    assert r < |right| ==> forall k :: r < k < |right| ==> right[r] < right[k];
  }

  lemma TakeRight(left: seq<nat>, right: seq<nat>, l: nat, r: nat, codes: seq<nat>, indices: seq<int>)
    requires Merged(left, right, l, r, codes, indices) && Ascends(left) && Ascends(right)
    requires r < |right| && |codes| < |indices| && (l < |left| ==> right[r] < left[l])
    ensures Merged(left, right, l, r + 1, codes + [right[r]], indices[|codes| := right[r] % WINDOW])
  {
    assert right[..r + 1] == right[..r] + [right[r]];
    assert l < |left| ==> forall k :: l < k < |left| ==> left[l] < left[k];
  }

  /** The first indices of the result, by ascending code: a rearrangement of the window's positions. */
  ghost predicate Orders(findings: seq<Rank>, count: nat, indices: seq<int>)
    requires count <= |findings| && count <= |indices|
  {
    && (forall k :: 0 <= k < count ==> 0 <= indices[k] < count)
    && (forall j, k :: 0 <= j < k < count ==>
        Code(findings[indices[j]], indices[j]) < Code(findings[indices[k]], indices[k]))
  }

  lemma MergedOrders(findings: seq<Rank>, count: nat, left: seq<nat>, right: seq<nat>, codes: seq<nat>,
                     indices: seq<int>)
    requires |findings| == WINDOW == |indices| && count <= WINDOW
    requires Merged(left, right, |left|, |right|, codes, indices) && |left| + |right| == count
    requires var half := if count < HALF then count else HALF;
             && (forall c :: c in left <==> c in CodesOf(findings, 0, half))
             && (forall c :: c in right <==>
                               c in CodesOf(findings, HALF, HALF + (if count < HALF then 0 else count - HALF)))
    ensures Orders(findings, count, indices)
  {
    var half := if count < HALF then count else HALF;
    forall k | 0 <= k < count
      ensures 0 <= indices[k] < count && codes[k] == Code(findings[indices[k]], indices[k])
    {
      assert codes[k] in codes && left[..|left|] == left && right[..|right|] == right;
      var i :| 0 <= i < count && codes[k] == Code(findings[i], i);
      CodeIs(findings[i], i);
    }
  }

  /** `order_capsule_window` */
  method OrderCapsuleWindow(findings: seq<Rank>, count: nat) returns (indices: seq<int>, valid: bool)
    requires |findings| == WINDOW && count <= WINDOW
    ensures |indices| == WINDOW && Orders(findings, count, indices)
    ensures valid <==> forall i :: 0 <= i < count ==> ValidRank(findings[i])
  {
    hide Orders, Merged, CodesOf, ValidRank;
    var leftCount := if count < HALF then count else HALF;
    var rightCount := if count > HALF then count - HALF else 0;
    var leftOrder := SortHalf(findings, 0, leftCount);
    var rightOrder := SortHalf(findings, HALF, rightCount);
    ghost var left, right := leftOrder[..leftCount], rightOrder[..rightCount];
    indices := seq(WINDOW, _ => 0);
    var l, r := 0, 0;
    ghost var codes: seq<nat> := [];
    NothingMerged(left, right, indices);
    for output := 0 to WINDOW
      invariant |indices| == WINDOW && Merged(left, right, l, r, codes, indices)
      invariant l <= leftCount && r <= rightCount && |codes| == l + r == if output < count then output else count
    {
      var active := output < count;
      var leftActive, rightActive := l < leftCount, r < rightCount;
      var leftCode := leftOrder[if leftActive then l else 0];
      var rightCode := rightOrder[if rightActive then r else 0];
      var takeLeft := leftActive && (!rightActive || leftCode <= rightCode);
      var chosen := if takeLeft then leftCode else rightCode;
      if active {
        Apart(findings, leftCount, rightCount, left, right);
        if takeLeft {
          TakeLeft(left, right, l, r, codes, indices);
        } else {
          TakeRight(left, right, l, r, codes, indices);
        }
        codes := codes + [chosen];
      } else {
        Padded(left, right, l, r, codes, indices, output);
      }
      indices := indices[output := if active then chosen % WINDOW else 0];
      l := if takeLeft then l + 1 else l;
      r := if active && !takeLeft then r + 1 else r;
    }
    MergedOrders(findings, count, left, right, codes, indices);
    valid := true;
    for i := 0 to WINDOW
      invariant valid <==> forall k :: 0 <= k < i && k < count ==> ValidRank(findings[k])
    {
      var severityValid := 0 <= findings[i].severity <= 2;
      var kindValid := 0 <= findings[i].kind <= 3;
      RankIs(findings[i]);
      valid := valid && (!(i < count) || (severityValid && kindValid));
    }
  }

  lemma RankIs(r: Rank)
    ensures ValidRank(r) <==> 0 <= r.severity <= 2 && 0 <= r.kind <= 3
  {
  }

  lemma NothingMerged(left: seq<nat>, right: seq<nat>, indices: seq<int>)
    ensures Merged(left, right, 0, 0, [], indices)
  {
  }

  lemma Padded(left: seq<nat>, right: seq<nat>, l: nat, r: nat, codes: seq<nat>, indices: seq<int>, output: nat)
    requires Merged(left, right, l, r, codes, indices) && |codes| <= output < |indices|
    ensures Merged(left, right, l, r, codes, indices[output := 0])
  {
  }

  /** No code is in both halves. */
  lemma Apart(findings: seq<Rank>, leftCount: nat, rightCount: nat, left: seq<nat>, right: seq<nat>)
    requires |findings| == WINDOW && leftCount <= HALF && rightCount <= HALF
    requires forall c :: c in left <==> c in CodesOf(findings, 0, leftCount)
    requires forall c :: c in right <==> c in CodesOf(findings, HALF, HALF + rightCount)
    ensures forall i, j :: 0 <= i < |left| && 0 <= j < |right| ==> left[i] != right[j]
  {
    forall i, j | 0 <= i < |left| && 0 <= j < |right|
      ensures left[i] != right[j]
    {
      assert left[i] in left && right[j] in right;
      var p :| 0 <= p < leftCount && left[i] == Code(findings[p], p);
      var q :| HALF <= q < HALF + rightCount && right[j] == Code(findings[q], q);
      CodesDiffer(findings[p], p, findings[q], q);
    }
  }

  // ----- admission ---------------------------------------------------------------------------

  const MAX_ACTIONABLE: nat := 16
  const MAX_WATCH: nat := 8
  const MAX_TOTAL: nat := 20

  /** `classify` */
  function Classify(r: Rank): (c: int)
    ensures 0 <= c <= 2
    ensures r.severity == 2 ==> c >= 1
  {
    if r.kind == 0 then (if r.severity == 2 || r.severity == 1 then 2 else 0)
    else if r.kind == 1 then (if r.severity == 2 then 2 else 1)
    else if r.kind == 2 then (if r.severity == 2 then 2 else if r.severity == 1 then 1 else 0)
    else if r.severity == 2 || r.severity == 1 then 1 else 0
  }

  /** Relevance by kind, then by severity from context to error. */
  const RELEVANCE: seq<seq<int>> := [[0, 2, 2], [1, 1, 2], [0, 1, 2], [0, 1, 1]]

  /** A rank outside both scales is read as the nearest thing the table has: an unknown kind as the last one, an
      unknown severity as context. */
  lemma RelevanceIs(r: Rank)
    ensures var kind, severity :=
              if 0 <= r.kind <= 3 then r.kind else 3, if 0 <= r.severity <= 2 then r.severity else 0;
            Classify(r) == RELEVANCE[kind][severity]
  {
  }

  datatype Selection = Selection(
    admitted: seq<bool>,
    relevance: seq<int>,
    admittedCount: nat,
    actionableCount: nat,
    watchCount: nat,
    droppedCount: nat,
    complete: bool)

  /** How many of the first `n` findings are admitted at one relevance. */
  function Spent(admitted: seq<bool>, relevance: seq<int>, level: int, n: nat): (r: nat)
    requires n <= |admitted| == |relevance|
    ensures r <= n
  {
    if n == 0 then 0
    else
      Spent(admitted, relevance, level, n - 1)
      + (if admitted[n - 1] && relevance[n - 1] == level then 1 else 0)
  }

  /** A finding is admitted exactly when it is relevant and both its own budget and the total are open. */
  ghost predicate AdmittedRightly(s: Selection, findings: seq<Rank>, count: nat, n: nat)
    requires |s.admitted| == |s.relevance| == |findings| && n <= |findings|
  {
    forall i :: 0 <= i < n ==>
      var actionable, watch := Spent(s.admitted, s.relevance, 2, i), Spent(s.admitted, s.relevance, 1, i);
      && s.relevance[i] == (if i < count then Classify(findings[i]) else 0)
      && (s.admitted[i] <==>
            actionable + watch < 20
            && ((s.relevance[i] == 2 && actionable < 16) || (s.relevance[i] == 1 && watch < 8)))
  }

  lemma {:induction false} SpentSame(a: seq<bool>, b: seq<bool>, x: seq<int>, y: seq<int>, level: int, n: nat)
    requires n <= |a| == |x| && n <= |b| == |y| && a[..n] == b[..n] && x[..n] == y[..n]
    ensures Spent(a, x, level, n) == Spent(b, y, level, n)
  {
    if n > 0 {
      assert a[..n - 1] == a[..n][..n - 1] && b[..n - 1] == b[..n][..n - 1];
      assert x[..n - 1] == x[..n][..n - 1] && y[..n - 1] == y[..n][..n - 1];
      SpentSame(a, b, x, y, level, n - 1);
      assert a[n - 1] == a[..n][n - 1] && b[n - 1] == b[..n][n - 1] && x[n - 1] == x[..n][n - 1]
          && y[n - 1] == y[..n][n - 1];
    }
  }

  /** The scan so far. */
  ghost predicate Scanning(s: Selection, findings: seq<Rank>, count: nat, n: nat) {
    && |s.admitted| == |s.relevance| == |findings| && n <= |findings|
    && AdmittedRightly(s, findings, count, n)
    && s.actionableCount == Spent(s.admitted, s.relevance, 2, n)
    && s.watchCount == Spent(s.admitted, s.relevance, 1, n)
    && s.admittedCount == s.actionableCount + s.watchCount
    && s.admittedCount + s.droppedCount == (if n < count then n else count)
    && s.actionableCount <= MAX_ACTIONABLE && s.watchCount <= MAX_WATCH && s.admittedCount <= MAX_TOTAL
  }

  lemma ScanStep(s: Selection, t: Selection, findings: seq<Rank>, count: nat, n: nat)
    requires Scanning(s, findings, count, n) && n < |findings| && count <= |findings|
    requires var relevance := if n < count then Classify(findings[n]) else 0;
             var admit := n < count && s.admittedCount < MAX_TOTAL
                          && ((relevance == 2 && s.actionableCount < MAX_ACTIONABLE)
                             || (relevance == 1 && s.watchCount < MAX_WATCH));
             t == s.(admitted := s.admitted[n := admit], relevance := s.relevance[n := relevance],
                     actionableCount := s.actionableCount + (if admit && relevance == 2 then 1 else 0),
                     watchCount := s.watchCount + (if admit && relevance == 1 then 1 else 0),
                     admittedCount := s.admittedCount + (if admit then 1 else 0),
                     droppedCount := s.droppedCount + (if n < count && !admit then 1 else 0))
    ensures Scanning(t, findings, count, n + 1)
  {
    hide Classify;
    forall i, level | 0 <= i <= n
      ensures Spent(t.admitted, t.relevance, level, i) == Spent(s.admitted, s.relevance, level, i)
    {
      SpentSame(t.admitted, s.admitted, t.relevance, s.relevance, level, i);
    }
  }

  /** `select_capsule`: within every budget, nothing lost, and always complete. */
  method SelectCapsule(findings: seq<Rank>, count: nat) returns (s: Selection)
    requires |findings| == HALF && count <= HALF
    ensures |s.admitted| == |s.relevance| == HALF && AdmittedRightly(s, findings, count, HALF)
    ensures s.admittedCount + s.droppedCount == count && s.complete
    ensures s.admittedCount == s.actionableCount + s.watchCount
    ensures s.actionableCount == Spent(s.admitted, s.relevance, 2, HALF) <= 16
    ensures s.watchCount == Spent(s.admitted, s.relevance, 1, HALF) <= 8
    ensures s.admittedCount <= 20
  {
    hide AdmittedRightly, Classify;
    s := Selection(seq(HALF, _ => false), seq(HALF, _ => 0), 0, 0, 0, 0, true);
    ScanStarts(s, findings, count);
    for i := 0 to HALF
      invariant Scanning(s, findings, count, i) && s.complete
    {
      var active := i < count;
      var relevance := if active then Classify(findings[i]) else 0;
      var actionableOpen := relevance == 2 && s.actionableCount < MAX_ACTIONABLE && s.admittedCount < MAX_TOTAL;
      var watchOpen := relevance == 1 && s.watchCount < MAX_WATCH && s.admittedCount < MAX_TOTAL;
      var admit := active && (actionableOpen || watchOpen);
      ghost var was := s;
      s := s.(
        admitted := s.admitted[i := admit],
        relevance := s.relevance[i := relevance],
        actionableCount := s.actionableCount + (if admit && relevance == 2 then 1 else 0),
        watchCount := s.watchCount + (if admit && relevance == 1 then 1 else 0),
        admittedCount := s.admittedCount + (if admit then 1 else 0),
        droppedCount := s.droppedCount + (if active && !admit then 1 else 0));
      ScanStep(was, s, findings, count, i);
    }
    s := s.(complete := s.admittedCount + s.droppedCount == count);
  }

  lemma ScanStarts(s: Selection, findings: seq<Rank>, count: nat)
    requires |s.admitted| == |s.relevance| == |findings|
    requires s.admittedCount == s.actionableCount == s.watchCount == s.droppedCount == 0
    ensures Scanning(s, findings, count, 0)
  {
  }
}
