/** UTF-8 (section 3 of RFC 3629) and UTF-16 widths (section 2.1 of RFC 2781).

    A text is a `string`: Dafny's characters are exactly the Unicode scalar values. `Encode` gives the
    bytes the service works on. Everything the coordinate index needs to know about those bytes is
    local: which bytes continue a scalar, how long the scalar behind a lead byte is, and how many
    UTF-16 units it takes. `WellFormed` states that local structure, so it survives slicing. */
module Utf8 {

  type Byte = x: int | 0 <= x < 256

  const NEWLINE: Byte := 10
  const RETURN: Byte := 13

  // ----- scalars -----------------------------------------------------------------------------

  function Width8(c: char): (n: nat)
    ensures 1 <= n <= 4
  {
    var v := c as int;
    if v < 0x80 then 1 else if v < 0x800 then 2 else if v < 0x10000 then 3 else 4
  }

  function Width16(c: char): (n: nat)
    ensures 1 <= n <= 2
  {
    if c as int < 0x10000 then 1 else 2
  }

  function EncodeChar(c: char): (r: seq<Byte>)
    ensures |r| == Width8(c)
    ensures IsScalar(r, Width16(c))
    ensures if (c as int) < 0x80 then r == [c as int] else forall k :: 0 <= k < |r| ==> r[k] >= 0x80
  {
    var v := c as int;
    if v < 0x80 then [v]
    else if v < 0x800 then [0xC0 + v / 64, 0x80 + v % 64]
    else if v < 0x10000 then [0xE0 + v / 4096, 0x80 + v / 64 % 64, 0x80 + v % 64]
    else [0xF0 + v / 262144, 0x80 + v / 4096 % 64, 0x80 + v / 64 % 64, 0x80 + v % 64]
  }

  function Encode(s: string): (r: seq<Byte>)
    ensures |s| <= |r|
  {
    if s == [] then [] else EncodeChar(s[0]) + Encode(s[1..])
  }

  // ----- bytes -------------------------------------------------------------------------------

  predicate Continues(b: Byte) {
    0x80 <= b < 0xC0
  }

  function LeadLength(b: Byte): (n: nat)
    ensures 1 <= n <= 4
  {
    if b < 0x80 then 1 else if b < 0xE0 then 2 else if b < 0xF0 then 3 else 4
  }

  /** UTF-16 units booked on one byte: all of a scalar's units sit on its lead byte. */
  function UnitsOf(b: Byte): nat {
    if Continues(b) then 0 else if b < 0xF0 then 1 else 2
  }

  predicate IsScalar(r: seq<Byte>, units: nat) {
    && 0 < |r| == LeadLength(r[0])
    && !Continues(r[0])
    && UnitsOf(r[0]) == units
    && (forall k :: 0 < k < |r| ==> Continues(r[k]))
  }

  predicate Boundary(b: seq<Byte>, i: int) {
    0 <= i <= |b| && (i == |b| || !Continues(b[i]))
  }

  /** A lead byte owns the bytes up to the next lead byte, as far as they are there. */
  ghost predicate ScalarAt(b: seq<Byte>, i: nat) {
    i < |b| && !Continues(b[i]) ==>
      && (forall j :: i < j < |b| && j < i + LeadLength(b[i]) ==> Continues(b[j]))
      && (i + LeadLength(b[i]) < |b| ==> !Continues(b[i + LeadLength(b[i])]))
  }

  /** The local structure of a run of scalars whose last one may be cut off. */
  ghost predicate Scalars(b: seq<Byte>) {
    Boundary(b, 0) && forall i: nat :: ScalarAt(b, i)
  }

  ghost predicate CompleteAt(b: seq<Byte>, i: nat) {
    i < |b| && !Continues(b[i]) ==> i + LeadLength(b[i]) <= |b|
  }

  /** No scalar is cut off at the end. */
  ghost predicate Complete(b: seq<Byte>) {
    forall i: nat :: CompleteAt(b, i)
  }

  ghost predicate WellFormed(b: seq<Byte>) {
    Scalars(b) && Complete(b)
  }

  predicate Ascii(b: seq<Byte>) {
    forall k :: 0 <= k < |b| ==> b[k] < 0x80
  }

  /** The scalar start at or below `i` (the end of the bytes counts as one). */
  function Snap(b: seq<Byte>, i: nat): (s: nat)
    requires i <= |b|
    requires Boundary(b, 0)
    ensures s <= i && Boundary(b, s)
  {
    if Boundary(b, i) then i else Snap(b, i - 1)
  }

  /** UTF-16 units of the scalars that start before byte `i`. */
  function Units(b: seq<Byte>, i: nat): nat
    requires i <= |b|
  {
    if i == 0 then 0 else Units(b, i - 1) + UnitsOf(b[i - 1])
  }

  // ----- snapping ----------------------------------------------------------------------------

  lemma {:induction false} SnapHighest(b: seq<Byte>, i: nat, k: nat)
    requires k <= i <= |b| && Boundary(b, 0) && Boundary(b, k)
    ensures k <= Snap(b, i)
  {
    if !Boundary(b, i) {
      SnapHighest(b, i - 1, k);
    }
  }

  lemma {:induction false} SnapIs(b: seq<Byte>, i: nat, s: nat)
    requires s <= i <= |b| && Boundary(b, 0) && Boundary(b, s)
    requires forall k :: s < k <= i ==> !Boundary(b, k)
    ensures Snap(b, i) == s
  {
    if s < i {
      SnapIs(b, i - 1, s);
    }
  }

  /** A snap goes down by at most three bytes, and stays inside one scalar. */
  lemma SnapNear(b: seq<Byte>, i: nat)
    requires i < |b| && Scalars(b)
    ensures var s := Snap(b, i); s < |b| && i < s + LeadLength(b[s]) && i <= s + 3
  {
    var s := Snap(b, i);
    assert ScalarAt(b, s);
    if s + LeadLength(b[s]) <= i {
      SnapHighest(b, i, s + LeadLength(b[s]));
    }
  }

  lemma SnapSlice(b: seq<Byte>, from: nat, to: nat, i: nat)
    requires from <= to <= |b| && Boundary(b, 0) && Boundary(b, from)
    requires i < to - from || (i == to - from && Boundary(b, to))
    ensures Boundary(b[from..to], 0)
    ensures Snap(b[from..to], i) == Snap(b, from + i) - from
  {
    var v := b[from..to];
    var s := Snap(b, from + i);
    SnapHighest(b, from + i, from);
    assert Boundary(v, s - from);
    forall k | s - from < k <= i
      ensures !Boundary(v, k)
    {
      if Boundary(v, k) {
        SnapHighest(b, from + i, from + k);
      }
    }
    SnapIs(v, i, s - from);
  }

  lemma {:induction false} SnapMonotone(b: seq<Byte>, i: nat, j: nat)
    requires i <= j <= |b| && Boundary(b, 0)
    ensures Snap(b, i) <= Snap(b, j)
  {
    SnapHighest(b, j, Snap(b, i));
  }

  // ----- units -------------------------------------------------------------------------------

  lemma {:induction false} UnitsMonotone(b: seq<Byte>, i: nat, j: nat)
    requires i <= j <= |b|
    ensures Units(b, i) <= Units(b, j) <= Units(b, i) + 2 * (j - i)
    ensures i < j && !Continues(b[i]) ==> Units(b, i) < Units(b, j)
    decreases j
  {
    if i < j {
      UnitsMonotone(b, i, j - 1);
    }
  }

  lemma {:induction false} UnitsSlice(b: seq<Byte>, from: nat, to: nat, i: nat)
    requires from <= from + i <= to <= |b|
    ensures Units(b[from..to], i) == Units(b, from + i) - Units(b, from)
  {
    if i > 0 {
      UnitsSlice(b, from, to, i - 1);
      assert b[from..to][i - 1] == b[from + i - 1];
    }
  }

  lemma {:induction false} UnitsOverContinuations(b: seq<Byte>, i: nat, j: nat)
    requires i <= j <= |b|
    requires forall k :: i <= k < j ==> Continues(b[k])
    ensures Units(b, j) == Units(b, i)
  {
    if i < j {
      UnitsOverContinuations(b, i, j - 1);
    }
  }

  /** One scalar from boundary `i` to the next boundary. */
  lemma UnitsStep(b: seq<Byte>, i: nat)
    requires Scalars(b) && i < |b| && !Continues(b[i]) && i + LeadLength(b[i]) <= |b|
    ensures Boundary(b, i + LeadLength(b[i]))
    ensures Units(b, i + LeadLength(b[i])) == Units(b, i) + UnitsOf(b[i])
  {
    assert ScalarAt(b, i);
    UnitsOverContinuations(b, i + 1, i + LeadLength(b[i]));
  }

  /** Whole scalars never take more UTF-16 units than bytes. */
  lemma {:induction false} UnitsAtMostBytes(b: seq<Byte>, i: nat, j: nat)
    requires Scalars(b) && i <= j <= |b| && Boundary(b, i) && (Boundary(b, j) && (j < |b| || Complete(b)))
    ensures Units(b, j) - Units(b, i) <= j - i
    decreases j - i
  {
    if i < j {
      var n := i + LeadLength(b[i]);
      assert ScalarAt(b, i) && (Complete(b) ==> CompleteAt(b, i));
      UnitsStep(b, i);
      UnitsAtMostBytes(b, n, j);
    }
  }

  lemma {:induction false} UnitsAscii(b: seq<Byte>, i: nat, j: nat)
    requires i <= j <= |b|
    requires forall k :: i <= k < j ==> b[k] < 0x80
    ensures Units(b, j) == Units(b, i) + (j - i)
  {
    if i < j {
      UnitsAscii(b, i, j - 1);
    }
  }

  // ----- slices and concatenations -----------------------------------------------------------

  lemma ScalarsSlice(b: seq<Byte>, from: nat, to: nat)
    requires Scalars(b) && from <= to <= |b| && Boundary(b, from)
    ensures Scalars(b[from..to])
  {
    var v := b[from..to];
    forall i: nat
      ensures ScalarAt(v, i)
    {
      assert ScalarAt(b, from + i);
    }
  }

  /** A slice is complete exactly when it ends on a scalar boundary. */
  lemma CompleteSlice(b: seq<Byte>, from: nat, to: nat)
    requires WellFormed(b) && from <= to <= |b| && Boundary(b, from)
    ensures Complete(b[from..to]) <==> Boundary(b, to)
  {
    var v := b[from..to];
    if Boundary(b, to) {
      forall i: nat
        ensures CompleteAt(v, i)
      {
        assert ScalarAt(b, from + i) && CompleteAt(b, from + i);
      }
    } else {
      var s := Snap(b, to);
      SnapNear(b, to);
      SnapHighest(b, to, from);
      assert v[s - from] == b[s] && CompleteAt(b, s);
      assert !CompleteAt(v, s - from);
    }
  }

  lemma WellFormedSlice(b: seq<Byte>, from: nat, to: nat)
    requires WellFormed(b) && from <= to <= |b| && Boundary(b, from) && Boundary(b, to)
    ensures WellFormed(b[from..to])
  {
    ScalarsSlice(b, from, to);
    CompleteSlice(b, from, to);
  }

  lemma WellFormedConcat(a: seq<Byte>, b: seq<Byte>)
    requires WellFormed(a) && WellFormed(b)
    ensures WellFormed(a + b)
  {
    var v := a + b;
    forall i: nat
      ensures ScalarAt(v, i)
    {
      if i < |a| {
        assert ScalarAt(a, i) && CompleteAt(a, i);
      } else {
        assert ScalarAt(b, i - |a|);
      }
    }
    forall i: nat
      ensures CompleteAt(v, i)
    {
      if i < |a| {
        assert CompleteAt(a, i);
      } else {
        assert CompleteAt(b, i - |a|);
      }
    }
  }

  lemma {:induction false} EncodeWellFormed(s: string)
    ensures WellFormed(Encode(s))
  {
    if s != [] {
      var r := EncodeChar(s[0]);
      assert WellFormed(r);
      EncodeWellFormed(s[1..]);
      WellFormedConcat(r, Encode(s[1..]));
    }
  }

  lemma SeqAssociates<T>(a: seq<T>, b: seq<T>, c: seq<T>)
    ensures (a + b) + c == a + (b + c)
  {
  }

  lemma {:induction false} EncodeConcat(s: string, t: string)
    ensures Encode(s + t) == Encode(s) + Encode(t)
  {
    if s == [] {
      assert s + t == t;
    } else {
      EncodeConcat(s[1..], t);
      assert (s + t)[0] == s[0] && (s + t)[1..] == s[1..] + t;
      SeqAssociates(EncodeChar(s[0]), Encode(s[1..]), Encode(t));
    }
  }

  /** The scalar boundaries of an encoded text are the ends of its prefixes. */
  lemma {:induction false} BoundaryIsPrefix(s: string, i: nat) returns (k: nat)
    requires Boundary(Encode(s), i)
    ensures k <= |s| && i == |Encode(s[..k])|
  {
    if i == 0 {
      k := 0;
    } else {
      var r, rest := EncodeChar(s[0]), Encode(s[1..]);
      assert Encode(s) == r + rest;
      assert Boundary(rest, i - |r|);
      var k' := BoundaryIsPrefix(s[1..], i - |r|);
      k := k' + 1;
      assert s[..k][0] == s[0] && s[..k][1..] == s[1..][..k'];
    }
  }

  lemma EncodePrefix(s: string, k: nat)
    requires k <= |s|
    ensures Encode(s) == Encode(s[..k]) + Encode(s[k..])
    ensures Boundary(Encode(s), |Encode(s[..k])|)
  {
    EncodeConcat(s[..k], s[k..]);
    assert s[..k] + s[k..] == s;
    EncodeWellFormed(s[k..]);
  }
}
