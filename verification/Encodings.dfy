/** What the two encodings mean: decoders written from the standards, which give every text back. UTF-8 is decoded
    by the byte ranges of section 4 of RFC 3629, UTF-16 by section 2.2 of RFC 2781. */
module Encodings {
  import opened Outcomes
  import opened Ordered
  import opened Utf8

  // ----- UTF-8 -------------------------------------------------------------------------------

  function Value(c: char): nat {
    c as int
  }

  predicate Within(b: seq<Byte>, i: nat, low: nat, high: nat) {
    i < |b| && low <= b[i] <= high
  }

  /** The six bits a following byte holds. */
  function Low6(b: seq<Byte>, i: nat): (r: nat)
    requires Within(b, i, 0x80, 0xBF)
    ensures r < 64
  {
    var byte: int := b[i];
    byte - 0x80
  }

  function Lead(b: seq<Byte>, base: nat): nat
    requires b != [] && base <= b[0]
  {
    var byte: int := b[0];
    byte - base
  }

  /** The first scalar value of some bytes and how many bytes it takes; none when they are ill-formed. */
  function FirstScalar(b: seq<Byte>): (r: Option<(nat, nat)>)
    ensures r.Some? ==> 1 <= r.value.1 <= |b| && (r.value.0 < 0xD800 || 0xE000 <= r.value.0 < 0x11_0000)
  {
    if Within(b, 0, 0x00, 0x7F) then Some((b[0], 1))
    else if Within(b, 0, 0xC2, 0xDF) && Within(b, 1, 0x80, 0xBF) then Some((Lead(b, 0xC0) * 64 + Low6(b, 1), 2))
    else if || (Within(b, 0, 0xE0, 0xE0) && Within(b, 1, 0xA0, 0xBF))
            || (Within(b, 0, 0xE1, 0xEC) && Within(b, 1, 0x80, 0xBF))
            || (Within(b, 0, 0xED, 0xED) && Within(b, 1, 0x80, 0x9F))
            || (Within(b, 0, 0xEE, 0xEF) && Within(b, 1, 0x80, 0xBF))
    then
      if Within(b, 2, 0x80, 0xBF) then Some((Lead(b, 0xE0) * 4096 + Low6(b, 1) * 64 + Low6(b, 2), 3)) else None
    else if || (Within(b, 0, 0xF0, 0xF0) && Within(b, 1, 0x90, 0xBF))
            || (Within(b, 0, 0xF1, 0xF3) && Within(b, 1, 0x80, 0xBF))
            || (Within(b, 0, 0xF4, 0xF4) && Within(b, 1, 0x80, 0x8F))
    then
      if Within(b, 2, 0x80, 0xBF) && Within(b, 3, 0x80, 0xBF)
      then Some((Lead(b, 0xF0) * 262144 + Low6(b, 1) * 4096 + Low6(b, 2) * 64 + Low6(b, 3), 4))
      else None
    else None
  }

  function Decoded(b: seq<Byte>): Option<string>
    decreases |b|
  {
    if b == [] then Some("")
    else
      var first := FirstScalar(b);
      if first.None? then None
      else
        var rest := Decoded(b[first.value.1..]);
        if rest.None? then None else Some([first.value.0 as char] + rest.value)
  }

  lemma Prefixed(r: seq<Byte>, rest: seq<Byte>)
    ensures forall i :: 0 <= i < |r| ==> (r + rest)[i] == r[i]
  {
  }

  lemma TwoDecode(c: char, rest: seq<Byte>)
    requires 0x80 <= c as int < 0x800
    ensures FirstScalar(EncodeChar(c) + rest) == Some((Value(c), 2))
  {
    var v := c as int;
    var r := EncodeChar(c);
    Prefixed(r, rest);
    assert r == [0xC0 + v / 64, 0x80 + v % 64];
  }

  lemma ThreeDecode(c: char, rest: seq<Byte>)
    requires 0x800 <= c as int < 0x10000
    ensures FirstScalar(EncodeChar(c) + rest) == Some((Value(c), 3))
  {
    var v := c as int;
    var r := EncodeChar(c);
    Prefixed(r, rest);
    assert r == [0xE0 + v / 4096, 0x80 + v / 64 % 64, 0x80 + v % 64];
  }

  lemma FourParts(v: nat)
    requires 0x10000 <= v < 0x11_0000
    ensures var a, b, c, d := v / 262144, v / 4096 % 64, v / 64 % 64, v % 64;
            && a <= 4 && (a == 0 ==> b >= 16) && (a == 4 ==> b < 16)
            && v == a * 262144 + b * 4096 + c * 64 + d
  {
  }

  lemma FourDecode(c: char, rest: seq<Byte>)
    requires 0x10000 <= c as int
    ensures FirstScalar(EncodeChar(c) + rest) == Some((Value(c), 4))
  {
    var v := Value(c);
    FourParts(v);
    FourBytes(v, v / 262144, v / 4096 % 64, v / 64 % 64, v % 64, rest);
    assert EncodeChar(c) == [0xF0 + v / 262144, 0x80 + v / 4096 % 64, 0x80 + v / 64 % 64, 0x80 + v % 64];
  }

  lemma FourBytes(v: nat, a: nat, b: nat, c: nat, d: nat, rest: seq<Byte>)
    requires v == a * 262144 + b * 4096 + c * 64 + d
    requires a <= 4 && b < 64 && c < 64 && d < 64 && (a == 0 ==> b >= 16) && (a == 4 ==> b < 16)
    ensures FirstScalar([0xF0 + a, 0x80 + b, 0x80 + c, 0x80 + d] + rest)
            == Some((v, 4))
  {
    Prefixed([0xF0 + a, 0x80 + b, 0x80 + c, 0x80 + d], rest);
  }

  lemma EncodeCharDecodes(c: char, rest: seq<Byte>)
    ensures FirstScalar(EncodeChar(c) + rest) == Some((Value(c), |EncodeChar(c)|))
  {
    var v := c as int;
    if v < 0x80 {
      assert EncodeChar(c) == [v];
    } else {
      hide FirstScalar, EncodeChar;
      if v < 0x800 {
        TwoDecode(c, rest);
      } else if v < 0x10000 {
        ThreeDecode(c, rest);
      } else {
        FourDecode(c, rest);
      }
    }
  }

  /** Decoding the bytes of a text gives the text. */
  lemma {:induction false} DecodesEncoded(s: string)
    ensures Decoded(Encode(s)) == Some(s)
    decreases |s|
  {
    hide FirstScalar, EncodeChar;
    if s != [] {
      var rest := Encode(s[1..]);
      EncodeCharDecodes(s[0], rest);
      DecodesEncoded(s[1..]);
      assert (EncodeChar(s[0]) + rest)[|EncodeChar(s[0])|..] == rest;
      assert s == [s[0]] + s[1..];
    }
  }

  /** Different texts have different bytes. */
  lemma EncodeInjective(s: string, t: string)
    requires Encode(s) == Encode(t)
    ensures s == t
  {
    DecodesEncoded(s);
    DecodesEncoded(t);
  }

  // ----- the order of texts ------------------------------------------------------------------

  /** Equal up to byte `k`, where the second goes on and the first ends or has the smaller byte. */
  predicate PartsAt(a: seq<Byte>, b: seq<Byte>, k: nat) {
    k <= |a| && k < |b| && a[..k] == b[..k] && (k < |a| ==> a[k] < b[k])
  }

  /** The standard library's order of texts: by bytes, a prefix first. */
  ghost predicate BytesBefore(a: seq<Byte>, b: seq<Byte>) {
    exists k: nat :: PartsAt(a, b, k)
  }

  lemma AgreesBefore(a: seq<Byte>, b: seq<Byte>, k: nat)
    requires PartsAt(a, b, k)
    ensures forall i :: 0 <= i < k ==> a[i] == b[i]
  {
    forall i | 0 <= i < k
      ensures a[i] == b[i]
    {
      assert a[..k][i] == b[..k][i];
    }
  }

  lemma BeforeOneWay(a: seq<Byte>, b: seq<Byte>)
    requires BytesBefore(a, b)
    ensures a != b && !BytesBefore(b, a)
  {
    var k: nat :| PartsAt(a, b, k);
    AgreesBefore(a, b, k);
    forall j: nat
      ensures !PartsAt(b, a, j)
    {
      if PartsAt(b, a, j) {
        AgreesBefore(b, a, j);
      }
    }
  }

  /** Where the bytes of a smaller and a greater scalar part. */
  lemma ScalarsPart(c: char, d: char) returns (k: nat)
    requires c < d
    ensures k < |EncodeChar(c)| && k < |EncodeChar(d)|
    ensures EncodeChar(c)[..k] == EncodeChar(d)[..k] && EncodeChar(c)[k] < EncodeChar(d)[k]
  {
    var v, w := Value(c), Value(d);
    if Width8(c) < Width8(d) || v < 0x80 {
      k := 0;
    } else if v < 0x800 {
      k := TwoPart(v, w);
    } else if v < 0x10000 {
      k := ThreePart(v, w);
    } else {
      k := FourPart(v, w);
    }
  }

  lemma TwoPart(v: nat, w: nat) returns (k: nat)
    requires v < w
    ensures k < 2 && (k == 0 ==> v / 64 < w / 64) && (k == 1 ==> v / 64 == w / 64 && v % 64 < w % 64)
  {
    k := if v / 64 < w / 64 then 0 else 1;
  }

  lemma ThreePart(v: nat, w: nat) returns (k: nat)
    requires v < w
    ensures k < 3 && (k == 0 ==> v / 4096 < w / 4096)
    ensures k == 1 ==> v / 4096 == w / 4096 && v / 64 % 64 < w / 64 % 64
    ensures k == 2 ==> v / 4096 == w / 4096 && v / 64 % 64 == w / 64 % 64 && v % 64 < w % 64
  {
    assert v / 4096 == v / 64 / 64 && w / 4096 == w / 64 / 64;
    if v / 64 < w / 64 {
      k := TwoPart(v / 64, w / 64);
    } else {
      k := 2;
    }
  }

  lemma FourPart(v: nat, w: nat) returns (k: nat)
    requires v < w
    ensures k < 4 && (k == 0 ==> v / 262144 < w / 262144)
    ensures k == 1 ==> v / 262144 == w / 262144 && v / 4096 % 64 < w / 4096 % 64
    ensures k == 2 ==> v / 262144 == w / 262144 && v / 4096 % 64 == w / 4096 % 64 && v / 64 % 64 < w / 64 % 64
    ensures k == 3 ==> v / 262144 == w / 262144 && v / 4096 % 64 == w / 4096 % 64 && v / 64 % 64 == w / 64 % 64
                       && v % 64 < w % 64
  {
    assert v / 4096 == v / 64 / 64 && w / 4096 == w / 64 / 64;
    assert v / 262144 == v / 64 / 4096 && w / 262144 == w / 64 / 4096;
    if v / 64 < w / 64 {
      k := ThreePart(v / 64, w / 64);
    } else {
      k := 3;
    }
  }

  lemma {:induction false} LessIsBefore(s: string, t: string)
    requires TextLess(s, t)
    ensures BytesBefore(Encode(s), Encode(t))
    decreases |s|
  {
    hide EncodeChar;
    if s == "" {
      assert PartsAt(Encode(s), Encode(t), 0);
    } else if s[0] != t[0] {
      var k := ScalarsPart(s[0], t[0]);
      PartsExtend(EncodeChar(s[0]), Encode(s[1..]), EncodeChar(t[0]), Encode(t[1..]), k);
    } else {
      LessIsBefore(s[1..], t[1..]);
      var k: nat :| PartsAt(Encode(s[1..]), Encode(t[1..]), k);
      PartsBehind(EncodeChar(s[0]), Encode(s[1..]), Encode(t[1..]), k);
    }
  }

  lemma PartsExtend(a: seq<Byte>, x: seq<Byte>, b: seq<Byte>, y: seq<Byte>, k: nat)
    requires k < |a| && k < |b| && a[..k] == b[..k] && a[k] < b[k]
    ensures PartsAt(a + x, b + y, k)
  {
    assert (a + x)[..k] == a[..k] && (b + y)[..k] == b[..k];
  }

  lemma PartsBehind(r: seq<Byte>, a: seq<Byte>, b: seq<Byte>, k: nat)
    requires PartsAt(a, b, k)
    ensures PartsAt(r + a, r + b, |r| + k)
  {
    assert (r + a)[..|r| + k] == r + a[..k] && (r + b)[..|r| + k] == r + b[..k];
  }

  /** Ordering texts scalar by scalar is ordering their bytes. */
  lemma OrderIsBytes(s: string, t: string)
    ensures TextLess(s, t) <==> BytesBefore(Encode(s), Encode(t))
  {
    hide TextLess, Encode, BytesBefore;
    TextOrder();
    if TextLess(s, t) {
      LessIsBefore(s, t);
    } else if BytesBefore(Encode(s), Encode(t)) {
      BeforeOneWay(Encode(s), Encode(t));
      LessIsBefore(t, s);
    }
  }

  // ----- UTF-16 ------------------------------------------------------------------------------

  type Unit = x: int | 0 <= x < 0x1_0000

  /** One unit below 0x10000, else a high and a low surrogate. */
  function Units16(c: char): seq<Unit> {
    var v := c as int;
    if v < 0x10000 then [v] else [0xD800 + (v - 0x10000) / 0x400, 0xDC00 + (v - 0x10000) % 0x400]
  }

  function Utf16(s: string): seq<Unit> {
    if s == "" then [] else Units16(s[0]) + Utf16(s[1..])
  }

  /** The first scalar value of some units and how many units it takes; none for an unpaired surrogate. */
  function FirstScalar16(u: seq<Unit>): (r: Option<(nat, nat)>)
    ensures r.Some? ==> 1 <= r.value.1 <= |u| && (r.value.0 < 0xD800 || 0xE000 <= r.value.0 < 0x11_0000)
  {
    if u == [] then None
    else
      var high: int := u[0];
      if high < 0xD800 || 0xE000 <= high then Some((high, 1))
      else if high < 0xDC00 && |u| > 1 && 0xDC00 <= u[1] < 0xE000 then
        var low: int := u[1];
        Some((0x10000 + (high - 0xD800) * 0x400 + (low - 0xDC00), 2))
      else None
  }

  function Decoded16(u: seq<Unit>): Option<string>
    decreases |u|
  {
    if u == [] then Some("")
    else
      var first := FirstScalar16(u);
      if first.None? then None
      else
        var rest := Decoded16(u[first.value.1..]);
        if rest.None? then None else Some([first.value.0 as char] + rest.value)
  }

  lemma Units16Decode(c: char, rest: seq<Unit>)
    ensures FirstScalar16(Units16(c) + rest) == Some((Value(c), |Units16(c)|))
  {
  }

  /** Decoding the units of a text gives the text. */
  lemma {:induction false} DecodesUtf16(s: string)
    ensures Decoded16(Utf16(s)) == Some(s)
    decreases |s|
  {
    hide FirstScalar16, Units16;
    if s != "" {
      var rest := Utf16(s[1..]);
      Units16Decode(s[0], rest);
      DecodesUtf16(s[1..]);
      assert (Units16(s[0]) + rest)[|Units16(s[0])|..] == rest;
      assert s == [s[0]] + s[1..];
    }
  }

  /** The widths the coordinate index counts in are the lengths of that encoding. */
  lemma WidthIs(c: char)
    ensures |Units16(c)| == Width16(c)
  {
  }

  lemma {:induction false} Utf16Grows(s: string, c: char)
    ensures Utf16(s + [c]) == Utf16(s) + Units16(c)
    decreases |s|
  {
    if s == "" {
      assert [c][1..] == "" && "" + [c] == [c];
      assert Utf16([c]) == Units16(c) + [];
    } else {
      assert (s + [c])[0] == s[0] && (s + [c])[1..] == s[1..] + [c];
      Utf16Grows(s[1..], c);
      SeqAssociates(Units16(s[0]), Utf16(s[1..]), Units16(c));
    }
  }
}
