/** The engine's own TextEncoder and TextDecoder: UTF-16 code units to UTF-8 bytes and back. */
module Utf8 {
  import opened Bytes

  type unit = u: int | 0 <= u < 0x1_0000
  type text = seq<unit>

  predicate IsHigh(u: int) { 0xd800 <= u <= 0xdbff }
  predicate IsLow(u: int) { 0xdc00 <= u <= 0xdfff }
  predicate IsScalar(c: int) { 0 <= c < 0xd800 || 0xe000 <= c <= 0x10ffff }
  type scalar = c: int | 0 <= c < 0xd800 || 0xe000 <= c <= 0x10ffff

  const REPLACEMENT: scalar := 0xfffd

  /** The code point at the front of `s`, and how many units it took: a lone surrogate reads as U+FFFD. */
  function FirstScalar(s: text): (r: (scalar, nat))
    requires s != []
    ensures 1 <= r.1 <= |s| && r.1 <= 2
  {
    var u: int := s[0];
    if IsHigh(u) then
      if |s| > 1 && IsLow(s[1]) then
        var low: int := s[1];
        (0x10000 + (u - 0xd800) * 0x400 + (low - 0xdc00), 2)
      else (REPLACEMENT, 1)
    else if IsLow(u) then (REPLACEMENT, 1)
    else (u, 1)
  }

  function Scalars(s: text): seq<scalar> {
    if s == [] then [] else
      var (c, n) := FirstScalar(s);
      [c] + Scalars(s[n..])
  }

  function Units(c: scalar): (s: text)
    ensures 1 <= |s| <= 2
  {
    var i: int := c;
    if i > 0xffff then
      var high: unit, low: unit := 0xd800 + (i - 0x10000) / 0x400, 0xdc00 + (i - 0x10000) % 0x400;
      [high, low]
    else
      var u: unit := i;
      [u]
  }

  function Text(cs: seq<scalar>): text {
    if cs == [] then [] else Units(cs[0]) + Text(cs[1..])
  }

  /** No lone surrogates. */
  predicate WellFormed(s: text) {
    s == [] ||
    (if IsHigh(s[0]) then |s| > 1 && IsLow(s[1]) && WellFormed(s[2..]) else !IsLow(s[0]) && WellFormed(s[1..]))
  }

  function EncodeScalar(c: scalar): (b: seq<byte>)
    ensures 1 <= |b| <= 4
  {
    var c0: int := c;
    var c1 := c0 / 0x40;
    var c2 := c1 / 0x40;
    var c3 := c2 / 0x40;
    if c0 < 0x80 then
      var b0: byte := c0;
      [b0]
    else if c0 < 0x800 then
      var b0: byte, b1: byte := 0xc0 + c1, 0x80 + c0 % 0x40;
      [b0, b1]
    else if c0 < 0x10000 then
      var b0: byte, b1: byte, b2: byte := 0xe0 + c2, 0x80 + c1 % 0x40, 0x80 + c0 % 0x40;
      [b0, b1, b2]
    else
      var b0: byte, b1: byte, b2: byte, b3: byte := 0xf0 + c3, 0x80 + c2 % 0x40, 0x80 + c1 % 0x40, 0x80 + c0 % 0x40;
      [b0, b1, b2, b3]
  }

  function EncodeScalars(cs: seq<scalar>): seq<byte> {
    if cs == [] then [] else EncodeScalar(cs[0]) + EncodeScalars(cs[1..])
  }

  /** TextEncoder.encode */
  function Encode(s: text): seq<byte> {
    EncodeScalars(Scalars(s))
  }

  predicate IsContinuation(bytes: seq<byte>, i: nat) {
    i < |bytes| && 0x80 <= bytes[i] < 0xc0
  }

  /** One turn of the decoder's loop on a non-empty rest: the code point it emits and the bytes it consumes. */
  function DecodeStep(b: seq<byte>): (r: (scalar, nat))
    requires b != []
    ensures 1 <= r.1
  {
    var lead: int := b[0];
    if lead < 0x80 then (lead, 1)
    else if lead < 0xc0 || lead >= 0xf8 then (REPLACEMENT, 1)
    else
      var needed := if lead < 0xe0 then 1 else if lead < 0xf0 then 2 else 3;
      if needed >= |b| + 1 then (REPLACEMENT, |b|)
      else if !(IsContinuation(b, 1) && (needed >= 2 ==> IsContinuation(b, 2))
                && (needed >= 3 ==> IsContinuation(b, 3))) then
        (REPLACEMENT, 1)
      else
        var code :=
          if needed == 1 then (lead - 0xc0) * 0x40 + Low6(b[1])
          else if needed == 2 then ((lead - 0xe0) * 0x40 + Low6(b[1])) * 0x40 + Low6(b[2])
          else (((lead - 0xf0) * 0x40 + Low6(b[1])) * 0x40 + Low6(b[2])) * 0x40 + Low6(b[3]);
        var minimum := if needed == 1 then 0x80 else if needed == 2 then 0x800 else 0x10000;
        if code < minimum || !IsScalar(code) then (REPLACEMENT, needed + 1) else (code, needed + 1)
  }

  function Low6(b: int): int { b % 0x40 }

  function DecodeScalars(b: seq<byte>): seq<scalar>
    decreases |b|
  {
    if b == [] then [] else
      var (c, n) := DecodeStep(b);
      [c] + (if n <= |b| then DecodeScalars(b[n..]) else [])
  }

  /** TextDecoder.decode, not streaming. */
  function Decode(b: seq<byte>): text {
    Text(DecodeScalars(b))
  }

  // ---- the code is a bijection on well-formed text ---------------------------------------------------------

  lemma DecodeTwo(c: scalar, b: seq<byte>)
    requires 0x80 <= c < 0x800 && EncodeScalar(c) <= b
    ensures DecodeStep(b) == (c, 2)
  {
    var code := EncodeScalar(c);
    assert b[0] == code[0] && b[1] == code[1];
  }

  lemma DecodeThree(c: scalar, b: seq<byte>)
    requires 0x800 <= c < 0x10000 && EncodeScalar(c) <= b
    ensures DecodeStep(b) == (c, 3)
  {
    var code := EncodeScalar(c);
    assert b[0] == code[0] && b[1] == code[1] && b[2] == code[2];
  }

  lemma DecodeFour(c: scalar, b: seq<byte>)
    requires 0x10000 <= c && EncodeScalar(c) <= b
    ensures DecodeStep(b) == (c, 4)
  {
    var code := EncodeScalar(c);
    assert b[0] == code[0] && b[1] == code[1] && b[2] == code[2] && b[3] == code[3];
  }

  lemma DecodeStepInverts(c: scalar, rest: seq<byte>)
    ensures DecodeStep(EncodeScalar(c) + rest) == (c, |EncodeScalar(c)|)
  {
    var b := EncodeScalar(c) + rest;
    var c0: int := c;
    if c0 < 0x80 {
    } else if c0 < 0x800 {
      DecodeTwo(c, b);
    } else if c0 < 0x10000 {
      DecodeThree(c, b);
    } else {
      DecodeFour(c, b);
    }
  }

  lemma {:induction false} DecodeScalarsInverts(cs: seq<scalar>)
    ensures DecodeScalars(EncodeScalars(cs)) == cs
  {
    if cs != [] {
      var rest := EncodeScalars(cs[1..]);
      DecodeStepInverts(cs[0], rest);
      assert (EncodeScalar(cs[0]) + rest)[|EncodeScalar(cs[0])|..] == rest;
      DecodeScalarsInverts(cs[1..]);
    }
  }

  lemma UnitsWellFormed(c: scalar, rest: text)
    requires WellFormed(rest)
    ensures WellFormed(Units(c) + rest)
  {
    var t := Units(c) + rest;
    assert t[|Units(c)|..] == rest;
  }

  /** The first scalar gives its units back exactly when it was not a lone surrogate. */
  lemma FirstScalarWellFormed(s: text)
    requires s != []
    ensures var (c, n) := FirstScalar(s);
      if (IsHigh(s[0]) && n == 1) || IsLow(s[0]) then Units(c)[0] != s[0] else |Units(c)| == n && Units(c) == s[..n]
  {
  }

  lemma {:induction false} ScalarsWellFormed(s: text)
    ensures WellFormed(Text(Scalars(s)))
    ensures Text(Scalars(s)) == s <==> WellFormed(s)
    decreases |s|
  {
    if s != [] {
      var (c, n) := FirstScalar(s);
      var rest := Text(Scalars(s[n..]));
      assert Text(Scalars(s)) == Units(c) + rest;
      ScalarsWellFormed(s[n..]);
      UnitsWellFormed(c, rest);
      FirstScalarWellFormed(s);
      if Units(c) == s[..n] {
        assert (Units(c) + rest)[n..] == rest;
        assert s == s[..n] + s[n..];
      } else {
        assert (Units(c) + rest)[0] == Units(c)[0];
      }
    }
  }

  /** Reading the units of scalars gives the scalars. */
  lemma {:induction false} ScalarsOfText(cs: seq<scalar>)
    ensures Scalars(Text(cs)) == cs
  {
    if cs != [] {
      var t := Text(cs);
      var n := |Units(cs[0])|;
      assert t[n..] == Text(cs[1..]);
      assert t[0] == Units(cs[0])[0] && (n == 2 ==> t[1] == Units(cs[0])[1]);
      assert FirstScalar(t) == (cs[0], n);
      ScalarsOfText(cs[1..]);
    }
  }

  lemma TextInjective(cs: seq<scalar>, ds: seq<scalar>)
    ensures Text(cs) == Text(ds) <==> cs == ds
  {
    ScalarsOfText(cs);
    ScalarsOfText(ds);
  }

  /** Decoding what was encoded gives the same text exactly when the text has no lone surrogate. */
  lemma RoundTrip(s: text)
    ensures Decode(Encode(s)) == s <==> WellFormed(s)
  {
    DecodeScalarsInverts(Scalars(s));
    ScalarsWellFormed(s);
  }

  // ---- UTF-8 byte order is code point order --------------------------------------------------------------

  lemma EncodeScalarOrder(c: scalar, d: scalar, s: seq<byte>, t: seq<byte>)
    requires c < d
    ensures Compare(EncodeScalar(c) + s, EncodeScalar(d) + t) == -1
  {
    var a, b := EncodeScalar(c), EncodeScalar(d);
    assert Compare(a, b) == -1 && !(a <= b) && !(b <= a) by {
      EncodeScalarLess(c, d);
    }
    CompareDecided(a, b, s, t);
  }

  /** The code of a scalar, named by its length class and its bytes. */
  lemma EncodeScalarLess(c: scalar, d: scalar)
    requires c < d
    ensures var a, b := EncodeScalar(c), EncodeScalar(d); Compare(a, b) == -1 && !(a <= b) && !(b <= a)
  {
    var a, b := EncodeScalar(c), EncodeScalar(d);
    var k := FirstDifference(c, d);
    DecidedAt(a, b, k);
  }

  /** A longer code has a bigger lead byte. */
  lemma LeadByte(c: scalar, d: scalar)
    requires |EncodeScalar(c)| < |EncodeScalar(d)|
    ensures EncodeScalar(c)[0] < EncodeScalar(d)[0]
  {
  }

  /** The index of the first byte where the codes of c < d differ; it is smaller in the code of c. */
  lemma FirstDifference(c: scalar, d: scalar) returns (k: nat)
    requires c < d
    ensures var a, b := EncodeScalar(c), EncodeScalar(d);
      k < |a| && k < |b| && a[..k] == b[..k] && a[k] < b[k]
  {
    var a, b := EncodeScalar(c), EncodeScalar(d);
    if |a| < |b| {
      LeadByte(c, d);
      k := 0;
    } else {
      assert |a| == |b|;
      var c0: int, d0: int := c, d;
      var c1, d1 := c0 / 0x40, d0 / 0x40;
      var c2, d2 := c1 / 0x40, d1 / 0x40;
      k := if a[0] != b[0] then 0 else if a[1] != b[1] then 1 else if a[2] != b[2] then 2 else 3;
    }
  }

  lemma {:induction false} DecidedAt(a: seq<byte>, b: seq<byte>, k: nat)
    requires k < |a| && k < |b| && a[..k] == b[..k] && a[k] < b[k]
    ensures Compare(a, b) == -1 && !(a <= b) && !(b <= a)
  {
    assert a == a[..k] + a[k..] && b == b[..k] + b[k..];
    CompareCommonPrefix(a[..k], a[k..], b[k..]);
  }

  lemma {:induction false} EncodeOrder(cs: seq<scalar>, ds: seq<scalar>)
    ensures Compare(EncodeScalars(cs), EncodeScalars(ds)) == Compare(cs, ds)
  {
    if cs != [] && ds != [] {
      var s, t := EncodeScalars(cs[1..]), EncodeScalars(ds[1..]);
      if cs[0] == ds[0] {
        CompareCommonPrefix(EncodeScalar(cs[0]), s, t);
        EncodeOrder(cs[1..], ds[1..]);
      } else if cs[0] < ds[0] {
        EncodeScalarOrder(cs[0], ds[0], s, t);
      } else {
        EncodeScalarOrder(ds[0], cs[0], t, s);
        CompareFlip(EncodeScalars(cs), EncodeScalars(ds));
      }
    }
  }

  /** The examples "a" and e acute, the euro sign, and a surrogate pair; a lone surrogate becomes U+FFFD. */
  lemma ExampleBytes()
    ensures Encode([0x61, 0xe9]) == [0x61, 0xc3, 0xa9] && Encode([0x20ac]) == [0xe2, 0x82, 0xac]
    ensures Encode([0xd83d, 0xde00]) == [0xf0, 0x9f, 0x98, 0x80] && Encode([0xd83d]) == [0xef, 0xbf, 0xbd]
  {
    var t: text := [0x61, 0xe9];
    assert t[1..] == [0xe9];
    assert Scalars([0xe9]) == [0xe9] && Scalars(t) == [0x61, 0xe9];
    var cs: seq<scalar> := [0x61, 0xe9];
    assert cs[1..] == [0xe9];
    assert EncodeScalars([0xe9]) == [0xc3, 0xa9];
    assert Scalars([0x20ac]) == [0x20ac] && Scalars([0xd83d]) == [0xfffd];
    var pair: text := [0xd83d, 0xde00];
    assert Scalars(pair) == [0x1f600];
    assert EncodeScalars([0x1f600]) == EncodeScalar(0x1f600) + EncodeScalars([]);
  }
}
