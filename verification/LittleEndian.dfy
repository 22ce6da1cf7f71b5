/** Little-endian numbers of a fixed width. */
module LittleEndian {
  import opened Arithmetic
  import opened Bytes
  import opened BigEndian

  /** The low k bytes of n, least significant first. */
  function Le(n: nat, k: nat): (b: seq<byte>)
    ensures |b| == k
  {
    if k == 0 then [] else [Byte(n)] + Le(n / 256, k - 1)
  }

  function LeValue(b: seq<byte>): nat {
    if b == [] then 0 else b[0] + 256 * LeValue(b[1..])
  }

  lemma {:induction false} ValueOfLe(n: nat, k: nat)
    requires n < Pow256(k)
    ensures LeValue(Le(n, k)) == n
  {
    if k > 0 {
      DivisionStep(n, Pow256(k - 1));
      ValueOfLe(n / 256, k - 1);
      assert Le(n, k)[1..] == Le(n / 256, k - 1);
    }
  }

  lemma {:induction false} LeOfValue(b: seq<byte>)
    ensures Le(LeValue(b), |b|) == b
  {
    if b != [] {
      LeOfValue(b[1..]);
      LowByte(b[0], LeValue(b[1..]));
      assert b == [b[0]] + b[1..];
    }
  }

  lemma LowByte(x: byte, n: nat)
    ensures Byte(x + 256 * n) == x && (x + 256 * n) / 256 == n
  {
  }

  lemma {:induction false} LeBound(b: seq<byte>)
    ensures LeValue(b) < Pow256(|b|)
  {
    if b != [] {
      LeBound(b[1..]);
    }
  }

  lemma {:induction false} LeConcat(a: seq<byte>, b: seq<byte>)
    ensures LeValue(a + b) == LeValue(a) + Pow256(|a|) * LeValue(b)
  {
    if a == [] {
      assert a + b == b;
    } else {
      assert (a + b)[1..] == a[1..] + b;
      LeConcat(a[1..], b);
      Scale(LeValue(a[1..]), Pow256(|a| - 1), LeValue(b));
    }
  }

  lemma Scale(u: int, p: int, v: int)
    ensures 256 * (u + p * v) == 256 * u + (256 * p) * v
  {
  }

  /** The top byte counts for its multiple of 256^(n-1). */
  lemma LeTopByte(b: seq<byte>)
    requires b != []
    ensures LeValue(b) == LeValue(b[..|b| - 1]) + Pow256(|b| - 1) * b[|b| - 1]
  {
    var n := |b| - 1;
    LeConcat(b[..n], b[n..]);
    assert b[..n] + b[n..] == b;
    assert b[n..] == [b[n]];
    assert LeValue([b[n]]) == b[n] + 256 * LeValue([]);
  }

  function Zeros(n: nat): (b: seq<byte>)
    ensures |b| == n
  {
    if n == 0 then [] else [0] + Zeros(n - 1)
  }

  lemma {:induction false} ZerosAreNothing(n: nat)
    ensures LeValue(Zeros(n)) == 0
  {
    if n > 0 {
      ZerosAreNothing(n - 1);
      assert Zeros(n)[1..] == Zeros(n - 1);
    }
  }

  /** Writing a number that fits into k bytes of a longer zeroed buffer is writing it into the whole buffer. */
  lemma Padded(n: nat, k: nat, m: nat)
    requires n < Pow256(k)
    ensures Le(n, k) + Zeros(m) == Le(n, k + m)
  {
    var b := Le(n, k) + Zeros(m);
    LeConcat(Le(n, k), Zeros(m));
    ZerosAreNothing(m);
    ValueOfLe(n, k);
    LeOfValue(b);
  }

  // ---- the top bit -----------------------------------------------------------------------------------------

  predicate TopBit(b: seq<byte>)
    requires b != []
  {
    b[|b| - 1] >= 128
  }

  /** b[n - 1] &= 0x7f */
  function ClearTop(b: seq<byte>): (r: seq<byte>)
    requires b != []
    ensures |r| == |b|
  {
    var x: int := b[|b| - 1];
    b[|b| - 1 := x % 128]
  }

  /** b[n - 1] |= 0x80 */
  function SetTop(b: seq<byte>): (r: seq<byte>)
    requires b != []
    ensures |r| == |b|
  {
    var x: int := b[|b| - 1];
    b[|b| - 1 := x % 128 + 128]
  }

  /** Below 128 * 256^(n-1) the top bit is free. */
  lemma TopIsFree(b: seq<byte>)
    requires b != []
    ensures LeValue(b) < 128 * Pow256(|b| - 1) <==> !TopBit(b)
  {
    LeTopByte(b);
    LeBound(b[..|b| - 1]);
    var p, x := Pow256(|b| - 1), b[|b| - 1];
    TopDigit(p, x, LeValue(b[..|b| - 1]));
  }

  lemma TopDigit(p: int, x: int, low: int)
    requires 0 <= low < p && x >= 0
    ensures low + p * x < 128 * p <==> x < 128
  {
    if x < 128 {
      assert p * x <= p * 127;
    } else {
      assert p * x >= p * 128;
    }
  }

  lemma ClearSet(b: seq<byte>)
    requires b != []
    ensures TopBit(SetTop(b)) && (!TopBit(b) ==> ClearTop(SetTop(b)) == b && ClearTop(b) == b)
    ensures !TopBit(ClearTop(b)) && (TopBit(b) ==> SetTop(ClearTop(b)) == b)
  {
  }

  lemma SetTopByte(b: seq<byte>, i: nat)
    requires i < |b| && !TopBit(b)
    ensures SetTop(b)[i] == b[i] + if i == |b| - 1 then 128 else 0
  {
  }

  /** Byte i counts 256^i. */
  lemma {:induction false} LeByte(n: nat, k: nat, i: nat)
    requires i < k
    ensures Le(n, k)[i] == n / Pow256(i) % 256
  {
    if i > 0 {
      LeByte(n / 256, k - 1, i - 1);
      DivideTwice(n, Pow256(i - 1));
    }
  }

  lemma DivideTwice(n: nat, p: nat)
    requires p > 0
    ensures n / 256 / p == n / (256 * p)
  {
    var m := n / 256;
    var q, r := m / p, m % p;
    assert m == p * q + r && n == 256 * m + n % 256;
    assert n == (256 * p) * q + (256 * r + n % 256) by { assert 256 * (p * q) == (256 * p) * q; }
    DivisionIs(n, 256 * p, q, 256 * r + n % 256);
  }
}
