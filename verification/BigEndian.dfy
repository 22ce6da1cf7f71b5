/** Fixed-width and minimal big-endian numbers, whose byte order is numeric order. */
module BigEndian {
  import opened Bytes

  function Pow256(k: nat): (p: nat)
    ensures p >= 1
  {
    if k == 0 then 1 else 256 * Pow256(k - 1)
  }

  function Byte(n: int): byte { n % 256 }

  /** The low k bytes of n, most significant first. */
  function Fixed(n: nat, k: nat): (b: seq<byte>)
    ensures |b| == k
  {
    if k == 0 then [] else Fixed(n / 256, k - 1) + [Byte(n)]
  }

  /** The bytes of n without leading zeros: empty for zero. */
  function Minimal(n: nat): (b: seq<byte>)
    ensures n == 0 <==> b == []
  {
    if n == 0 then [] else Minimal(n / 256) + [Byte(n)]
  }

  function Value(b: seq<byte>): nat {
    if b == [] then 0 else Value(b[..|b| - 1]) * 256 + b[|b| - 1]
  }

  function Complement(b: seq<byte>): (c: seq<byte>)
    ensures |c| == |b|
    ensures forall i | 0 <= i < |b| :: c[i] == 255 - b[i]
  {
    seq(|b|, i requires 0 <= i < |b| => Flip(b[i]))
  }

  function Flip(b: byte): byte {
    var n: int := b;
    255 - n
  }

  lemma ValueAppend(b: seq<byte>, x: byte)
    ensures Value(b + [x]) == Value(b) * 256 + x
  {
    assert (b + [x])[..|b|] == b;
  }

  lemma {:induction false} ValueMinimal(n: nat)
    ensures Value(Minimal(n)) == n
  {
    if n != 0 {
      ValueMinimal(n / 256);
      ValueAppend(Minimal(n / 256), Byte(n));
    }
  }

  lemma DivisionStep(n: nat, p: nat)
    requires n < 256 * p
    ensures n / 256 < p && n / 256 * 256 + Byte(n) == n
  {
  }

  lemma {:induction false} ValueFixed(n: nat, k: nat)
    requires n < Pow256(k)
    ensures Value(Fixed(n, k)) == n
  {
    if k != 0 {
      var q := Fixed(n / 256, k - 1);
      DivisionStep(n, Pow256(k - 1));
      assert Value(q) == n / 256 by { ValueFixed(n / 256, k - 1); }
      assert Value(q + [Byte(n)]) == Value(q) * 256 + Byte(n) by { ValueAppend(q, Byte(n)); }
    }
  }

  lemma {:induction false} ValueBound(b: seq<byte>)
    ensures Value(b) < Pow256(|b|)
  {
    if b != [] {
      ValueBound(b[..|b| - 1]);
    }
  }

  lemma {:induction false} ComplementTwice(b: seq<byte>)
    ensures Complement(Complement(b)) == b
  {
  }

  /** Equal lengths compare as the numbers do. */
  lemma {:induction false} CompareValue(a: seq<byte>, b: seq<byte>)
    requires |a| == |b|
    ensures Compare(a, b) == Sign(Value(a) - Value(b))
  {
    if a != [] {
      var n := |a| - 1;
      assert a == a[..n] + [a[n]] && b == b[..n] + [b[n]];
      CompareAppend(a[..n], b[..n], a[n], b[n]);
      CompareValue(a[..n], b[..n]);
    }
  }

  /** Complementing bytes reverses the order of equally long strings. */
  lemma {:induction false} CompareComplement(a: seq<byte>, b: seq<byte>)
    requires |a| == |b|
    ensures Compare(Complement(a), Complement(b)) == -Compare(a, b)
  {
    if a != [] {
      assert Complement(a)[1..] == Complement(a[1..]) && Complement(b)[1..] == Complement(b[1..]);
      CompareComplement(a[1..], b[1..]);
    }
  }

  /** A bigger number is never shorter. */
  lemma {:induction false} MinimalLength(m: nat, n: nat)
    requires m <= n
    ensures |Minimal(m)| <= |Minimal(n)|
  {
    if m != 0 {
      MinimalLength(m / 256, n / 256);
    }
  }

  /** Equally long strings that differ stay decided whatever follows; equal ones leave the decision to what follows. */
  lemma CompareSameLength(a: seq<byte>, b: seq<byte>, s: seq<byte>, t: seq<byte>)
    requires |a| == |b|
    ensures Compare(a + s, b + t) == if Compare(a, b) != 0 then Compare(a, b) else Compare(s, t)
  {
    CompareEqual(a, b);
    if a == b {
      CompareCommonPrefix(a, s, t);
    } else {
      CompareDecided(a, b, s, t);
    }
  }

  lemma {:induction false} FixedValue(b: seq<byte>)
    ensures Fixed(Value(b), |b|) == b
  {
    if b != [] {
      FixedValue(b[..|b| - 1]);
      assert b == b[..|b| - 1] + [b[|b| - 1]];
    }
  }

  lemma {:induction false} ValuePrepend(x: byte, b: seq<byte>)
    ensures Value([x] + b) == x * Pow256(|b|) + Value(b)
  {
    var s := [x] + b;
    if b != [] {
      assert s[..|s| - 1] == [x] + b[..|b| - 1];
      ValuePrepend(x, b[..|b| - 1]);
    }
  }

  lemma {:induction false} ValueComplement(b: seq<byte>)
    ensures Value(Complement(b)) == Pow256(|b|) - 1 - Value(b)
  {
    if b != [] {
      assert Complement(b)[..|b| - 1] == Complement(b[..|b| - 1]);
      ValueComplement(b[..|b| - 1]);
    }
  }
}
