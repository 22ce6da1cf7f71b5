/** Versionstamps: the commit number shifted left by 16 bits, in hexadecimal, padded to twenty digits. */
module KvStamps {
  import opened Bytes
  import opened Utf8

  /** The character code of a hexadecimal digit. */
  function Digit(d: int): (u: unit)
    requires 0 <= d < 16
    ensures u == if d < 10 then 0x30 + d else 0x57 + d
  {
    if d < 10 then 0x30 + d else 0x57 + d
  }

  /** BigInt.toString(16) */
  function Hex(n: nat): (t: text)
    ensures t != []
  {
    if n < 16 then [Digit(n)] else Hex(n / 16) + [Digit(n % 16)]
  }

  function Zeros(k: nat): (t: text)
    ensures |t| == k
  {
    seq(k, _ => Digit(0))
  }

  function PadStart(t: text, k: nat): text {
    if |t| < k then Zeros(k - |t|) + t else t
  }

  function StampOf(n: nat): text {
    PadStart(Hex(n * 0x1_0000), 20)
  }

  function Pow16(k: nat): (p: nat)
    ensures p >= 1
  {
    if k == 0 then 1 else 16 * Pow16(k - 1)
  }

  /** Exactly k digits. */
  function FixedHex(n: nat, k: nat): (t: text)
    ensures |t| == k
  {
    if k == 0 then [] else FixedHex(n / 16, k - 1) + [Digit(n % 16)]
  }

  lemma {:induction false} FixedHexZero(k: nat)
    ensures FixedHex(0, k) == Zeros(k)
  {
    if k > 0 {
      FixedHexZero(k - 1);
    }
  }

  lemma {:induction false} PaddedHex(n: nat, k: nat)
    requires k >= 1 && n < Pow16(k)
    ensures |Hex(n)| <= k && PadStart(Hex(n), k) == FixedHex(n, k)
  {
    if n < 16 {
      FixedHexZero(k - 1);
      assert n / 16 == 0 && n % 16 == n;
    } else {
      assert k > 1;
      PaddedHex(n / 16, k - 1);
      var rest := Hex(n / 16);
      assert Zeros(k - 1 - |rest|) + rest + [Digit(n % 16)] == Zeros(k - 1 - |rest|) + (rest + [Digit(n % 16)]);
    }
  }

  lemma {:induction false} FixedHexOrder(m: nat, n: nat, k: nat)
    requires m < Pow16(k) && n < Pow16(k)
    ensures Compare(FixedHex(m, k), FixedHex(n, k)) == Sign(m - n)
  {
    if k > 0 {
      FixedHexOrder(m / 16, n / 16, k - 1);
      CompareAppend(FixedHex(m / 16, k - 1), FixedHex(n / 16, k - 1), Digit(m % 16), Digit(n % 16));
    }
  }

  lemma Pow16Twenty()
    ensures Pow16(20) == 0x1_0000_0000_0000_0000 * 0x1_0000
  {
    assert Pow16(5) == 0x10_0000;
    assert Pow16(10) == 0x100_0000_0000;
    assert Pow16(15) == 0x1000_0000_0000_0000;
  }

  /** Below 2^64 stamps have twenty digits and string order is commit order. */
  lemma StampOrder(m: nat, n: nat)
    requires m < 0x1_0000_0000_0000_0000 && n < 0x1_0000_0000_0000_0000
    ensures |StampOf(m)| == |StampOf(n)| == 20
    ensures Compare(StampOf(m), StampOf(n)) == Sign(m - n)
  {
    Pow16Twenty();
    PaddedHex(m * 0x1_0000, 20);
    PaddedHex(n * 0x1_0000, 20);
    FixedHexOrder(m * 0x1_0000, n * 0x1_0000, 20);
  }

  // ---- distinct commits always have distinct stamps --------------------------------------------------------

  function HexValue(t: text): nat {
    if t == [] then 0 else HexValue(t[..|t| - 1]) * 16 + DigitValue(t[|t| - 1])
  }

  function DigitValue(u: int): nat {
    if 0x30 <= u <= 0x39 then u - 0x30 else if 0x61 <= u <= 0x66 then u - 0x57 else 0
  }

  lemma {:induction false} HexInverts(n: nat)
    ensures HexValue(Hex(n)) == n
  {
    if n < 16 {
      assert [Digit(n)][..0] == [];
    } else {
      HexInverts(n / 16);
      assert Hex(n)[..|Hex(n)| - 1] == Hex(n / 16);
    }
  }

  lemma {:induction false} PaddingIsZero(k: nat, t: text)
    ensures HexValue(Zeros(k) + t) == HexValue(t)
    decreases |t| + k
  {
    var s := Zeros(k) + t;
    if t != [] {
      assert s[..|s| - 1] == Zeros(k) + t[..|t| - 1];
      PaddingIsZero(k, t[..|t| - 1]);
    } else if k > 0 {
      assert s[..|s| - 1] == Zeros(k - 1) + t;
      PaddingIsZero(k - 1, t);
    }
  }

  lemma StampInjective(m: nat, n: nat)
    requires StampOf(m) == StampOf(n)
    ensures m == n
  {
    var a, b := Hex(m * 0x1_0000), Hex(n * 0x1_0000);
    HexInverts(m * 0x1_0000);
    HexInverts(n * 0x1_0000);
    if |a| < 20 { PaddingIsZero(20 - |a|, a); }
    if |b| < 20 { PaddingIsZero(20 - |b|, b); }
  }

  /** A stamp is the commit number times 65536 in lower-case hexadecimal, filled up to twenty digits with zeros. */
  lemma StampMeans(n: nat)
    ensures |StampOf(n)| >= 20 && HexValue(StampOf(n)) == n * 65536
    ensures forall i | 0 <= i < |StampOf(n)| :: 0x30 <= StampOf(n)[i] <= 0x39 || 0x61 <= StampOf(n)[i] <= 0x66
  {
    var a := Hex(n * 0x1_0000);
    HexInverts(n * 0x1_0000);
    HexDigits(n * 0x1_0000);
    if |a| < 20 { PaddingIsZero(20 - |a|, a); }
  }

  lemma {:induction false} HexDigits(n: nat)
    ensures forall i | 0 <= i < |Hex(n)| :: 0x30 <= Hex(n)[i] <= 0x39 || 0x61 <= Hex(n)[i] <= 0x66
  {
    if n >= 16 { HexDigits(n / 16); }
  }

  /** The example: commit 171 has the stamp 00000000000000ab0000. */
  lemma StampExample()
    ensures StampOf(171) == [48, 48, 48, 48, 48, 48, 48, 48, 48, 48, 48, 48, 48, 48, 97, 98, 48, 48, 48, 48]
  {
    var ab: text := [97, 98];
    assert Hex(171) == ab by { assert Hex(10) == [97]; }
    assert Hex(2736) == ab + [48] && Hex(43776) == ab + [48, 48] && Hex(700416) == ab + [48, 48, 48];
    assert Hex(11206656) == ab + [48, 48, 48, 48];
  }
}
