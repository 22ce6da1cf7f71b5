/** The two curves of RFC 8032, down to what is left as a hypothesis about each. */
module EdSuites {
  import opened Bytes
  import opened BigEndian
  import opened EdField
  import opened EdRoots
  import opened EdCurve
  import opened EdPoints
  import opened EdCodec
  import opened EdSign

  /** Facts of number theory that are not proved here: p is prime, and L B = O. */
  ghost predicate NumberTheory(c: Curve) {
    Prime(c.p) && Multiple(c, c.L, Base(c)) == IDENTITY
  }

  // ---- d is not a square -----------------------------------------------------------------------------------

  /** Raised to half of p - 1, a square gives 1. */
  lemma SquareToTheHalf(p: int, t: int)
    requires Prime(p) && p % 2 == 1 && IsSquare(p, t) && !Cong(p, t, 0)
    ensures Cong(p, Pow(t, (p - 1) / 2), 1)
  {
    assert p > 1;
    hide Pow, Prime;
    var w: int :| Cong(p, w * w, t);
    var k := (p - 1) / 2;
    if Cong(p, w, 0) {
      ZeroTimes(p, w, w);
      CongSym(p, w * w, t);
      CongTrans(p, t, w * w, 0);
    }
    Fermat(p, w);
    PowOfSquare(p, w, t, k);
    assert 2 * k == p - 1;
    CongTrans(p, Pow(t, k), Pow(w, 2 * k), 1);
  }

  lemma MinusOneIsNotOne(p: int)
    requires p > 2
    ensures !Cong(p, -1, 1)
  {
    if Cong(p, -1, 1) {
      NonzeroSmall(p, 2);
      Combine1(p, -2, 0, 1, -1, 1);
    }
  }

  /** 2 is not a square modulo p = 5 mod 8. */
  lemma TwoIsNoSquare(p: int)
    requires Prime(p) && p % 8 == 5
    ensures !IsSquare(p, 2)
  {
    assert p > 1;
    hide Pow, Prime, Cong, IsSquare;
    if IsSquare(p, 2) {
      NonzeroSmall(p, 2);
      SquareToTheHalf(p, 2);
      TwoToTheHalf(p);
      CongSym(p, Pow(2, (p - 1) / 2), -1);
      CongTrans(p, -1, Pow(2, (p - 1) / 2), 1);
      MinusOneIsNotOne(p);
    }
  }

  /** -1 is not a square modulo p = 3 mod 4. */
  lemma MinusOneIsNoSquare(p: int)
    requires Prime(p) && p % 4 == 3
    ensures !IsSquare(p, -1)
  {
    assert p > 1;
    hide Pow, Prime, Cong, IsSquare;
    if IsSquare(p, -1) {
      NonzeroSmall(p, 1);
      SquareToTheHalf(p, -1);
      OddPowerOfMinusOne((p - 1) / 2);
      MinusOneIsNotOne(p);
    }
  }

  lemma {:induction false} OddPowerOfMinusOne(k: nat)
    ensures Pow(-1, k) == if k % 2 == 1 then -1 else 1
  {
    if k > 0 { OddPowerOfMinusOne(k - 1); }
  }

  /** If d times g is a square other than zero and g is not a square, then d is not. */
  lemma NotBothSquares(p: int, d: int, g: int, w: int)
    requires Prime(p) && Cong(p, w * w, d * g) && !Cong(p, d, 0) && !IsSquare(p, g)
    ensures !IsSquare(p, d)
  {
    hide Prime;
    if IsSquare(p, d) {
      var u: int :| Cong(p, u * u, d);
      if Cong(p, u, 0) {
        ZeroTimes(p, u, u);
        CongSym(p, u * u, d);
        CongTrans(p, d, u * u, 0);
      }
      CongRefl(p, g);
      CongSym(p, u * u, d);
      CongMul(p, d, u * u, g, g);
      CongTrans(p, w * w, d * g, (u * u) * g);
      assert (u * u) * g == g * (u * u);
      QuotientIsRoot(p, g, w, u);
    }
  }

  lemma RootBy(p: int, w: int, t: int)
    requires p > 0 && (w * w - t) % p == 0
    ensures Cong(p, w * w, t)
  {
    hide Cong;
    ModIff(p, w * w - t, 0);
    Combine1(p, w * w, t, 1, w * w - t, 0);
  }

  /** 2 d is the square of this number and 2 is not a square. */
  lemma NonSquare25519()
    requires Prime(ED25519.p)
    ensures !IsSquare(ED25519.p, ED25519.d)
  {
    hide Prime, IsSquare, Cong;
    var c := ED25519;
    var w := 55487632915927625549282413919184614932259505768049324239291840100650878933168;
    RootBy(c.p, w, c.d * 2);
    TwoIsNoSquare(c.p);
    NonzeroSmall(c.p, c.d);
    NotBothSquares(c.p, c.d, 2, w);
  }

  /** -d is the square of this number and -1 is not a square. */
  lemma NonSquare448()
    requires Prime(ED448.p)
    ensures !IsSquare(ED448.p, ED448.d)
  {
    hide Prime, IsSquare, Cong;
    var c := ED448;
    var w :=
      627894490647874670780146803011075515225223784391788159207390309582568626050729514829594252134780030556161172229750791477826575600769225;
    RootBy(c.p, w, c.d * -1);
    MinusOneIsNoSquare(c.p);
    NonzeroSmall(c.p, c.d);
    NotBothSquares(c.p, c.d, -1, w);
  }

  // ---- the constants ---------------------------------------------------------------------------------------

  lemma {:induction false} PowerOfSum(a: nat, b: nat)
    ensures Pow256(a + b) == Pow256(a) * Pow256(b)
  {
    if a > 0 {
      PowerOfSum(a - 1, b);
      assert 256 * (Pow256(a - 1) * Pow256(b)) == 256 * Pow256(a - 1) * Pow256(b);
    }
  }

  lemma Powers()
    ensures Pow256(31) == 0x1_00_0000_0000_0000_0000_0000_0000_0000_0000_0000_0000_0000_0000_0000_0000_0000
    ensures Pow256(56) ==
      0x1_0000_0000_0000_0000_0000_0000_0000_0000_0000_0000_0000_0000_0000_0000_0000_0000_0000_0000_0000_0000_0000_0000_0000_0000_0000_0000_0000_0000
  {
    hide Pow256;
    PowerOfOne();
    Product(1, 1, 0x100, 0x100);
    Product(2, 2, 0x1_0000, 0x1_0000);
    Product(4, 4, 0x1_0000_0000, 0x1_0000_0000);
    Product(8, 8, 0x1_0000_0000_0000_0000, 0x1_0000_0000_0000_0000);
    Product(16, 8, 0x1_0000_0000_0000_0000_0000_0000_0000_0000, 0x1_0000_0000_0000_0000);
    Product(24, 4, 0x1_0000_0000_0000_0000_0000_0000_0000_0000_0000_0000_0000_0000, 0x1_0000_0000);
    Product(28, 2, 0x1_0000_0000_0000_0000_0000_0000_0000_0000_0000_0000_0000_0000_0000_0000, 0x1_0000);
    Product(30, 1, 0x1_0000_0000_0000_0000_0000_0000_0000_0000_0000_0000_0000_0000_0000_0000_0000, 0x100);
    Product(28, 28, 0x1_0000_0000_0000_0000_0000_0000_0000_0000_0000_0000_0000_0000_0000_0000,
      0x1_0000_0000_0000_0000_0000_0000_0000_0000_0000_0000_0000_0000_0000_0000);
  }

  lemma PowerOfOne()
    ensures Pow256(1) == 0x100
  {
  }

  lemma Product(a: nat, b: nat, x: int, y: int)
    requires Pow256(a) == x && Pow256(b) == y
    ensures Pow256(a + b) == x * y
  {
    PowerOfSum(a, b);
  }

  lemma Layout25519()
    ensures Layout(ED25519)
  {
    Powers();
    assert Pow256(32) == 256 * Pow256(31);
  }

  lemma Layout448()
    ensures Layout(ED448)
  {
    Powers();
    assert Pow256(57) == 256 * Pow256(56);
  }

  lemma EquationBy(c: Curve, x: int, y: int)
    requires c.p > 0 && (c.a * (x * x) + y * y - 1 - c.d * ((x * y) * (x * y))) % c.p == 0
    ensures Equation(c, x, y)
  {
    hide Cong;
    var n := c.a * (x * x) + y * y - 1 - c.d * ((x * y) * (x * y));
    ModIff(c.p, n, 0);
    Combine1(c.p, c.a * (x * x) + y * y, 1 + c.d * ((x * y) * (x * y)), 1, n, 0);
  }

  lemma Base25519()
    ensures Equation(ED25519, ED25519.baseX, ED25519.baseY)
  {
    EquationBy(ED25519, ED25519.baseX, ED25519.baseY);
  }

  lemma Base448()
    ensures Equation(ED448, ED448.baseX, ED448.baseY)
  {
    EquationBy(ED448, ED448.baseX, ED448.baseY);
  }

  /** -1 is a square modulo 2^255 - 19. */
  lemma Suite25519()
    requires NumberTheory(ED25519)
    ensures Suite(ED25519)
  {
    hide Prime, Multiple, Cong, Pow256;
    var c := ED25519;
    Layout25519();
    NonSquare25519();
    Base25519();
    MinusOneRoot(c.p);
    var w := ExpMod(2, (c.p - 1) / 4, c.p);
    CongBy(c.p, -1, c.a, -1);
    CongTrans(c.p, w * w, -1, c.a);
  }

  lemma Suite448()
    requires NumberTheory(ED448)
    ensures Suite(ED448)
  {
    hide Prime, Multiple, Cong, Pow256;
    Layout448();
    NonSquare448();
    Base448();
    CongRefl(ED448.p, 1);
    assert Cong(ED448.p, 1 * 1, 1);
  }

  /** On both curves, verification accepts what signing produces under the seed's public key. */
  lemma SigningIsCompleteOnBothCurves(is448: bool, hash: Hash, seed: seq<byte>, msg: seq<byte>)
    requires var c := if is448 then ED448 else ED25519; NumberTheory(c) && Digest(c, hash)
    ensures var c := if is448 then ED448 else ED25519;
      Suite(c) && Accepts(c, hash, PublicKey(c, hash, seed), msg, SignatureOf(c, hash, seed, msg))
  {
    hide NumberTheory, Suite, Accepts, SignatureOf, PublicKey, ED448, ED25519;
    if is448 { Suite448(); } else { Suite25519(); }
    var c := if is448 then ED448 else ED25519;
    SigningIsComplete(c, hash, seed, msg);
  }
}
