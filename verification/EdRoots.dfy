/** Square roots modulo the two kinds of primes that the curves use. */
module EdRoots {
  import opened EdField

  ghost predicate IsSquare(p: int, t: int) {
    exists w: int :: Cong(p, w * w, t)
  }

  /** t^((p+1)/4) for p = 3 mod 4; t^((p+3)/8), times 2^((p-1)/4) if that is not yet a root, for p = 5 mod 8. */
  function Candidate(p: int, t: int): int
    requires p > 8
  {
    if p % 4 == 3 then ExpMod(t, (p + 1) / 4, p)
    else
      var x := ExpMod(t, (p + 3) / 8, p);
      if x * x % p == t % p then x else x * ExpMod(2, (p - 1) / 4, p) % p
  }

  // ---- p = 3 mod 4 -----------------------------------------------------------------------------------------

  /** If t = w^2 then t^k = w^(2k). */
  lemma PowOfSquare(p: int, w: int, t: int, k: nat)
    requires Cong(p, w * w, t)
    ensures Cong(p, Pow(t, k), Pow(w, 2 * k))
  {
    PowTwo(w);
    PowCong(p, w * w, t, k);
    CongSym(p, Pow(w * w, k), Pow(t, k));
    PowMultiple(w, 2, k);
  }

  lemma PowSquared(b: int, e: nat)
    ensures Pow(b, e) * Pow(b, e) == Pow(b, 2 * e)
  {
    PowAdd(b, e, e);
  }

  /** The square of t^k is t when t = w^2 and w^(4k) = w^2. */
  lemma RootBySquares(p: int, w: int, t: int, k: nat)
    requires p > 0 && Cong(p, w * w, t) && Cong(p, Pow(w, 4 * k), w * w)
    ensures Cong(p, Pow(t, k) * Pow(t, k), t)
  {
    PowOfSquare(p, w, t, k);
    CongMul(p, Pow(t, k), Pow(w, 2 * k), Pow(t, k), Pow(w, 2 * k));
    PowSquared(w, 2 * k);
    CongTrans(p, Pow(t, k) * Pow(t, k), Pow(w, 4 * k), w * w);
    CongTrans(p, Pow(t, k) * Pow(t, k), w * w, t);
  }

  lemma SquareMod(p: int, x: int, t: int)
    requires p > 0
    ensures Cong(p, (x % p) * (x % p), t) <==> Cong(p, x * x, t)
  {
    CongMod(p, x);
    CongMul(p, x % p, x, x % p, x);
    CongSym(p, (x % p) * (x % p), x * x);
    if Cong(p, x * x, t) { CongTrans(p, (x % p) * (x % p), x * x, t); }
    if Cong(p, (x % p) * (x % p), t) { CongTrans(p, x * x, (x % p) * (x % p), t); }
  }

  lemma RootThreeModFour(p: int, t: int)
    requires Prime(p) && p > 8 && p % 4 == 3 && IsSquare(p, t)
    ensures Cong(p, Candidate(p, t) * Candidate(p, t), t)
  {
    var w :| Cong(p, w * w, t);
    var k := (p + 1) / 4;
    assert 4 * k == (p - 1) + 2;
    PowAdd(w, p - 1, 2);
    PowTwo(w);
    PowerTimesSquare(p, w, p - 1);
    RootBySquares(p, w, t, k);
    SquareMod(p, Pow(t, k), t);
  }

  /** w^(p-1) * w^2 = w^2, whether w vanishes or not. */
  lemma PowerTimesSquare(p: int, w: int, e: nat)
    requires Prime(p) && e == p - 1
    ensures Cong(p, Pow(w, e) * (w * w), w * w)
  {
    if Cong(p, w, 0) {
      assert Pow(w, e) * (w * w) - w * w == (Pow(w, e) * w - w) * (w - 0);
      Combine1(p, Pow(w, e) * (w * w), w * w, Pow(w, e) * w - w, w, 0);
    } else {
      Fermat(p, w);
      assert Pow(w, e) * (w * w) - w * w == (w * w) * (Pow(w, e) - 1);
      Combine1(p, Pow(w, e) * (w * w), w * w, w * w, Pow(w, e), 1);
    }
  }

  // ---- 2 is no square modulo p = 5 mod 8 -------------------------------------------------------------------

  function Fact(n: nat): nat { if n == 0 then 1 else n * Fact(n - 1) }
  function Evens(m: nat): nat { if m == 0 then 1 else 2 * m * Evens(m - 1) }
  function Odds(m: nat): nat { if m == 0 then 1 else (2 * m - 1) * Odds(m - 1) }

  /** The product of 2j over the last t values j up to 2m. */
  function Upper(m: nat, t: nat): nat
    requires t <= 2 * m
  {
    if t == 0 then 1 else (4 * m - 2 * t + 2) * Upper(m, t - 1)
  }

  lemma {:induction false} EvensAndOdds(m: nat)
    ensures Evens(m) * Odds(m) == Fact(2 * m)
  {
    if m > 0 {
      EvensAndOdds(m - 1);
      assert Fact(2 * m) == 2 * m * Fact(2 * m - 1) && Fact(2 * m - 1) == (2 * m - 1) * Fact(2 * m - 2);
      ProductSwap(2 * m, 2 * m - 1, Evens(m - 1), Odds(m - 1));
      MulAssoc(2 * m, 2 * m - 1, Fact(2 * m - 2));
    }
  }

  lemma MulAssoc(a: int, b: int, c: int)
    ensures a * (b * c) == a * b * c
  {
  }

  lemma {:induction false} EvensArePowers(n: nat)
    ensures Evens(n) == Pow(2, n) * Fact(n)
  {
    if n > 0 {
      EvensArePowers(n - 1);
      ProductSwap(2, n, Pow(2, n - 1), Fact(n - 1));
    }
  }

  lemma {:induction false} EvensSplit(m: nat, t: nat)
    requires t <= 2 * m
    ensures Evens(2 * m) == Evens(2 * m - t) * Upper(m, t)
  {
    if t > 0 {
      EvensSplit(m, t - 1);
      var j := 2 * m - t + 1;
      assert Evens(j) == 2 * j * Evens(j - 1);
      SwapInto(2 * j, Evens(j - 1), Upper(m, t - 1));
    }
  }

  lemma SwapInto(a: int, b: int, c: int)
    ensures (a * b) * c == b * (a * c)
  {
  }

  function SignOf(t: nat): int { if t % 2 == 0 then 1 else -1 }

  /** Modulo 4m + 1 the upper even numbers are the odd ones with their signs changed. */
  lemma {:induction false} UpperIsOdds(m: nat, t: nat)
    requires t <= 2 * m
    ensures Cong(4 * m + 1, Upper(m, t), SignOf(t) * Odds(t))
  {
    var p := 4 * m + 1;
    if t == 0 {
      CongRefl(p, 1);
    } else {
      UpperIsOdds(m, t - 1);
      var f, g := 4 * m - 2 * t + 2, 2 * t - 1;
      CongBy(p, f, -g, 1);
      CongMul(p, f, -g, Upper(m, t - 1), SignOf(t - 1) * Odds(t - 1));
      SignStep(t, g, Odds(t - 1));
    }
  }

  lemma SignStep(t: nat, g: int, o: int)
    requires t > 0
    ensures -g * (SignOf(t - 1) * o) == SignOf(t) * (g * o)
  {
    assert SignOf(t - 1) == -SignOf(t);
  }

  lemma {:induction false} FactNonzero(p: int, n: nat)
    requires Prime(p) && n < p
    ensures !Cong(p, Fact(n), 0)
  {
    NonzeroSmall(p, 1);
    if n > 0 {
      FactNonzero(p, n - 1);
      NonzeroSmall(p, n);
      NonzeroProduct(p, n, Fact(n - 1));
    }
  }

  /** For p = 4m + 1 with odd m, 2^((p-1)/2) is -1. */
  lemma TwoToTheHalf(p: int)
    requires Prime(p) && p % 8 == 5
    ensures Cong(p, Pow(2, (p - 1) / 2), -1)
  {
    hide Fact, Evens, Odds, Upper, Pow;
    var m := (p - 1) / 4;
    EvensSplit(m, m);
    UpperIsOdds(m, m);
    EvensAndOdds(m);
    EvensArePowers(2 * m);
    FactNonzero(p, 2 * m);
    assert SignOf(m) == -1;
    GaussStep(p, Evens(m), Upper(m, m), Odds(m), Fact(2 * m), Pow(2, 2 * m));
    Cancel(p, Fact(2 * m), Pow(2, 2 * m), -1);
  }

  lemma GaussStep(p: int, e: int, u: int, o: int, f: int, x: int)
    requires Cong(p, u, -1 * o) && e * o == f && e * u == x * f
    ensures Cong(p, f * x, f * -1)
  {
    assert e * (u - -1 * o) == e * u + e * o;
    Combine1(p, f * x, f * -1, e, u, -1 * o);
  }

  // ---- p = 5 mod 8 -----------------------------------------------------------------------------------------

  /** A square root of one is 1 or -1. */
  lemma RootsOfOne(p: int, h: int)
    requires Prime(p) && Cong(p, h * h, 1)
    ensures Cong(p, h, 1) || Cong(p, h, -1)
  {
    assert (h - 1) * (h + 1) - 0 == 1 * (h * h - 1);
    Combine1(p, (h - 1) * (h + 1), 0, 1, h * h, 1);
    NoZeroDivisors(p, h - 1, h + 1);
    if Cong(p, h - 1, 0) {
      Combine1(p, h, 1, 1, h - 1, 0);
    } else {
      Combine1(p, h, -1, 1, h + 1, 0);
    }
  }

  lemma HalfPower(p: int, w: int)
    requires Prime(p) && p % 2 == 1 && !Cong(p, w, 0)
    ensures var h := Pow(w, (p - 1) / 2); Cong(p, h, 1) || Cong(p, h, -1)
  {
    Fermat(p, w);
    PowSquared(w, (p - 1) / 2);
    RootsOfOne(p, Pow(w, (p - 1) / 2));
  }

  /** Powers of a t that vanishes, squared, vanish with it. */
  lemma PowerOfZero(p: int, t: int, k: nat)
    requires Cong(p, t, 0) && k > 0
    ensures Cong(p, Pow(t, k) * Pow(t, k), t)
  {
    var y := Pow(t, k - 1);
    FactorOut(t, y);
    Combine1(p, (t * y) * (t * y), t, y * (t * y) - 1, t, 0);
  }

  lemma PowTwo(w: int)
    ensures Pow(w, 2) == w * w
  {
    assert Pow(w, 1) == w;
  }

  /** The first try: a square root of t or of -t. */
  lemma FirstTry(p: int, t: int)
    requires Prime(p) && p > 8 && p % 8 == 5 && IsSquare(p, t)
    ensures var x := Pow(t, (p + 3) / 8); Cong(p, x * x, t) || Cong(p, x * x, -t)
  {
    hide Pow, Prime;
    var w :| Cong(p, w * w, t);
    var k := (p + 3) / 8;
    var x := Pow(t, k);
    if Cong(p, w, 0) {
      Combine1(p, w * w, 0, w, w, 0);
      CongSym(p, w * w, t);
      CongTrans(p, t, w * w, 0);
      PowerOfZero(p, t, k);
    } else {
      var h := Pow(w, (p - 1) / 2);
      HalfPower(p, w);
      PowOfSquare(p, w, t, k);
      CongMul(p, x, Pow(w, 2 * k), x, Pow(w, 2 * k));
      PowSquared(w, 2 * k);
      assert 2 * (2 * k) == (p - 1) / 2 + 2;
      PowAdd(w, (p - 1) / 2, 2);
      PowTwo(w);
      if Cong(p, h, 1) {
        SignedSquare(p, x * x, h, 1, w * w, t);
      } else {
        SignedSquare(p, x * x, h, -1, w * w, t);
      }
    }
  }

  lemma FactorOut(t: int, y: int)
    ensures (t * y) * (t * y) - t == (y * (t * y) - 1) * (t - 0)
  {
  }

  lemma SignedSquare(p: int, s: int, h: int, e: int, w2: int, t: int)
    requires Cong(p, s, h * w2) && Cong(p, h, e) && Cong(p, w2, t)
    ensures Cong(p, s, e * t)
  {
    CongMul(p, h, e, w2, t);
    CongTrans(p, s, h * w2, e * t);
  }

  lemma RootFiveModEight(p: int, t: int)
    requires Prime(p) && p > 8 && p % 8 == 5 && IsSquare(p, t)
    ensures Cong(p, Candidate(p, t) * Candidate(p, t), t)
  {
    hide Pow, Prime, IsSquare, Cong, ExpMod, Candidate;
    var x0 := Pow(t, (p + 3) / 8);
    var x := ExpMod(t, (p + 3) / 8, p);
    FirstTry(p, t);
    CandidateAfter(p, t);
    SquareOfExp(p, t, (p + 3) / 8, t);
    SquareOfExp(p, t, (p + 3) / 8, -t);
    if !Cong(p, x * x, t) {
      MinusOneRoot(p);
      SecondTry(p, x, ExpMod(2, (p - 1) / 4, p), t);
    }
  }

  lemma SquareOfExp(p: int, b: int, e: nat, t: int)
    requires p > 0
    ensures Cong(p, ExpMod(b, e, p) * ExpMod(b, e, p), t) <==> Cong(p, Pow(b, e) * Pow(b, e), t)
  {
    SquareMod(p, Pow(b, e), t);
  }

  /** The candidate is the first try, or the second when the first is no root. */
  lemma CandidateAfter(p: int, t: int)
    requires p > 8 && p % 8 == 5
    ensures var x := ExpMod(t, (p + 3) / 8, p);
      Candidate(p, t) == if Cong(p, x * x, t) then x else x * ExpMod(2, (p - 1) / 4, p) % p
  {
    hide ExpMod, Cong;
    var x := ExpMod(t, (p + 3) / 8, p);
    ModIff(p, x * x, t);
  }

  lemma MinusOneRoot(p: int)
    requires Prime(p) && p % 8 == 5
    ensures var c := ExpMod(2, (p - 1) / 4, p); Cong(p, c * c, -1)
  {
    hide Pow, Cong;
    var e := (p - 1) / 4;
    assert 2 * e == (p - 1) / 2;
    TwoToTheHalf(p);
    PowSquared(2, e);
    var c := Pow(2, e);
    SquareMod(p, c, -1);
  }

  lemma SecondTry(p: int, x: int, c: int, t: int)
    requires p > 0 && Cong(p, x * x, -t) && Cong(p, c * c, -1)
    ensures Cong(p, (x * c % p) * (x * c % p), t)
  {
    CongMul(p, x * x, -t, c * c, -1);
    ProductSwap(x, c, x, c);
    ProductSwap(x, x, c, c);
    SquareMod(p, x * c, t);
  }

  /** The code's candidate is a square root whenever there is one. */
  lemma CandidateIsRoot(p: int, t: int)
    requires Prime(p) && p > 8 && (p % 4 == 3 || p % 8 == 5)
    ensures Cong(p, Candidate(p, t) * Candidate(p, t), t) <==> IsSquare(p, t)
  {
    if IsSquare(p, t) {
      if p % 4 == 3 { RootThreeModFour(p, t); } else { RootFiveModEight(p, t); }
    }
  }
}
