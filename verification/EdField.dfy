/** Arithmetic modulo a prime: congruences, inverses, Fermat's theorem and square roots. */
module EdField {
  // ---- congruence ------------------------------------------------------------------------------------------

  ghost predicate Cong(p: int, x: int, y: int) {
    exists k :: x - y == Times(k, p)
  }

  function Times(k: int, p: int): int { k * p }

  lemma CongBy(p: int, x: int, y: int, k: int)
    requires x - y == k * p
    ensures Cong(p, x, y)
  {
    assert x - y == Times(k, p);
  }

  lemma CongRefl(p: int, x: int)
    ensures Cong(p, x, x)
  {
    CongBy(p, x, x, 0);
  }

  /** If x - y is a combination of differences that vanish modulo p, then x and y are congruent. */
  lemma Combine1(p: int, x: int, y: int, c: int, a: int, b: int)
    requires Cong(p, a, b) && x - y == c * (a - b)
    ensures Cong(p, x, y)
  {
    var k :| a - b == Times(k, p);
    assert c * (k * p) == (c * k) * p;
    CongBy(p, x, y, c * k);
  }

  lemma Combine2(p: int, x: int, y: int, c: int, a: int, b: int, c': int, a': int, b': int)
    requires Cong(p, a, b) && Cong(p, a', b') && x - y == c * (a - b) + c' * (a' - b')
    ensures Cong(p, x, y)
  {
    var k :| a - b == Times(k, p);
    var k' :| a' - b' == Times(k', p);
    assert c * (k * p) + c' * (k' * p) == (c * k + c' * k') * p;
    CongBy(p, x, y, c * k + c' * k');
  }

  lemma CongSym(p: int, x: int, y: int)
    requires Cong(p, x, y)
    ensures Cong(p, y, x)
  {
    Combine1(p, y, x, -1, x, y);
  }

  lemma CongTrans(p: int, x: int, y: int, z: int)
    requires Cong(p, x, y) && Cong(p, y, z)
    ensures Cong(p, x, z)
  {
    Combine2(p, x, z, 1, x, y, 1, y, z);
  }

  lemma CongAdd(p: int, a: int, b: int, c: int, d: int)
    requires Cong(p, a, b) && Cong(p, c, d)
    ensures Cong(p, a + c, b + d)
  {
    Combine2(p, a + c, b + d, 1, a, b, 1, c, d);
  }

  lemma CongSub(p: int, a: int, b: int, c: int, d: int)
    requires Cong(p, a, b) && Cong(p, c, d)
    ensures Cong(p, a - c, b - d)
  {
    Combine2(p, a - c, b - d, 1, a, b, -1, c, d);
  }

  lemma CongMul(p: int, a: int, b: int, c: int, d: int)
    requires Cong(p, a, b) && Cong(p, c, d)
    ensures Cong(p, a * c, b * d)
  {
    assert a * c - b * d == c * (a - b) + b * (c - d);
    Combine2(p, a * c, b * d, c, a, b, b, c, d);
  }

  lemma CongMod(p: int, x: int)
    requires p > 0
    ensures Cong(p, x % p, x)
  {
    assert x == x / p * p + x % p;
    assert x % p - x == (-(x / p)) * p;
    CongBy(p, x % p, x, -(x / p));
  }

  lemma CongUnique(p: int, x: int, y: int)
    requires Cong(p, x, y) && 0 <= x < p && 0 <= y < p
    ensures x == y
  {
    var k :| x - y == Times(k, p);
    MultipleIsBig(k, p);
  }

  lemma MultipleIsBig(k: int, p: int)
    requires p > 0
    ensures k > 0 ==> k * p >= p
    ensures k < 0 ==> k * p <= -p
  {
    if k > 0 {
      MulMonotone(1, k, p);
    } else if k < 0 {
      MulMonotone(1, -k, p);
      assert (-k) * p == -(k * p);
    }
  }

  lemma MulMonotone(a: int, b: int, p: int)
    requires p > 0 && a <= b
    ensures a * p <= b * p
  {
  }

  lemma ModIff(p: int, x: int, y: int)
    requires p > 0
    ensures x % p == y % p <==> Cong(p, x, y)
  {
    CongMod(p, x);
    CongMod(p, y);
    if x % p == y % p {
      CongSym(p, x % p, x);
      CongTrans(p, x, x % p, y);
    }
    if Cong(p, x, y) {
      CongTrans(p, x % p, x, y);
      CongSym(p, y % p, y);
      CongTrans(p, x % p, y, y % p);
      CongUnique(p, x % p, y % p);
    }
  }

  // ---- primes ----------------------------------------------------------------------------------------------

  ghost predicate Prime(p: int) {
    p > 1 && forall d | 1 < d < p :: !Divides(d, p)
  }

  function Divides(d: int, n: int): bool
    requires d > 0
  {
    n % d == 0
  }

  /** Extended Euclid: the greatest common divisor as a combination. */
  function Euclid(a: nat, b: nat): (r: (int, int, nat))
    requires a > 0 || b > 0
    ensures r.2 > 0
    decreases b
  {
    if b == 0 then (1, 0, a) else
      var (x, y, g) := Euclid(b, a % b);
      (y, x - a / b * y, g)
  }

  lemma DividesSum(d: int, x: int, y: int, k: int)
    requires d > 0 && Divides(d, x) && Divides(d, y)
    ensures Divides(d, x * k + y)
  {
    assert x == x / d * d && y == y / d * d;
    var q := x / d * k + y / d;
    assert x * k + y == q * d;
    ModOfMultiple(q, d);
  }

  lemma ModOfMultiple(q: int, d: int)
    requires d > 0
    ensures (q * d) % d == 0
  {
    CongBy(d, q * d, 0, q);
    ModIff(d, q * d, 0);
  }

  lemma {:induction false} EuclidIsGcd(a: nat, b: nat)
    requires a > 0 || b > 0
    ensures var (x, y, g) := Euclid(a, b); a * x + b * y == g && Divides(g, a) && Divides(g, b)
    decreases b
  {
    if b != 0 {
      var (x, y, g) := Euclid(b, a % b);
      EuclidIsGcd(b, a % b);
      var q, r := a / b, a % b;
      assert a == b * q + r by { assert a == q * b + r; }
      DividesSum(g, b, r, q);
      BackSubstitute(a, b, q, r, x, y);
    }
  }

  lemma BackSubstitute(a: int, b: int, q: int, r: int, x: int, y: int)
    requires a == b * q + r
    ensures a * y + b * (x - q * y) == b * x + r * y
  {
    assert a * y == b * q * y + r * y;
    assert b * (x - q * y) == b * x - b * q * y;
  }

  lemma BezoutCong(p: int, a: int, x: int, y: int)
    requires p > 0 && a * x + p * y == 1
    ensures Cong(p, a * x, 1)
  {
    assert a * x - 1 == (-y) * p;
    CongBy(p, a * x, 1, -y);
  }

  /** mbedtls_mpi_inv_mod: the inverse modulo p, when there is one. */
  function InvMod(z: int, p: int): int
    requires p > 1
  {
    Euclid(z % p, p).0 % p
  }

  predicate Invertible(z: int, p: int)
    requires p > 1
  {
    Euclid(z % p, p).2 == 1
  }

  lemma InvModInverts(z: int, p: int)
    requires p > 1 && Invertible(z, p)
    ensures 0 <= InvMod(z, p) < p && Cong(p, z * InvMod(z, p), 1)
  {
    var a := z % p;
    var (x, y, g) := Euclid(a, p);
    EuclidIsGcd(a, p);
    CongMod(p, z);
    CongMod(p, x);
    CongSym(p, a, z);
    CongMul(p, z, a, x % p, x);
    BezoutCong(p, a, x, y);
    CongTrans(p, z * (x % p), a * x, 1);
  }

  /** Modulo a prime, exactly the multiples of p have no inverse. */
  lemma PrimeInvertible(z: int, p: int)
    requires Prime(p)
    ensures Invertible(z, p) <==> !Cong(p, z, 0)
  {
    var (x, y, g) := Euclid(z % p, p);
    EuclidIsGcd(z % p, p);
    ModIff(p, z, 0);
    if z % p == 0 {
      assert Euclid(0, p).2 == p;
    } else {
      assert g <= z % p by { DivisorAtMost(g, z % p); }
    }
  }

  lemma DivisorAtMost(d: int, n: int)
    requires d > 0 && n > 0 && Divides(d, n)
    ensures d <= n
  {
  }

  /** A product vanishes only if a factor does. */
  lemma NoZeroDivisors(p: int, a: int, b: int)
    requires Prime(p) && Cong(p, a * b, 0)
    ensures Cong(p, a, 0) || Cong(p, b, 0)
  {
    PrimeInvertible(a, p);
    if Invertible(a, p) {
      InvModInverts(a, p);
      var i := InvMod(a, p);
      Combine2(p, b, 0, i, a * b, 0, -b, a * i, 1);
    }
  }

  lemma Cancel(p: int, a: int, x: int, y: int)
    requires Prime(p) && !Cong(p, a, 0) && Cong(p, a * x, a * y)
    ensures Cong(p, x, y)
  {
    assert a * (x - y) - 0 == 1 * (a * x - a * y);
    Combine1(p, a * (x - y), 0, 1, a * x, a * y);
    NoZeroDivisors(p, a, x - y);
    Combine1(p, x, y, 1, x - y, 0);
  }

  lemma NonzeroProduct(p: int, a: int, b: int)
    requires Prime(p) && !Cong(p, a, 0) && !Cong(p, b, 0)
    ensures !Cong(p, a * b, 0)
  {
    if Cong(p, a * b, 0) {
      NoZeroDivisors(p, a, b);
    }
  }

  lemma NonzeroSmall(p: int, x: int)
    requires 0 < x < p
    ensures !Cong(p, x, 0) && !Cong(p, -x, 0)
  {
    if Cong(p, x, 0) { CongUnique(p, x, 0); }
    if Cong(p, -x, 0) {
      Combine1(p, x, 0, -1, -x, 0);
      CongUnique(p, x, 0);
    }
  }

  // ---- powers ----------------------------------------------------------------------------------------------

  function Pow(b: int, e: nat): int {
    if e == 0 then 1 else b * Pow(b, e - 1)
  }

  /** mbedtls_mpi_exp_mod */
  function ExpMod(b: int, e: nat, p: int): int
    requires p > 0
  {
    Pow(b, e) % p
  }

  lemma {:induction false} PowAdd(b: int, e: nat, f: nat)
    ensures Pow(b, e + f) == Pow(b, e) * Pow(b, f)
  {
    if e > 0 {
      PowAdd(b, e - 1, f);
      assert b * (Pow(b, e - 1) * Pow(b, f)) == b * Pow(b, e - 1) * Pow(b, f);
    }
  }

  lemma {:induction false} PowMultiple(b: int, e: nat, k: nat)
    ensures Pow(Pow(b, e), k) == Pow(b, e * k)
  {
    if k > 0 {
      PowMultiple(b, e, k - 1);
      assert e * k == e + e * (k - 1);
      PowAdd(b, e, e * (k - 1));
    }
  }

  lemma {:induction false} PowProduct(a: int, b: int, e: nat)
    ensures Pow(a * b, e) == Pow(a, e) * Pow(b, e)
  {
    if e > 0 {
      PowProduct(a, b, e - 1);
      ProductSwap(a, b, Pow(a, e - 1), Pow(b, e - 1));
    }
  }

  lemma ProductSwap(a: int, b: int, x: int, y: int)
    ensures a * b * (x * y) == (a * x) * (b * y)
  {
  }

  lemma {:induction false} PowCong(p: int, a: int, b: int, e: nat)
    requires Cong(p, a, b)
    ensures Cong(p, Pow(a, e), Pow(b, e))
  {
    if e == 0 {
      CongRefl(p, 1);
    } else {
      PowCong(p, a, b, e - 1);
      CongMul(p, a, b, Pow(a, e - 1), Pow(b, e - 1));
    }
  }

  lemma {:induction false} PowOne(e: nat)
    ensures Pow(1, e) == 1
  {
    if e > 0 {
      PowOne(e - 1);
    }
  }

  // ---- Fermat ----------------------------------------------------------------------------------------------

  function Choose(n: nat, k: nat): nat {
    if k == 0 then 1 else if n == 0 then 0 else Choose(n - 1, k - 1) + Choose(n - 1, k)
  }

  lemma {:induction false} ChooseTooMany(n: nat, k: nat)
    requires k > n
    ensures Choose(n, k) == 0
  {
    if n > 0 {
      ChooseTooMany(n - 1, k - 1);
      ChooseTooMany(n - 1, k);
    }
  }

  lemma {:induction false} ChooseAll(n: nat)
    ensures Choose(n, n) == 1
  {
    if n > 0 {
      ChooseAll(n - 1);
      ChooseTooMany(n - 1, n);
    }
  }

  lemma {:induction false} ChooseAbsorb(n: nat, k: nat)
    requires n >= 1 && k >= 1
    ensures k * Choose(n, k) == n * Choose(n - 1, k - 1)
    decreases n
  {
    if n == 1 {
      if k > 1 {
        ChooseTooMany(1, k);
        ChooseTooMany(0, k - 1);
      }
    } else {
      ChooseAbsorb(n - 1, k);
      var x, y := Choose(n - 1, k - 1), Choose(n - 1, k);
      if k > 1 {
        ChooseAbsorb(n - 1, k - 1);
        var u, v := Choose(n - 2, k - 2), Choose(n - 2, k - 1);
        AbsorbStep(n, k, x, y, u, v);
      }
    }
  }

  lemma AbsorbStep(n: int, k: int, x: int, y: int, u: int, v: int)
    requires x == u + v && k * y == (n - 1) * v && (k - 1) * x == (n - 1) * u
    ensures k * (x + y) == n * x
  {
    assert k * (x + y) == (k - 1) * x + x + k * y;
    assert (n - 1) * x == (n - 1) * u + (n - 1) * v;
  }

  /** The first m terms of the binomial expansion of (a + 1)^n. */
  function Terms(n: nat, a: int, m: nat): int {
    if m == 0 then 0 else Terms(n, a, m - 1) + Choose(n, m - 1) * Pow(a, m - 1)
  }

  lemma {:induction false} TermsPascal(n: nat, a: int, m: nat)
    requires m >= 1
    ensures Terms(n + 1, a, m) == Terms(n, a, m) + a * Terms(n, a, m - 1)
    decreases m
  {
    if m > 1 {
      TermsPascal(n, a, m - 1);
      var x, y, q := Choose(n, m - 2), Choose(n, m - 1), Pow(a, m - 2);
      PascalStep(a, x, y, q, Terms(n, a, m - 1), Terms(n, a, m - 2));
    }
  }

  lemma PascalStep(a: int, x: int, y: int, q: int, t: int, u: int)
    ensures (t + a * u) + (x + y) * (a * q) == (t + y * (a * q)) + a * (u + x * q)
  {
    assert (x + y) * (a * q) == x * (a * q) + y * (a * q);
    assert x * (a * q) == a * (x * q);
  }

  lemma {:induction false} Binomial(n: nat, a: int)
    ensures Pow(a + 1, n) == Terms(n, a, n + 1)
  {
    if n > 0 {
      Binomial(n - 1, a);
      TermsPascal(n - 1, a, n + 1);
      ChooseTooMany(n - 1, n);
      var t := Terms(n - 1, a, n);
      assert (a + 1) * t == t + a * t;
    } else {
      assert Terms(0, a, 1) == Terms(0, a, 0) + Choose(0, 0) * Pow(a, 0);
    }
  }

  lemma ChoosePrime(p: int, k: nat)
    requires Prime(p) && 0 < k < p
    ensures Cong(p, Choose(p, k), 0)
  {
    ChooseAbsorb(p, k);
    CongBy(p, k * Choose(p, k), 0, Choose(p - 1, k - 1));
    NonzeroSmall(p, k);
    NoZeroDivisors(p, k, Choose(p, k));
  }

  lemma {:induction false} TermsPrime(p: int, a: int, m: nat)
    requires Prime(p) && 1 <= m <= p
    ensures Cong(p, Terms(p, a, m), 1)
    decreases m
  {
    if m == 1 {
      assert Terms(p, a, 1) == Terms(p, a, 0) + Choose(p, 0) * Pow(a, 0);
      CongRefl(p, 1);
    } else {
      TermsPrime(p, a, m - 1);
      ChoosePrime(p, m - 1);
      var x, c, q := Terms(p, a, m - 1), Choose(p, m - 1), Pow(a, m - 1);
      assert x + c * q - 1 == 1 * (x - 1) + q * (c - 0);
      Combine2(p, x + c * q, 1, 1, x, 1, q, c, 0);
    }
  }

  lemma {:induction false} FermatNat(p: int, a: nat)
    requires Prime(p)
    ensures Cong(p, Pow(a, p), a)
  {
    if a == 0 {
      assert Pow(0, p) == 0 * Pow(0, p - 1);
      CongRefl(p, 0);
    } else {
      var b := a - 1;
      FermatNat(p, b);
      Binomial(p, b);
      TermsPrime(p, b, p);
      ChooseAll(p);
      var t, q := Terms(p, b, p), Pow(b, p);
      assert Pow(a, p) == t + q;
      Combine2(p, t + q, a, 1, t, 1, 1, q, b);
    }
  }

  /** a^(p-1) is 1 modulo p for every a that p does not divide. */
  lemma Fermat(p: int, a: int)
    requires Prime(p) && !Cong(p, a, 0)
    ensures Cong(p, Pow(a, p - 1), 1)
  {
    var r := a % p;
    CongMod(p, a);
    FermatNat(p, r);
    PowCong(p, r, a, p);
    CongSym(p, Pow(r, p), Pow(a, p));
    CongTrans(p, Pow(a, p), Pow(r, p), r);
    CongTrans(p, Pow(a, p), r, a);
    assert Pow(a, p) == a * Pow(a, p - 1) && a * 1 == a;
    Cancel(p, a, Pow(a, p - 1), 1);
  }
}
