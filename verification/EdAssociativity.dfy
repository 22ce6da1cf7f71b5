/** Associativity of point addition, from the vanishing of the bracket. */
module EdAssociativity {
  import opened EdField
  import opened EdRoots
  import opened EdCurve
  import opened EdGroup

  // ---- the numerators and denominators of (P + Q) + R and P + (Q + R) --------------------------------------

  lemma NumeratorOne(a: int, d: int, P: Point, Q: Point, R: Point)
    ensures var q := Pair(a, P.x, P.y, R.x, R.y);
      var X12, Y12, e := P.x * Q.y + Q.x * P.y, P.y * Q.y - a * (P.x * Q.x), d * ((P.x * P.y) * (Q.x * Q.y));
      (X12 * (1 - e)) * R.y + R.x * (Y12 * (1 + e))
      == (Q.y * q.X() + Q.x * q.Y()) + (d * (Q.x * Q.y)) * ((P.x * P.y) * (Q.y * q.U() - Q.x * q.V()))
  {
    var q := Pair(a, P.x, P.y, R.x, R.y);
    var X12, Y12, m1, m2 := P.x * Q.y + Q.x * P.y, P.y * Q.y - a * (P.x * Q.x), P.x * P.y, Q.x * Q.y;
    var e := d * (m1 * m2);
    FirstForms(a, P.x, P.y, Q.x, Q.y, R.x, R.y);
    SplitNumerator(X12, Y12, e, R.x, R.y);
    MoveCross(d, m1, m2, Q.y * q.U() - Q.x * q.V());
  }

  lemma SplitNumerator(X: int, Y: int, e: int, x: int, y: int)
    ensures (X * (1 - e)) * y + x * (Y * (1 + e)) == (X * y + x * Y) + e * (x * Y - X * y)
  {
  }

  lemma MoveCross(d: int, m: int, n: int, k: int)
    ensures (d * (m * n)) * k == (d * n) * (m * k)
  {
  }

  /** X12 y3 + x3 Y12 is y2 X + x2 Y, and x3 Y12 - X12 y3 is y2 u - x2 v. */
  lemma FirstForms(a: int, x1: int, y1: int, x2: int, y2: int, x3: int, y3: int)
    ensures (x1 * y2 + x2 * y1) * y3 + x3 * (y1 * y2 - a * (x1 * x2))
      == y2 * (x1 * y3 + x3 * y1) + x2 * (y1 * y3 - a * (x1 * x3))
    ensures x3 * (y1 * y2 - a * (x1 * x2)) - (x1 * y2 + x2 * y1) * y3
      == y2 * (y1 * x3 - x1 * y3) - x2 * (a * (x1 * x3) + y1 * y3)
  {
    assert (x1 * y2 + x2 * y1) * y3 == y2 * (x1 * y3) + x2 * (y1 * y3);
    assert x3 * (y1 * y2 - a * (x1 * x2)) == y2 * (x3 * y1) - x2 * (a * (x1 * x3)) by {
      ThirdInto(a, x1, x2, x3, y1, y2);
    }
    Distribute(y2, x1 * y3, x3 * y1);
    Distribute(x2, y1 * y3, a * (x1 * x3));
    Distribute(y2, y1 * x3, x1 * y3);
    Distribute(x2, a * (x1 * x3), y1 * y3);
  }

  lemma ThirdInto(a: int, x1: int, x2: int, x3: int, y1: int, y2: int)
    ensures x3 * (y1 * y2 - a * (x1 * x2)) == y2 * (x3 * y1) - x2 * (a * (x1 * x3))
  {
    Distribute(x3, y1 * y2, a * (x1 * x2));
    assert x3 * (y1 * y2) == y2 * (x3 * y1);
    assert x3 * (a * (x1 * x2)) == x2 * (a * (x1 * x3)) by {
      PullOut(a, x3, x1 * x2);
      PullOut(a, x2, x1 * x3);
      assert x3 * (x1 * x2) == x2 * (x1 * x3);
    }
  }

  lemma NumeratorTwo(a: int, d: int, P: Point, Q: Point, R: Point)
    ensures var q := Pair(a, P.x, P.y, R.x, R.y);
      var X23, Y23, e := Q.x * R.y + R.x * Q.y, Q.y * R.y - a * (Q.x * R.x), d * ((Q.x * Q.y) * (R.x * R.y));
      P.x * (Y23 * (1 + e)) + (X23 * (1 - e)) * P.y
      == (Q.y * q.X() + Q.x * q.Y()) + (d * (Q.x * Q.y)) * ((R.x * R.y) * (-(Q.y * q.U()) - Q.x * q.V()))
  {
    var q := Pair(a, P.x, P.y, R.x, R.y);
    var X23, Y23, m2, m3 := Q.x * R.y + R.x * Q.y, Q.y * R.y - a * (Q.x * R.x), Q.x * Q.y, R.x * R.y;
    var e := d * (m2 * m3);
    FirstForms(a, R.x, R.y, Q.x, Q.y, P.x, P.y);
    FlippedPair(a, P.x, P.y, Q.x, Q.y, R.x, R.y);
    SplitNumerator(X23, Y23, e, P.x, P.y);
    assert m2 * m3 == m3 * m2;
    MoveCross(d, m3, m2, -(Q.y * q.U()) - Q.x * q.V());
  }

  lemma FlippedPair(a: int, x1: int, y1: int, x2: int, y2: int, x3: int, y3: int)
    ensures x3 * y2 + x2 * y3 == x2 * y3 + x3 * y2 && y3 * y2 - a * (x3 * x2) == y2 * y3 - a * (x2 * x3)
    ensures y2 * (x3 * y1 + x1 * y3) + x2 * (y3 * y1 - a * (x3 * x1)) ==
      y2 * (x1 * y3 + x3 * y1) + x2 * (y1 * y3 - a * (x1 * x3))
    ensures y2 * (y3 * x1 - x3 * y1) - x2 * (a * (x3 * x1) + y3 * y1) ==
      -(y2 * (y1 * x3 - x1 * y3)) - x2 * (a * (x1 * x3) + y1 * y3)
  {
    assert x3 * x1 == x1 * x3 && y3 * y1 == y1 * y3 && x3 * x2 == x2 * x3 && y3 * y2 == y2 * y3;
    assert y3 * x1 == x1 * y3 && x3 * y1 == y1 * x3;
  }

  /** 1 - e^2 + d (m1 T2 + m2 T1) m3, with e = d m1 m2. */
  lemma DenominatorForm(d: int, m1: int, m2: int, m3: int, T1: int, T2: int)
    ensures var e := d * (m1 * m2);
      (1 - e * e) + d * ((m1 * T2 + m2 * T1) * m3)
      == (1 + d * (m1 * m3) * T2) + (d * m2) * (m3 * T1 - (d * m2) * (m1 * m1))
  {
    var e := d * (m1 * m2);
    assert e * e == (d * m2) * ((d * m2) * (m1 * m1)) by {
      SquareOfProduct(d, m1 * m2);
      SquareOfProduct(m1, m2);
      MulAssoc(d * m2, d * m2, m1 * m1);
      SquareOfProduct(d, m2);
      assert (d * d) * ((m1 * m1) * (m2 * m2)) == (d * d) * (m2 * m2) * (m1 * m1);
    }
    assert d * ((m1 * T2 + m2 * T1) * m3) == d * (m1 * m3) * T2 + (d * m2) * (m3 * T1) by {
      OpenDenominator(d, m1, m2, m3, T1, T2);
    }
    Distribute(d * m2, m3 * T1, (d * m2) * (m1 * m1));
  }

  lemma OpenDenominator(d: int, m1: int, m2: int, m3: int, T1: int, T2: int)
    ensures d * ((m1 * T2 + m2 * T1) * m3) == d * (m1 * m3) * T2 + (d * m2) * (m3 * T1)
  {
    assert (m1 * T2 + m2 * T1) * m3 == (m1 * m3) * T2 + m2 * (m3 * T1);
    Distribute(d, (m1 * m3) * T2, m2 * (m3 * T1));
    MulAssoc(d, m1 * m3, T2);
    MulAssoc(d, m2, m3 * T1);
  }

  /** N1 D2 - N2 D1, factored. */
  lemma CrossMultiplied(s: int, de: int, al: int, be: int, g1: int, g3: int, k: int)
    ensures (s + k * al) * (de + k * g3) - (s + k * be) * (de + k * g1)
      == k * (s * (g3 - g1) + de * (al - be) + k * (al * g3 - be * g1))
  {
    HalfCross(s, de, al, g3, k);
    HalfCross(s, de, be, g1, k);
    Distribute(s, g3, g1);
    Distribute(de, al, be);
    var u, v, w := s * (g3 - g1), de * (al - be), k * (al * g3 - be * g1);
    Distribute(k, u + v, w);
    Distribute(k, u, v);
    Distribute(k, s * g3, s * g1);
    Distribute(k, de * al, de * be);
    Distribute(k, al * g3, be * g1);
    Distribute(k, k * (al * g3), k * (be * g1));
  }

  lemma HalfCross(s: int, de: int, al: int, g: int, k: int)
    ensures (s + k * al) * (de + k * g) == s * de + k * (s * g) + k * (de * al) + k * (k * (al * g))
  {
    Expand(s, k * al, de, k * g);
    PullOut(k, s, g);
    assert (k * al) * de == k * (de * al);
    ProductSwap(k, al, k, g);
    MulAssoc(k, k, al * g);
  }

  /** The factor is the bracket. */
  lemma FactorIsBracket(d: int, x: int, y: int, T: int, q: Pair)
    ensures var m1, m3, u, v := q.M1(), q.M3(), q.U(), q.V();
      var k := d * (x * y);
      var al, be := m1 * (y * u - x * v), m3 * (-(y * u) - x * v);
      var g1, g3 := m3 * q.T1() - k * (m1 * m1), m1 * q.T3() - k * (m3 * m3);
      (y * q.X() + x * q.Y()) * (g3 - g1) + (1 + d * (m1 * m3) * T) * (al - be) + k * (al * g3 - be * g1)
      == Bracket(d, x, y, x * y, T, q)
  {
    var m1, m3, u, v, T1, T3 := q.M1(), q.M3(), q.U(), q.V(), q.T1(), q.T3();
    var k := d * (x * y);
    var al, be := m1 * (y * u - x * v), m3 * (-(y * u) - x * v);
    var g1, g3 := m3 * T1 - k * (m1 * m1), m1 * T3 - k * (m3 * m3);
    PairProducts(q);
    assert g3 - g1 == -(u * v) + k * (m1 * m1 - m3 * m3) by { Distribute(k, m1 * m1, m3 * m3); }
    AlphaMinusBeta(y * u, x * v, m1, m3);
    assert y * u * (m1 + m3) == (y * u) * (m1 + m3);
    AlphaGamma(y * u, x * v, m1, m3, T1, T3, k);
  }

  lemma AlphaMinusBeta(f: int, g: int, m: int, n: int)
    ensures m * (f - g) - n * (-f - g) == f * (m + n) - g * (m - n)
  {
  }

  lemma AlphaGamma(f: int, g: int, m: int, n: int, T: int, T': int, k: int)
    ensures (m * (f - g)) * (m * T' - k * (n * n)) - (n * (-f - g)) * (n * T - k * (m * m))
      == f * (m * m * T' + n * n * T) - g * (m * m * T' - n * n * T) - k * (m * n) * (f * (m + n) + g * (m - n))
  {
    assert (m * (f - g)) * (m * T' - k * (n * n)) == (f - g) * (m * m * T') - (f - g) * (k * (m * n) * n) by {
      OneGamma(f - g, m, n, T', k);
    }
    assert (n * (-f - g)) * (n * T - k * (m * m)) == (-f - g) * (n * n * T) - (-f - g) * (k * (m * n) * m) by {
      OneGamma(-f - g, n, m, T, k);
      assert k * (n * m) == k * (m * n);
    }
    var A, B, K := m * m * T', n * n * T, k * (m * n);
    assert f * (A + B) - g * (A - B) == (f - g) * A - (-f - g) * B;
    assert K * (f * (m + n) + g * (m - n)) == (f - g) * (K * n) - (-f - g) * (K * m) by { KTerms(K, f, g, m, n); }
  }

  lemma OneGamma(w: int, m: int, n: int, T: int, k: int)
    ensures (m * w) * (m * T - k * (n * n)) == w * (m * m * T) - w * (k * (m * n) * n)
  {
    Distribute(m * w, m * T, k * (n * n));
    ProductSwap(w, m, m, T);
    assert m * w == w * m;
    MulAssoc(w, m, m * T);
    MulAssoc(m, m, T);
    MulAssoc(w, m, k * (n * n));
    CrossMonomial(k, m, n);
  }

  lemma CrossMonomial(k: int, m: int, n: int)
    ensures m * (k * (n * n)) == k * (m * n) * n
  {
    PullOut(k, m, n * n);
    MulAssoc(m, n, n);
    MulAssoc(k, m * n, n);
  }

  lemma KTerms(K: int, f: int, g: int, m: int, n: int)
    ensures K * (f * (m + n) + g * (m - n)) == (f - g) * (K * n) - (-f - g) * (K * m)
  {
    assert f * (m + n) + g * (m - n) == (f - g) * n + (f + g) * m;
    Distribute(K, (f - g) * n, (f + g) * m);
    PullOut(K, f - g, n);
    PullOut(K, f + g, m);
  }

  // ---- clearing the inner denominators ---------------------------------------------------------------------

  function Numerator(X: int, Y: int, e: int, x: int, y: int): int { (X * (1 - e)) * y + x * (Y * (1 + e)) }
  function Denominator(d: int, X: int, Y: int, e: int, m: int): int { (1 - e * e) + d * ((X * Y) * m) }

  /** w is the x coordinate of (ax, ay) + (x, y), and ax, ay are the fractions X / (1 + e), Y / (1 - e). */
  lemma ClearInner(p: int, d: int, ax: int, ay: int, e: int, X: int, Y: int, x: int, y: int, w: int)
    requires Cong(p, ax * (1 + e), X) && Cong(p, ay * (1 - e), Y)
    requires Cong(p, w * (1 + d * ((ax * ay) * (x * y))), ax * y + x * ay)
    ensures Cong(p, ((1 + e) * (1 - e)) * (1 + d * ((ax * ay) * (x * y))), Denominator(d, X, Y, e, x * y))
    ensures Cong(p, w * Denominator(d, X, Y, e, x * y), Numerator(X, Y, e, x, y))
  {
    var f, g, m := 1 + e, 1 - e, x * y;
    var F, q, D := f * g, 1 + d * ((ax * ay) * m), Denominator(d, X, Y, e, m);
    CongMul(p, ax * f, X, ay * g, Y);
    CongRefl(p, m);
    CongRefl(p, d);
    CongRefl(p, F);
    CongMul(p, (ax * f) * (ay * g), X * Y, m, m);
    CongMul(p, d, d, ((ax * f) * (ay * g)) * m, (X * Y) * m);
    CongAdd(p, F, F, d * (((ax * f) * (ay * g)) * m), d * ((X * Y) * m));
    DenominatorCleared(d, ax, ay, f, g, m);
    assert F == 1 - e * e;
    ClearNumerator(p, ax, ay, e, X, Y, x, y);
    CongRefl(p, w);
    CongSym(p, F * q, D);
    CongMul(p, w, w, D, F * q);
    CongMul(p, F, F, w * q, ax * y + x * ay);
    assert w * (F * q) == F * (w * q) by { PullOut(F, w, q); }
    CongTrans(p, w * D, F * (w * q), F * (ax * y + x * ay));
    CongTrans(p, w * D, F * (ax * y + x * ay), Numerator(X, Y, e, x, y));
  }

  lemma DenominatorCleared(d: int, ax: int, ay: int, f: int, g: int, m: int)
    ensures (f * g) * (1 + d * ((ax * ay) * m)) == f * g + d * (((ax * f) * (ay * g)) * m)
  {
    ProductSwap(ax, f, ay, g);
    var k, F := ax * ay, f * g;
    assert F * (d * (k * m)) == d * ((k * F) * m) by {
      PullOut(d, F, k * m);
      assert F * (k * m) == (k * F) * m;
    }
    Distribute(F, 1, d * (k * m));
  }

  lemma ClearNumerator(p: int, ax: int, ay: int, e: int, X: int, Y: int, x: int, y: int)
    requires Cong(p, ax * (1 + e), X) && Cong(p, ay * (1 - e), Y)
    ensures Cong(p, ((1 + e) * (1 - e)) * (ax * y + x * ay), Numerator(X, Y, e, x, y))
  {
    var f, g := 1 + e, 1 - e;
    assert (f * g) * (ax * y + x * ay) == (g * y) * (ax * f) + (x * f) * (ay * g) by {
      NumeratorCleared(ax, ay, f, g, x, y);
    }
    assert Numerator(X, Y, e, x, y) == (g * y) * X + (x * f) * Y by { NumeratorOrder(X, Y, f, g, x, y); }
    Distribute(g * y, ax * f, X);
    Distribute(x * f, ay * g, Y);
    Combine2(p, (f * g) * (ax * y + x * ay), Numerator(X, Y, e, x, y), g * y, ax * f, X, x * f, ay * g, Y);
  }

  lemma NumeratorCleared(ax: int, ay: int, f: int, g: int, x: int, y: int)
    ensures (f * g) * (ax * y + x * ay) == (g * y) * (ax * f) + (x * f) * (ay * g)
  {
    Distribute(f * g, ax * y, x * ay);
    assert (f * g) * (ax * y) == (g * y) * (ax * f);
    ProductSwap(f, g, x, ay);
    assert (f * x) * (g * ay) == (x * f) * (ay * g);
  }

  lemma NumeratorOrder(X: int, Y: int, f: int, g: int, x: int, y: int)
    ensures (X * g) * y + x * (Y * f) == (g * y) * X + (x * f) * Y
  {
  }

  // ---- the x coordinates agree -----------------------------------------------------------------------------

  /** N1 D2 and N2 D1 agree modulo p for three points of the curve. */
  lemma CrossProductsAgree(c: Curve, P: Point, Q: Point, R: Point)
    requires Equation(c, P.x, P.y) && Equation(c, Q.x, Q.y) && Equation(c, R.x, R.y)
    ensures var e12, e23 := Cross(c, P, Q), Cross(c, Q, R);
      Cong(c.p,
        Numerator(SumX(c, P, Q), SumY(c, P, Q), e12, R.x, R.y)
          * Denominator(c.d, SumX(c, Q, R), SumY(c, Q, R), e23, P.x * P.y),
        Numerator(SumX(c, Q, R), SumY(c, Q, R), e23, P.x, P.y)
          * Denominator(c.d, SumX(c, P, Q), SumY(c, P, Q), e12, R.x * R.y))
  {
    var q := Pair(c.a, P.x, P.y, R.x, R.y);
    var x, y, m1, m2, m3 := Q.x, Q.y, P.x * P.y, Q.x * Q.y, R.x * R.y;
    var T1, T2, T3 := q.T1(), y * y - c.a * (x * x), q.T3();
    var k := c.d * m2;
    var s, de := y * q.X() + x * q.Y(), 1 + c.d * (m1 * m3) * T2;
    var al, be := m1 * (y * q.U() - x * q.V()), m3 * (-(y * q.U()) - x * q.V());
    var g1, g3 := m3 * T1 - k * (m1 * m1), m1 * T3 - k * (m3 * m3);
    NumeratorOne(c.a, c.d, P, Q, R);
    NumeratorTwo(c.a, c.d, P, Q, R);
    ProductExpand(c.a, P.x, P.y, Q.x, Q.y);
    ProductExpand(c.a, Q.x, Q.y, R.x, R.y);
    DenominatorForm(c.d, m1, m2, m3, T1, T2);
    DenominatorForm(c.d, m3, m2, m1, T3, T2);
    assert m2 * m3 == m3 * m2 && m1 * m3 == m3 * m1;
    BracketVanishes(c.p, c.d, x, y, q);
    CrossMultiplied(s, de, al, be, g1, g3, k);
    FactorIsBracket(c.d, x, y, T2, q);
    FromBracket(c.p, k, Bracket(c.d, x, y, m2, T2, q), s + k * al, de + k * g3, s + k * be, de + k * g1);
  }

  lemma FromBracket(p: int, k: int, b: int, n: int, d': int, n': int, d: int)
    requires Cong(p, b, 0) && n * d' - n' * d == k * b
    ensures Cong(p, n * d', n' * d)
  {
    Combine1(p, n * d', n' * d, k, b, 0);
  }

  lemma NonzeroDenominator(p: int, F: int, q: int, D: int)
    requires Prime(p) && Cong(p, F * q, D) && !Cong(p, F, 0) && !Cong(p, q, 0)
    ensures !Cong(p, D, 0)
  {
    if Cong(p, D, 0) {
      CongTrans(p, F * q, D, 0);
      NoZeroDivisors(p, F, q);
    }
  }

  /** (P + Q) + R in fractions with cleared denominators. */
  lemma LeftSum(c: Curve, P: Point, Q: Point, R: Point)
    requires Complete(c) && OnCurve(c, P) && OnCurve(c, Q) && OnCurve(c, R)
    ensures var W, X, Y, e := AddPoints(c, AddPoints(c, P, Q), R), SumX(c, P, Q), SumY(c, P, Q), Cross(c, P, Q);
      var D := Denominator(c.d, X, Y, e, R.x * R.y);
      0 <= W.x < c.p && Cong(c.p, W.x * D, Numerator(X, Y, e, R.x, R.y)) && !Cong(c.p, D, 0)
  {
    hide Prime, IsSquare, AddPoints, Cong, Equation;
    var A := AddPoints(c, P, Q);
    var W, X, Y, e := AddPoints(c, A, R), SumX(c, P, Q), SumY(c, P, Q), Cross(c, P, Q);
    SumIsOnCurve(c, P, Q);
    SumFractions(c, P, Q);
    SumFractions(c, A, R);
    ClearInner(c.p, c.d, A.x, A.y, e, X, Y, R.x, R.y, W.x);
    NonzeroProduct(c.p, 1 + e, 1 - e);
    NonzeroDenominator(c.p, (1 + e) * (1 - e), 1 + Cross(c, A, R), Denominator(c.d, X, Y, e, R.x * R.y));
  }

  /** P + (Q + R) the same way. */
  lemma RightSum(c: Curve, P: Point, Q: Point, R: Point)
    requires Complete(c) && OnCurve(c, P) && OnCurve(c, Q) && OnCurve(c, R)
    ensures var W, X, Y, e := AddPoints(c, P, AddPoints(c, Q, R)), SumX(c, Q, R), SumY(c, Q, R), Cross(c, Q, R);
      var D := Denominator(c.d, X, Y, e, P.x * P.y);
      0 <= W.x < c.p && Cong(c.p, W.x * D, Numerator(X, Y, e, P.x, P.y)) && !Cong(c.p, D, 0)
  {
    hide Prime, IsSquare, AddPoints, Cong, Equation;
    var B := AddPoints(c, Q, R);
    SumIsOnCurve(c, Q, R);
    LeftSum(c, Q, R, P);
    Commutes(c, P, B);
  }

  lemma Commutes(c: Curve, P: Point, Q: Point)
    requires c.p > 1
    ensures AddPoints(c, P, Q) == AddPoints(c, Q, P)
  {
    assert Cross(c, P, Q) == Cross(c, Q, P);
    assert SumX(c, P, Q) == SumX(c, Q, P);
    assert SumY(c, P, Q) == SumY(c, Q, P);
  }

  lemma SumsAgreeInX(c: Curve, P: Point, Q: Point, R: Point)
    requires Complete(c) && OnCurve(c, P) && OnCurve(c, Q) && OnCurve(c, R)
    ensures AddPoints(c, AddPoints(c, P, Q), R).x == AddPoints(c, P, AddPoints(c, Q, R)).x
  {
    hide IsSquare, AddPoints, Numerator, Denominator, SumX, SumY, Cross;
    var p := c.p;
    var W1, W2 := AddPoints(c, AddPoints(c, P, Q), R), AddPoints(c, P, AddPoints(c, Q, R));
    var D1 := Denominator(c.d, SumX(c, P, Q), SumY(c, P, Q), Cross(c, P, Q), R.x * R.y);
    var D2 := Denominator(c.d, SumX(c, Q, R), SumY(c, Q, R), Cross(c, Q, R), P.x * P.y);
    var N1 := Numerator(SumX(c, P, Q), SumY(c, P, Q), Cross(c, P, Q), R.x, R.y);
    var N2 := Numerator(SumX(c, Q, R), SumY(c, Q, R), Cross(c, Q, R), P.x, P.y);
    LeftSum(c, P, Q, R);
    RightSum(c, P, Q, R);
    CrossProductsAgree(c, P, Q, R);
    FractionsAgree(p, W1.x, D1, N1, W2.x, D2, N2);
    CongUnique(p, W1.x, W2.x);
  }

  lemma FractionsAgree(p: int, x: int, D: int, N: int, x': int, D': int, N': int)
    requires Prime(p) && Cong(p, x * D, N) && Cong(p, x' * D', N') && !Cong(p, D, 0) && !Cong(p, D', 0)
    requires Cong(p, N * D', N' * D)
    ensures Cong(p, x, x')
  {
    hide Prime, Cong;
    CongRefl(p, D);
    CongRefl(p, D');
    CongMul(p, x * D, N, D', D');
    CongMul(p, x' * D', N', D, D);
    CongSym(p, (x' * D') * D, N' * D);
    CongTrans(p, (x * D) * D', N * D', N' * D);
    CongTrans(p, (x * D) * D', N' * D, (x' * D') * D);
    assert (x * D) * D' == (D * D') * x;
    assert (x' * D') * D == (D * D') * x';
    NonzeroProduct(p, D, D');
    Cancel(p, D * D', x, x');
  }

  // ---- the y coordinates, by a quarter turn ----------------------------------------------------------------

  /** Adding the point (1/s, 0), where s^2 = a: (x, y) becomes (y/s, -s x). */
  function Turn(c: Curve, s: int, P: Point): Point
    requires c.p > 1
  {
    Point(InvMod(s, c.p) * P.y % c.p, -s * P.x % c.p)
  }

  ghost predicate IsRoot(c: Curve, s: int) {
    Cong(c.p, s * s, c.a)
  }

  lemma RootFacts(c: Curve, s: int)
    requires Complete(c) && IsRoot(c, s)
    ensures var r := InvMod(s, c.p);
      !Cong(c.p, s, 0) && !Cong(c.p, r, 0) && Cong(c.p, s * r, 1) && Cong(c.p, c.a * r, s)
  {
    hide Prime, IsSquare, Cong;
    var p, r := c.p, InvMod(s, c.p);
    NonzeroSmall(p, c.a);
    if Cong(p, s, 0) {
      ZeroTimes(p, s, s);
      CongSym(p, s * s, c.a);
      CongTrans(p, c.a, s * s, 0);
    }
    PrimeInvertible(s, p);
    InvModInverts(s, p);
    NonzeroSmall(p, 1);
    if Cong(p, r, 0) {
      ZeroTimes(p, r, s);
      CongSym(p, s * r, 1);
      CongTrans(p, 1, s * r, 0);
    }
    RootTimesInverse(p, c.a, s, r);
  }

  lemma RootTimesInverse(p: int, a: int, s: int, r: int)
    requires Cong(p, s * s, a) && Cong(p, s * r, 1)
    ensures Cong(p, a * r, s)
  {
    assert s * (s * r - 1) == (s * s) * r - s;
    assert -r * (s * s - a) == -((s * s) * r) + a * r;
    Combine2(p, a * r, s, -r, s * s, a, s, s * r, 1);
  }

  lemma TurnIs(c: Curve, s: int, P: Point)
    requires c.p > 1
    ensures var T := Turn(c, s, P);
      0 <= T.x < c.p && 0 <= T.y < c.p && Cong(c.p, T.x, InvMod(s, c.p) * P.y) && Cong(c.p, T.y, -s * P.x)
  {
    CongMod(c.p, InvMod(s, c.p) * P.y);
    CongMod(c.p, -s * P.x);
  }

  lemma TurnedFactors(s: int, r: int, x: int, y: int)
    ensures (r * y) * (-s * x) == -(x * y) * (s * r)
  {
    ProductSwap(r, y, -s, x);
    assert (r * -s) * (y * x) == -((s * r) * (x * y));
  }

  /** The product of the coordinates changes its sign. */
  lemma TurnProduct(p: int, s: int, r: int, x: int, y: int, tx: int, ty: int)
    requires Cong(p, s * r, 1) && Cong(p, tx, r * y) && Cong(p, ty, -s * x)
    ensures Cong(p, tx * ty, -(x * y))
  {
    hide Cong;
    CongMul(p, tx, r * y, ty, -s * x);
    TurnedFactors(s, r, x, y);
    CongRefl(p, -(x * y));
    CongMul(p, -(x * y), -(x * y), s * r, 1);
    CongTrans(p, tx * ty, -(x * y) * (s * r), -(x * y));
  }

  lemma TurnIsOnCurve(c: Curve, s: int, P: Point)
    requires Complete(c) && IsRoot(c, s) && OnCurve(c, P)
    ensures OnCurve(c, Turn(c, s, P))
  {
    hide Prime, IsSquare, Turn;
    var p, r, T := c.p, InvMod(s, c.p), Turn(c, s, P);
    RootFacts(c, s);
    TurnIs(c, s, P);
    TurnProduct(p, s, r, P.x, P.y, T.x, T.y);
    TurnEquation(p, c.a, c.d, s, r, P.x, P.y, T.x, T.y);
  }

  lemma TurnEquation(p: int, a: int, d: int, s: int, r: int, x: int, y: int, tx: int, ty: int)
    requires Cong(p, s * s, a) && Cong(p, s * r, 1) && Cong(p, a * r, s)
    requires Cong(p, tx, r * y) && Cong(p, ty, -s * x) && Cong(p, tx * ty, -(x * y))
    requires Cong(p, a * (x * x) + y * y, 1 + d * ((x * y) * (x * y)))
    ensures Cong(p, a * (tx * tx) + ty * ty, 1 + d * ((tx * ty) * (tx * ty)))
  {
    hide Cong;
    var k := x * y;
    CongRefl(p, a);
    CongRefl(p, y * y);
    CongRefl(p, x * x);
    CongMul(p, tx, r * y, tx, r * y);
    CongMul(p, ty, -s * x, ty, -s * x);
    SquareOfProduct(r, y);
    SquareOfProduct(-s, x);
    assert (-s) * (-s) == s * s;
    CongMul(p, a, a, tx * tx, (r * r) * (y * y));
    CongRefl(p, r);
    CongMul(p, a * r, s, r, r);
    assert s * r == r * s;
    CongTrans(p, (a * r) * r, s * r, 1);
    CongMul(p, (a * r) * r, 1, y * y, y * y);
    assert ((a * r) * r) * (y * y) == a * ((r * r) * (y * y)) by { MulAssoc(a, r, r); MulAssoc(a, r * r, y * y); }
    CongTrans(p, a * (tx * tx), a * ((r * r) * (y * y)), y * y);
    CongMul(p, s * s, a, x * x, x * x);
    CongTrans(p, ty * ty, (s * s) * (x * x), a * (x * x));
    CongAdd(p, a * (tx * tx), y * y, ty * ty, a * (x * x));
    CongTrans(p, a * (tx * tx) + ty * ty, a * (x * x) + y * y, 1 + d * (k * k));
    CongMul(p, tx * ty, -k, tx * ty, -k);
    assert (-k) * (-k) == k * k;
    CongRefl(p, d);
    CongRefl(p, 1);
    CongMul(p, d, d, (tx * ty) * (tx * ty), k * k);
    CongAdd(p, 1, 1, d * ((tx * ty) * (tx * ty)), d * (k * k));
    CongSym(p, 1 + d * ((tx * ty) * (tx * ty)), 1 + d * (k * k));
    CongTrans(p, a * (tx * tx) + ty * ty, 1 + d * (k * k), 1 + d * ((tx * ty) * (tx * ty)));
  }

  /** A sum is determined by its fractions. */
  lemma SumUnique(c: Curve, P: Point, Q: Point, R: Point)
    requires Complete(c) && OnCurve(c, P) && OnCurve(c, Q) && 0 <= R.x < c.p && 0 <= R.y < c.p
    requires Cong(c.p, R.x * (1 + Cross(c, P, Q)), SumX(c, P, Q))
    requires Cong(c.p, R.y * (1 - Cross(c, P, Q)), SumY(c, P, Q))
    ensures R == AddPoints(c, P, Q)
  {
    hide Prime, IsSquare, AddPoints, Cross, SumX, SumY, Cong;
    var S, e := AddPoints(c, P, Q), Cross(c, P, Q);
    SumFractions(c, P, Q);
    SameQuotient(c.p, R.x, S.x, 1 + e, SumX(c, P, Q));
    SameQuotient(c.p, R.y, S.y, 1 - e, SumY(c, P, Q));
  }

  lemma SameQuotient(p: int, x: int, x': int, q: int, n: int)
    requires Prime(p) && Cong(p, x * q, n) && Cong(p, x' * q, n) && !Cong(p, q, 0) && 0 <= x < p && 0 <= x' < p
    ensures x == x'
  {
    CongSym(p, x' * q, n);
    CongTrans(p, x * q, n, x' * q);
    assert x * q == q * x && x' * q == q * x';
    Cancel(p, q, x, x');
    CongUnique(p, x, x');
  }

  /** The fractions of P + Turn(Q), from those of P + Q. */
  lemma TurnedFractions(p: int, a: int, d: int, s: int, r: int, x1: int, y1: int, x2: int, y2: int, qx: int, qy: int,
      x: int, y: int, tx: int, ty: int, e: int, e': int)
    requires Cong(p, a * r, s) && Cong(p, e', -e)
    requires Cong(p, qx, r * y2) && Cong(p, qy, -s * x2) && Cong(p, tx, r * y) && Cong(p, ty, -s * x)
    requires Cong(p, x * (1 + e), x1 * y2 + x2 * y1) && Cong(p, y * (1 - e), y1 * y2 - a * (x1 * x2))
    ensures Cong(p, tx * (1 + e'), x1 * qy + qx * y1) && Cong(p, ty * (1 - e'), y1 * qy - a * (x1 * qx))
  {
    hide Cong;
    Combine1(p, 1 + e', 1 - e, 1, e', -e);
    Combine1(p, 1 - e', 1 + e, -1, e', -e);
    CongRefl(p, r);
    CongRefl(p, -s);
    CongMul(p, tx, r * y, 1 + e', 1 - e);
    CongMul(p, ty, -s * x, 1 - e', 1 + e);
    CongMul(p, r, r, y * (1 - e), y1 * y2 - a * (x1 * x2));
    CongMul(p, -s, -s, x * (1 + e), x1 * y2 + x2 * y1);
    MulAssoc(r, y, 1 - e);
    MulAssoc(-s, x, 1 + e);
    TurnedX(p, a, s, r, x1, y1, x2, y2, qx, qy);
    TurnedY(p, a, s, r, x1, y1, x2, y2, qx, qy);
    var nx, ny := x1 * qy + qx * y1, y1 * qy - a * (x1 * qx);
    CongTrans(p, tx * (1 + e'), (r * y) * (1 - e), r * (y1 * y2 - a * (x1 * x2)));
    CongSym(p, nx, r * (y1 * y2 - a * (x1 * x2)));
    CongTrans(p, tx * (1 + e'), r * (y1 * y2 - a * (x1 * x2)), nx);
    CongTrans(p, ty * (1 - e'), (-s * x) * (1 + e), -s * (x1 * y2 + x2 * y1));
    CongSym(p, ny, -s * (x1 * y2 + x2 * y1));
    CongTrans(p, ty * (1 - e'), -s * (x1 * y2 + x2 * y1), ny);
  }

  lemma TurnedX(p: int, a: int, s: int, r: int, x1: int, y1: int, x2: int, y2: int, qx: int, qy: int)
    requires Cong(p, a * r, s) && Cong(p, qx, r * y2) && Cong(p, qy, -s * x2)
    ensures Cong(p, x1 * qy + qx * y1, r * (y1 * y2 - a * (x1 * x2)))
  {
    hide Cong;
    var u := x1 * x2;
    CongRefl(p, x1);
    CongRefl(p, y1);
    CongRefl(p, u);
    CongMul(p, x1, x1, qy, -s * x2);
    CongMul(p, qx, r * y2, y1, y1);
    CongAdd(p, x1 * qy, x1 * (-s * x2), qx * y1, (r * y2) * y1);
    CongMul(p, a * r, s, u, u);
    CongRefl(p, (r * y2) * y1);
    CongSub(p, (r * y2) * y1, (r * y2) * y1, (a * r) * u, s * u);
    CongSym(p, (r * y2) * y1 - (a * r) * u, (r * y2) * y1 - s * u);
    assert x1 * (-s * x2) == -(s * u) by { PullOut(-s, x1, x2); }
    assert r * (y1 * y2 - a * u) == (r * y2) * y1 - (a * r) * u by {
      Distribute(r, y1 * y2, a * u);
      MulAssoc(r, a, u);
      MulAssoc(r, y2, y1);
      assert y1 * y2 == y2 * y1 && r * a == a * r;
    }
    CongTrans(p, x1 * qy + qx * y1, (r * y2) * y1 - s * u, (r * y2) * y1 - (a * r) * u);
  }

  lemma TurnedY(p: int, a: int, s: int, r: int, x1: int, y1: int, x2: int, y2: int, qx: int, qy: int)
    requires Cong(p, a * r, s) && Cong(p, qx, r * y2) && Cong(p, qy, -s * x2)
    ensures Cong(p, y1 * qy - a * (x1 * qx), -s * (x1 * y2 + x2 * y1))
  {
    hide Cong;
    var u := x1 * y2;
    CongRefl(p, x1);
    CongRefl(p, y1);
    CongRefl(p, a);
    CongRefl(p, u);
    CongMul(p, y1, y1, qy, -s * x2);
    CongMul(p, x1, x1, qx, r * y2);
    CongMul(p, a, a, x1 * qx, x1 * (r * y2));
    CongMul(p, a * r, s, u, u);
    assert a * (x1 * (r * y2)) == (a * r) * u by { PullOut(r, x1, y2); MulAssoc(a, r, u); }
    CongTrans(p, a * (x1 * qx), (a * r) * u, s * u);
    CongSub(p, y1 * qy, y1 * (-s * x2), a * (x1 * qx), s * u);
    assert y1 * (-s * x2) - s * u == -s * (u + x2 * y1) by {
      PullOut(-s, y1, x2);
      Distribute(-s, u, x2 * y1);
      assert y1 * x2 == x2 * y1;
    }
  }

  lemma TurnOfSum(c: Curve, s: int, P: Point, Q: Point)
    requires Complete(c) && IsRoot(c, s) && OnCurve(c, P) && OnCurve(c, Q)
    ensures AddPoints(c, P, Turn(c, s, Q)) == Turn(c, s, AddPoints(c, P, Q))
  {
    hide Prime, IsSquare, Turn, AddPoints, Cong, Equation, IsRoot;
    var p, r, T, R := c.p, InvMod(s, c.p), Turn(c, s, Q), AddPoints(c, P, Q);
    var U := Turn(c, s, R);
    RootFacts(c, s);
    TurnIs(c, s, Q);
    TurnIs(c, s, R);
    TurnIsOnCurve(c, s, Q);
    SumFractions(c, P, Q);
    TurnProduct(p, s, r, Q.x, Q.y, T.x, T.y);
    TurnedCross(p, c.d, P.x * P.y, Q.x * Q.y, T.x * T.y);
    TurnedFractions(p, c.a, c.d, s, r, P.x, P.y, Q.x, Q.y, T.x, T.y, R.x, R.y, U.x, U.y, Cross(c, P, Q),
      Cross(c, P, T));
    SumUnique(c, P, T, U);
  }

  lemma TurnedCross(p: int, d: int, m: int, n: int, n': int)
    requires Cong(p, n', -n)
    ensures Cong(p, d * (m * n'), -(d * (m * n)))
  {
    CongRefl(p, d);
    CongRefl(p, m);
    CongMul(p, m, m, n', -n);
    CongMul(p, d, d, m * n', m * -n);
    assert d * (m * -n) == -(d * (m * n)) by { assert m * -n == -(m * n); }
  }

  /** Turning tells points apart by the x coordinate of the turn. */
  lemma TurnDetermines(c: Curve, s: int, P: Point, Q: Point)
    requires Complete(c) && IsRoot(c, s) && 0 <= P.y < c.p && 0 <= Q.y < c.p
    requires Turn(c, s, P).x == Turn(c, s, Q).x
    ensures P.y == Q.y
  {
    hide Prime, IsSquare, IsRoot;
    var r := InvMod(s, c.p);
    RootFacts(c, s);
    ModIff(c.p, r * P.y, r * Q.y);
    Cancel(c.p, r, P.y, Q.y);
    CongUnique(c.p, P.y, Q.y);
  }

  /** Point addition is associative. */
  lemma Associative(c: Curve, P: Point, Q: Point, R: Point)
    requires Complete(c) && OnCurve(c, P) && OnCurve(c, Q) && OnCurve(c, R)
    ensures AddPoints(c, AddPoints(c, P, Q), R) == AddPoints(c, P, AddPoints(c, Q, R))
  {
    hide Prime, Turn, AddPoints, Equation;
    var s: int :| Cong(c.p, s * s, c.a);
    assert IsRoot(c, s);
    var A, B, T := AddPoints(c, P, Q), AddPoints(c, Q, R), Turn(c, s, R);
    SumIsOnCurve(c, P, Q);
    SumIsOnCurve(c, Q, R);
    SumIsOnCurve(c, A, R);
    SumIsOnCurve(c, P, B);
    TurnIsOnCurve(c, s, R);
    SumsAgreeInX(c, P, Q, R);
    SumsAgreeInX(c, P, Q, T);
    TurnOfSum(c, s, A, R);
    TurnOfSum(c, s, Q, R);
    TurnOfSum(c, s, P, B);
    TurnDetermines(c, s, AddPoints(c, A, R), AddPoints(c, P, B));
  }

  /** (0, 1) is neutral. */
  lemma Neutral(c: Curve, P: Point)
    requires Complete(c) && OnCurve(c, P)
    ensures OnCurve(c, IDENTITY) && AddPoints(c, P, IDENTITY) == P && AddPoints(c, IDENTITY, P) == P
  {
    CongRefl(c.p, 1);
    CongRefl(c.p, P.x);
    CongRefl(c.p, P.y);
    SumUnique(c, P, IDENTITY, P);
    Commutes(c, P, IDENTITY);
  }
}
