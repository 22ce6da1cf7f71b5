/**
 * The twisted Edwards curves of RFC 8032: completeness and closure of the addition law, and the projective formulas.
 */
module EdCurve {
  import opened EdField
  import opened EdRoots

  /** a x^2 + y^2 = 1 + d x^2 y^2 modulo p, with a base point whose order is L. */
  datatype Curve = Curve(
    p: int, a: int, d: int, L: nat, baseX: int, baseY: int, is448: bool, encLen: nat, fieldLen: nat)

  const ED25519 := Curve(
    0x8000_0000_0000_0000_0000_0000_0000_0000_0000_0000_0000_0000_0000_0000_0000_0000 - 19,
    0x8000_0000_0000_0000_0000_0000_0000_0000_0000_0000_0000_0000_0000_0000_0000_0000 - 20,
    37095705934669439343138083508754565189542113879843219016388785533085940283555,
    7237005577332262213973186563042994240857116359379907606001950938285454250989,
    15112221349535400772501151409588531511454012693041857206046113283949847762202,
    46316835694926478169428394003475163141307993866256225615783033603165251855960,
    false, 32, 32)

  const ED448 := Curve(
    0x1_0000_0000_0000_0000_0000_0000_0000_0000_0000_0000_0000_0000_0000_0000_0000_0000_0000_0000_0000_0000_0000_0000_0000_0000_0000_0000_0000_0000
      - 0x1_0000_0000_0000_0000_0000_0000_0000_0000_0000_0000_0000_0000_0000_0000 - 1,
    1,
    0x1_0000_0000_0000_0000_0000_0000_0000_0000_0000_0000_0000_0000_0000_0000_0000_0000_0000_0000_0000_0000_0000_0000_0000_0000_0000_0000_0000_0000
      - 0x1_0000_0000_0000_0000_0000_0000_0000_0000_0000_0000_0000_0000_0000_0000 - 1 - 39081,
    181709681073901722637330951972001133588410340171829515070372549795146003961539585716195755291692375963310293709091662304773755859649779,
    224580040295924300187604334099896036246789641632564134246125461686950415467406032909029192869357953282578032075146446173674602635247710,
    298819210078481492676017930443930673437544040154080242095928241372331506189835876003536878655418784733982303233503462500531545062832660,
    true, 57, 56)

  /** What the addition law needs: a prime field in which a is a square and d is not. */
  ghost predicate Complete(c: Curve) {
    && Prime(c.p) && c.p > 8 && (c.p % 4 == 3 || c.p % 8 == 5)
    && 0 < c.a < c.p && 0 < c.d < c.p
    && IsSquare(c.p, c.a) && !IsSquare(c.p, c.d)
  }

  datatype Point = Point(x: int, y: int)

  const IDENTITY := Point(0, 1)

  ghost predicate Equation(c: Curve, x: int, y: int) {
    Cong(c.p, c.a * (x * x) + y * y, 1 + c.d * ((x * y) * (x * y)))
  }

  ghost predicate OnCurve(c: Curve, P: Point) {
    0 <= P.x < c.p && 0 <= P.y < c.p && Equation(c, P.x, P.y)
  }

  /** d x1 x2 y1 y2 */
  function Cross(c: Curve, P: Point, Q: Point): int {
    c.d * ((P.x * P.y) * (Q.x * Q.y))
  }

  // ---- completeness: the denominators 1 + e and 1 - e never vanish -----------------------------------------

  lemma SquareOfSum(u: int, v: int)
    ensures (u + v) * (u + v) == u * u + 2 * (u * v) + v * v
  {
  }

  lemma ScaledSquare(d: int, m: int, w: int)
    ensures d * ((m * w) * (m * w)) == (d * (m * m)) * (w * w)
  {
    ProductSwap(m, w, m, w);
    ProductSwap(m, m, w, w);
  }

  lemma SquareOfProduct(u: int, v: int)
    ensures (u * v) * (u * v) == (u * u) * (v * v)
  {
    ProductSwap(u, v, u, v);
  }

  /** (s x1 + e y1)^2 is d (x1 y1 (s x2 + y2))^2 when e = d x1 y1 x2 y2 squares to one and s to a. */
  lemma SquareClash(p: int, a: int, d: int, s: int, e: int, x1: int, y1: int, x2: int, y2: int)
    requires Cong(p, s * s, a) && Cong(p, e * e, 1) && e == d * ((x1 * y1) * (x2 * y2))
    requires Cong(p, a * (x1 * x1) + y1 * y1, 1 + d * ((x1 * y1) * (x1 * y1)))
    requires Cong(p, a * (x2 * x2) + y2 * y2, 1 + d * ((x2 * y2) * (x2 * y2)))
    ensures var w := (x1 * y1) * (s * x2 + y2); Cong(p, (s * x1 + e * y1) * (s * x1 + e * y1), d * (w * w))
  {
    var m, n := x1 * y1, x2 * y2;
    var dm := d * (m * m);
    var left := (s * s) * (x1 * x1) + (e * e) * (y1 * y1);
    var right := dm * ((s * s) * (x2 * x2) + y2 * y2);
    LeftSide(p, a, d, s, e, x1, y1, m);
    RightSide(p, a, d, s, e, x2, y2, m, n);
    CongSym(p, right, 1 + dm);
    CongTrans(p, left, 1 + dm, right);
    ExpandLeft(s, e, x1, y1);
    ExpandRight(d, s, m, x2, y2);
    var cross := 2 * ((s * e) * m);
    assert 2 * (s * n) * dm == cross by { CrossTerm(d, s, m, n); }
    CongRefl(p, cross);
    CongAdd(p, left, right, cross, cross);
  }

  lemma ExpandLeft(s: int, e: int, x: int, y: int)
    ensures (s * x + e * y) * (s * x + e * y) == (s * s) * (x * x) + (e * e) * (y * y) + 2 * ((s * e) * (x * y))
  {
    SquareOfSum(s * x, e * y);
    SquareOfProduct(s, x);
    SquareOfProduct(e, y);
    ProductSwap(s, e, x, y);
  }

  lemma ExpandRight(d: int, s: int, m: int, x: int, y: int)
    ensures var w := m * (s * x + y);
      d * (w * w) == (d * (m * m)) * ((s * s) * (x * x) + y * y) + 2 * (s * (x * y)) * (d * (m * m))
  {
    ScaledSquare(d, m, s * x + y);
    SquareOfSum(s * x, y);
    SquareOfProduct(s, x);
    MulAssoc(s, x, y);
    var dm, u, v := d * (m * m), (s * s) * (x * x) + y * y, s * (x * y);
    assert dm * (u + 2 * v) == dm * u + 2 * v * dm;
  }

  lemma CrossTerm(d: int, s: int, m: int, n: int)
    ensures 2 * (s * n) * (d * (m * m)) == 2 * ((s * (d * (m * n))) * m)
  {
    ProductSwap(s, n, d, m * m);
    assert (s * n) * (d * (m * m)) == (s * (d * (m * n))) * m by {
      assert (s * d) * (n * (m * m)) == (s * d) * ((m * n) * m);
    }
  }

  lemma LeftSide(p: int, a: int, d: int, s: int, e: int, x: int, y: int, m: int)
    requires Cong(p, s * s, a) && Cong(p, e * e, 1)
    requires Cong(p, a * (x * x) + y * y, 1 + d * (m * m))
    ensures Cong(p, (s * s) * (x * x) + (e * e) * (y * y), 1 + d * (m * m))
  {
    CongRefl(p, x * x);
    CongRefl(p, y * y);
    CongMul(p, s * s, a, x * x, x * x);
    CongMul(p, e * e, 1, y * y, y * y);
    CongAdd(p, (s * s) * (x * x), a * (x * x), (e * e) * (y * y), 1 * (y * y));
    CongTrans(p, (s * s) * (x * x) + (e * e) * (y * y), a * (x * x) + y * y, 1 + d * (m * m));
  }

  lemma RightSide(p: int, a: int, d: int, s: int, e: int, x: int, y: int, m: int, n: int)
    requires Cong(p, s * s, a) && Cong(p, e * e, 1) && e == d * (m * n)
    requires Cong(p, a * (x * x) + y * y, 1 + d * (n * n))
    ensures Cong(p, (d * (m * m)) * ((s * s) * (x * x) + y * y), 1 + d * (m * m))
  {
    var dm := d * (m * m);
    var u := (s * s) * (x * x) + y * y;
    CongRefl(p, x * x);
    CongRefl(p, y * y);
    CongRefl(p, dm);
    CongMul(p, s * s, a, x * x, x * x);
    CongAdd(p, (s * s) * (x * x), a * (x * x), y * y, y * y);
    CongTrans(p, u, a * (x * x) + y * y, 1 + d * (n * n));
    CongMul(p, dm, dm, u, 1 + d * (n * n));
    assert dm * (1 + d * (n * n)) == e * e + dm by { ProductOfCross(d, m, n); }
    CongAdd(p, e * e, 1, dm, dm);
    CongTrans(p, dm * u, e * e + dm, 1 + dm);
  }

  lemma ProductOfCross(d: int, m: int, n: int)
    ensures (d * (m * m)) * (1 + d * (n * n)) == (d * (m * n)) * (d * (m * n)) + d * (m * m)
  {
    SquareOfProduct(d, m * n);
    SquareOfProduct(m, n);
    ProductSwap(d, m * m, d, n * n);
  }

  /** If u^2 = d w^2 with w not zero, then d is a square. */
  lemma QuotientIsRoot(p: int, d: int, u: int, w: int)
    requires Prime(p) && Cong(p, u * u, d * (w * w)) && !Cong(p, w, 0)
    ensures IsSquare(p, d)
  {
    PrimeInvertible(w, p);
    InvModInverts(w, p);
    var i := InvMod(w, p);
    CongRefl(p, i * i);
    CongMul(p, u * u, d * (w * w), i * i, i * i);
    CongMul(p, w * i, 1, w * i, 1);
    CongRefl(p, d);
    CongMul(p, d, d, (w * i) * (w * i), 1);
    SquareOfProduct(u, i);
    SquareOfProduct(w, i);
    MulAssoc(d, w * w, i * i);
    CongTrans(p, (u * i) * (u * i), d * ((w * i) * (w * i)), d);
  }

  lemma ZeroTimes(p: int, x: int, y: int)
    requires Cong(p, x, 0)
    ensures Cong(p, x * y, 0) && Cong(p, y * x, 0)
  {
    Combine1(p, x * y, 0, y, x, 0);
    Combine1(p, y * x, 0, y, x, 0);
  }

  lemma OneIsNotZero(p: int, e: int)
    requires p > 2 && (Cong(p, e, 1) || Cong(p, e, -1))
    ensures !Cong(p, e, 0) && Cong(p, e * e, 1)
  {
    NonzeroSmall(p, 1);
    if Cong(p, e, 1) {
      CongMul(p, e, 1, e, 1);
      if Cong(p, e, 0) { CongSym(p, e, 1); CongTrans(p, 1, e, 0); }
    } else {
      CongMul(p, e, -1, e, -1);
      if Cong(p, e, 0) { CongSym(p, e, -1); CongTrans(p, -1, e, 0); }
    }
  }

  /** The addition law is complete: 1 + e and 1 - e are invertible for any two points. */
  lemma DenominatorsNonzero(c: Curve, P: Point, Q: Point)
    requires Complete(c) && OnCurve(c, P) && OnCurve(c, Q)
    ensures !Cong(c.p, Cross(c, P, Q), 1) && !Cong(c.p, Cross(c, P, Q), -1)
  {
    var p, e := c.p, Cross(c, P, Q);
    if Cong(p, e, 1) || Cong(p, e, -1) {
      OneIsNotZero(p, e);
      var s: int :| Cong(p, s * s, c.a);
      NoClash(c, P, Q, e, s);
      assert (-s) * (-s) == s * s;
      NoClash(c, P, Q, e, -s);
      BothVanish(p, s, Q.x, Q.y);
      ZeroTimes(p, Q.y, Q.x);
      ZeroTimes(p, Q.x * Q.y, P.x * P.y);
      ZeroTimes(p, (P.x * P.y) * (Q.x * Q.y), c.d);
      assert false;
    }
  }

  lemma NoClash(c: Curve, P: Point, Q: Point, e: int, s: int)
    requires Complete(c) && OnCurve(c, P) && OnCurve(c, Q) && e == Cross(c, P, Q)
    requires Cong(c.p, s * s, c.a) && Cong(c.p, e * e, 1) && !Cong(c.p, e, 0)
    ensures Cong(c.p, s * Q.x + Q.y, 0)
  {
    hide Prime, IsSquare;
    var p, m := c.p, P.x * P.y;
    var w := m * (s * Q.x + Q.y);
    SquareClash(p, c.a, c.d, s, e, P.x, P.y, Q.x, Q.y);
    if !Cong(p, w, 0) {
      QuotientIsRoot(p, c.d, s * P.x + e * P.y, w);
    }
    NoZeroDivisors(p, m, s * Q.x + Q.y);
    if Cong(p, m, 0) {
      ZeroTimes(p, m, Q.x * Q.y);
      ZeroTimes(p, m * (Q.x * Q.y), c.d);
    }
  }

  lemma BothVanish(p: int, s: int, x: int, y: int)
    requires Prime(p) && p > 8 && Cong(p, s * x + y, 0) && Cong(p, -s * x + y, 0)
    ensures Cong(p, y, 0)
  {
    assert 2 * y - 0 == 1 * (s * x + y - 0) + 1 * (-s * x + y - 0);
    Combine2(p, 2 * y, 0, 1, s * x + y, 0, 1, -s * x + y, 0);
    NonzeroSmall(p, 2);
    NoZeroDivisors(p, 2, y);
  }

  // ---- the sum of two points -------------------------------------------------------------------------------

  /** The affine addition law, as fractions modulo p. */
  function AddPoints(c: Curve, P: Point, Q: Point): Point
    requires c.p > 1
  {
    var e := Cross(c, P, Q);
    Point(SumX(c, P, Q) * InvMod(1 + e, c.p) % c.p, SumY(c, P, Q) * InvMod(1 - e, c.p) % c.p)
  }

  function SumX(c: Curve, P: Point, Q: Point): int { P.x * Q.y + Q.x * P.y }
  function SumY(c: Curve, P: Point, Q: Point): int { P.y * Q.y - c.a * (P.x * Q.x) }

  lemma NotMinusOne(p: int, e: int)
    requires !Cong(p, e, 1) && !Cong(p, e, -1)
    ensures !Cong(p, 1 + e, 0) && !Cong(p, 1 - e, 0)
  {
    if Cong(p, 1 + e, 0) { Combine1(p, e, -1, 1, 1 + e, 0); }
    if Cong(p, 1 - e, 0) { Combine1(p, e, 1, -1, 1 - e, 0); }
  }

  lemma Rotate(n: int, i: int, q: int)
    ensures (n * i) * q == n * (q * i)
  {
  }

  /** x = n / q modulo p, in lowest form, is what times q gives n. */
  lemma Fraction(p: int, n: int, q: int)
    requires Prime(p) && !Cong(p, q, 0)
    ensures var x := n * InvMod(q, p) % p; 0 <= x < p && Cong(p, x * q, n)
  {
    PrimeInvertible(q, p);
    InvModInverts(q, p);
    var i := InvMod(q, p);
    var x := n * i % p;
    CongMod(p, n * i);
    CongRefl(p, q);
    CongMul(p, x, n * i, q, q);
    CongRefl(p, n);
    CongMul(p, n, n, q * i, 1);
    Rotate(n, i, q);
    CongTrans(p, x * q, n * (q * i), n);
  }

  /** What the sum of two points satisfies. */
  lemma SumFractions(c: Curve, P: Point, Q: Point)
    requires Complete(c) && OnCurve(c, P) && OnCurve(c, Q)
    ensures var R, e := AddPoints(c, P, Q), Cross(c, P, Q);
      && 0 <= R.x < c.p && 0 <= R.y < c.p
      && Cong(c.p, R.x * (1 + e), SumX(c, P, Q)) && Cong(c.p, R.y * (1 - e), SumY(c, P, Q))
      && !Cong(c.p, 1 + e, 0) && !Cong(c.p, 1 - e, 0)
  {
    hide Prime, IsSquare, Cross, SumX, SumY;
    DenominatorsNonzero(c, P, Q);
    NotMinusOne(c.p, Cross(c, P, Q));
    Fraction(c.p, SumX(c, P, Q), 1 + Cross(c, P, Q));
    Fraction(c.p, SumY(c, P, Q), 1 - Cross(c, P, Q));
  }

  // ---- closure ---------------------------------------------------------------------------------------------

  lemma DifferenceOfSquares(u: int, v: int)
    ensures (u + v) * (u - v) == u * u - v * v
  {
  }

  /** a X^2 + Y^2 = (a x1^2 + y1^2)(a x2^2 + y2^2) */
  lemma NormIsMultiplicative(a: int, x1: int, y1: int, x2: int, y2: int)
    ensures var X, Y := x1 * y2 + x2 * y1, y1 * y2 - a * (x1 * x2);
      a * (X * X) + Y * Y == (a * (x1 * x1) + y1 * y1) * (a * (x2 * x2) + y2 * y2)
  {
    var X, Y := x1 * y2 + x2 * y1, y1 * y2 - a * (x1 * x2);
    var t := (x1 * x2) * (y1 * y2);
    SquareOfSum(x1 * y2, x2 * y1);
    SquareOfProduct(x1, y2);
    SquareOfProduct(x2, y1);
    assert (x1 * y2) * (x2 * y1) == t by { ProductSwap(x1, y2, x2, y1); }
    SquareOfSum(y1 * y2, -(a * (x1 * x2)));
    SquareOfProduct(y1, y2);
    SquareOfProduct(a, x1 * x2);
    SquareOfProduct(x1, x2);
    assert (y1 * y2) * (-(a * (x1 * x2))) == -(a * t) by { NegateInto(y1 * y2, a, x1 * x2); }
    NormExpand(a, x1 * x1, y1 * y1, x2 * x2, y2 * y2, t, X * X, Y * Y);
  }

  lemma NegateInto(u: int, a: int, v: int)
    ensures u * (-(a * v)) == -(a * (v * u))
  {
  }

  lemma NormExpand(a: int, A: int, B: int, C: int, D: int, t: int, XX: int, YY: int)
    requires XX == A * D + 2 * t + C * B && YY == B * D + 2 * -(a * t) + (a * a) * (A * C)
    ensures a * XX + YY == (a * A + B) * (a * C + D)
  {
    assert a * XX == a * (A * D) + 2 * (a * t) + a * (C * B);
    assert (a * A + B) * (a * C + D) == (a * A) * (a * C) + (a * A) * D + B * (a * C) + B * D;
    ProductSwap(a, A, a, C);
    ProductSwap(a, a, A, C);
  }

  /** a X^2 - Y^2 and X Y, by the differences T = y^2 - a x^2 of the two points. */
  lemma DifferenceForms(a: int, x1: int, y1: int, x2: int, y2: int)
    ensures var X, Y := x1 * y2 + x2 * y1, y1 * y2 - a * (x1 * x2);
      var T1, T2 := y1 * y1 - a * (x1 * x1), y2 * y2 - a * (x2 * x2);
      && a * (X * X) - Y * Y == 4 * (a * ((x1 * y1) * (x2 * y2))) - T1 * T2
      && X * Y == (x1 * y1) * T2 + (x2 * y2) * T1
  {
    var X, Y := x1 * y2 + x2 * y1, y1 * y2 - a * (x1 * x2);
    var t := (x1 * x2) * (y1 * y2);
    SquareOfSum(x1 * y2, x2 * y1);
    SquareOfProduct(x1, y2);
    SquareOfProduct(x2, y1);
    assert (x1 * y2) * (x2 * y1) == t by { ProductSwap(x1, y2, x2, y1); }
    SquareOfSum(y1 * y2, -(a * (x1 * x2)));
    SquareOfProduct(y1, y2);
    SquareOfProduct(a, x1 * x2);
    SquareOfProduct(x1, x2);
    assert (y1 * y2) * (-(a * (x1 * x2))) == -(a * t) by { NegateInto(y1 * y2, a, x1 * x2); }
    ProductSwap(x1, y1, x2, y2);
    DifferenceExpand(a, x1 * x1, y1 * y1, x2 * x2, y2 * y2, t, X * X, Y * Y);
    ProductExpand(a, x1, y1, x2, y2);
  }

  lemma DifferenceExpand(a: int, A: int, B: int, C: int, D: int, t: int, XX: int, YY: int)
    requires XX == A * D + 2 * t + C * B && YY == B * D + 2 * -(a * t) + (a * a) * (A * C)
    ensures a * XX - YY == 4 * (a * t) - (B - a * A) * (D - a * C)
  {
    assert a * XX == a * (A * D) + 2 * (a * t) + a * (C * B);
    assert (B - a * A) * (D - a * C) == B * D - B * (a * C) - (a * A) * D + (a * A) * (a * C);
    ProductSwap(a, A, a, C);
    ProductSwap(a, a, A, C);
  }

  lemma ProductExpand(a: int, x1: int, y1: int, x2: int, y2: int)
    ensures (x1 * y2 + x2 * y1) * (y1 * y2 - a * (x1 * x2))
      == (x1 * y1) * (y2 * y2 - a * (x2 * x2)) + (x2 * y2) * (y1 * y1 - a * (x1 * x1))
  {
    assert (x1 * y2) * (y1 * y2) == (x1 * y1) * (y2 * y2) by { ProductSwap(x1, y2, y1, y2); }
    assert (x2 * y1) * (y1 * y2) == (x2 * y2) * (y1 * y1) by { ProductSwap(x2, y1, y2, y1); }
    assert (x1 * y2) * (a * (x1 * x2)) == (x2 * y2) * (a * (x1 * x1)) by { MoveFactors(a, x1, y2, x2); }
    assert (x2 * y1) * (a * (x1 * x2)) == (x1 * y1) * (a * (x2 * x2)) by { MoveFactors(a, x2, y1, x1); }
  }

  lemma MoveFactors(a: int, x: int, y: int, z: int)
    ensures (x * y) * (a * (x * z)) == (z * y) * (a * (x * x))
    ensures (x * y) * (a * (z * x)) == (z * y) * (a * (x * x))
  {
    ProductSwap(x, y, a, x * z);
    ProductSwap(z, y, a, x * x);
    assert x * a * (y * (x * z)) == a * ((x * x) * (y * z));
    assert z * a * (y * (x * x)) == a * ((x * x) * (y * z));
  }

  lemma SquareMinus(u: int, v: int)
    ensures (v - u) * (v - u) == (u + v) * (u + v) - 4 * (u * v)
  {
  }

  /** d (XY)^2, with e = d m n. */
  lemma CrossSquare(d: int, m: int, n: int, T1: int, T2: int)
    ensures var w := m * T2 + n * T1;
      d * (w * w) == (d * (m * m)) * (T2 * T2) + (d * (n * n)) * (T1 * T1) + 2 * ((d * (m * n)) * (T1 * T2))
  {
    SquareOfSum(m * T2, n * T1);
    SquareOfProduct(m, T2);
    SquareOfProduct(n, T1);
    ProductSwap(m, T2, n, T1);
    assert T2 * T1 == T1 * T2;
    DistributeThree(d, m * m, T2 * T2, m * n, T1 * T2, n * n, T1 * T1);
  }

  lemma DistributeThree(d: int, u: int, U: int, v: int, V: int, w: int, W: int)
    ensures d * (u * U + 2 * (v * V) + w * W) == (d * u) * U + (d * w) * W + 2 * ((d * v) * V)
  {
    MulAssoc(d, u, U);
    MulAssoc(d, v, V);
    MulAssoc(d, w, W);
  }

  /** The curve equation of the sum, cleared of denominators: an identity once both points' equations are used. */
  lemma SumEquation(p: int, a: int, d: int, x1: int, y1: int, x2: int, y2: int)
    requires Cong(p, a * (x1 * x1) + y1 * y1, 1 + d * ((x1 * y1) * (x1 * y1)))
    requires Cong(p, a * (x2 * x2) + y2 * y2, 1 + d * ((x2 * y2) * (x2 * y2)))
    ensures var X, Y := x1 * y2 + x2 * y1, y1 * y2 - a * (x1 * x2);
      var e := d * ((x1 * y1) * (x2 * y2));
      Cong(p, (a * (X * X)) * ((1 - e) * (1 - e)) + (Y * Y) * ((1 + e) * (1 + e)),
        (1 - e * e) * (1 - e * e) + d * ((X * Y) * (X * Y)))
  {
    var X, Y := x1 * y2 + x2 * y1, y1 * y2 - a * (x1 * x2);
    var m, n := x1 * y1, x2 * y2;
    var e := d * (m * n);
    var S1, S2 := a * (x1 * x1) + y1 * y1, a * (x2 * x2) + y2 * y2;
    var T1, T2 := y1 * y1 - a * (x1 * x1), y2 * y2 - a * (x2 * x2);
    var A, B := d * (m * m), d * (n * n);
    NormIsMultiplicative(a, x1, y1, x2, y2);
    DifferenceForms(a, x1, y1, x2, y2);
    CrossSquare(d, m, n, T1, T2);
    SquareMinus(a * (x1 * x1), y1 * y1);
    SquareMinus(a * (x2 * x2), y2 * y2);
    assert (a * (x1 * x1)) * (y1 * y1) == a * (m * m) by { SquareOfProduct(x1, y1); MulAssoc(a, x1 * x1, y1 * y1); }
    assert (a * (x2 * x2)) * (y2 * y2) == a * (n * n) by { SquareOfProduct(x2, y2); MulAssoc(a, x2 * x2, y2 * y2); }
    assert e * e == A * B by { SquareOfProduct(d, m * n); SquareOfProduct(m, n); ProductSwap(d, m * m, d, n * n); }
    SumSides(a, d, m, n, e, a * (X * X), Y * Y, S1, S2, T1, T2, A, B, d * ((X * Y) * (X * Y)));
    var left := (a * (X * X)) * ((1 - e) * (1 - e)) + (Y * Y) * ((1 + e) * (1 + e));
    var rest := d * ((X * Y) * (X * Y));
    Reduced(p, S1, S2, A, B, e);
    CongRefl(p, rest);
    CongAdd(p, (S1 * S2) * (1 + e * e) - A * (S2 * S2) - B * (S1 * S1), (1 - e * e) * (1 - e * e), rest, rest);
    assert left == (S1 * S2) * (1 + e * e) - A * (S2 * S2) - B * (S1 * S1) + rest;
  }

  lemma SumSides(a: int, d: int, m: int, n: int, e: int, u: int, v: int, S1: int, S2: int, T1: int, T2: int, A: int,
      B: int, rest: int)
    requires e == d * (m * n) && A == d * (m * m) && B == d * (n * n)
    requires u + v == S1 * S2 && u - v == 4 * (a * (m * n)) - T1 * T2
    requires T1 * T1 == S1 * S1 - 4 * (a * (m * m)) && T2 * T2 == S2 * S2 - 4 * (a * (n * n))
    requires rest == A * (T2 * T2) + B * (T1 * T1) + 2 * (e * (T1 * T2))
    ensures u * ((1 - e) * (1 - e)) + v * ((1 + e) * (1 + e))
      == (S1 * S2) * (1 + e * e) - A * (S2 * S2) - B * (S1 * S1) + rest
  {
    SplitSquares(u, v, e);
    var k := a * (m * n);
    assert e * (4 * k - T1 * T2) == 4 * (e * k) - e * (T1 * T2);
    assert A * (S2 * S2 - 4 * (a * (n * n))) == A * (S2 * S2) - 4 * (A * (a * (n * n)));
    assert B * (S1 * S1 - 4 * (a * (m * m))) == B * (S1 * S1) - 4 * (B * (a * (m * m)));
    EqualTails(a, d, m, n);
  }

  lemma SplitSquares(u: int, v: int, e: int)
    ensures u * ((1 - e) * (1 - e)) + v * ((1 + e) * (1 + e)) == (u + v) * (1 + e * e) - 2 * (e * (u - v))
  {
  }

  lemma EqualTails(a: int, d: int, m: int, n: int)
    ensures (d * (m * n)) * (a * (m * n)) == (d * (m * m)) * (a * (n * n)) == (d * (n * n)) * (a * (m * m))
  {
    ProductSwap(d, m * n, a, m * n);
    ProductSwap(d, m * m, a, n * n);
    ProductSwap(d, n * n, a, m * m);
    SquareOfProduct(m, n);
  }

  lemma Reduced(p: int, S1: int, S2: int, A: int, B: int, e: int)
    requires Cong(p, S1, 1 + A) && Cong(p, S2, 1 + B) && e * e == A * B
    ensures Cong(p, (S1 * S2) * (1 + e * e) - A * (S2 * S2) - B * (S1 * S1), (1 - e * e) * (1 - e * e))
  {
    var q := 1 + e * e;
    CongMul(p, S1, 1 + A, S2, 1 + B);
    CongMul(p, S1, 1 + A, S1, 1 + A);
    CongMul(p, S2, 1 + B, S2, 1 + B);
    CongRefl(p, q);
    CongRefl(p, A);
    CongRefl(p, B);
    CongMul(p, S1 * S2, (1 + A) * (1 + B), q, q);
    CongMul(p, A, A, S2 * S2, (1 + B) * (1 + B));
    CongMul(p, B, B, S1 * S1, (1 + A) * (1 + A));
    CongSub(p, (S1 * S2) * q, ((1 + A) * (1 + B)) * q, A * (S2 * S2), A * ((1 + B) * (1 + B)));
    CongSub(p, (S1 * S2) * q - A * (S2 * S2), ((1 + A) * (1 + B)) * q - A * ((1 + B) * (1 + B)),
      B * (S1 * S1), B * ((1 + A) * (1 + A)));
    FinalIdentity(A, B, e * e);
  }

  lemma FinalIdentity(A: int, B: int, s: int)
    requires s == A * B
    ensures ((1 + A) * (1 + B)) * (1 + s) - A * ((1 + B) * (1 + B)) - B * ((1 + A) * (1 + A)) == (1 - s) * (1 - s)
  {
    assert (1 + A) * (1 + B) == 1 + A + B + s;
    assert A * ((1 + B) * (1 + B)) == A + 2 * s + s * B by { assert A * (B * B) == s * B; }
    assert B * ((1 + A) * (1 + A)) == B + 2 * s + s * A by { assert B * (A * A) == s * A; }
    assert (1 + A + B + s) * (1 + s) == 1 + A + B + s + s + A * s + B * s + s * s;
  }

  lemma ScaledEquation(p: int, a: int, d: int, x: int, y: int, f: int, g: int, X: int, Y: int)
    requires Cong(p, x * f, X) && Cong(p, y * g, Y)
    requires Cong(p, (a * (X * X)) * (g * g) + (Y * Y) * (f * f), (f * g) * (f * g) + d * ((X * Y) * (X * Y)))
    ensures var k := (f * g) * (f * g); Cong(p, k * (a * (x * x) + y * y), k * (1 + d * ((x * y) * (x * y))))
  {
    var k := (f * g) * (f * g);
    CongMul(p, x * f, X, x * f, X);
    CongMul(p, y * g, Y, y * g, Y);
    CongRefl(p, a);
    CongRefl(p, d);
    CongRefl(p, g * g);
    CongRefl(p, f * f);
    CongRefl(p, k);
    CongMul(p, a, a, (x * f) * (x * f), X * X);
    CongMul(p, a * ((x * f) * (x * f)), a * (X * X), g * g, g * g);
    CongMul(p, (y * g) * (y * g), Y * Y, f * f, f * f);
    CongAdd(p, (a * ((x * f) * (x * f))) * (g * g), (a * (X * X)) * (g * g), ((y * g) * (y * g)) * (f * f),
      (Y * Y) * (f * f));
    CongMul(p, x * f, X, y * g, Y);
    CongMul(p, (x * f) * (y * g), X * Y, (x * f) * (y * g), X * Y);
    CongMul(p, d, d, ((x * f) * (y * g)) * ((x * f) * (y * g)), (X * Y) * (X * Y));
    CongAdd(p, k, k, d * (((x * f) * (y * g)) * ((x * f) * (y * g))), d * ((X * Y) * (X * Y)));
    var left := (a * ((x * f) * (x * f))) * (g * g) + ((y * g) * (y * g)) * (f * f);
    var right := k + d * (((x * f) * (y * g)) * ((x * f) * (y * g)));
    CongSym(p, right, k + d * ((X * Y) * (X * Y)));
    CongTrans(p, left, (a * (X * X)) * (g * g) + (Y * Y) * (f * f), k + d * ((X * Y) * (X * Y)));
    CongTrans(p, left, k + d * ((X * Y) * (X * Y)), right);
    ScaleLeft(a, x, y, f, g);
    ScaleRight(d, x, y, f, g);
  }

  lemma ScaleLeft(a: int, x: int, y: int, f: int, g: int)
    ensures (a * ((x * f) * (x * f))) * (g * g) + ((y * g) * (y * g)) * (f * f)
      == ((f * g) * (f * g)) * (a * (x * x) + y * y)
  {
    SquareOfProduct(x, f);
    SquareOfProduct(y, g);
    SquareOfProduct(f, g);
    var F, G, U, V := f * f, g * g, x * x, y * y;
    assert (a * (U * F)) * G == (F * G) * (a * U) by { assert (a * (U * F)) * G == (a * U) * (F * G); }
    assert (V * G) * F == (F * G) * V;
  }

  lemma ScaleRight(d: int, x: int, y: int, f: int, g: int)
    ensures (f * g) * (f * g) + d * (((x * f) * (y * g)) * ((x * f) * (y * g)))
      == ((f * g) * (f * g)) * (1 + d * ((x * y) * (x * y)))
  {
    ProductSwap(x, f, y, g);
    SquareOfProduct(x * y, f * g);
    var k, w := (f * g) * (f * g), (x * y) * (x * y);
    assert d * (w * k) == k * (d * w);
  }

  lemma DividedEquation(p: int, a: int, d: int, x: int, y: int, e: int, X: int, Y: int)
    requires Prime(p) && !Cong(p, 1 + e, 0) && !Cong(p, 1 - e, 0)
    requires Cong(p, x * (1 + e), X) && Cong(p, y * (1 - e), Y)
    requires Cong(p, (a * (X * X)) * ((1 - e) * (1 - e)) + (Y * Y) * ((1 + e) * (1 + e)),
      (1 - e * e) * (1 - e * e) + d * ((X * Y) * (X * Y)))
    ensures Cong(p, a * (x * x) + y * y, 1 + d * ((x * y) * (x * y)))
  {
    hide Prime, Cong;
    var f, g := 1 + e, 1 - e;
    assert f * g == 1 - e * e;
    ScaledEquation(p, a, d, x, y, f, g, X, Y);
    NonzeroProduct(p, f, g);
    NonzeroProduct(p, f * g, f * g);
    Cancel(p, (f * g) * (f * g), a * (x * x) + y * y, 1 + d * ((x * y) * (x * y)));
  }

  /** The sum of two points of the curve is on the curve. */
  lemma SumIsOnCurve(c: Curve, P: Point, Q: Point)
    requires Complete(c) && OnCurve(c, P) && OnCurve(c, Q)
    ensures OnCurve(c, AddPoints(c, P, Q))
  {
    hide Prime, IsSquare, AddPoints, Cong;
    var R := AddPoints(c, P, Q);
    SumFractions(c, P, Q);
    SumEquation(c.p, c.a, c.d, P.x, P.y, Q.x, Q.y);
    DividedEquation(c.p, c.a, c.d, R.x, R.y, Cross(c, P, Q), SumX(c, P, Q), SumY(c, P, Q));
  }
}
