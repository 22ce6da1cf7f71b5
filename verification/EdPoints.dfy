/** Projective points: addition in place, double-and-add, and the way back to affine coordinates. */
module EdPoints {
  import opened Wrappers
  import opened EdField
  import opened EdRoots
  import opened EdCurve
  import opened EdAssociativity

  /** Three bignums that are overwritten in place. */
  class EdPoint {
    var x: int
    var y: int
    var z: int

    constructor (x: int, y: int, z: int)
      ensures this.x == x && this.y == y && this.z == z
    {
      this.x, this.y, this.z := x, y, z;
    }

    /** (x : y : z) stands for the affine point P. */
    ghost predicate Is(c: Curve, P: Point)
      reads this
    {
      OnCurve(c, P) && Stands(c.p, x, y, z, P.x, P.y)
    }
  }

  ghost predicate Stands(p: int, x: int, y: int, z: int, px: int, py: int) {
    !Cong(p, z, 0) && Cong(p, x, px * z) && Cong(p, y, py * z)
  }

  // ---- one reduction step ----------------------------------------------------------------------------------

  lemma Reduces(p: int, x: int, y: int)
    requires p > 0 && Cong(p, x, y)
    ensures Cong(p, x % p, y)
  {
    CongMod(p, x);
    CongTrans(p, x % p, x, y);
  }

  lemma MulStep(p: int, u: int, u': int, v: int, v': int)
    requires p > 0 && Cong(p, u, u') && Cong(p, v, v')
    ensures Cong(p, u * v % p, u' * v')
  {
    CongMul(p, u, u', v, v');
    Reduces(p, u * v, u' * v');
  }

  lemma SubStep(p: int, u: int, u': int, v: int, v': int)
    requires p > 0 && Cong(p, u, u') && Cong(p, v, v')
    ensures Cong(p, (u - v) % p, u' - v')
  {
    CongSub(p, u, u', v, v');
    Reduces(p, u - v, u' - v');
  }

  lemma AddStep(p: int, u: int, u': int, v: int, v': int)
    requires p > 0 && Cong(p, u, u') && Cong(p, v, v')
    ensures Cong(p, (u + v) % p, u' + v')
  {
    CongAdd(p, u, u', v, v');
    Reduces(p, u + v, u' + v');
  }

  // ---- the addition formulas -------------------------------------------------------------------------------

  /** What A to G and both values of H are, for points (x1 z1 : y1 z1 : z1) and (x2 z2 : y2 z2 : z2). */
  lemma MixedTerm(p: int, X1: int, Y1: int, X2: int, Y2: int, C: int, D: int)
    requires p > 0 && Cong(p, C, X1 * X2) && Cong(p, D, Y1 * Y2)
    ensures Cong(p, ((X1 + Y1) * (X2 + Y2) - C - D) % p, X1 * Y2 + X2 * Y1)
  {
    var h := (X1 + Y1) * (X2 + Y2) - C - D;
    assert (X1 + Y1) * (X2 + Y2) == X1 * X2 + X1 * Y2 + Y1 * X2 + Y1 * Y2;
    assert h - (X1 * Y2 + X2 * Y1) == (-1) * (C - X1 * X2) + (-1) * (D - Y1 * Y2);
    Combine2(p, h, X1 * Y2 + X2 * Y1, -1, C, X1 * X2, -1, D, Y1 * Y2);
    Reduces(p, h, X1 * Y2 + X2 * Y1);
  }

  /** X1 Y2 + X2 Y1 over z1 z2, and the other products. */
  lemma ScaledProducts(p: int, X1: int, Y1: int, z1: int, X2: int, Y2: int, z2: int, x1: int, y1: int, x2: int, y2: int)
    requires Cong(p, X1, x1 * z1) && Cong(p, Y1, y1 * z1) && Cong(p, X2, x2 * z2) && Cong(p, Y2, y2 * z2)
    ensures var z := z1 * z2;
      && Cong(p, X1 * X2, (x1 * x2) * z) && Cong(p, Y1 * Y2, (y1 * y2) * z)
      && Cong(p, X1 * Y2 + X2 * Y1, (x1 * y2 + x2 * y1) * z)
  {
    CongMul(p, X1, x1 * z1, X2, x2 * z2);
    CongMul(p, Y1, y1 * z1, Y2, y2 * z2);
    CongMul(p, X1, x1 * z1, Y2, y2 * z2);
    CongMul(p, X2, x2 * z2, Y1, y1 * z1);
    ProductSwap(x1, z1, x2, z2);
    ProductSwap(y1, z1, y2, z2);
    ProductSwap(x1, z1, y2, z2);
    ProductSwap(x2, z2, y1, z1);
    CongAdd(p, X1 * Y2, (x1 * y2) * (z1 * z2), X2 * Y1, (x2 * y1) * (z2 * z1));
    Spread(x1 * y2, x2 * y1, z1, z2);
  }

  lemma Spread(u: int, v: int, z1: int, z2: int)
    ensures u * (z1 * z2) + v * (z2 * z1) == (u + v) * (z1 * z2)
  {
  }

  lemma CrossScaled(d: int, x1: int, y1: int, x2: int, y2: int, z: int)
    ensures (((x1 * x2) * z) * ((y1 * y2) * z)) * d == (d * ((x1 * y1) * (x2 * y2))) * (z * z)
  {
    ProductSwap(x1 * x2, z, y1 * y2, z);
    ProductSwap(x1, x2, y1, y2);
    Rotate3(d, (x1 * y1) * (x2 * y2), z * z);
  }

  lemma Rotate3(d: int, m: int, w: int)
    ensures (m * w) * d == (d * m) * w
  {
  }

  /** F = B - E, G = B + E and Z3 = F G for B = z^2 and E = e z^2. */
  lemma FactorSquare(w: int, e: int)
    ensures w - e * w == w * (1 - e) && w + e * w == w * (1 + e)
  {
  }

  /** A F H over F G is N / (1 + e); A G H' over F G is M / (1 - e). */
  lemma Quotients(p: int, z: int, e: int, n: int, m: int, rx: int, ry: int, X3: int, Y3: int, Z3: int)
    requires var w := z * z;
      && Cong(p, X3, (z * (w * (1 - e))) * (n * z)) && Cong(p, Y3, (z * (w * (1 + e))) * (m * z))
      && Cong(p, Z3, (w * (1 - e)) * (w * (1 + e)))
    requires Cong(p, rx * (1 + e), n) && Cong(p, ry * (1 - e), m)
    ensures Cong(p, X3, rx * Z3) && Cong(p, Y3, ry * Z3)
  {
    var w := z * z;
    QuotientX(z, 1 - e, 1 + e, rx);
    QuotientX(z, 1 + e, 1 - e, ry);
    Cleared(p, z, 1 - e, 1 + e, n, rx, X3, Z3);
    assert (w * (1 - e)) * (w * (1 + e)) == (w * (1 + e)) * (w * (1 - e));
    Cleared(p, z, 1 + e, 1 - e, m, ry, Y3, Z3);
  }

  lemma QuotientX(z: int, f: int, g: int, r: int)
    ensures (z * ((z * z) * f)) * ((r * g) * z) == r * (((z * z) * f) * ((z * z) * g))
  {
    var w := z * z;
    ProductSwap(w, f, w, g);
    assert (z * (w * f)) * ((r * g) * z) == (w * f) * (r * g) * w by {
      ZOut(z, w * f, r * g);
    }
    assert (w * f) * (r * g) * w == r * ((w * w) * (f * g)) by { Regroup(w, f, r, g); }
  }

  lemma ZOut(z: int, u: int, v: int)
    ensures (z * u) * (v * z) == u * v * (z * z)
  {
  }

  lemma Regroup(w: int, f: int, r: int, g: int)
    ensures (w * f) * (r * g) * w == r * ((w * w) * (f * g))
  {
    ProductSwap(w, f, r, g);
    assert (w * f) * (r * g) == (w * r) * (f * g);
    var h := f * g;
    assert (w * r) * h * w == r * ((w * w) * h);
  }

  lemma Cleared(p: int, z: int, f: int, g: int, n: int, r: int, X: int, Z: int)
    requires var w := z * z; Cong(p, X, (z * (w * f)) * (n * z)) && Cong(p, Z, (w * f) * (w * g))
    requires Cong(p, r * g, n)
    ensures Cong(p, X, r * Z)
  {
    var w := z * z;
    CongSym(p, r * g, n);
    CongRefl(p, z);
    CongMul(p, n, r * g, z, z);
    CongRefl(p, z * (w * f));
    CongMul(p, z * (w * f), z * (w * f), n * z, (r * g) * z);
    QuotientX(z, f, g, r);
    CongTrans(p, X, (z * (w * f)) * (n * z), r * ((w * f) * (w * g)));
    CongSym(p, Z, (w * f) * (w * g));
    CongRefl(p, r);
    CongMul(p, r, r, (w * f) * (w * g), Z);
    CongTrans(p, X, r * ((w * f) * (w * g)), r * Z);
  }

  lemma DenominatorStands(p: int, z1: int, z2: int, e: int, Z3: int)
    requires Prime(p) && !Cong(p, z1, 0) && !Cong(p, z2, 0) && !Cong(p, 1 + e, 0) && !Cong(p, 1 - e, 0)
    requires var w := (z1 * z2) * (z1 * z2); Cong(p, Z3, (w * (1 - e)) * (w * (1 + e)))
    ensures !Cong(p, Z3, 0)
  {
    hide Prime, Cong;
    var z := z1 * z2;
    NonzeroProduct(p, z1, z2);
    NonzeroProduct(p, z, z);
    NonzeroProduct(p, z * z, 1 - e);
    NonzeroProduct(p, z * z, 1 + e);
    var t := ((z * z) * (1 - e)) * ((z * z) * (1 + e));
    NonzeroProduct(p, (z * z) * (1 - e), (z * z) * (1 + e));
    if Cong(p, Z3, 0) {
      CongSym(p, Z3, t);
      CongTrans(p, t, Z3, 0);
    }
  }

  /** The complete addition formulas, computed step by step; the result may overwrite either argument. */
  method Add(c: Curve, r: EdPoint, p1: EdPoint, p2: EdPoint, ghost P: Point, ghost Q: Point)
    requires Complete(c) && p1.Is(c, P) && p2.Is(c, Q)
    modifies r
    ensures r.Is(c, AddPoints(c, P, Q))
  {
    hide Prime, IsSquare, Cong, AddPoints, Equation;
    var p := c.p;
    ghost var z := p1.z * p2.z;
    ghost var e := Cross(c, P, Q);
    SumFractions(c, P, Q);
    SumIsOnCurve(c, P, Q);
    ghost var R := AddPoints(c, P, Q);
    ghost var m, n := P.y * Q.y - c.a * (P.x * Q.x), P.x * Q.y + Q.x * P.y;

    var A := p1.z * p2.z % p;
    var B := A * A % p;
    var C := p1.x * p2.x % p;
    var D := p1.y * p2.y % p;
    var E := C * D % p;
    E := E * c.d % p;
    var F := (B - E) % p;
    var G := (B + E) % p;
    var H := ((p1.x + p1.y) * (p2.x + p2.y) - C - D) % p;
    var X3 := A * F % p;
    X3 := X3 * H % p;
    var H' := c.a * C % p;
    H' := (D - H') % p;
    var Y3 := A * G % p;
    Y3 := Y3 * H' % p;
    var Z3 := F * G % p;
    Formulas(c, P, Q, p1.x, p1.y, p1.z, p2.x, p2.y, p2.z);
    r.x := X3;
    r.y := Y3;
    r.z := Z3;
  }

  lemma Formulas(c: Curve, P: Point, Q: Point, X1: int, Y1: int, Z1: int, X2: int, Y2: int, Z2: int)
    requires Complete(c) && OnCurve(c, P) && OnCurve(c, Q)
    requires Stands(c.p, X1, Y1, Z1, P.x, P.y) && Stands(c.p, X2, Y2, Z2, Q.x, Q.y)
    ensures
      var p := c.p;
      var A := Z1 * Z2 % p;
      var B := A * A % p;
      var C := X1 * X2 % p;
      var D := Y1 * Y2 % p;
      var E := (C * D % p) * c.d % p;
      var F := (B - E) % p;
      var G := (B + E) % p;
      var H := ((X1 + Y1) * (X2 + Y2) - C - D) % p;
      var H' := (D - c.a * C % p) % p;
      var R := AddPoints(c, P, Q);
      Stands(p, (A * F % p) * H % p, (A * G % p) * H' % p, F * G % p, R.x, R.y)
  {
    hide Prime, IsSquare, Cong, AddPoints, Equation;
    var p := c.p;
    var z, e := Z1 * Z2, Cross(c, P, Q);
    var w := z * z;
    var A := Z1 * Z2 % p;
    var B := A * A % p;
    var C := X1 * X2 % p;
    var D := Y1 * Y2 % p;
    var E0 := C * D % p;
    var E := E0 * c.d % p;
    var F := (B - E) % p;
    var G := (B + E) % p;
    var H := ((X1 + Y1) * (X2 + Y2) - C - D) % p;
    var H0 := c.a * C % p;
    var H' := (D - H0) % p;
    var cx, cy := P.x * Q.x, P.y * Q.y;
    SumFractions(c, P, Q);
    ScaledProducts(p, X1, Y1, Z1, X2, Y2, Z2, P.x, P.y, Q.x, Q.y);
    CongMod(p, z);
    MulStep(p, A, z, A, z);
    CongMod(p, X1 * X2);
    CongMod(p, Y1 * Y2);
    MixedTerm(p, X1, Y1, X2, Y2, C, D);
    CongTrans(p, H, X1 * Y2 + X2 * Y1, SumX(c, P, Q) * z);
    CongTrans(p, C, X1 * X2, cx * z);
    CongTrans(p, D, Y1 * Y2, cy * z);
    CongRefl(p, c.d);
    CongRefl(p, c.a);
    MulStep(p, C, cx * z, D, cy * z);
    MulStep(p, E0, (cx * z) * (cy * z), c.d, c.d);
    CrossScaled(c.d, P.x, P.y, Q.x, Q.y, z);
    SubStep(p, B, w, E, e * w);
    AddStep(p, B, w, E, e * w);
    FactorSquare(w, e);
    MulStep(p, c.a, c.a, C, cx * z);
    SubStep(p, D, cy * z, H0, c.a * (cx * z));
    LastFactor(c.a, cx, cy, z);
    MulStep(p, A, z, F, w * (1 - e));
    MulStep(p, A, z, G, w * (1 + e));
    MulStep(p, A * F % p, z * (w * (1 - e)), H, SumX(c, P, Q) * z);
    MulStep(p, A * G % p, z * (w * (1 + e)), H', SumY(c, P, Q) * z);
    MulStep(p, F, w * (1 - e), G, w * (1 + e));
    var R := AddPoints(c, P, Q);
    Quotients(p, z, e, SumX(c, P, Q), SumY(c, P, Q), R.x, R.y, (A * F % p) * H % p, (A * G % p) * H' % p, F * G % p);
    DenominatorStands(p, Z1, Z2, e, F * G % p);
  }

  lemma LastFactor(a: int, u: int, v: int, z: int)
    ensures v * z - a * (u * z) == (v - a * u) * z
  {
  }

  // ---- multiples of a point --------------------------------------------------------------------------------

  /** P added k times. */
  ghost function Multiple(c: Curve, k: nat, P: Point): Point
    requires c.p > 1
  {
    if k == 0 then IDENTITY else AddPoints(c, Multiple(c, k - 1, P), P)
  }

  lemma {:induction false} MultipleOnCurve(c: Curve, k: nat, P: Point)
    requires Complete(c) && OnCurve(c, P)
    ensures OnCurve(c, Multiple(c, k, P))
  {
    hide Prime, IsSquare, OnCurve, AddPoints;
    if k == 0 {
      Neutral(c, P);
    } else {
      MultipleOnCurve(c, k - 1, P);
      SumIsOnCurve(c, Multiple(c, k - 1, P), P);
    }
  }

  /** (m + n) P = m P + n P */
  lemma {:induction false} MultipleOfSum(c: Curve, m: nat, n: nat, P: Point)
    requires Complete(c) && OnCurve(c, P)
    ensures Multiple(c, m + n, P) == AddPoints(c, Multiple(c, m, P), Multiple(c, n, P))
    decreases n
  {
    hide OnCurve, AddPoints, Prime, IsSquare;
    MultipleOnCurve(c, m, P);
    if n == 0 {
      Neutral(c, Multiple(c, m, P));
    } else {
      MultipleOfSum(c, m, n - 1, P);
      MultipleOnCurve(c, n - 1, P);
      assert m + n - 1 == m + (n - 1);
      Associative(c, Multiple(c, m, P), Multiple(c, n - 1, P), P);
    }
  }

  /** m (n P) = (m n) P */
  lemma {:induction false} MultipleOfMultiple(c: Curve, m: nat, n: nat, P: Point)
    requires Complete(c) && OnCurve(c, P)
    ensures Multiple(c, m, Multiple(c, n, P)) == Multiple(c, m * n, P)
    decreases m
  {
    hide OnCurve, AddPoints, Prime, IsSquare;
    if m > 0 {
      MultipleOfMultiple(c, m - 1, n, P);
      assert m * n == (m - 1) * n + n;
      MultipleOfSum(c, (m - 1) * n, n, P);
    }
  }

  /** mbedtls_mpi_bitlen */
  function BitLen(k: nat): nat { if k == 0 then 0 else 1 + BitLen(k / 2) }

  /** k without its lowest i bits. */
  function Top(k: nat, i: nat): nat { if i == 0 then k else Top(k / 2, i - 1) }

  /** mbedtls_mpi_get_bit */
  function GetBit(k: nat, i: nat): (r: nat)
    ensures r < 2
  {
    Top(k, i) % 2
  }

  lemma {:induction false} NextBit(k: nat, i: nat)
    requires i > 0
    ensures Top(k, i - 1) == 2 * Top(k, i) + GetBit(k, i - 1)
  {
    if i > 1 {
      NextBit(k / 2, i - 1);
    }
  }

  lemma {:induction false} NothingAbove(k: nat)
    ensures Top(k, BitLen(k)) == 0
  {
    if k > 0 {
      NothingAbove(k / 2);
    }
  }

  /** One doubling, and one addition when the bit is set. */
  lemma LadderStep(c: Curve, k: nat, i: nat, P: Point)
    requires Complete(c) && OnCurve(c, P) && i > 0
    ensures var D := AddPoints(c, Multiple(c, Top(k, i), P), Multiple(c, Top(k, i), P));
      Multiple(c, Top(k, i - 1), P) == if GetBit(k, i - 1) == 1 then AddPoints(c, D, P) else D
  {
    hide OnCurve, AddPoints, Prime, IsSquare, Multiple, GetBit, Top;
    NextBit(k, i);
    DoubleAndAdd(c, Top(k, i), GetBit(k, i - 1), P);
  }

  lemma DoubleAndAdd(c: Curve, q: nat, b: nat, P: Point)
    requires Complete(c) && OnCurve(c, P) && b < 2
    ensures var D := AddPoints(c, Multiple(c, q, P), Multiple(c, q, P));
      Multiple(c, 2 * q + b, P) == if b == 1 then AddPoints(c, D, P) else D
  {
    hide OnCurve, AddPoints, Prime, IsSquare;
    MultipleOfSum(c, q, q, P);
  }

  lemma LadderStart(c: Curve, k: nat, P: Point)
    requires Complete(c) && OnCurve(c, P)
    ensures Multiple(c, Top(k, BitLen(k)), P) == IDENTITY
    ensures OnCurve(c, IDENTITY) && Stands(c.p, 0, 1, 1, 0, 1)
  {
    hide OnCurve, AddPoints, Prime, IsSquare, BitLen, Top, Cong;
    Neutral(c, P);
    NothingAbove(k);
    NonzeroSmall(c.p, 1);
    CongRefl(c.p, 0);
    CongRefl(c.p, 1);
  }

  lemma LadderEnd(k: nat)
    ensures Top(k, 0) == k
  {
  }

  /** r = k P: the accumulator is doubled for every bit of k, highest first, and P added where the bit is set. */
  method Mul(c: Curve, r: EdPoint, k: nat, q: EdPoint, ghost P: Point)
    requires Complete(c) && q.Is(c, P)
    modifies r
    ensures r.Is(c, Multiple(c, k, P))
  {
    hide Prime, IsSquare, AddPoints, Equation, Multiple, GetBit, BitLen, Top;
    var bits := BitLen(k);
    var acc := new EdPoint(0, 1, 1);
    LadderStart(c, k, P);
    var i := bits;
    while i > 0
      invariant 0 <= i <= bits && fresh(acc)
      invariant acc.Is(c, Multiple(c, Top(k, i), P))
      invariant q.Is(c, P)
    {
      ghost var M := Multiple(c, Top(k, i), P);
      LadderStep(c, k, i, P);
      Add(c, acc, acc, acc, M, M);
      if GetBit(k, i - 1) == 1 {
        Add(c, acc, acc, q, AddPoints(c, M, M), P);
      }
      i := i - 1;
    }
    LadderEnd(k);
    r.x := acc.x;
    r.y := acc.y;
    r.z := acc.z;
  }

  // ---- affine coordinates ----------------------------------------------------------------------------------

  /** x / z and y / z; there is no result exactly when z vanishes. */
  method Affine(c: Curve, q: EdPoint) returns (r: Option<Point>)
    requires Prime(c.p)
    ensures r.None? <==> Cong(c.p, q.z, 0)
    ensures forall P :: q.Is(c, P) ==> r == Some(P)
  {
    hide Cong, OnCurve;
    PrimeInvertible(q.z, c.p);
    if !Invertible(q.z, c.p) {
      return None;
    }
    var zinv := InvMod(q.z, c.p);
    var x := q.x * zinv % c.p;
    var y := q.y * zinv % c.p;
    forall P | q.Is(c, P) ensures x == P.x && y == P.y {
      InRange(c, P);
      Divided(c.p, q.x, q.z, P.x);
      Divided(c.p, q.y, q.z, P.y);
    }
    r := Some(Point(x, y));
  }

  lemma InRange(c: Curve, P: Point)
    requires OnCurve(c, P)
    ensures 0 <= P.x < c.p && 0 <= P.y < c.p
  {
  }

  lemma Divided(p: int, X: int, z: int, x: int)
    requires Prime(p) && Invertible(z, p) && Cong(p, X, x * z) && 0 <= x < p
    ensures X * InvMod(z, p) % p == x
  {
    InvModInverts(z, p);
    var i := InvMod(z, p);
    CongRefl(p, i);
    CongRefl(p, x);
    CongMul(p, X, x * z, i, i);
    CongMul(p, x, x, z * i, 1);
    MulAssoc(x, z, i);
    CongTrans(p, X * i, x * (z * i), x);
    Reduces(p, X * i, x);
    CongUnique(p, X * i % p, x);
  }
}
