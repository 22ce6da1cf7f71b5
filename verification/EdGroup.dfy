/**
 * The points of a complete Edwards curve form a group under the addition law: associativity, proved from the equation.
 */
module EdGroup {
  import opened EdField
  import opened EdRoots
  import opened EdCurve

  // ---- four combinations of two points that vanish on the curve --------------------------------------------

  /** x1 y3 + y1 x3, y1 y3 - a x1 x3 (the sum's numerators) and y1 x3 - x1 y3, a x1 x3 + y1 y3 (the difference's). */
  datatype Pair = Pair(a: int, x1: int, y1: int, x3: int, y3: int) {
    function X(): int { x1 * y3 + x3 * y1 }
    function Y(): int { y1 * y3 - a * (x1 * x3) }
    function U(): int { y1 * x3 - x1 * y3 }
    function V(): int { a * (x1 * x3) + y1 * y3 }
    function M1(): int { x1 * y1 }
    function M3(): int { x3 * y3 }
    function S1(): int { a * (x1 * x1) + y1 * y1 }
    function S3(): int { a * (x3 * x3) + y3 * y3 }
    function T1(): int { y1 * y1 - a * (x1 * x1) }
    function T3(): int { y3 * y3 - a * (x3 * x3) }
  }

  lemma PairProducts(q: Pair)
    ensures q.X() * q.V() == q.M3() * q.S1() + q.M1() * q.S3()
    ensures q.Y() * q.U() == q.M3() * q.S1() - q.M1() * q.S3()
    ensures q.M1() * q.T3() - q.M3() * q.T1() == -(q.U() * q.V())
  {
    ProductXV(q.a, q.x1, q.y1, q.x3, q.y3);
    ProductYU(q.a, q.x1, q.y1, q.x3, q.y3);
    ProductUV(q.a, q.x1, q.y1, q.x3, q.y3);
  }

  lemma Expand(p: int, q: int, r: int, s: int)
    ensures (p + q) * (r + s) == p * r + p * s + q * r + q * s
    ensures (p - q) * (r - s) == p * r - p * s - q * r + q * s
  {
  }

  lemma Distribute(f: int, u: int, v: int)
    ensures f * (u + v) == f * u + f * v
    ensures f * (u - v) == f * u - f * v
  {
  }

  /** The four products of two coordinates by two coordinates that the combinations come down to. */
  lemma Monomials(a: int, x: int, y: int, z: int, w: int)
    ensures (x * w) * (a * (x * z)) == (z * w) * (a * (x * x))
    ensures (z * y) * (a * (x * z)) == (x * y) * (a * (z * z))
    ensures (x * w) * (y * w) == (x * y) * (w * w)
    ensures (z * y) * (y * w) == (z * w) * (y * y)
  {
    MoveFactors(a, x, w, z);
    MoveFactors(a, z, y, x);
    ProductSwap(x, w, y, w);
    ProductSwap(z, y, w, y);
  }

  lemma ProductXV(a: int, x: int, y: int, z: int, w: int)
    ensures (x * w + z * y) * (a * (x * z) + y * w) == (z * w) * (a * (x * x) + y * y) + (x * y) * (a * (z * z) + w * w)
  {
    Monomials(a, x, y, z, w);
    Expand(x * w, z * y, a * (x * z), y * w);
    Distribute(z * w, a * (x * x), y * y);
    Distribute(x * y, a * (z * z), w * w);
  }

  lemma ProductYU(a: int, x: int, y: int, z: int, w: int)
    ensures (y * w - a * (x * z)) * (y * z - x * w) == (z * w) * (a * (x * x) + y * y) - (x * y) * (a * (z * z) + w * w)
  {
    Monomials(a, x, y, z, w);
    Expand(y * w, a * (x * z), z * y, x * w);
    Distribute(z * w, a * (x * x), y * y);
    Distribute(x * y, a * (z * z), w * w);
  }

  lemma ProductUV(a: int, x: int, y: int, z: int, w: int)
    ensures (x * y) * (w * w - a * (z * z)) - (z * w) * (y * y - a * (x * x)) ==
      -((y * z - x * w) * (a * (x * z) + y * w))
  {
    Monomials(a, x, y, z, w);
    Expand(z * y, -(x * w), a * (x * z), y * w);
    Distribute(z * w, y * y, a * (x * x));
    Distribute(x * y, w * w, a * (z * z));
  }

  lemma PairTails(q: Pair)
    ensures q.X() * q.S3() + q.U() * q.T3() == 2 * (q.M3() * q.V())
    ensures q.X() * q.S1() - q.U() * q.T1() == 2 * (q.M1() * q.V())
    ensures q.Y() * q.S3() - q.V() * q.T3() == 2 * (q.a * (q.M3() * q.U()))
    ensures q.Y() * q.S1() - q.V() * q.T1() == -2 * (q.a * (q.M1() * q.U()))
  {
    TailForms(q.a, q.x1, q.y1, q.x3, q.y3);
    TailForms(q.a, q.x3, q.y3, q.x1, q.y1);
  }

  lemma TailForms(a: int, x: int, y: int, z: int, w: int)
    ensures (x * w + z * y) * (a * (z * z) + w * w) + (y * z - x * w) * (w * w - a * (z * z)) ==
      2 * ((z * w) * (a * (x * z) + y * w))
    ensures (y * w - a * (x * z)) * (a * (z * z) + w * w) - (a * (x * z) + y * w) * (w * w - a * (z * z))
      == 2 * (a * ((z * w) * (y * z - x * w)))
  {
    TailX(a, x * w, z * y, z * z, w * w);
    TailY(a, y * w, x * z, z * z, w * w);
    TailMonomials(a, x, y, z, w);
    Distribute(z * w, a * (x * z), y * w);
    Distribute(z * w, y * z, x * w);
    Distribute(a, (z * w) * (y * z), (z * w) * (x * w));
  }

  lemma TailX(a: int, f: int, g: int, A: int, B: int)
    ensures (f + g) * (a * A + B) + (g - f) * (B - a * A) == 2 * (f * (a * A)) + 2 * (g * B)
  {
  }

  lemma TailY(a: int, f: int, g: int, A: int, B: int)
    ensures (f - a * g) * (a * A + B) - (a * g + f) * (B - a * A) == 2 * (f * (a * A)) - 2 * ((a * g) * B)
  {
  }

  lemma TailMonomials(a: int, x: int, y: int, z: int, w: int)
    ensures (x * w) * (a * (z * z)) == (z * w) * (a * (x * z))
    ensures (z * y) * (w * w) == (z * w) * (y * w)
    ensures (y * w) * (a * (z * z)) == a * ((z * w) * (y * z))
    ensures (a * (x * z)) * (w * w) == a * ((z * w) * (x * w))
  {
    ProductSwap(x, w, a, z * z);
    ProductSwap(z, w, a, x * z);
    assert (x * a) * (w * (z * z)) == (z * a) * (w * (x * z)) by { FourFactors(a, x, w, z); }
    ProductSwap(z, y, w, w);
    PullOut(a, y * w, z * z);
    ProductSwap(y, w, z, z);
    ProductSwap(z, w, y, z);
    MulAssoc(a, x * z, w * w);
    ProductSwap(x, z, w, w);
    ProductSwap(z, w, x, w);
    MoveLast(y, z, w);
  }

  lemma FourFactors(a: int, x: int, w: int, z: int)
    ensures (x * a) * (w * (z * z)) == (z * a) * (w * (x * z))
  {
  }

  lemma PullOut(a: int, u: int, v: int)
    ensures u * (a * v) == a * (u * v)
  {
  }

  lemma MoveLast(y: int, z: int, w: int)
    ensures (y * z) * (w * z) == (z * y) * (w * z)
  {
  }

  ghost predicate BothOnCurve(p: int, d: int, q: Pair) {
    && Cong(p, q.S1(), 1 + d * (q.M1() * q.M1()))
    && Cong(p, q.S3(), 1 + d * (q.M3() * q.M3()))
  }

  lemma SplitProducts(d: int, m: int, n: int)
    ensures (m + n) * (1 + d * (m * n)) == n * (1 + d * (m * m)) + m * (1 + d * (n * n))
    ensures (n - m) * (1 - d * (m * n)) == n * (1 + d * (m * m)) - m * (1 + d * (n * n))
  {
    var k := d * (m * n);
    assert n * (d * (m * m)) == m * k by { PullOut(d, n, m * m); PullOut(d, m, m * n); }
    assert m * (d * (n * n)) == n * k by { PullOut(d, m, n * n); PullOut(d, n, m * n); }
    Distribute(n, 1, d * (m * m));
    Distribute(m, 1, d * (n * n));
    assert (m + n) * (1 + k) == m + n + m * k + n * k;
    assert (n - m) * (1 - k) == n - m - n * k + m * k;
  }

  lemma VanishOne(p: int, d: int, q: Pair)
    requires BothOnCurve(p, d, q)
    ensures Cong(p, q.X() * q.V(), (q.M1() + q.M3()) * (1 + d * (q.M1() * q.M3())))
    ensures Cong(p, q.Y() * q.U(), (q.M3() - q.M1()) * (1 - d * (q.M1() * q.M3())))
  {
    var m, n, S, T := q.M1(), q.M3(), q.S1(), q.S3();
    PairProducts(q);
    SplitProducts(d, m, n);
    Distribute(n, S, 1 + d * (m * m));
    Distribute(m, T, 1 + d * (n * n));
    Combine2(p, q.X() * q.V(), (m + n) * (1 + d * (m * n)), n, S, 1 + d * (m * m), m, T, 1 + d * (n * n));
    assert -m * (T - (1 + d * (n * n))) == -(m * (T - (1 + d * (n * n))));
    Combine2(p, q.Y() * q.U(), (n - m) * (1 - d * (m * n)), n, S, 1 + d * (m * m), -m, T, 1 + d * (n * n));
  }

  /** On the curve m1^2 - m3^2 may be replaced by m1^2 S3 - m3^2 S1, times anything. */
  lemma Homogenise(p: int, d: int, W: int, m: int, n: int, S: int, T: int)
    requires Cong(p, S, 1 + d * (m * m)) && Cong(p, T, 1 + d * (n * n))
    ensures Cong(p, W * (m * m - n * n), (m * m) * (W * T) - (n * n) * (W * S))
  {
    var A, B := m * m, n * n;
    HomogeniseIdentity(d, W, A, B, S, T);
    Combine2(p, W * (A - B), A * (W * T) - B * (W * S), -(W * A), T, 1 + d * B, W * B, S, 1 + d * A);
  }

  lemma HomogeniseIdentity(d: int, W: int, A: int, B: int, S: int, T: int)
    ensures W * (A - B) - (A * (W * T) - B * (W * S)) == -(W * A) * (T - (1 + d * B)) + (W * B) * (S - (1 + d * A))
  {
    assert (W * A) * (T - (1 + d * B)) == A * (W * T) - W * A - (W * A) * (d * B) by {
      Distribute(W * A, T, 1 + d * B);
    }
    assert (W * B) * (S - (1 + d * A)) == B * (W * S) - W * B - (W * B) * (d * A) by {
      Distribute(W * B, S, 1 + d * A);
    }
    assert (W * A) * (d * B) == (W * B) * (d * A) by { ProductSwap(W, A, d, B); ProductSwap(W, B, d, A); }
  }

  lemma CombineTails(m: int, n: int, k: int)
    ensures (m * m) * (2 * (n * k)) - (n * n) * (2 * (m * k)) == 2 * ((m * n) * (k * (m - n)))
    ensures (m * m) * (2 * (n * k)) + (n * n) * (2 * (m * k)) == 2 * ((m * n) * (k * (m + n)))
  {
    assert (m * m) * (n * k) == (m * n) * (m * k) by { ProductSwap(m, m, n, k); }
    assert (n * n) * (m * k) == (m * n) * (n * k) by { ProductSwap(n, n, m, k); }
    Distribute(m * n, m * k, n * k);
    Distribute(k, m, n);
  }

  lemma VanishTwo(p: int, d: int, q: Pair)
    requires BothOnCurve(p, d, q)
    ensures var m, n := q.M1(), q.M3();
      && Cong(p, q.X() * (m * m - n * n) + q.U() * ((m * m) * q.T3() + (n * n) * q.T1()),
              2 * ((m * n) * (q.V() * (m - n))))
      && Cong(p, q.Y() * (m * m - n * n) - q.V() * ((m * m) * q.T3() - (n * n) * q.T1()),
              2 * ((m * n) * ((q.a * q.U()) * (m + n))))
  {
    var m, n, S, T := q.M1(), q.M3(), q.S1(), q.S3();
    PairTails(q);
    Homogenise(p, d, q.X(), m, n, S, T);
    Homogenise(p, d, q.Y(), m, n, S, T);
    PullOut(q.a, n, q.U());
    PullOut(q.a, m, q.U());
    VanishSum(p, q.X(), q.U(), m, n, S, T, q.T1(), q.T3(), q.V());
    VanishDifference(p, q.Y(), q.V(), m, n, S, T, q.T1(), q.T3(), q.a * q.U());
  }

  lemma VanishSum(p: int, W: int, u: int, m: int, n: int, S: int, S': int, T: int, T': int, k: int)
    requires Cong(p, W * (m * m - n * n), (m * m) * (W * S') - (n * n) * (W * S))
    requires W * S' + u * T' == 2 * (n * k) && W * S - u * T == 2 * (m * k)
    ensures Cong(p, W * (m * m - n * n) + u * ((m * m) * T' + (n * n) * T), 2 * ((m * n) * (k * (m - n))))
  {
    var A, B := m * m, n * n;
    var r := u * (A * T' + B * T);
    CongRefl(p, r);
    CongAdd(p, W * (A - B), A * (W * S') - B * (W * S), r, r);
    TailSum(W, u, A, B, S, S', T, T');
    CombineTails(m, n, k);
  }

  lemma VanishDifference(p: int, W: int, v: int, m: int, n: int, S: int, S': int, T: int, T': int, k: int)
    requires Cong(p, W * (m * m - n * n), (m * m) * (W * S') - (n * n) * (W * S))
    requires W * S' - v * T' == 2 * (n * k) && W * S - v * T == -2 * (m * k)
    ensures Cong(p, W * (m * m - n * n) - v * ((m * m) * T' - (n * n) * T), 2 * ((m * n) * (k * (m + n))))
  {
    var A, B := m * m, n * n;
    var r := v * (A * T' - B * T);
    CongRefl(p, r);
    CongSub(p, W * (A - B), A * (W * S') - B * (W * S), r, r);
    TailDifference(W, v, A, B, S, S', T, T');
    CombineTails(m, n, k);
    assert B * (-2 * (m * k)) == -(B * (2 * (m * k)));
  }

  lemma TailSum(W: int, u: int, A: int, B: int, S: int, S': int, T: int, T': int)
    ensures A * (W * S') - B * (W * S) + u * (A * T' + B * T) == A * (W * S' + u * T') - B * (W * S - u * T)
  {
    Distribute(A, W * S', u * T');
    Distribute(B, W * S, u * T);
    Distribute(u, A * T', B * T);
    PullOut(A, u, T');
    PullOut(B, u, T);
  }

  lemma TailDifference(W: int, v: int, A: int, B: int, S: int, S': int, T: int, T': int)
    ensures A * (W * S') - B * (W * S) - v * (A * T' - B * T) == A * (W * S' - v * T') - B * (W * S - v * T)
  {
    Distribute(A, W * S', v * T');
    Distribute(B, W * S, v * T);
    Distribute(v, A * T', B * T);
    PullOut(A, v, T');
    PullOut(B, v, T);
  }

  // ---- the two ways of adding three points -----------------------------------------------------------------

  /**
   * What N1 D2 - N2 D1 comes to, apart from a factor d m2: with (x, y), m = x y and T = y^2 - a x^2 of the middle
   * point, and the pair of the outer ones.
   */
  function Bracket(d: int, x: int, y: int, m: int, T: int, q: Pair): int {
    var X, Y, u, v, m1, m3 := q.X(), q.Y(), q.U(), q.V(), q.M1(), q.M3();
    var s, t, k := m1 + m3, m1 - m3, d * m;
    (y * X + x * Y) * (-(u * v) + k * (m1 * m1 - m3 * m3))
    + (1 + d * (m1 * m3) * T) * (y * u * s - x * v * t)
    + k * (y * u * (m1 * m1 * q.T3() + m3 * m3 * q.T1()) - x * v * (m1 * m1 * q.T3() - m3 * m3 * q.T1())
           - k * (m1 * m3) * (y * u * s + x * v * t))
  }

  /** The bracket, grouped so that each group is a vanishing combination of the outer points or the curve equation. */
  lemma BracketGroups(d: int, x: int, y: int, m: int, T: int, q: Pair)
    ensures var X, Y, u, v, m1, m3 := q.X(), q.Y(), q.U(), q.V(), q.M1(), q.M3();
      var s, t, k, c, w := m1 + m3, m1 - m3, d * m, d * (m1 * m3), d * (m * m);
      var M, G, H := m1 * m1 - m3 * m3, m1 * m1 * q.T3() + m3 * m3 * q.T1(), m1 * m1 * q.T3() - m3 * m3 * q.T1();
      Bracket(d, x, y, m, T, q) ==
        -(u * v) * (y * X + x * Y) + (y * k) * (X * M + u * G) + (x * k) * (Y * M - v * H)
        + (y * u * s) * (1 + c * (T - w)) - (x * v * t) * (1 + c * (T + w))
  {
    var X, Y, u, v, m1, m3 := q.X(), q.Y(), q.U(), q.V(), q.M1(), q.M3();
    var s, t, k, c, w := m1 + m3, m1 - m3, d * m, d * (m1 * m3), d * (m * m);
    var M, G, H := m1 * m1 - m3 * m3, m1 * m1 * q.T3() + m3 * m3 * q.T1(), m1 * m1 * q.T3() - m3 * m3 * q.T1();
    var b, f := y * u * s, x * v * t;
    assert k * (k * (m1 * m3)) == c * w by { CrossFactors(d, m, m1 * m3); }
    GroupHeads(y * X, x * Y, u * v, k, M);
    GroupMiddle(c * T, c * w, b, f);
    GroupTails(k, y * u * G, x * v * H, k * (m1 * m3), b, f);
    assert k * ((k * (m1 * m3)) * (b + f)) == (c * w) * (b + f) by { MulAssoc(k, k * (m1 * m3), b + f); }
    Distribute(y * k, X * M, u * G);
    Distribute(x * k, Y * M, v * H);
    assert k * ((y * X) * M) == (y * k) * (X * M) by { KIntoY(k, y, X, M); }
    assert k * ((x * Y) * M) == (x * k) * (Y * M) by { KIntoY(k, x, Y, M); }
    assert k * (y * u * G) == (y * k) * (u * G) by { KIntoY(k, y, u, G); }
    assert k * (x * v * H) == (x * k) * (v * H) by { KIntoY(k, x, v, H); }
    Distribute(c, T, w);
  }

  lemma KIntoY(k: int, y: int, u: int, g: int)
    ensures k * ((y * u) * g) == (y * k) * (u * g)
  {
    ProductSwap(y, k, u, g);
  }

  lemma CrossFactors(d: int, m: int, n: int)
    ensures (d * m) * ((d * m) * n) == (d * n) * (d * (m * m))
  {
    ProductSwap(d, n, d, m * m);
    MulAssoc(d * m, d * m, n);
    SquareOfProduct(d, m);
    MulAssoc(d * d, m * m, n);
  }

  lemma GroupHeads(f: int, g: int, uv: int, k: int, M: int)
    ensures (f + g) * (-uv + k * M) == -uv * (f + g) + k * (f * M) + k * (g * M)
  {
    PullOut(k, f, M);
    PullOut(k, g, M);
    Expand(f, g, -uv, k * M);
    Distribute(uv, f, g);
  }

  lemma GroupMiddle(cT: int, cw: int, b: int, f: int)
    ensures (1 + cT) * (b - f) - cw * (b + f) == b * (1 + (cT - cw)) - f * (1 + (cT + cw))
  {
  }

  lemma GroupTails(k: int, g: int, h: int, n: int, b: int, f: int)
    ensures k * (g - h - n * (b + f)) == k * g - k * h - k * (n * (b + f))
  {
  }

  /** The groups cancel once the curve equation of the middle point is used. */
  lemma GroupsCancel(a: int, c: int, d: int, x: int, y: int, u: int, v: int, s: int, t: int, n: int)
    requires c == d * n
    ensures (y * (d * (x * y))) * (2 * (n * (v * t))) == (x * v * t) * (c * (2 * (y * y)))
    ensures (x * (d * (x * y))) * (2 * (n * ((a * u) * s))) == (y * u * s) * (c * (2 * (a * (x * x))))
  {
    CancelOne(d, n, x, y, v * t);
    CancelOne(d, n, y, x, (a * u) * s);
    assert x * v * t == x * (v * t);
    assert y * ((a * u) * s) == a * (y * u * s);
    assert (y * ((a * u) * s)) * ((d * n) * (2 * (x * x))) == (y * u * s) * ((d * n) * (2 * (a * (x * x)))) by {
      MoveA(a, y * u * s, d * n, x * x);
    }
    assert x * (d * (x * y)) == x * (d * (y * x));
  }

  lemma MoveA(a: int, b: int, c: int, q: int)
    ensures (a * b) * (c * (2 * q)) == b * (c * (2 * (a * q)))
  {
    ProductSwap(a, b, c, 2 * q);
    ProductSwap(1, b, c, 2 * (a * q));
    assert (a * c) * (b * (2 * q)) == (1 * c) * (b * (2 * (a * q)));
  }

  lemma CancelOne(d: int, n: int, x: int, y: int, k: int)
    ensures (y * (d * (x * y))) * (2 * (n * k)) == (x * k) * ((d * n) * (2 * (y * y)))
  {
    var q := y * y;
    assert y * (d * (x * y)) == (d * x) * q;
    assert ((d * x) * q) * (2 * (n * k)) == 2 * (((d * x) * (n * k)) * q);
    ProductSwap(d, x, n, k);
    assert (x * k) * ((d * n) * (2 * q)) == 2 * (((d * n) * (x * k)) * q);
  }

  lemma BracketReduces(p: int, P: int, g: int, A: int, A': int, h: int, B: int, B': int, b: int, f: int, c: int, q: int,
      r: int, w: int)
    requires Cong(p, A, A') && Cong(p, B, B') && Cong(p, q + r, 1 + w)
    requires g * A' == f * (c * (2 * r)) && h * B' == b * (c * (2 * q))
    ensures Cong(p, P + g * A + h * B + b * (1 + c * (r - q - w)) - f * (1 + c * (r - q + w)),
                 P + b * (1 + c) - f * (1 - c))
  {
    CongRefl(p, g);
    CongRefl(p, h);
    CongRefl(p, P);
    CongMul(p, g, g, A, A');
    CongMul(p, h, h, B, B');
    CongAdd(p, P, P, g * A, g * A');
    CongAdd(p, P + g * A, P + g * A', h * B, h * B');
    Replace(p, b, c, r - q - w, 1 - 2 * q, 1, q + r, 1 + w);
    Replace(p, f, c, r - q + w, 2 * r - 1, -1, q + r, 1 + w);
    CongAdd(p, P + g * A + h * B, P + g * A' + h * B', b * (1 + c * (r - q - w)), b * (1 + c * (1 - 2 * q)));
    CongSub(p, P + g * A + h * B + b * (1 + c * (r - q - w)), P + g * A' + h * B' + b * (1 + c * (1 - 2 * q)),
      f * (1 + c * (r - q + w)), f * (1 + c * (2 * r - 1)));
    ReducedForm(b, c, q);
    ReducedForm(f, -c, r);
    assert f * (-c * (2 * r)) == -(f * (c * (2 * r)));
    assert -c * (1 - 2 * r) == c * (2 * r - 1);
  }

  lemma Replace(p: int, b: int, c: int, from: int, to: int, k: int, S: int, S': int)
    requires Cong(p, S, S') && from - to == k * (S - S')
    ensures Cong(p, b * (1 + c * from), b * (1 + c * to))
  {
    Combine1(p, from, to, k, S, S');
    CongRefl(p, b);
    CongRefl(p, c);
    CongRefl(p, 1);
    CongMul(p, c, c, from, to);
    CongAdd(p, 1, 1, c * from, c * to);
    CongMul(p, b, b, 1 + c * from, 1 + c * to);
  }

  lemma ReducedForm(b: int, c: int, q: int)
    ensures b * (1 + c * (1 - 2 * q)) == b * (1 + c) - b * (c * (2 * q))
  {
    Distribute(c, 1, 2 * q);
    Distribute(b, 1 + c, c * (2 * q));
  }

  lemma BracketVanishes(p: int, d: int, x: int, y: int, q: Pair)
    requires BothOnCurve(p, d, q)
    requires Cong(p, q.a * (x * x) + y * y, 1 + d * ((x * y) * (x * y)))
    ensures Cong(p, Bracket(d, x, y, x * y, y * y - q.a * (x * x), q), 0)
  {
    var m, T := x * y, y * y - q.a * (x * x);
    var X, Y, u, v, m1, m3 := q.X(), q.Y(), q.U(), q.V(), q.M1(), q.M3();
    var s, t, c := m1 + m3, m1 - m3, d * (m1 * m3);
    var b, f := y * u * s, x * v * t;
    VanishOne(p, d, q);
    VanishTwo(p, d, q);
    BracketGroups(d, x, y, m, T, q);
    GroupsCancel(q.a, c, d, x, y, u, v, s, t, m1 * m3);
    hide Bracket, BothOnCurve, Cong;
    var A := X * (m1 * m1 - m3 * m3) + u * (m1 * m1 * q.T3() + m3 * m3 * q.T1());
    var B := Y * (m1 * m1 - m3 * m3) - v * (m1 * m1 * q.T3() - m3 * m3 * q.T1());
    var P := -(u * v) * (y * X + x * Y);
    BracketReduces(p, P, y * (d * m), A, 2 * ((m1 * m3) * (v * t)), x * (d * m), B, 2 * ((m1 * m3) * ((q.a * u) * s)),
      b, f, c, q.a * (x * x), y * y, d * (m * m));
    LastStep(p, x, y, u, v, X, Y, s, t, c);
    CongTrans(p, Bracket(d, x, y, m, T, q), P + b * (1 + c) - f * (1 - c), 0);
  }

  lemma LastStep(p: int, x: int, y: int, u: int, v: int, X: int, Y: int, s: int, t: int, c: int)
    requires Cong(p, X * v, s * (1 + c)) && Cong(p, Y * u, -t * (1 - c))
    ensures Cong(p, -(u * v) * (y * X + x * Y) + (y * u * s) * (1 + c) - (x * v * t) * (1 - c), 0)
  {
    var z := -(u * v) * (y * X + x * Y) + (y * u * s) * (1 + c) - (x * v * t) * (1 - c);
    assert z == -(u * y) * (X * v - s * (1 + c)) + -(v * x) * (Y * u - -t * (1 - c)) by {
      HalfOfLast(u, v, y, X, s, 1 + c);
      HalfOfLast(v, u, x, Y, -t, 1 - c);
      Distribute(u * v, y * X, x * Y);
      assert (x * v * -t) * (1 - c) == -((x * v * t) * (1 - c));
      assert v * u == u * v;
    }
    Combine2(p, z, 0, -(u * y), X * v, s * (1 + c), -(v * x), Y * u, -t * (1 - c));
  }

  lemma HalfOfLast(u: int, v: int, y: int, X: int, s: int, k: int)
    ensures -(u * y) * (X * v - s * k) == -((u * v) * (y * X)) + (y * u * s) * k
  {
    Distribute(u * y, X * v, s * k);
    ProductSwap(u, y, v, X);
    assert X * v == v * X;
    MulAssoc(u * y, s, k);
  }
}
