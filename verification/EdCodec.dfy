/** Points as byte strings: y in little-endian order with the parity of x in the top bit. */
module EdCodec {
  import opened Wrappers
  import opened Bytes
  import opened BigEndian
  import opened LittleEndian
  import opened EdField
  import opened EdRoots
  import opened EdCurve
  import opened EdPoints

  /** The field fits into fieldLen bytes, and the top bit of encLen bytes is free. */
  ghost predicate Layout(c: Curve) {
    && (if c.is448 then c.encLen == 57 && c.fieldLen == 56 else c.encLen == 32 && c.fieldLen == 32)
    && c.p <= Pow256(c.fieldLen)
    && c.p <= 128 * Pow256(c.encLen - 1) && c.L <= Pow256(c.encLen) && c.L > 0
    && (c.is448 <==> c.p % 4 == 3)
  }

  function EncodePoint(c: Curve, P: Point): (b: seq<byte>)
    requires c.encLen > 0 && P.y >= 0
    ensures |b| == c.encLen
  {
    var b := Le(P.y, c.encLen);
    if P.x % 2 == 1 then SetTop(b) else b
  }

  /** What a byte string says about y, and about the parity of x. */
  function SaidY(b: seq<byte>): nat requires b != [] { LeValue(ClearTop(b)) }

  lemma EncodedParts(c: Curve, P: Point)
    requires Layout(c) && 0 <= P.y < c.p
    ensures var b := EncodePoint(c, P); SaidY(b) == P.y && (TopBit(b) <==> P.x % 2 == 1)
  {
    var b := Le(P.y, c.encLen);
    EnoughRoom(c);
    ValueOfLe(P.y, c.encLen);
    TopIsFree(b);
    ClearSet(b);
  }

  lemma EnoughRoom(c: Curve)
    requires Layout(c)
    ensures c.p <= Pow256(c.encLen)
  {
  }

  /** A string that says y and the parity of x is the encoding of (x, y). */
  lemma EncodedIs(c: Curve, P: Point, b: seq<byte>)
    requires Layout(c) && |b| == c.encLen && SaidY(b) == P.y && (TopBit(b) <==> P.x % 2 == 1)
    ensures EncodePoint(c, P) == b
  {
    ClearSet(b);
    LeOfValue(ClearTop(b));
    assert !TopBit(b) ==> ClearTop(b) == b;
  }

  method Encode(c: Curve, q: EdPoint, ghost P: Point) returns (r: Option<seq<byte>>)
    requires Complete(c) && Layout(c) && q.Is(c, P)
    ensures r == Some(EncodePoint(c, P))
  {
    hide Prime, IsSquare, Cong, Equation, Le, LeValue, Stands;
    var xy := Affine(c, q);
    assert xy == Some(P);
    var out := Le(xy.value.y, c.fieldLen) + Zeros(c.encLen - c.fieldLen);
    Padded(P.y, c.fieldLen, c.encLen - c.fieldLen);
    if xy.value.x % 2 == 1 {
      out := SetTop(out);
    }
    r := Some(out);
  }

  // ---- the square root -------------------------------------------------------------------------------------

  /** A square root modulo p if there is one, some other number if there is none. */
  method SquareRoot(c: Curve, t: int) returns (x: int)
    requires Complete(c) && Layout(c) && 0 <= t < c.p
    ensures 0 <= x < c.p && (x * x % c.p == t <==> IsSquare(c.p, t))
  {
    hide Cong, Prime, IsSquare, ExpMod, Pow256;
    var p := c.p;
    CandidateIsRoot(p, t);
    SmallMod(t, p);
    if c.is448 {
      x := ExpMod(t, (p + 1) / 4, p);
    } else {
      x := ExpMod(t, (p + 3) / 8, p);
      if x * x % p != t {
        var v := ExpMod(2, (p - 1) / 4, p);
        x := x * v % p;
      }
    }
    CandidateInRange(p, t);
    ModIff(p, x * x, t);
  }

  lemma SmallMod(t: int, p: int)
    requires 0 <= t < p
    ensures t % p == t
  {
  }

  lemma CandidateInRange(p: int, t: int)
    requires p > 8
    ensures 0 <= Candidate(p, t) < p
  {
    hide Pow;
  }

  /** d y^2 - a never vanishes: otherwise d would be a / y^2, a square. */
  lemma DenominatorOfRoot(c: Curve, y: int)
    requires Complete(c)
    ensures !Cong(c.p, c.d * (y * y) - c.a, 0)
  {
    hide Prime, Cong;
    if Cong(c.p, c.d * (y * y) - c.a, 0) {
      var s: int :| Cong(c.p, s * s, c.a);
      NonzeroSmall(c.p, c.a);
      WouldBeRoot(c.p, c.a, c.d, s, y);
    }
  }

  lemma WouldBeRoot(p: int, a: int, d: int, s: int, y: int)
    requires Prime(p) && Cong(p, s * s, a) && !Cong(p, a, 0) && Cong(p, d * (y * y) - a, 0)
    ensures IsSquare(p, d)
  {
    hide Prime, Cong, IsSquare;
    var w := y * y;
    Combine2(p, s * s, d * w, 1, s * s, a, -1, d * w - a, 0);
    if Cong(p, y, 0) {
      ZeroTimes(p, y, y);
      ZeroTimes(p, w, d);
      Combine2(p, a, 0, 1, d * w, 0, -1, d * w - a, 0);
    } else {
      QuotientIsRoot(p, d, s, y);
    }
  }

  /** x^2 = (y^2 - 1) / (d y^2 - a) is the curve equation. */
  lemma RootIffOnCurve(c: Curve, x: int, y: int, v: int, t: int)
    requires Complete(c) && Cong(c.p, v, c.d * (y * y) - c.a) && Cong(c.p, t * v, y * y - 1)
    ensures Cong(c.p, x * x, t) <==> Equation(c, x, y)
  {
    hide Cong, Prime, IsSquare;
    var p, X, Y := c.p, x * x, y * y;
    DenominatorOfRoot(c, y);
    VanishesToo(p, v, c.d * Y - c.a);
    CrossedEquation(p, c.a, c.d, X, Y, v, t);
    SquareOfProduct(x, y);
    if Cong(p, t * v, X * v) {
      Cancel(p, v, t, X);
      CongSym(p, t, X);
    }
    if Cong(p, X, t) {
      CongRefl(p, v);
      CongSym(p, X, t);
      CongMul(p, t, X, v, v);
    }
  }

  lemma VanishesToo(p: int, v: int, w: int)
    requires Cong(p, v, w) && !Cong(p, w, 0)
    ensures !Cong(p, v, 0)
  {
    if Cong(p, v, 0) {
      CongSym(p, v, w);
      CongTrans(p, w, v, 0);
    }
  }

  lemma Spread(X: int, d: int, Y: int, a: int)
    ensures X * (d * Y - a) == d * (X * Y) - a * X
  {
  }

  lemma CrossedEquation(p: int, a: int, d: int, X: int, Y: int, v: int, t: int)
    requires Cong(p, v, d * Y - a) && Cong(p, t * v, Y - 1)
    ensures Cong(p, t * v, X * v) <==> Cong(p, a * X + Y, 1 + d * (X * Y))
    ensures Cong(p, t * v, X * v) <==> Cong(p, v * t, v * X)
  {
    hide Cong;
    Spread(X, d, Y, a);
    CongRefl(p, X);
    CongMul(p, X, X, v, d * Y - a);
    if Cong(p, t * v, X * v) {
      CongTrans(p, t * v, X * v, X * (d * Y - a));
      Combine2(p, a * X + Y, 1 + d * (X * Y), 1, t * v, X * (d * Y - a), -1, t * v, Y - 1);
    }
    if Cong(p, a * X + Y, 1 + d * (X * Y)) {
      Combine2(p, t * v, X * (d * Y - a), 1, t * v, Y - 1, 1, a * X + Y, 1 + d * (X * Y));
      CongSym(p, X * v, X * (d * Y - a));
      CongTrans(p, t * v, X * (d * Y - a), X * v);
    }
  }

  /** Two square roots of the same number agree up to sign. */
  lemma RootsAgree(p: int, x: int, x': int)
    requires Prime(p) && p % 2 == 1 && Cong(p, x * x, x' * x') && 0 <= x < p && 0 <= x' < p
    ensures x == x' || (x + x' == p && x % 2 != x' % 2)
  {
    DifferenceOfSquares(x, x');
    assert (x + x') * (x - x') - 0 == 1 * (x * x - x' * x');
    Combine1(p, (x + x') * (x - x'), 0, 1, x * x, x' * x');
    NoZeroDivisors(p, x + x', x - x');
    if Cong(p, x - x', 0) {
      Combine1(p, x, x', 1, x - x', 0);
      CongUnique(p, x, x');
    } else {
      SumOfOpposites(p, x + x');
    }
  }

  lemma SumOfOpposites(p: int, s: int)
    requires Cong(p, s, 0) && 0 <= s < 2 * p
    ensures s == 0 || s == p
  {
    if s < p {
      CongUnique(p, s, 0);
    } else {
      CongBy(p, s - p, s, -1);
      CongTrans(p, s - p, s, 0);
      CongUnique(p, s - p, 0);
    }
  }

  // ---- decoding --------------------------------------------------------------------------------------------

  lemma DenominatorIs(p: int, d: int, a: int, y: int)
    requires p > 0
    ensures Cong(p, (y * y % p * d - a) % p, d * (y * y) - a)
  {
    hide Cong;
    var w := y * y % p;
    CongMod(p, y * y);
    CongRefl(p, d);
    CongRefl(p, a);
    CongMul(p, w, y * y, d, d);
    SubStep(p, w * d, (y * y) * d, a, a);
  }

  lemma NumeratorIs(p: int, y: int)
    requires p > 0
    ensures Cong(p, (y * y % p - 1) % p, y * y - 1)
  {
    hide Cong;
    CongMod(p, y * y);
    CongRefl(p, 1);
    SubStep(p, y * y % p, y * y, 1, 1);
  }

  /** t = i u mod p with i the inverse of v: t v = n when u = n. */
  lemma QuotientIs(p: int, v: int, i: int, u: int, n: int)
    requires p > 0 && Cong(p, v * i, 1) && Cong(p, u, n)
    ensures Cong(p, (i * u % p) * v, n)
  {
    hide Cong;
    CongRefl(p, i);
    MulStep(p, i, i, u, n);
    CongRefl(p, v);
    CongMul(p, i * u % p, i * n, v, v);
    CongRefl(p, n);
    CongMul(p, v * i, 1, n, n);
    assert (v * i) * n == (i * n) * v;
    CongTrans(p, (i * u % p) * v, (i * n) * v, n);
  }

  /** The roots of t are the x of the points with this y. */
  ghost predicate RootsFor(c: Curve, y: int, t: int) {
    forall x :: Cong(c.p, x * x, t) <==> Equation(c, x, y)
  }

  ghost predicate NoPoint(c: Curve, s: seq<byte>)
    requires c.encLen > 0
  {
    forall P :: OnCurve(c, P) ==> EncodePoint(c, P) != s
  }

  ghost predicate OnlyPoint(c: Curve, s: seq<byte>, Q: Point)
    requires c.encLen > 0
  {
    forall P :: OnCurve(c, P) && EncodePoint(c, P) == s ==> P == Q
  }

  /** Among the roots of t, the encoding singles out the one with the parity that it says. */
  lemma Preimage(c: Curve, x: int, t: int, s: seq<byte>, P: Point)
    requires Complete(c) && Layout(c) && |s| == c.encLen && 0 <= t < c.p && 0 <= x < c.p
    requires RootsFor(c, SaidY(s), t) && OnCurve(c, P) && EncodePoint(c, P) == s
    ensures IsSquare(c.p, t) && SaidY(s) == P.y && (TopBit(s) <==> P.x % 2 == 1)
    ensures Cong(c.p, x * x, t) ==> P.x == if IsOdd(x) == TopBit(s) then x else c.p - x
  {
    hide Prime, LeValue, Pow256, EncodePoint;
    EncodedParts(c, P);
    assert Cong(c.p, P.x * P.x, t);
    if Cong(c.p, x * x, t) {
      CongSym(c.p, P.x * P.x, t);
      CongTrans(c.p, x * x, t, P.x * P.x);
      OddPrime(c.p);
      RootsAgree(c.p, x, P.x);
    }
  }

  lemma YTooBig(c: Curve, s: seq<byte>)
    requires Layout(c) && |s| == c.encLen && SaidY(s) >= c.p
    ensures NoPoint(c, s)
  {
    hide LeValue, Pow256, EncodePoint;
    forall P | OnCurve(c, P) ensures EncodePoint(c, P) != s {
      EncodedParts(c, P);
    }
  }

  lemma NoRootNoPoint(c: Curve, x: int, t: int, s: seq<byte>)
    requires Complete(c) && Layout(c) && |s| == c.encLen && 0 <= t < c.p && 0 <= x < c.p
    requires RootsFor(c, SaidY(s), t) && (IsSquare(c.p, t) <==> Cong(c.p, x * x, t))
    requires !Cong(c.p, x * x, t) || (x == 0 && TopBit(s))
    ensures NoPoint(c, s)
  {
    hide Prime, LeValue, Pow256, EncodePoint, Cong, IsSquare, RootsFor;
    forall P | OnCurve(c, P) ensures EncodePoint(c, P) != s {
      if EncodePoint(c, P) == s {
        Preimage(c, x, t, s, P);
      }
    }
  }

  lemma OneRootOnePoint(c: Curve, x: int, t: int, s: seq<byte>)
    requires Complete(c) && Layout(c) && |s| == c.encLen && 0 <= t < c.p && 0 <= x < c.p
    requires RootsFor(c, SaidY(s), t) && Cong(c.p, x * x, t)
    ensures OnlyPoint(c, s, Point(if IsOdd(x) == TopBit(s) then x else c.p - x, SaidY(s)))
  {
    hide Prime, LeValue, Pow256, EncodePoint, Cong, IsSquare, RootsFor;
    forall P | OnCurve(c, P) && EncodePoint(c, P) == s
      ensures P == Point(if IsOdd(x) == TopBit(s) then x else c.p - x, SaidY(s)) {
      Preimage(c, x, t, s, P);
    }
  }

  lemma OddPrime(p: int)
    requires p % 4 == 3 || p % 8 == 5
    ensures p % 2 == 1 && !IsOdd(0)
  {
  }

  lemma FlippedRoot(p: int, x: int, t: int)
    requires Cong(p, x * x, t) && p % 2 == 1
    ensures Cong(p, (p - x) * (p - x), t) && IsOdd(p - x) == !IsOdd(x)
  {
    assert (p - x) * (p - x) - x * x == (p - 2 * x) * p;
    CongBy(p, (p - x) * (p - x), x * x, p - 2 * x);
    CongTrans(p, (p - x) * (p - x), x * x, t);
  }

  lemma QuotientExists(c: Curve, y: int, v: int)
    requires Complete(c) && Cong(c.p, v, c.d * (y * y) - c.a)
    ensures Invertible(v, c.p)
  {
    hide Cong, IsSquare;
    DenominatorOfRoot(c, y);
    VanishesToo(c.p, v, c.d * (y * y) - c.a);
    PrimeInvertible(v, c.p);
  }

  predicate IsOdd(x: int) { x % 2 == 1 }
  function Square(p: int, x: int): int requires p > 0 { x * x % p }

  /** The number t whose roots are the x of the points with this y, and a root of it if there is one. */
  method RootForY(c: Curve, y: int) returns (t: int, x: int)
    requires Complete(c) && Layout(c)
    ensures 0 <= t < c.p && 0 <= x < c.p
    ensures RootsFor(c, y, t)
    ensures Square(c.p, x) == t <==> Cong(c.p, x * x, t)
    ensures IsSquare(c.p, t) <==> Cong(c.p, x * x, t)
  {
    hide Cong, Prime, IsSquare, Equation, InvMod, Pow256;
    var p := c.p;
    var u := y * y % p;
    var v := (u * c.d - c.a) % p;
    u := (u - 1) % p;
    DenominatorIs(p, c.d, c.a, y);
    NumeratorIs(p, y);
    QuotientExists(c, y, v);
    InvModInverts(v, p);
    QuotientIs(p, v, InvMod(v, p), u, y * y - 1);
    t := InvMod(v, p);
    t := t * u % p;
    forall x' ensures Cong(p, x' * x', t) <==> Equation(c, x', y) {
      RootIffOnCurve(c, x', y, v, t);
    }
    x := SquareRoot(c, t);
    ModIff(p, x * x, t);
    SmallMod(t, p);
  }

  /** Zero is a root exactly when the root that was found is zero. */
  lemma ZeroRoot(c: Curve, y: int, x: int, t: int)
    requires Prime(c.p) && 0 <= t < c.p && 0 <= x < c.p && (IsSquare(c.p, t) <==> Cong(c.p, x * x, t))
    requires RootsFor(c, y, t)
    ensures Equation(c, 0, y) <==> Cong(c.p, x * x, t) && x == 0
  {
    hide Cong, Prime, Equation;
    var p := c.p;
    assert Cong(p, 0 * 0, t) <==> Equation(c, 0, y);
    if Cong(p, 0 * 0, t) {
      CongSym(p, 0, t);
      CongTrans(p, x * x, t, 0);
      NoZeroDivisors(p, x, x);
      CongUnique(p, x, 0);
    }
  }

  lemma Decoded(c: Curve, x: int, t: int, y: int, s: seq<byte>)
    requires Complete(c) && Layout(c) && |s| == c.encLen && 0 <= x < c.p && y == SaidY(s) < c.p
    requires RootsFor(c, y, t) && Cong(c.p, x * x, t) && IsOdd(x) == TopBit(s)
    ensures OnCurve(c, Point(x, y)) && Stands(c.p, x, y, 1, x, y) && EncodePoint(c, Point(x, y)) == s
  {
    hide Prime, IsSquare, LeValue, Equation, Cong, Pow256;
    EncodedIs(c, Point(x, y), s);
    NonzeroSmall(c.p, 1);
    CongRefl(c.p, x);
    CongRefl(c.p, y);
  }

  /** Nonzero codes: -1 for y out of range, -2 for no such point, -3 for a sign on x = 0. */
  method Decode(c: Curve, q: EdPoint, s: seq<byte>) returns (ret: int)
    requires Complete(c) && Layout(c) && |s| == c.encLen
    modifies q
    ensures ret == 0 ==> q.Is(c, Point(q.x, q.y)) && q.z == 1
    ensures ret == 0 ==> EncodePoint(c, Point(q.x, q.y)) == s && OnlyPoint(c, s, Point(q.x, q.y))
    ensures ret != 0 ==> NoPoint(c, s) && unchanged(q)
    ensures ret == -1 <==> SaidY(s) >= c.p
    ensures ret == -3 <==> SaidY(s) < c.p && TopBit(s) && Equation(c, 0, SaidY(s))
    ensures -3 <= ret <= 0
  {
    hide Cong, Prime, IsSquare, EncodePoint, Equation, LeValue, Pow256, RootsFor, SaidY, NoPoint, OnlyPoint,
      Stands, TopBit, IsOdd, Square;
    var p, sign := c.p, TopBit(s);
    var y := SaidY(s);
    if y >= p {
      YTooBig(c, s);
      return -1;
    }
    var t, x := RootForY(c, y);
    ZeroRoot(c, y, x, t);
    if Square(p, x) != t {
      NoRootNoPoint(c, x, t, s);
      return -2;
    }
    if x == 0 && sign {
      NoRootNoPoint(c, x, t, s);
      return -3;
    }
    OneRootOnePoint(c, x, t, s);
    OddPrime(p);
    if IsOdd(x) != sign {
      FlippedRoot(p, x, t);
      x := p - x;
    }
    q.x, q.y, q.z := x, y, 1;
    Decoded(c, x, t, y, s);
    ret := 0;
  }

  // ---- the codec is a bijection ----------------------------------------------------------------------------

  /** Different points have different encodings, so Decode after Encode gives the point back. */
  lemma EncodeInjective(c: Curve, P: Point, Q: Point)
    requires Complete(c) && Layout(c) && OnCurve(c, P) && OnCurve(c, Q)
    ensures EncodePoint(c, P) == EncodePoint(c, Q) <==> P == Q
  {
    hide Cong, Prime, IsSquare, EncodePoint, Equation, LeValue, Pow256, RootsFor, SaidY, InvMod;
    if EncodePoint(c, P) == EncodePoint(c, Q) {
      var s, p := EncodePoint(c, P), c.p;
      EncodedParts(c, P);
      var v, n := c.d * (P.y * P.y) - c.a, P.y * P.y - 1;
      CongRefl(p, v);
      CongRefl(p, n);
      QuotientExists(c, P.y, v);
      InvModInverts(v, p);
      QuotientIs(p, v, InvMod(v, p), n, n);
      var t := InvMod(v, p) * n % p;
      RootsOfQuotient(c, P.y, v, t);
      IsARoot(c, P.x, P.y, t);
      OneRootOnePoint(c, P.x, t, s);
      OnlyThat(c, s, P, Q);
    }
  }

  lemma RootsOfQuotient(c: Curve, y: int, v: int, t: int)
    requires Complete(c) && Cong(c.p, v, c.d * (y * y) - c.a) && Cong(c.p, t * v, y * y - 1)
    ensures RootsFor(c, y, t)
  {
    hide Cong, Prime, IsSquare, Equation;
    forall x ensures Cong(c.p, x * x, t) <==> Equation(c, x, y) {
      RootIffOnCurve(c, x, y, v, t);
    }
  }

  lemma IsARoot(c: Curve, x: int, y: int, t: int)
    requires RootsFor(c, y, t) && Equation(c, x, y)
    ensures Cong(c.p, x * x, t)
  {
  }

  lemma OnlyThat(c: Curve, s: seq<byte>, P: Point, Q: Point)
    requires c.encLen > 0 && OnCurve(c, Q) && EncodePoint(c, Q) == s && SaidY(s) == P.y
    requires OnlyPoint(c, s, Point(if IsOdd(P.x) == TopBit(s) then P.x else c.p - P.x, SaidY(s)))
    requires TopBit(s) == IsOdd(P.x)
    ensures P == Q
  {
  }

  lemma YLeavesTopFree(c: Curve, y: nat)
    requires Layout(c) && y < c.p
    ensures !TopBit(Le(y, c.encLen))
  {
    hide Le, LeValue;
    EnoughRoom(c);
    ValueOfLe(y, c.encLen);
    TopIsFree(Le(y, c.encLen));
  }

  /** The encoding byte by byte: y, least significant byte first, and the parity of x in the top bit. */
  lemma EncodingBytes(c: Curve, P: Point, i: nat)
    requires Layout(c) && 0 <= P.y < c.p && i < c.encLen
    ensures EncodePoint(c, P)[i]
      == P.y / Pow256(i) % 256 + if P.x % 2 == 1 && i == c.encLen - 1 then 128 else 0
  {
    hide Pow256, Le, TopBit, SetTop, Layout;
    YLeavesTopFree(c, P.y);
    SetTopByte(Le(P.y, c.encLen), i);
    LeByte(P.y, c.encLen, i);
  }
}
