/** Ed25519 and Ed448 signatures (sections 5.1.5-5.1.7 and 5.2.5-5.2.7 of RFC 8032) over an uninterpreted hash. */
module EdSign {
  import opened Wrappers
  import opened Arithmetic
  import opened Bytes
  import opened BigEndian
  import opened LittleEndian
  import opened EdField
  import opened EdRoots
  import opened EdCurve
  import opened EdAssociativity
  import opened EdPoints
  import opened EdCodec

  type Hash = seq<byte> -> seq<byte>

  /** SHA-512 gives 64 bytes; SHAKE256 is asked for 114. */
  ghost predicate Digest(c: Curve, hash: Hash) {
    forall m :: |hash(m)| == 2 * c.encLen
  }

  function Base(c: Curve): Point { Point(c.baseX, c.baseY) }

  /** A curve with a complete addition law, and a base point on it with L B = O. */
  ghost predicate Suite(c: Curve) {
    && Complete(c) && Layout(c) && OnCurve(c, Base(c))
    && Multiple(c, c.L, Base(c)) == IDENTITY
  }

  // ---- hashes and scalars ----------------------------------------------------------------------------------

  /** "SigEd448" and two zero bytes */
  const DOM4: seq<byte> := [83, 105, 103, 69, 100, 52, 52, 56, 0, 0]

  function SignHash(c: Curve, hash: Hash, a: seq<byte>, m: seq<byte>): seq<byte> {
    hash((if c.is448 then DOM4 else []) + a + m)
  }

  function Scalar(c: Curve, h: seq<byte>): (r: nat)
    requires c.L > 0
    ensures r < c.L
  {
    LeValue(h) % c.L
  }

  /** The secret scalar of section 5.1.5: the top bit is set, the cofactor's bits are cleared. */
  function SecretScalar(c: Curve, h: seq<byte>): nat
    requires |h| >= 57
  {
    if c.is448 then
      var n := LeValue(h[..56]);
      128 * Pow256(55) + (n % (128 * Pow256(55)) - n % 4)
    else
      var n := LeValue(h[..32]);
      64 * Pow256(31) + (n % (64 * Pow256(31)) - n % 8)
  }

  lemma ModOfSum(p: int, k: int, x: int, low: int)
    requires p > 0 && k > 0 && 0 <= low < p
    ensures (low + p * x) % (k * p) == low + p * (x % k)
  {
    var q, r := x / k, x % k;
    assert x == k * q + r;
    SplitDigit(p, k, q, r, low);
    DigitBound(p, k, r, low);
    PositiveProduct(k, p);
    DivisionIs(low + p * x, k * p, q, low + p * r);
  }

  lemma PositiveProduct(k: int, p: int)
    requires k > 0 && p > 0
    ensures k * p > 0
  {
  }

  lemma SplitDigit(p: int, k: int, q: int, r: int, low: int)
    ensures low + p * (k * q + r) == (k * p) * q + (low + p * r)
  {
    assert p * (k * q) == (k * p) * q;
  }

  lemma DigitBound(p: int, k: int, r: int, low: int)
    requires p > 0 && 0 <= r < k && 0 <= low < p
    ensures 0 <= low + p * r < k * p
  {
    MulMonotone(r, k - 1, p);
    MulMonotone(0, r, p);
  }

  /** Clearing low bits of the first byte and rewriting the last one, as a number. */
  lemma ClampedValue(h: seq<byte>, low: int, k: int, first: byte, last: byte)
    requires |h| >= 2 && (low == 4 || low == 8) && (k == 64 || k == 128)
    requires first == h[0] - h[0] % low && last == h[|h| - 1] % k + k
    ensures LeValue(h[0 := first][|h| - 1 := last])
      == k * Pow256(|h| - 1) + (LeValue(h) % (k * Pow256(|h| - 1)) - LeValue(h) % low)
    ensures LeValue(h) % (k * Pow256(|h| - 1)) >= LeValue(h) % low
  {
    hide Pow256, LeValue;
    var n := |h| - 1;
    var b := h[0 := first][n := last];
    var p := Pow256(n);
    LeTopByte(h);
    LeTopByte(b);
    LeBound(h[..n]);
    assert b[..n] == h[..n][0 := first];
    FirstByte(h[..n], first);
    LowBits(h, low);
    LowBits(h[..n], low);
    ModOfSum(p, k, h[n], LeValue(h[..n]));
    MulMonotone(0, h[n] % k, p);
    Clamped(p, k, h[n] % k);
  }

  lemma Clamped(p: int, k: int, x: int)
    ensures p * (x + k) == p * x + k * p
  {
  }

  lemma FirstByte(h: seq<byte>, first: byte)
    requires h != []
    ensures LeValue(h[0 := first]) == LeValue(h) - h[0] + first
  {
    assert h[0 := first][1..] == h[1..];
  }

  lemma LowBits(h: seq<byte>, low: int)
    requires h != [] && (low == 4 || low == 8)
    ensures LeValue(h) % low == h[0] % low && LeValue(h) >= h[0]
  {
    var v := LeValue(h[1..]);
    assert LeValue(h) == h[0] + 256 * v;
  }

  /** Expands a seed: the clamped secret scalar and the prefix. */
  method Expand(c: Curve, hash: Hash, seed: seq<byte>) returns (a: nat, prefix: seq<byte>)
    requires Layout(c) && Digest(c, hash)
    ensures a == SecretScalar(c, hash(seed)) && prefix == hash(seed)[c.encLen..]
  {
    hide Pow256, LeValue;
    var h := hash(seed);
    var x, y: int := h[0], h[if c.is448 then 55 else 31];
    var low: int := if c.is448 then x % 4 else x % 8;
    var first: byte := x - low;
    if !c.is448 {
      var last: byte := y % 128 % 64 + 64;
      var b := h[0 := first][31 := last];
      a := LeValue(b[..32]);
      prefix := b[32..64];
      Clamped25519(h, b, first, last);
    } else {
      var last: byte := y % 128 + 128;
      var b := h[0 := first][55 := last][56 := 0];
      a := LeValue(b[..57]);
      prefix := b[57..114];
      Clamped448(h, b, first, last);
    }
  }

  lemma Clamped25519(h: seq<byte>, b: seq<byte>, first: byte, last: byte)
    requires |h| == 64 && b == h[0 := first][31 := last]
    requires first == h[0] - h[0] % 8 && last == h[31] % 64 + 64
    ensures b[32..64] == h[32..]
    ensures LeValue(b[..32]) == 64 * Pow256(31) + (LeValue(h[..32]) % (64 * Pow256(31)) - LeValue(h[..32]) % 8)
  {
    hide Pow256, LeValue;
    assert b[..32] == h[..32][0 := first][31 := last];
    ClampedValue(h[..32], 8, 64, first, last);
  }

  lemma Clamped448(h: seq<byte>, b: seq<byte>, first: byte, last: byte)
    requires |h| == 114 && b == h[0 := first][55 := last][56 := 0]
    requires first == h[0] - h[0] % 4 && last == h[55] % 128 + 128
    ensures b[57..114] == h[57..]
    ensures LeValue(b[..57]) == 128 * Pow256(55) + (LeValue(h[..56]) % (128 * Pow256(55)) - LeValue(h[..56]) % 4)
  {
    hide Pow256, LeValue;
    var low := h[..56][0 := first][55 := last];
    assert b[..57] == low + [0];
    LeConcat(low, [0]);
    JustZero();
    ClampedValue(h[..56], 4, 128, first, last);
  }

  lemma JustZero()
    ensures LeValue([0]) == 0
  {
    assert LeValue([0]) == 0 + 256 * LeValue([]);
  }

  /** A secret scalar is a multiple of the cofactor with its top bit at a fixed place. */
  lemma ScalarIsClamped(c: Curve, h: seq<byte>)
    requires |h| >= 57
    ensures var a := SecretScalar(c, h);
      if c.is448 then a % 4 == 0 && 128 * Pow256(55) <= a < 256 * Pow256(55)
      else a % 8 == 0 && 64 * Pow256(31) <= a < 128 * Pow256(31)
  {
    hide LeValue, Pow256;
    if c.is448 {
      Aligned(LeValue(h[..56]), 128 * Pow256(54), 4);
      TopPower(54);
      ModIsLess(LeValue(h[..56]), 128 * Pow256(55));
    } else {
      Aligned(LeValue(h[..32]), 64 * Pow256(30), 8);
      TopPower(30);
      ModIsLess(LeValue(h[..32]), 64 * Pow256(31));
    }
  }

  lemma ModIsLess(n: nat, m: nat)
    requires m > 0
    ensures 0 <= n % m < m
  {
  }

  lemma TopPower(k: nat)
    ensures Pow256(k + 1) == 256 * Pow256(k)
  {
  }

  /** A multiple of low plus the difference of two remainders that agree modulo low. */
  lemma Aligned(n: nat, t: nat, low: nat)
    requires t > 0 && (low == 4 || low == 8)
    ensures var m := 256 * t; (m + (n % m - n % low)) % low == 0 && n % m >= n % low
  {
    QuotientAndRest(n, 256 * t);
    if low == 4 {
      AlignedBy(n, 256 * t, 4, 64 * t, n / (256 * t), n % (256 * t));
    } else {
      AlignedBy(n, 256 * t, 8, 32 * t, n / (256 * t), n % (256 * t));
    }
  }

  lemma AlignedBy(n: nat, m: nat, low: nat, w: nat, q: nat, r: nat)
    requires low > 0 && m == low * w && n == q * m + r
    ensures (m + (r - n % low)) % low == 0 && r >= n % low
  {
    assert (low * w) * q == q * m;
    LowPart(n, low, w, q, r);
    AlignedSum(low, w, r);
  }

  lemma LowPart(n: nat, low: nat, w: nat, q: nat, r: nat)
    requires low > 0 && n == (low * w) * q + r
    ensures n % low == r % low <= r
  {
    assert (low * w) * q == low * (w * q);
    ModShift(low, w * q, r);
  }

  lemma AlignedSum(low: nat, w: nat, r: nat)
    requires low > 0
    ensures (low * w + (r - r % low)) % low == 0
  {
    var k := r / low;
    assert r - r % low == low * k;
    ModShift(low, w + k, 0);
    assert low * (w + k) == low * w + low * k;
  }

  lemma ModShift(low: nat, k: int, r: int)
    requires low > 0
    ensures (low * k + r) % low == r % low
  {
    DivisionIs(low * k + r, low, k + r / low, r % low);
  }

  // ---- keys and signatures ---------------------------------------------------------------------------------

  ghost function PublicPoint(c: Curve, hash: Hash, seed: seq<byte>): Point
    requires Suite(c) && Digest(c, hash)
  {
    Multiple(c, SecretScalar(c, hash(seed)), Base(c))
  }

  ghost function PublicKey(c: Curve, hash: Hash, seed: seq<byte>): seq<byte>
    requires Suite(c) && Digest(c, hash)
  {
    MultipleOnCurve(c, SecretScalar(c, hash(seed)), Base(c));
    EncodePoint(c, PublicPoint(c, hash, seed))
  }

  /** R B for the nonce of a message. */
  ghost function Nonce(c: Curve, hash: Hash, seed: seq<byte>, msg: seq<byte>): nat
    requires Suite(c) && Digest(c, hash)
  {
    Scalar(c, SignHash(c, hash, hash(seed)[c.encLen..], msg))
  }

  ghost function Commitment(c: Curve, hash: Hash, seed: seq<byte>, msg: seq<byte>): (r: seq<byte>)
    requires Suite(c) && Digest(c, hash)
    ensures |r| == c.encLen
  {
    var r := Nonce(c, hash, seed, msg);
    MultipleOnCurve(c, r, Base(c));
    EncodePoint(c, Multiple(c, r, Base(c)))
  }

  function Challenge(c: Curve, hash: Hash, R: seq<byte>, A: seq<byte>, msg: seq<byte>): nat
    requires c.L > 0
  {
    Scalar(c, SignHash(c, hash, R + A, msg))
  }

  /** R || S with S = k a + r mod L. */
  ghost function SignatureOf(c: Curve, hash: Hash, seed: seq<byte>, msg: seq<byte>): (sig: seq<byte>)
    requires Suite(c) && Digest(c, hash)
    ensures |sig| == 2 * c.encLen
  {
    var R, A := Commitment(c, hash, seed, msg), PublicKey(c, hash, seed);
    var k, a, r := Challenge(c, hash, R, A, msg), SecretScalar(c, hash(seed)), Nonce(c, hash, seed, msg);
    R + Le((k * a + r) % c.L, c.encLen)
  }

  /** S B = R + k A for the points R and A that the two byte strings encode, with S below L. */
  ghost predicate Accepts(c: Curve, hash: Hash, pub: seq<byte>, msg: seq<byte>, sig: seq<byte>)
    requires Suite(c) && |pub| == c.encLen && |sig| == 2 * c.encLen
  {
    exists A, R :: Verifies(c, hash, pub, msg, sig, A, R)
  }

  ghost predicate Verifies(c: Curve, hash: Hash, pub: seq<byte>, msg: seq<byte>, sig: seq<byte>, A: Point, R: Point)
    requires Suite(c) && |pub| == c.encLen && |sig| == 2 * c.encLen
  {
    var n := c.encLen;
    var S, k := LeValue(sig[n..]), Challenge(c, hash, sig[..n], pub, msg);
    && OnCurve(c, A) && OnCurve(c, R) && EncodePoint(c, A) == pub && EncodePoint(c, R) == sig[..n]
    && S < c.L && Multiple(c, S, Base(c)) == AddPoints(c, R, Multiple(c, k, A))
  }

  // ---- the algebra of signing ------------------------------------------------------------------------------

  lemma {:induction false} MultipleOfIdentity(c: Curve, k: nat)
    requires Complete(c)
    ensures Multiple(c, k, IDENTITY) == IDENTITY
  {
    hide OnCurve, AddPoints, Prime, IsSquare;
    if k > 0 {
      MultipleOfIdentity(c, k - 1);
      IdentityOnCurve(c);
      Neutral(c, IDENTITY);
    }
  }

  lemma IdentityOnCurve(c: Curve)
    requires Complete(c)
    ensures OnCurve(c, IDENTITY)
  {
    CongRefl(c.p, 1);
  }

  /** Multiples of L do not matter. */
  lemma OrderVanishes(c: Curve, q: nat, r: nat)
    requires Suite(c)
    ensures Multiple(c, q * c.L + r, Base(c)) == Multiple(c, r, Base(c))
  {
    hide OnCurve, AddPoints, Prime, IsSquare, Layout, Multiple;
    var B := Base(c);
    MultipleOfSum(c, q * c.L, r, B);
    MultipleOfMultiple(c, q, c.L, B);
    MultipleOfIdentity(c, q);
    MultipleOnCurve(c, r, B);
    Neutral(c, Multiple(c, r, B));
  }

  /** Scalars act modulo L. */
  lemma MultipleModOrder(c: Curve, n: nat)
    requires Suite(c)
    ensures Multiple(c, n % c.L, Base(c)) == Multiple(c, n, Base(c))
  {
    hide OnCurve, AddPoints, Prime, IsSquare, Multiple, Pow256, Complete;
    QuotientAndRest(n, c.L);
    OrderVanishes(c, n / c.L, n % c.L);
  }

  lemma QuotientAndRest(n: nat, m: nat)
    requires m > 0
    ensures n / m * m + n % m == n && n / m >= 0
  {
  }

  /** (k a + r mod L) B = r B + k (a B) */
  lemma SigningEquation(c: Curve, k: nat, a: nat, r: nat)
    requires Suite(c)
    ensures var B := Base(c);
      Multiple(c, (k * a + r) % c.L, B) == AddPoints(c, Multiple(c, r, B), Multiple(c, k, Multiple(c, a, B)))
  {
    hide OnCurve, AddPoints, Prime, IsSquare, Layout, Multiple;
    var B := Base(c);
    MultipleModOrder(c, k * a + r);
    MultipleOfSum(c, k * a, r, B);
    MultipleOfMultiple(c, k, a, B);
    Commutes(c, Multiple(c, k * a, B), Multiple(c, r, B));
  }

  /** Verification accepts what signing produces, for every seed, message and hash. */
  lemma SigningIsComplete(c: Curve, hash: Hash, seed: seq<byte>, msg: seq<byte>)
    requires Suite(c) && Digest(c, hash)
    ensures Accepts(c, hash, PublicKey(c, hash, seed), msg, SignatureOf(c, hash, seed, msg))
  {
    hide OnCurve, AddPoints, Prime, IsSquare, Multiple, LeValue, Le, EncodePoint, SignHash, SecretScalar;
    var pub, sig, n := PublicKey(c, hash, seed), SignatureOf(c, hash, seed, msg), c.encLen;
    var R := Commitment(c, hash, seed, msg);
    var k, a, r := Challenge(c, hash, R, pub, msg), SecretScalar(c, hash(seed)), Nonce(c, hash, seed, msg);
    var s := (k * a + r) % c.L;
    SigningEquation(c, k, a, r);
    assert sig[..n] == R && sig[n..] == Le(s, n);
    ValueOfLe(s, n);
    MultipleOnCurve(c, a, Base(c));
    MultipleOnCurve(c, r, Base(c));
    assert Verifies(c, hash, pub, msg, sig, PublicPoint(c, hash, seed), Multiple(c, r, Base(c)));
  }

  // ---- the operations --------------------------------------------------------------------------------------

  lemma BaseStands(c: Curve)
    requires Suite(c)
    ensures OnCurve(c, Base(c)) && Stands(c.p, c.baseX, c.baseY, 1, c.baseX, c.baseY)
  {
    hide IsSquare, Cong, Multiple, Layout;
    NonzeroSmall(c.p, 1);
    CongRefl(c.p, c.baseX);
    CongRefl(c.p, c.baseY);
  }

  /** k B, encoded. */
  method EncodedMultiple(c: Curve, k: nat) returns (r: seq<byte>)
    requires Suite(c)
    ensures OnCurve(c, Multiple(c, k, Base(c))) && r == EncodePoint(c, Multiple(c, k, Base(c)))
  {
    hide Prime, IsSquare, Multiple, Stands, EncodePoint;
    var b := new EdPoint(c.baseX, c.baseY, 1);
    var q := new EdPoint(0, 0, 0);
    BaseStands(c);
    Mul(c, q, k, b, Base(c));
    var out := Encode(c, q, Multiple(c, k, Base(c)));
    r := out.value;
  }

  /** The public key of a seed; there is none for a seed of the wrong length. */
  method Public(c: Curve, hash: Hash, seed: seq<byte>) returns (r: Option<seq<byte>>)
    requires Suite(c) && Digest(c, hash)
    ensures r == if |seed| == c.encLen then Some(PublicKey(c, hash, seed)) else None
  {
    hide Prime, IsSquare, Multiple, EncodePoint, SecretScalar, OnCurve, Cong;
    if |seed| != c.encLen { return None; }
    var a, prefix := Expand(c, hash, seed);
    var pub := EncodedMultiple(c, a);
    r := Some(pub);
  }

  method Sign(c: Curve, hash: Hash, seed: seq<byte>, msg: seq<byte>) returns (r: Option<seq<byte>>)
    requires Suite(c) && Digest(c, hash)
    ensures r == if |seed| == c.encLen then Some(SignatureOf(c, hash, seed, msg)) else None
  {
    hide Prime, IsSquare, Multiple, EncodePoint, SecretScalar, OnCurve, Cong, SignHash, LeValue, Le;
    if |seed| != c.encLen { return None; }
    var a, prefix := Expand(c, hash, seed);
    var pub := Public(c, hash, seed);
    var nonce := Scalar(c, SignHash(c, hash, prefix, msg));
    var rbytes := EncodedMultiple(c, nonce);
    var k := Scalar(c, SignHash(c, hash, rbytes + pub.value, msg));
    var s := (k * a + nonce) % c.L;
    r := Some(rbytes + Le(s, c.encLen));
  }

  /** Two points that decode from the key and the signature are the only ones the equation can be about. */
  lemma AcceptsOnly(c: Curve, hash: Hash, pub: seq<byte>, msg: seq<byte>, sig: seq<byte>, A: Point, R: Point)
    requires Suite(c) && |pub| == c.encLen && |sig| == 2 * c.encLen
    requires OnCurve(c, A) && EncodePoint(c, A) == pub && OnlyPoint(c, pub, A)
    requires OnCurve(c, R) && EncodePoint(c, R) == sig[..c.encLen] && OnlyPoint(c, sig[..c.encLen], R)
    ensures Accepts(c, hash, pub, msg, sig) <==> Verifies(c, hash, pub, msg, sig, A, R)
  {
    hide OnCurve, AddPoints, Prime, IsSquare, Multiple, LeValue, EncodePoint, SignHash;
    if A', R' :| Verifies(c, hash, pub, msg, sig, A', R') {
      assert A' == A && R' == R;
    }
  }

  lemma NotAccepted(c: Curve, hash: Hash, pub: seq<byte>, msg: seq<byte>, sig: seq<byte>)
    requires Suite(c) && |pub| == c.encLen && |sig| == 2 * c.encLen
    requires NoPoint(c, pub) || NoPoint(c, sig[..c.encLen]) || LeValue(sig[c.encLen..]) >= c.L
    ensures !Accepts(c, hash, pub, msg, sig)
  {
    hide OnCurve, AddPoints, Prime, IsSquare, Multiple, LeValue, EncodePoint, SignHash;
  }

  /** Accepts exactly what the verification equation allows, malformed keys and signatures included. */
  method Verify(c: Curve, hash: Hash, pub: seq<byte>, msg: seq<byte>, sig: seq<byte>) returns (ok: bool)
    requires Suite(c)
    ensures ok <==> |pub| == c.encLen && |sig| == 2 * c.encLen && Accepts(c, hash, pub, msg, sig)
  {
    hide Prime, IsSquare, Multiple, EncodePoint, OnCurve, Cong, SignHash, LeValue, Le, Stands, NoPoint, OnlyPoint,
      Accepts, AddPoints, Verifies;
    if |pub| != c.encLen || |sig| != 2 * c.encLen { return false; }
    var n := c.encLen;
    var a := new EdPoint(0, 0, 0);
    var rp := new EdPoint(0, 0, 0);
    var ret := Decode(c, a, pub);
    if ret != 0 {
      NotAccepted(c, hash, pub, msg, sig);
      return false;
    }
    ret := Decode(c, rp, sig[..n]);
    if ret != 0 {
      NotAccepted(c, hash, pub, msg, sig);
      return false;
    }
    var s := LeValue(sig[n..]);
    if s >= c.L {
      NotAccepted(c, hash, pub, msg, sig);
      return false;
    }
    ghost var A, R := Point(a.x, a.y), Point(rp.x, rp.y);
    AcceptsOnly(c, hash, pub, msg, sig, A, R);
    var k := Scalar(c, SignHash(c, hash, sig[..n] + pub, msg));
    ok := Balanced(c, s, k, a, rp, A, R);
    VerifiesIs(c, hash, pub, msg, sig, A, R);
  }

  lemma VerifiesIs(c: Curve, hash: Hash, pub: seq<byte>, msg: seq<byte>, sig: seq<byte>, A: Point, R: Point)
    requires Suite(c) && |pub| == c.encLen && |sig| == 2 * c.encLen
    requires OnCurve(c, A) && EncodePoint(c, A) == pub && OnCurve(c, R) && EncodePoint(c, R) == sig[..c.encLen]
    requires LeValue(sig[c.encLen..]) < c.L
    ensures Verifies(c, hash, pub, msg, sig, A, R) <==>
      Multiple(c, LeValue(sig[c.encLen..]), Base(c))
      == AddPoints(c, R, Multiple(c, Scalar(c, SignHash(c, hash, sig[..c.encLen] + pub, msg)), A))
  {
    hide OnCurve, AddPoints, Prime, IsSquare, Multiple, LeValue, EncodePoint, SignHash;
  }

  /** Compares the affine coordinates of S B and R + k A. */
  method Balanced(c: Curve, s: nat, k: nat, a: EdPoint, rp: EdPoint, ghost A: Point, ghost R: Point) returns (ok: bool)
    requires Suite(c) && a.Is(c, A) && rp.Is(c, R)
    ensures ok <==> Multiple(c, s, Base(c)) == AddPoints(c, R, Multiple(c, k, A))
  {
    hide Prime, IsSquare, Multiple, OnCurve, Cong, Stands, AddPoints, Pow256;
    var b := new EdPoint(c.baseX, c.baseY, 1);
    BaseStands(c);
    var lhs := new EdPoint(0, 0, 0);
    var ka := new EdPoint(0, 0, 0);
    var rhs := new EdPoint(0, 0, 0);
    Mul(c, lhs, s, b, Base(c));
    Mul(c, ka, k, a, A);
    Add(c, rhs, rp, ka, R, Multiple(c, k, A));
    ghost var left, right := Multiple(c, s, Base(c)), AddPoints(c, R, Multiple(c, k, A));
    assert lhs.Is(c, left) && rhs.Is(c, right);
    var l := Affine(c, lhs);
    assert l == Some(left);
    var r := Affine(c, rhs);
    assert r == Some(right);
    ok := l.value.x == r.value.x && l.value.y == r.value.y;
  }

  // ---- in full ---------------------------------------------------------------------------------------------

  /** The secret scalar byte by byte: those of the hash, with the low bits cleared and the top one set. */
  lemma ScalarBytes(c: Curve, h: seq<byte>)
    requires |h| == if c.is448 then 114 else 64
    ensures SecretScalar(c, h) ==
      if c.is448 then LeValue([h[0] - h[0] % 4] + h[1..55] + [h[55] % 128 + 128])
      else LeValue([h[0] - h[0] % 8] + h[1..31] + [h[31] % 64 + 64])
  {
    hide Pow256, LeValue;
    if c.is448 {
      var first: byte, last: byte := h[0] - h[0] % 4, h[55] % 128 + 128;
      ClampedValue(h[..56], 4, 128, first, last);
      assert h[..56][0 := first][55 := last] == [first] + h[1..55] + [last];
    } else {
      var first: byte, last: byte := h[0] - h[0] % 8, h[31] % 64 + 64;
      ClampedValue(h[..32], 8, 64, first, last);
      assert h[..32][0 := first][31 := last] == [first] + h[1..31] + [last];
    }
  }

  lemma NonceInFull(c: Curve, hash: Hash, seed: seq<byte>, msg: seq<byte>)
    requires Suite(c) && Digest(c, hash)
    ensures var dom: seq<byte> := if c.is448 then [83, 105, 103, 69, 100, 52, 52, 56, 0, 0] else [];
      Nonce(c, hash, seed, msg) == LeValue(hash(dom + hash(seed)[c.encLen..] + msg)) % c.L
  {
    hide LeValue;
  }

  lemma ChallengeInFull(c: Curve, hash: Hash, R: seq<byte>, A: seq<byte>, msg: seq<byte>)
    requires c.L > 0
    ensures var dom: seq<byte> := if c.is448 then [83, 105, 103, 69, 100, 52, 52, 56, 0, 0] else [];
      Challenge(c, hash, R, A, msg) == LeValue(hash(dom + R + A + msg)) % c.L
  {
    hide LeValue;
    var dom: seq<byte> := if c.is448 then [83, 105, 103, 69, 100, 52, 52, 56, 0, 0] else [];
    assert dom + (R + A) + msg == dom + R + A + msg;
  }

  lemma SuiteSizes(c: Curve, hash: Hash, seed: seq<byte>)
    requires Suite(c) && Digest(c, hash)
    ensures c.encLen > 0 && c.L > 0 && c.p > 0 && |hash(seed)| == 2 * c.encLen >= 57
    ensures Complete(c)
  {
  }

  lemma HasY(c: Curve, P: Point)
    requires OnCurve(c, P)
    ensures P.y >= 0
  {
  }

  /** A key and a signature in full: what is hashed, what is encoded, and where the bytes go. */
  lemma SignatureInFull(c: Curve, hash: Hash, seed: seq<byte>, msg: seq<byte>)
    returns (a: nat, r: nat, k: nat, P: Point, Q: Point)
    requires Suite(c) && Digest(c, hash)
    ensures var dom: seq<byte> := if c.is448 then [83, 105, 103, 69, 100, 52, 52, 56, 0, 0] else [];
      && a == SecretScalar(c, hash(seed)) && r == LeValue(hash(dom + hash(seed)[c.encLen..] + msg)) % c.L
      && P == Multiple(c, a, Base(c)) && Q == Multiple(c, r, Base(c)) && OnCurve(c, P) && OnCurve(c, Q)
      && k == LeValue(hash(dom + EncodePoint(c, Q) + EncodePoint(c, P) + msg)) % c.L
    ensures PublicKey(c, hash, seed) == EncodePoint(c, P)
    ensures SignatureOf(c, hash, seed, msg) == EncodePoint(c, Q) + Le((k * a + r) % c.L, c.encLen)
  {
    hide AddPoints, Multiple, LeValue, Le, EncodePoint, SecretScalar, SignHash, Scalar, OnCurve, Complete, Layout;
    hide Nonce,
      Challenge, Digest;
    SuiteSizes(c, hash, seed);
    a, r := SecretScalar(c, hash(seed)), Nonce(c, hash, seed, msg);
    P, Q := Multiple(c, a, Base(c)), Multiple(c, r, Base(c));
    MultipleOnCurve(c, a, Base(c));
    MultipleOnCurve(c, r, Base(c));
    HasY(c, P);
    HasY(c, Q);
    k := Challenge(c, hash, EncodePoint(c, Q), EncodePoint(c, P), msg);
    NonceInFull(c, hash, seed, msg);
    ChallengeInFull(c, hash, EncodePoint(c, Q), EncodePoint(c, P), msg);
  }

  /** The points, the scalar and the challenge satisfy what verification asks for. */
  ghost predicate Balances(c: Curve, pub: seq<byte>, R: seq<byte>, S: nat, k: nat, P: Point, Q: Point)
    requires Suite(c)
  {
    && OnCurve(c, P) && OnCurve(c, Q) && EncodePoint(c, P) == pub && EncodePoint(c, Q) == R
    && S < c.L && Multiple(c, S, Base(c)) == AddPoints(c, Q, Multiple(c, k, P))
  }

  lemma BalancesIs(c: Curve, hash: Hash, pub: seq<byte>, msg: seq<byte>, sig: seq<byte>, P: Point, Q: Point)
    requires Suite(c) && |pub| == c.encLen && |sig| == 2 * c.encLen
    ensures Verifies(c, hash, pub, msg, sig, P, Q) <==>
      Balances(c, pub, sig[..c.encLen], LeValue(sig[c.encLen..]), Challenge(c, hash, sig[..c.encLen], pub, msg), P, Q)
  {
    hide OnCurve, AddPoints, Prime, IsSquare, Multiple, LeValue, EncodePoint, Challenge;
  }

  /** What verification decides, in full. */
  lemma AcceptedInFull(c: Curve, hash: Hash, pub: seq<byte>, msg: seq<byte>, sig: seq<byte>)
    requires Suite(c) && |pub| == c.encLen && |sig| == 2 * c.encLen
    ensures var dom: seq<byte> := if c.is448 then [83, 105, 103, 69, 100, 52, 52, 56, 0, 0] else [];
      var R, S := sig[..c.encLen], LeValue(sig[c.encLen..]);
      var k := LeValue(hash(dom + R + pub + msg)) % c.L;
      Accepts(c, hash, pub, msg, sig) <==> exists P, Q :: Balances(c, pub, R, S, k, P, Q)
  {
    hide LeValue, EncodePoint, Challenge, SignHash, Complete, OnCurve, Multiple, Verifies, Balances, Pow256;
    var n := c.encLen;
    ChallengeInFull(c, hash, sig[..n], pub, msg);
    if P, Q :| Verifies(c, hash, pub, msg, sig, P, Q) {
      BalancesIs(c, hash, pub, msg, sig, P, Q);
    }
    if P, Q :| Balances(c, pub, sig[..n], LeValue(sig[n..]), Challenge(c, hash, sig[..n], pub, msg), P, Q) {
      BalancesIs(c, hash, pub, msg, sig, P, Q);
    }
  }

  /** The challenge is the hash of a string that a different commitment, key or message makes different. */
  lemma ChallengeBinds(c: Curve, hash: Hash, R: seq<byte>, A: seq<byte>, m: seq<byte>,
      R': seq<byte>, A': seq<byte>, m': seq<byte>) returns (x: seq<byte>, x': seq<byte>)
    requires c.L > 0 && |R| == |R'| == |A| == |A'| == c.encLen
    ensures x == x' <==> R == R' && A == A' && m == m'
    ensures x == (if c.is448 then [83, 105, 103, 69, 100, 52, 52, 56, 0, 0] else []) + R + A + m
    ensures Challenge(c, hash, R, A, m) == LeValue(hash(x)) % c.L
    ensures Challenge(c, hash, R', A', m') == LeValue(hash(x')) % c.L
  {
    var dom: seq<byte> := if c.is448 then [83, 105, 103, 69, 100, 52, 52, 56, 0, 0] else [];
    x, x' := dom + R + A + m, dom + R' + A' + m';
    assert dom + (R + A) + m == x && dom + (R' + A') + m' == x';
    var d, n := |dom|, c.encLen;
    assert R == x[d..d + n] && A == x[d + n..d + 2 * n] && m == x[d + 2 * n..];
    assert R' == x'[d..d + n] && A' == x'[d + n..d + 2 * n] && m' == x'[d + 2 * n..];
  }
}
