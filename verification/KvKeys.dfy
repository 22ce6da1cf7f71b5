/** Deno KV keys: the order-preserving byte code of a list of parts, and the byte ranges that select keys. */
module KvKeys {
  import opened Wrappers
  import opened Bytes
  import opened BigEndian
  import Utf8

  type bits64 = n: int | 0 <= n < 0x1_0000_0000_0000_0000

  /** A number is its IEEE 754 bit pattern. */
  datatype Part =
    | Bytes(bytes: seq<byte>)
    | Str(text: Utf8.text)
    | Big(n: int)
    | Num(bits: bits64)
    | Bool(b: bool)

  type Key = seq<Part>

  datatype Error = EmptyKey | Corrupt | Truncated

  const TAG_BYTES: byte := 0x01
  const TAG_STRING: byte := 0x02
  const TAG_BIGINT: byte := 0x14
  const TAG_NUMBER: byte := 0x21
  const TAG_FALSE: byte := 0x26
  const TAG_TRUE: byte := 0x27

  function Abs(n: int): nat { if n < 0 then -n else n }

  /** The code stores the length of a bigint in four bytes. */
  ghost predicate Encodable(p: Part) {
    p.Big? ==> |Minimal(Abs(p.n))| < Pow256(4)
  }

  ghost predicate EncodableKey(k: Key) {
    forall i | 0 <= i < |k| :: Encodable(k[i])
  }

  // ---- encoding --------------------------------------------------------------------------------------------

  /** Every zero byte is followed by 0xff, and a lone zero ends the string. */
  function Escaped(b: seq<byte>): (e: seq<byte>)
    ensures e != []
  {
    if b == [] then [0]
    else if b[0] == 0 then [0, 0xff] + Escaped(b[1..])
    else [b[0]] + Escaped(b[1..])
  }

  /** The sign bit is flipped when clear; all bits are when it is set. */
  function FlipNumber(b: seq<byte>): (f: seq<byte>)
    requires |b| == 8
    ensures |f| == 8
  {
    var first: int := b[0];
    if first >= 0x80 then Complement(b) else
      var flipped: byte := first + 0x80;
      [flipped] + b[1..]
  }

  function UnflipNumber(b: seq<byte>): (f: seq<byte>)
    requires |b| == 8
    ensures |f| == 8
  {
    var first: int := b[0];
    if first >= 0x80 then
      var flipped: byte := first - 0x80;
      [flipped] + b[1..]
    else Complement(b)
  }

  function Sided(b: seq<byte>, negative: bool): (r: seq<byte>)
    ensures |r| == |b|
  {
    if negative then Complement(b) else b
  }

  /** A sign byte, a four-byte length and the magnitude, the last two complemented for a negative number. */
  function EncodeBig(n: int): (e: seq<byte>)
    ensures e != []
  {
    var bytes := Minimal(Abs(n));
    [if n < 0 then 0x7f else 0x80] + Sided(Fixed(|bytes|, 4), n < 0) + Sided(bytes, n < 0)
  }

  function Tag(p: Part): (t: byte)
    ensures 0 < t < 0xff
  {
    match p
    case Bytes(_) => TAG_BYTES
    case Str(_) => TAG_STRING
    case Big(_) => TAG_BIGINT
    case Num(_) => TAG_NUMBER
    case Bool(b) => if b then TAG_TRUE else TAG_FALSE
  }

  function Payload(p: Part): seq<byte> {
    match p
    case Bytes(b) => Escaped(b)
    case Str(s) => Escaped(Utf8.Encode(s))
    case Big(n) => EncodeBig(n)
    case Num(x) => FlipNumber(Fixed(x, 8))
    case Bool(_) => []
  }

  function EncodePart(p: Part): (e: seq<byte>)
    ensures e != [] && 0 < e[0] < 0xff
  {
    [Tag(p)] + Payload(p)
  }

  function EncodeParts(k: Key): seq<byte> {
    if k == [] then [] else EncodePart(k[0]) + EncodeParts(k[1..])
  }

  lemma {:induction false} EncodePartsAppend(k: Key, l: Key)
    ensures EncodeParts(k + l) == EncodeParts(k) + EncodeParts(l)
  {
    if k == [] {
      assert k + l == l;
    } else {
      assert (k + l)[1..] == k[1..] + l;
      EncodePartsAppend(k[1..], l);
    }
  }

  lemma EncodePartsSnoc(k: Key, p: Part)
    ensures EncodeParts(k + [p]) == EncodeParts(k) + EncodePart(p)
  {
    hide EncodePart;
    EncodePartsAppend(k, [p]);
    assert EncodeParts([p]) == EncodePart(p) + EncodeParts([]);
  }

  lemma {:induction false} EscapedAppend(a: seq<byte>, b: byte)
    ensures Escaped(a + [b]) == Escaped(a)[..|Escaped(a)| - 1] + (if b == 0 then [0, 0xff] else [b]) + [0]
  {
    if a == [] {
      assert a + [b] == [b] && [b][1..] == [];
      if b == 0 { assert Escaped([b]) == [0, 0xff] + [0]; } else { assert Escaped([b]) == [b] + [0]; }
    } else {
      assert (a + [b])[1..] == a[1..] + [b];
      EscapedAppend(a[1..], b);
    }
  }

  method PushEscaped(b: seq<byte>) returns (out: seq<byte>)
    ensures out == Escaped(b)
  {
    out := [];
    for i := 0 to |b|
      invariant out == Escaped(b[..i])[..|Escaped(b[..i])| - 1]
      invariant Escaped(b[..i])[|Escaped(b[..i])| - 1] == 0
    {
      assert b[..i + 1] == b[..i] + [b[i]];
      EscapedAppend(b[..i], b[i]);
      out := out + [b[i]];
      if b[i] == 0 {
        out := out + [0xff];
      }
    }
    assert b[..|b|] == b;
    out := out + [0];
  }

  /** One turn of the loop: the code of one part. */
  method EncodeOne(p: Part) returns (code: seq<byte>)
    ensures code == EncodePart(p)
  {
    match p {
      case Bytes(b) =>
        code := PushEscaped(b);
        code := [TAG_BYTES] + code;
      case Str(s) =>
        code := PushEscaped(Utf8.Encode(s));
        code := [TAG_STRING] + code;
      case Num(x) =>
        code := [TAG_NUMBER] + FlipNumber(Fixed(x, 8));
      case Big(n) =>
        var bytes := MagnitudeBytes(Abs(n));
        code := [if n < 0 then 0x7f else 0x80] + Sided(Fixed(|bytes|, 4), n < 0) + Sided(bytes, n < 0);
        code := [TAG_BIGINT] + code;
      case Bool(b) =>
        code := [if b then TAG_TRUE else TAG_FALSE];
        assert code == code + [];
    }
  }

  method EncodeKey(k: Key) returns (r: Result<seq<byte>, Error>)
    ensures r == if k == [] then Err(EmptyKey) else Ok(EncodeParts(k))
  {
    if |k| == 0 {
      return Err(EmptyKey);
    }
    hide EncodePart;
    var out: seq<byte> := [];
    assert k[..0] == [];
    for i := 0 to |k|
      invariant out == EncodeParts(k[..i])
    {
      assert k[..i + 1] == k[..i] + [k[i]];
      EncodePartsSnoc(k[..i], k[i]);
      var code := EncodeOne(k[i]);
      out := out + code;
    }
    assert k[..|k|] == k;
    r := Ok(out);
  }

  /** The magnitude loop: bytes are put in front while the magnitude is shifted down. */
  method MagnitudeBytes(n: nat) returns (bytes: seq<byte>)
    ensures bytes == Minimal(n)
  {
    bytes := [];
    var magnitude := n;
    while magnitude > 0
      invariant Minimal(magnitude) + bytes == Minimal(n)
    {
      bytes := [Byte(magnitude)] + bytes;
      magnitude := magnitude / 256;
    }
  }

  // ---- decoding --------------------------------------------------------------------------------------------

  /** The string up to its terminator, and the bytes after it. */
  function ReadEscaped(b: seq<byte>): (r: Result<(seq<byte>, seq<byte>), Error>)
    ensures r.Ok? ==> |r.value.1| < |b|
  {
    if b == [] then Err(Truncated)
    else if b[0] == 0 then
      if |b| > 1 && b[1] == 0xff then
        var (s, rest) :- ReadEscaped(b[2..]);
        Ok(([0] + s, rest))
      else Ok(([], b[1..]))
    else
      var (s, rest) :- ReadEscaped(b[1..]);
      Ok(([b[0]] + s, rest))
  }

  function DecodeBig(b: seq<byte>): (r: Result<(int, seq<byte>), Error>)
    ensures r.Ok? ==> |r.value.1| < |b|
  {
    if |b| < 5 then Err(Truncated) else
      var negative := b[0] == 0x7f;
      var length := Value(if negative then Complement(b[1..5]) else b[1..5]);
      if |b| < 5 + length then Err(Truncated) else
        var body := b[5..5 + length];
        var n: int := if negative then -(Value(Complement(body)) as int) else Value(body);
        Ok((n, b[5 + length..]))
  }

  function DecodeNumber(b: seq<byte>): (r: Result<(Part, seq<byte>), Error>)
    ensures r.Ok? ==> |r.value.1| < |b|
  {
    if |b| < 8 then Err(Truncated) else
      ValueBound(UnflipNumber(b[..8]));
      Pow256Eight();
      Ok((Num(Value(UnflipNumber(b[..8]))), b[8..]))
  }

  /** What follows a tag. */
  function DecodePayload(tag: byte, b: seq<byte>): (r: Result<(Part, seq<byte>), Error>)
    ensures r.Ok? ==> |r.value.1| <= |b|
  {
    if tag == TAG_BYTES then
      var (s, rest) :- ReadEscaped(b);
      Ok((Bytes(s), rest))
    else if tag == TAG_STRING then
      var (s, rest) :- ReadEscaped(b);
      Ok((Str(Utf8.Decode(s)), rest))
    else if tag == TAG_NUMBER then DecodeNumber(b)
    else if tag == TAG_BIGINT then
      var (n, rest) :- DecodeBig(b);
      Ok((Big(n), rest))
    else if tag == TAG_TRUE then Ok((Bool(true), b))
    else if tag == TAG_FALSE then Ok((Bool(false), b))
    else Err(Corrupt)
  }

  lemma Pow256Eight()
    ensures Pow256(8) == 0x1_0000_0000_0000_0000
  {
    assert Pow256(4) == 0x1_0000_0000;
  }

  function DecodeParts(b: seq<byte>): Result<Key, Error>
    decreases |b|
  {
    if b == [] then Ok([]) else
      var (p, rest) :- DecodePayload(b[0], b[1..]);
      var k :- DecodeParts(rest);
      Ok([p] + k)
  }

  /** readEscaped, from position i: the string, and the position after its terminator. */
  method ReadEscapedAt(bytes: seq<byte>, start: nat) returns (r: Result<(seq<byte>, nat), Error>)
    requires start <= |bytes|
    ensures match ReadEscaped(bytes[start..])
            case Ok(pair) => r.Ok? && r.value.0 == pair.0 && start < r.value.1 <= |bytes| &&
              bytes[r.value.1..] == pair.1
            case Err(e) => r == Err(e)
  {
    var out: seq<byte> := [];
    var i := start;
    assert forall pair :: ReadEscaped(bytes[start..]) == Ok(pair) ==> out + pair.0 == pair.0;
    while i < |bytes|
      invariant start <= i <= |bytes|
      invariant match ReadEscaped(bytes[i..])
                case Ok(pair) => ReadEscaped(bytes[start..]) == Ok((out + pair.0, pair.1))
                case Err(e) => ReadEscaped(bytes[start..]) == Err(e)
    {
      var b := bytes[i];
      assert bytes[i..][1..] == bytes[i + 1..];
      i := i + 1;
      if b == 0 {
        if i < |bytes| && bytes[i] == 0xff {
          assert bytes[i - 1..][2..] == bytes[i + 1..];
          AppendShift(out, 0, bytes[i + 1..]);
          out := out + [0];
          i := i + 1;
        } else {
          return Ok((out, i));
        }
      } else {
        AppendShift(out, b, bytes[i..]);
        out := out + [b];
      }
    }
    r := Err(Truncated);
  }

  lemma AppendShift(out: seq<byte>, b: byte, rest: seq<byte>)
    ensures match ReadEscaped(rest)
            case Ok(pair) => out + ([b] + pair.0) == (out + [b]) + pair.0
            case Err(_) => true
  {
  }

  /** The two loops that read a bigint's length and magnitude, complementing as they go for a negative one. */
  method ReadNumber(bytes: seq<byte>, negative: bool) returns (n: nat)
    ensures n == Value(if negative then Complement(bytes) else bytes)
  {
    n := 0;
    ghost var read := if negative then Complement(bytes) else bytes;
    for j := 0 to |bytes|
      invariant n == Value(read[..j])
    {
      assert read[..j + 1] == read[..j] + [read[j]];
      ValueAppend(read[..j], read[j]);
      n := n * 256 + (if negative then Flip(bytes[j]) as int else bytes[j] as int);
    }
    assert read[..|bytes|] == read;
  }

  /** decodeKey: one turn per part, position i moving over the bytes. */
  method DecodeKey(bytes: seq<byte>) returns (r: Result<Key, Error>)
    ensures r == DecodeParts(bytes)
  {
    hide Continues, UnflipNumber, Value, Pow256, ReadEscaped, DecodeBig;
    var key: Key := [];
    var i := 0;
    ContinuesAtStart(bytes);
    while i < |bytes|
      invariant i <= |bytes|
      invariant Continues(bytes, key, i)
    {
      var tag := bytes[i];
      ghost var at := i;
      assert bytes[i..][1..] == bytes[i + 1..];
      i := i + 1;
      var part: Part;
      if tag == TAG_BYTES || tag == TAG_STRING {
        var s := ReadEscapedAt(bytes, i);
        if s.Err? {
          OnePartFails(bytes, key, at);
          return Err(s.error);
        }
        part := if tag == TAG_BYTES then Bytes(s.value.0) else Str(Utf8.Decode(s.value.0));
        i := s.value.1;
      } else if tag == TAG_NUMBER {
        if |bytes| < i + 8 {
          OnePartFails(bytes, key, at);
          return Err(Truncated);
        }
        ValueBound(UnflipNumber(bytes[i..i + 8]));
        Pow256Eight();
        assert bytes[i..][..8] == bytes[i..i + 8] && bytes[i..][8..] == bytes[i + 8..];
        part := Num(Value(UnflipNumber(bytes[i..i + 8])));
        i := i + 8;
      } else if tag == TAG_BIGINT {
        var n := ReadBigAt(bytes, i);
        if n.Err? {
          OnePartFails(bytes, key, at);
          return Err(n.error);
        }
        part := Big(n.value.0);
        i := n.value.1;
      } else if tag == TAG_TRUE {
        part := Bool(true);
      } else if tag == TAG_FALSE {
        part := Bool(false);
      } else {
        OnePartFails(bytes, key, at);
        return Err(Corrupt);
      }
      assert DecodePayload(tag, bytes[at + 1..]) == Ok((part, bytes[i..]));
      OnePartOn(bytes, key, at, part, i);
      key := key + [part];
    }
    ContinuesToEnd(bytes, key);
    r := Ok(key);
  }

  /** With `key` read and position i reached, decoding the rest decides the whole. */
  ghost predicate Continues(bytes: seq<byte>, key: Key, i: nat)
    requires i <= |bytes|
  {
    match DecodeParts(bytes[i..])
    case Ok(rest) => DecodeParts(bytes) == Ok(key + rest)
    case Err(e) => DecodeParts(bytes) == Err(e)
  }

  lemma ContinuesAtStart(bytes: seq<byte>)
    ensures Continues(bytes, [], 0)
  {
    assert bytes[0..] == bytes;
    assert forall rest: Key :: [] + rest == rest;
  }

  lemma ContinuesToEnd(bytes: seq<byte>, key: Key)
    requires Continues(bytes, key, |bytes|)
    ensures DecodeParts(bytes) == Ok(key)
  {
    assert key + [] == key;
  }

  lemma OnePartFails(bytes: seq<byte>, key: Key, i: nat)
    requires i < |bytes| && Continues(bytes, key, i) && DecodePayload(bytes[i], bytes[i + 1..]).Err?
    ensures DecodeParts(bytes) == Err(DecodePayload(bytes[i], bytes[i + 1..]).error)
  {
    assert bytes[i..][1..] == bytes[i + 1..];
  }

  lemma OnePartOn(bytes: seq<byte>, key: Key, i: nat, part: Part, j: nat)
    requires i < j <= |bytes| && Continues(bytes, key, i)
    requires DecodePayload(bytes[i], bytes[i + 1..]) == Ok((part, bytes[j..]))
    ensures Continues(bytes, key + [part], j)
  {
    assert bytes[i..][1..] == bytes[i + 1..];
    match DecodeParts(bytes[j..]) {
      case Ok(rest) => assert key + ([part] + rest) == (key + [part]) + rest;
      case Err(_) =>
    }
  }

  method ReadBigAt(bytes: seq<byte>, start: nat) returns (r: Result<(int, nat), Error>)
    requires start <= |bytes|
    ensures match DecodeBig(bytes[start..])
            case Ok(pair) => r.Ok? && r.value.0 == pair.0 && start < r.value.1 <= |bytes| &&
              bytes[r.value.1..] == pair.1
            case Err(e) => r == Err(e)
  {
    var i := start;
    if |bytes| < i + 5 {
      return Err(Truncated);
    }
    var negative := bytes[i] == 0x7f;
    assert bytes[i..][1..5] == bytes[i + 1..i + 5];
    var length := ReadNumber(bytes[i + 1..i + 5], negative);
    i := i + 5;
    if |bytes| < i + length {
      return Err(Truncated);
    }
    assert bytes[start..][5..5 + length] == bytes[i..i + length] && bytes[start..][5 + length..] == bytes[i + length..];
    var magnitude := ReadNumber(bytes[i..i + length], negative);
    r := Ok((if negative then -(magnitude as int) else magnitude, i + length));
  }

  // ---- the code is an order isomorphism --------------------------------------------------------------------

  /** The four kinds in Deno's order; false comes before true. */
  function Rank(p: Part): int {
    match p case Bytes(_) => 0 case Str(_) => 1 case Big(_) => 2 case Num(_) => 3 case Bool(_) => 4
  }

  /** The position of a double's bit pattern in numeric order: negative patterns count down, positive ones up. */
  function NumberOrder(x: bits64): (r: nat)
    ensures r < 0x1_0000_0000_0000_0000
  {
    if x >= 0x8000_0000_0000_0000 then 0xffff_ffff_ffff_ffff - x else x + 0x8000_0000_0000_0000
  }

  /** Deno's order on parts: kind first, then bytes, code points, integers, numbers or booleans. */
  function ComparePart(p: Part, q: Part): int {
    if Rank(p) != Rank(q) then Sign(Rank(p) - Rank(q))
    else match p
      case Bytes(b) => Compare(b, q.bytes)
      case Str(s) => Compare(Utf8.Scalars(s), Utf8.Scalars(q.text))
      case Big(n) => Sign(n - q.n)
      case Num(x) => Sign(NumberOrder(x) - NumberOrder(q.bits))
      case Bool(b) => if b == q.b then 0 else if b then 1 else -1
  }

  function CompareKey(k: Key, l: Key): int {
    if k == [] then (if l == [] then 0 else -1)
    else if l == [] then 1
    else if ComparePart(k[0], l[0]) != 0 then ComparePart(k[0], l[0])
    else CompareKey(k[1..], l[1..])
  }

  /** What may follow a finished part: nothing, or anything that does not continue an escaped zero. */
  ghost predicate Separated(rest: seq<byte>) {
    rest != [] ==> rest[0] < 0xff
  }

  /**
   * The end of a string against more of it: the terminator is smaller than any byte but an escaped zero, and there 0xff
   * decides.
   */
  lemma EscapedEnd(b: seq<byte>, s: seq<byte>, t: seq<byte>)
    requires Separated(s) && b != []
    ensures Compare([0] + s, Escaped(b) + t) == -1
  {
    if b[0] == 0 {
      var y := [0xff] + Escaped(b[1..]) + t;
      assert Escaped(b) + t == [0] + y;
      CompareCommonPrefix([0], s, y);
    }
  }

  lemma {:induction false} EscapedOrder(a: seq<byte>, b: seq<byte>, s: seq<byte>, t: seq<byte>)
    requires Separated(s) && Separated(t)
    ensures Compare(Escaped(a) + s, Escaped(b) + t) == if Compare(a, b) != 0 then Compare(a, b) else Compare(s, t)
  {
    if a == [] && b == [] {
      CompareCommonPrefix([0], s, t);
    } else if a == [] {
      EscapedEnd(b, s, t);
    } else if b == [] {
      EscapedEnd(a, t, s);
      CompareFlip(Escaped(a) + s, [0] + t);
    } else if a[0] == b[0] {
      var head: seq<byte> := if a[0] == 0 then [0, 0xff] else [a[0]];
      var x, y := Escaped(a[1..]) + s, Escaped(b[1..]) + t;
      assert Escaped(a) + s == head + x && Escaped(b) + t == head + y;
      CompareCommonPrefix(head, x, y);
      EscapedOrder(a[1..], b[1..], s, t);
    }
  }

  lemma FlipNumberOrder(x: bits64)
    ensures FlipNumber(Fixed(x, 8)) == Fixed(NumberOrder(x), 8)
    ensures UnflipNumber(FlipNumber(Fixed(x, 8))) == Fixed(x, 8)
  {
    var b := Fixed(x, 8);
    var tail := b[1..];
    Pow256Eight();
    ValueFixed(x, 8);
    assert b == [b[0]] + tail;
    ValuePrepend(b[0], tail);
    ValueBound(tail);
    assert Pow256(7) == 0x100_0000_0000_0000 by { assert Pow256(3) == 0x100_0000; }
    var top: int := b[0];
    if top >= 0x80 {
      ComplementTwice(b);
      ValueComplement(b);
      FixedValue(Complement(b));
    } else {
      var flipped: byte := top + 0x80;
      ValuePrepend(flipped, tail);
      FixedValue([flipped] + tail);
      assert UnflipNumber([flipped] + tail) == [b[0]] + tail;
    }
  }

  lemma SidedOrder(a: seq<byte>, b: seq<byte>, negative: bool)
    requires |a| == |b|
    ensures Compare(Sided(a, negative), Sided(b, negative)) == if negative then -Compare(a, b) else Compare(a, b)
  {
    CompareComplement(a, b);
  }

  /** A length below 2^32 is stored in full, so stored lengths compare as lengths do. */
  lemma LengthOrder(m: nat, n: nat)
    requires m < Pow256(4) && n < Pow256(4)
    ensures Compare(Fixed(m, 4), Fixed(n, 4)) == Sign(m - n)
  {
    ValueFixed(m, 4);
    ValueFixed(n, 4);
    CompareValue(Fixed(m, 4), Fixed(n, 4));
  }

  lemma MinimalOrder(m: nat, n: nat)
    ensures |Minimal(m)| < |Minimal(n)| ==> m < n
    ensures |Minimal(m)| == |Minimal(n)| ==> Compare(Minimal(m), Minimal(n)) == Sign(m - n)
  {
    if n <= m {
      MinimalLength(n, m);
    }
    if |Minimal(m)| == |Minimal(n)| {
      ValueMinimal(m);
      ValueMinimal(n);
      CompareValue(Minimal(m), Minimal(n));
    }
  }

  /** Two stretches of bytes, the first pair equally long, the second too when the first pair is equal. */
  lemma CompareTwoLevels(la: seq<byte>, lb: seq<byte>, a: seq<byte>, b: seq<byte>, s: seq<byte>, t: seq<byte>)
    requires |la| == |lb|
    ensures Compare(la, lb) != 0 ==> Compare(la + a + s, lb + b + t) == Compare(la, lb)
    ensures Compare(la, lb) == 0 && |a| == |b| ==>
      Compare(la + a + s, lb + b + t) == if Compare(a, b) != 0 then Compare(a, b) else Compare(s, t)
  {
    assert la + a + s == la + (a + s) && lb + b + t == lb + (b + t);
    CompareSameLength(la, lb, a + s, b + t);
    if |a| == |b| {
      CompareSameLength(a, b, s, t);
    }
  }

  /** Length first, then magnitude; complementing both turns the order round. */
  lemma MagnitudeOrder(m: nat, n: nat, negative: bool, s: seq<byte>, t: seq<byte>)
    requires |Minimal(m)| < Pow256(4) && |Minimal(n)| < Pow256(4)
    ensures var a, b := Minimal(m), Minimal(n);
      Compare(Sided(Fixed(|a|, 4), negative) + Sided(a, negative) + s,
              Sided(Fixed(|b|, 4), negative) + Sided(b, negative) + t)
      == if m == n then Compare(s, t) else if negative then Sign(n - m) else Sign(m - n)
  {
    var a, b := Minimal(m), Minimal(n);
    var la, lb := Fixed(|a|, 4), Fixed(|b|, 4);
    LengthOrder(|a|, |b|);
    MinimalOrder(m, n);
    MinimalOrder(n, m);
    SidedOrder(la, lb, negative);
    if |a| == |b| {
      SidedOrder(a, b, negative);
    }
    CompareTwoLevels(Sided(la, negative), Sided(lb, negative), Sided(a, negative), Sided(b, negative), s, t);
  }

  lemma BigOrder(m: int, n: int, s: seq<byte>, t: seq<byte>)
    requires Encodable(Big(m)) && Encodable(Big(n))
    ensures Compare(EncodeBig(m) + s, EncodeBig(n) + t) == if m != n then Sign(m - n) else Compare(s, t)
  {
    var a, b := Minimal(Abs(m)), Minimal(Abs(n));
    var x := Sided(Fixed(|a|, 4), m < 0) + Sided(a, m < 0) + s;
    var y := Sided(Fixed(|b|, 4), n < 0) + Sided(b, n < 0) + t;
    var i: byte, j: byte := if m < 0 then 0x7f else 0x80, if n < 0 then 0x7f else 0x80;
    assert EncodeBig(m) + s == [i] + x;
    assert EncodeBig(n) + t == [j] + y;
    if i == j {
      MagnitudeOrder(Abs(m), Abs(n), m < 0, s, t);
      CompareCommonPrefix([i], x, y);
    }
  }

  lemma FixedOrder(x: bits64, y: bits64)
    ensures Compare(Fixed(x, 8), Fixed(y, 8)) == Sign(x - y)
  {
    hide Fixed;
    Pow256Eight();
    ValueFixed(x, 8);
    ValueFixed(y, 8);
    CompareValue(Fixed(x, 8), Fixed(y, 8));
  }

  lemma NumberPatternOrder(x: bits64, y: bits64, s: seq<byte>, t: seq<byte>)
    ensures Compare(FlipNumber(Fixed(x, 8)) + s, FlipNumber(Fixed(y, 8)) + t)
      == if x != y then Sign(NumberOrder(x) - NumberOrder(y)) else Compare(s, t)
  {
    hide FlipNumber, Fixed;
    FlipNumberOrder(x);
    FlipNumberOrder(y);
    var a, b := Fixed(NumberOrder(x), 8), Fixed(NumberOrder(y), 8);
    FixedOrder(NumberOrder(x), NumberOrder(y));
    CompareSameLength(a, b, s, t);
  }

  /** Two parts with one tag, after it. */
  lemma PayloadOrder(p: Part, q: Part, s: seq<byte>, t: seq<byte>)
    requires Encodable(p) && Encodable(q) && Separated(s) && Separated(t)
    requires Tag(p) == Tag(q)
    ensures Compare(Payload(p) + s, Payload(q) + t) ==
      if ComparePart(p, q) != 0 then ComparePart(p, q) else Compare(s, t)
  {
    match p {
      case Bytes(b) =>
        EscapedOrder(b, q.bytes, s, t);
      case Str(text) =>
        EscapedOrder(Utf8.Encode(text), Utf8.Encode(q.text), s, t);
        Utf8.EncodeOrder(Utf8.Scalars(text), Utf8.Scalars(q.text));
      case Big(n) =>
        BigOrder(n, q.n, s, t);
      case Num(bits) =>
        NumberPatternOrder(bits, q.bits, s, t);
      case Bool(_) =>
        assert Payload(p) + s == s && Payload(q) + t == t;
    }
  }

  lemma TagOrder(p: Part, q: Part)
    requires Tag(p) != Tag(q)
    ensures ComparePart(p, q) == if Tag(p) < Tag(q) then -1 else 1
  {
  }

  /** One part against another, whatever parts follow. */
  lemma PartOrder(p: Part, q: Part, s: seq<byte>, t: seq<byte>)
    requires Encodable(p) && Encodable(q) && Separated(s) && Separated(t)
    ensures Compare(EncodePart(p) + s, EncodePart(q) + t)
      == if ComparePart(p, q) != 0 then ComparePart(p, q) else Compare(s, t)
  {
    hide Payload, ComparePart, Encodable;
    assert EncodePart(p) + s == [Tag(p)] + (Payload(p) + s);
    assert EncodePart(q) + t == [Tag(q)] + (Payload(q) + t);
    if Tag(p) == Tag(q) {
      CompareCommonPrefix([Tag(p)], Payload(p) + s, Payload(q) + t);
      PayloadOrder(p, q, s, t);
    } else {
      TagOrder(p, q);
    }
  }

  lemma EncodePartsSeparated(k: Key)
    ensures Separated(EncodeParts(k))
  {
  }

  /** Byte order of encodings is Deno's order of keys. */
  lemma {:induction false} EncodePreservesOrder(k: Key, l: Key)
    requires EncodableKey(k) && EncodableKey(l)
    ensures Compare(EncodeParts(k), EncodeParts(l)) == CompareKey(k, l)
  {
    if k != [] && l != [] {
      EncodePartsSeparated(k[1..]);
      EncodePartsSeparated(l[1..]);
      PartOrder(k[0], l[0], EncodeParts(k[1..]), EncodeParts(l[1..]));
      EncodePreservesOrder(k[1..], l[1..]);
    }
  }

  // ---- round trip ------------------------------------------------------------------------------------------

  /** What a part reads back as: a lone surrogate becomes U+FFFD, everything else is kept. */
  function CanonicalPart(p: Part): Part {
    if p.Str? then Str(Utf8.Text(Utf8.Scalars(p.text))) else p
  }

  function Canonical(k: Key): (c: Key)
    ensures |c| == |k|
  {
    if k == [] then [] else [CanonicalPart(k[0])] + Canonical(k[1..])
  }

  predicate WellFormedKey(k: Key) {
    forall i | 0 <= i < |k| :: k[i].Str? ==> Utf8.WellFormed(k[i].text)
  }

  lemma {:induction false} ReadEscapedInverts(b: seq<byte>, rest: seq<byte>)
    requires Separated(rest)
    ensures ReadEscaped(Escaped(b) + rest) == Ok((b, rest))
  {
    var e := Escaped(b) + rest;
    if b == [] {
      assert e[1..] == rest;
    } else {
      var n := if b[0] == 0 then 2 else 1;
      assert e[n..] == Escaped(b[1..]) + rest;
      ReadEscapedInverts(b[1..], rest);
      assert [b[0]] + b[1..] == b;
    }
  }

  lemma DecodeBigInverts(n: int, rest: seq<byte>)
    requires Encodable(Big(n))
    ensures DecodeBig(EncodeBig(n) + rest) == Ok((n, rest))
  {
    var m := Minimal(Abs(n));
    var l := Fixed(|m|, 4);
    hide Fixed, Minimal, Value;
    var b := EncodeBig(n) + rest;
    assert Value(l) == |m| by { ValueFixed(|m|, 4); }
    assert Value(m) == Abs(n) by { ValueMinimal(Abs(n)); }
    ComplementTwice(l);
    ComplementTwice(m);
    assert b[0] == if n < 0 then 0x7f else 0x80;
    assert b[1..5] == Sided(l, n < 0);
    assert b[5..5 + |m|] == Sided(m, n < 0);
    assert b[5 + |m|..] == rest;
  }

  lemma DecodeNumberInverts(x: bits64, rest: seq<byte>)
    ensures DecodeNumber(FlipNumber(Fixed(x, 8)) + rest) == Ok((Num(x), rest))
  {
    var e := FlipNumber(Fixed(x, 8)) + rest;
    assert e[..8] == FlipNumber(Fixed(x, 8)) && e[8..] == rest;
    FlipNumberOrder(x);
    assert Value(Fixed(x, 8)) == x by {
      Pow256Eight();
      ValueFixed(x, 8);
    }
  }

  ghost predicate Inverts(p: Part, rest: seq<byte>) {
    DecodePayload(Tag(p), Payload(p) + rest) == Ok((CanonicalPart(p), rest))
  }

  lemma BytesInvert(p: Part, rest: seq<byte>)
    requires p.Bytes? && Separated(rest)
    ensures Inverts(p, rest)
  {
    hide ReadEscaped, Escaped;
    ReadEscapedInverts(p.bytes, rest);
  }

  lemma TextInverts(p: Part, rest: seq<byte>)
    requires p.Str? && Separated(rest)
    ensures Inverts(p, rest)
  {
    hide ReadEscaped, Escaped;
    ReadEscapedInverts(Utf8.Encode(p.text), rest);
    Utf8.DecodeScalarsInverts(Utf8.Scalars(p.text));
  }

  lemma BigInverts(p: Part, rest: seq<byte>)
    requires p.Big? && Encodable(p)
    ensures Inverts(p, rest)
  {
    hide EncodeBig, DecodeBig, Encodable, ReadEscaped;
    DecodeBigInverts(p.n, rest);
  }

  lemma NumberInverts(p: Part, rest: seq<byte>)
    requires p.Num?
    ensures Inverts(p, rest)
  {
    hide FlipNumber, Fixed, DecodeNumber, ReadEscaped;
    DecodeNumberInverts(p.bits, rest);
  }

  lemma BoolInverts(p: Part, rest: seq<byte>)
    requires p.Bool?
    ensures Inverts(p, rest)
  {
    assert Payload(p) + rest == rest;
  }

  lemma DecodePayloadInverts(p: Part, rest: seq<byte>)
    requires Encodable(p) && Separated(rest)
    ensures Inverts(p, rest)
  {
    match p {
      case Bytes(_) => BytesInvert(p, rest);
      case Str(_) => TextInverts(p, rest);
      case Big(_) => BigInverts(p, rest);
      case Num(_) => NumberInverts(p, rest);
      case Bool(_) => BoolInverts(p, rest);
    }
  }

  /** decodeKey after encodeKey. */
  lemma {:induction false} DecodeInverts(k: Key)
    requires EncodableKey(k)
    ensures DecodeParts(EncodeParts(k)) == Ok(Canonical(k))
  {
    if k != [] {
      EncodePartsSeparated(k[1..]);
      DecodePayloadInverts(k[0], EncodeParts(k[1..]));
      assert EncodeParts(k) == [Tag(k[0])] + (Payload(k[0]) + EncodeParts(k[1..]));
      DecodeInverts(k[1..]);
    }
  }

  lemma {:induction false} CanonicalIsIdentity(k: Key)
    ensures Canonical(k) == k <==> WellFormedKey(k)
  {
    if k != [] {
      CanonicalIsIdentity(k[1..]);
      assert k == [k[0]] + k[1..];
      if k[0].Str? {
        Utf8.ScalarsWellFormed(k[0].text);
      }
      assert WellFormedKey(k) <==> (k[0].Str? ==> Utf8.WellFormed(k[0].text)) && WellFormedKey(k[1..]) by {
        assert forall i | 0 <= i < |k[1..]| :: k[1..][i] == k[i + 1];
      }
    }
  }

  /** A key survives the database exactly when none of its strings holds a lone surrogate. */
  lemma RoundTrip(k: Key)
    requires EncodableKey(k)
    ensures DecodeParts(EncodeParts(k)) == Ok(k) <==> WellFormedKey(k)
  {
    DecodeInverts(k);
    CanonicalIsIdentity(k);
  }

  // ---- the order of patterns is the order of numbers -------------------------------------------------------

  /** The magnitude of a double with exponent and fraction bits `m`, in units of the smallest subnormal 2^-1074. */
  function Magnitude(m: nat): nat {
    if m < 0x10_0000_0000_0000 then m
    else Scaled(m % 0x10_0000_0000_0000 + 0x10_0000_0000_0000, m / 0x10_0000_0000_0000 - 1)
  }

  /** significand * 2^exponent */
  function Scaled(significand: nat, exponent: nat): (r: nat)
    ensures significand <= r
  {
    if exponent == 0 then significand else 2 * Scaled(significand, exponent - 1)
  }

  /** The value of a finite double in units of 2^-1074; the infinities come out as the next power of two. */
  function NumericValue(x: bits64): int {
    if x >= 0x8000_0000_0000_0000 then -(Magnitude(x - 0x8000_0000_0000_0000) as int) else Magnitude(x)
  }

  lemma {:induction false} ScaledMonotone(a: nat, b: nat, e: nat)
    requires a < b
    ensures Scaled(a, e) < Scaled(b, e)
  {
    if e > 0 {
      ScaledMonotone(a, b, e - 1);
    }
  }

  lemma {:induction false} ScaledExponent(a: nat, b: nat, e: nat, f: nat)
    requires e < f && a < 2 * b
    ensures Scaled(a, e) < Scaled(b, f)
    decreases f
  {
    if e + 1 < f {
      ScaledExponent(a, b, e, f - 1);
    } else {
      ScaledMonotone(a, 2 * b, e);
      ScaledDouble(b, e);
    }
  }

  lemma {:induction false} ScaledDouble(b: nat, e: nat)
    ensures Scaled(2 * b, e) == Scaled(b, e + 1)
  {
    if e > 0 {
      ScaledDouble(b, e - 1);
    }
  }

  lemma MagnitudeMonotone(m: nat, n: nat)
    requires m < n
    ensures Magnitude(m) < Magnitude(n)
  {
    var unit := 0x10_0000_0000_0000;
    if m < unit {
    } else if m / unit == n / unit {
      ScaledMonotone(m % unit + unit, n % unit + unit, m / unit - 1);
    } else {
      ScaledExponent(m % unit + unit, n % unit + unit, m / unit - 1, n / unit - 1);
    }
  }

  /** Comparing patterns compares numbers; only the two zeros, equal as numbers, are told apart. */
  lemma NumberOrderIsNumeric(x: bits64, y: bits64)
    ensures NumericValue(x) < NumericValue(y) ==> NumberOrder(x) < NumberOrder(y)
    ensures NumberOrder(x) < NumberOrder(y) ==>
      NumericValue(x) < NumericValue(y) || (x == 0x8000_0000_0000_0000 && y == 0)
  {
    var sign := 0x8000_0000_0000_0000;
    var m, n := if x >= sign then x - sign else x, if y >= sign then y - sign else y;
    if m < n { MagnitudeMonotone(m, n); }
    if n < m { MagnitudeMonotone(n, m); }
    if 0 < m { MagnitudeMonotone(0, m); }
    if 0 < n { MagnitudeMonotone(0, n); }
  }

  // ---- the format, byte by byte ----------------------------------------------------------------------------

  /** Bytes and strings: the tag, and the escaped bytes. */
  lemma TextCodes()
    ensures EncodePart(Bytes([1, 0, 2])) == [0x01] + [1, 0, 0xff, 2, 0]
    ensures EncodePart(Str([0x61, 0xe9])) == [0x02] + [0x61, 0xc3, 0xa9, 0]
  {
    hide Utf8.Encode;
    assert [1, 0, 2][1..] == [0, 2] && [0, 2][1..] == [2];
    Utf8.ExampleBytes();
    var b: seq<byte> := [0x61, 0xc3, 0xa9];
    assert b[1..] == [0xc3, 0xa9] && b[1..][1..] == [0xa9];
  }

  /** Bigints: the tag, the sign, four bytes of length, the magnitude. */
  lemma BigCodes()
    ensures EncodePart(Big(258)) == [0x14] + [0x80, 0, 0, 0, 2, 1, 2]
    ensures EncodePart(Big(-258)) == [0x14] + [0x7f, 0xff, 0xff, 0xff, 0xfd, 0xfe, 0xfd]
  {
    hide Escaped, FlipNumber;
    assert Minimal(258) == [1, 2] by { assert Minimal(1) == [1]; }
    assert Fixed(2, 4) == [0, 0, 0, 2] by { assert Fixed(0, 3) == [0, 0, 0] by { assert Fixed(0, 2) == [0, 0]; } }
  }

  /** Doubles, here 1 and -1: the tag and the eight bytes of the pattern, flipped. */
  lemma NumberCodes()
    ensures EncodePart(Num(0x3ff0_0000_0000_0000)) == [0x21] + [0xbf, 0xf0, 0, 0, 0, 0, 0, 0]
    ensures EncodePart(Num(0xbff0_0000_0000_0000)) == [0x21] + [0x40, 0x0f, 255, 255, 255, 255, 255, 255]
  {
    hide Fixed, FlipNumber, Escaped, EncodeBig;
    PatternBytes(0x3f, 0x3ff0_0000_0000_0000);
    PatternBytes(0xbf, 0xbff0_0000_0000_0000);
    FlipPositive(0x3f);
    FlipNegative(0xbf);
  }

  /** Booleans: the tag alone. */
  lemma BoolCodes()
    ensures EncodePart(Bool(false)) == [0x26] && EncodePart(Bool(true)) == [0x27]
  {
  }

  lemma PatternBytes(x: byte, n: nat)
    requires n == (256 * x + 0xf0) * 0x1_0000_0000_0000
    ensures Fixed(n, 8) == [x, 0xf0, 0, 0, 0, 0, 0, 0]
  {
    hide Fixed;
    SixZeros(256 * x + 0xf0, n);
    TwoBytes(x, 0xf0);
    assert [x, 0xf0] + [0, 0, 0, 0, 0, 0] == [x, 0xf0, 0, 0, 0, 0, 0, 0];
  }

  lemma FlipPositive(x: byte)
    requires x < 0x80
    ensures var y: byte := x + 0x80; FlipNumber([x, 0xf0, 0, 0, 0, 0, 0, 0]) == [y, 0xf0, 0, 0, 0, 0, 0, 0]
  {
  }

  lemma FlipNegative(x: byte)
    requires x >= 0x80
    ensures var y: byte := 255 - x;
      FlipNumber([x, 0xf0, 0, 0, 0, 0, 0, 0]) == [y, 0x0f, 255, 255, 255, 255, 255, 255]
  {
  }

  lemma TwoBytes(x: byte, y: byte)
    ensures Fixed(256 * x + y, 2) == [x, y]
  {
    assert (256 * x + y) / 256 == x;
    assert Fixed(x, 1) == [x];
  }

  lemma ZeroAtEnd(n: nat, k: nat)
    ensures Fixed(256 * n, k + 1) == Fixed(n, k) + [0]
  {
  }

  lemma SixZeros(n: nat, x: nat)
    requires x == n * 0x1_0000_0000_0000
    ensures Fixed(x, 8) == Fixed(n, 2) + [0, 0, 0, 0, 0, 0]
  {
    hide Fixed;
    ZeroAtEnd(n, 2);
    ZeroAtEnd(256 * n, 3);
    ZeroAtEnd(256 * (256 * n), 4);
    ZeroAtEnd(256 * (256 * (256 * n)), 5);
    ZeroAtEnd(256 * (256 * (256 * (256 * n))), 6);
    ZeroAtEnd(256 * (256 * (256 * (256 * (256 * n)))), 7);
    assert Fixed(n, 2) + [0] + [0] + [0] + [0] + [0] + [0] == Fixed(n, 2) + [0, 0, 0, 0, 0, 0];
  }

  /** Parts of different kinds compare by kind: bytes, strings, bigints, numbers, booleans. */
  lemma KindsCompare(a: seq<byte>, s: Utf8.text, n: int, x: bits64, b: bool)
    ensures ComparePart(Bytes(a), Str(s)) < 0 && ComparePart(Str(s), Big(n)) < 0
    ensures ComparePart(Big(n), Num(x)) < 0 && ComparePart(Num(x), Bool(b)) < 0
    ensures ComparePart(Bool(false), Bool(true)) < 0
  {
  }
}
