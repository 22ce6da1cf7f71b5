/** The byte ranges that Deno KV list selectors stand for. */
module KvRange {
  import opened Wrappers
  import opened Bytes
  import Utf8
  import opened KvKeys

  datatype Selector = Selector(prefix: Option<Key>, start: Option<Key>, end: Option<Key>)

  datatype RangeError =
    | KeyCannotBeEmpty
    | BothStartAndEnd
    | StartOutsidePrefix
    | EndOutsidePrefix
    | MissingBounds

  datatype Range = Range(start: seq<byte>, end: seq<byte>)

  function Encoded(k: Key): Result<seq<byte>, RangeError> {
    if k == [] then Err(KeyCannotBeEmpty) else Ok(EncodeParts(k))
  }

  /** The byte test for a start or end key under a prefix: a proper extension of its bytes. */
  predicate Within(b: seq<byte>, prefix: seq<byte>) {
    |b| > |prefix| && forall i | 0 <= i < |prefix| :: b[i] == prefix[i]
  }

  /** _range */
  function RangeOf(s: Selector): Result<Range, RangeError> {
    if s.prefix.Some? && s.start.Some? && s.end.Some? then Err(BothStartAndEnd)
    else if s.prefix.Some? then
      var prefix :- Encoded(s.prefix.value);
      var start :- if s.start.Some? then Encoded(s.start.value) else Ok(prefix + [0]);
      if s.start.Some? && !Within(start, prefix) then Err(StartOutsidePrefix) else
      var end :- if s.end.Some? then Encoded(s.end.value) else Ok(prefix + [0xff]);
      if s.end.Some? && !Within(end, prefix) then Err(EndOutsidePrefix) else
      Ok(Range(start, end))
    else if s.start.None? || s.end.None? then Err(MissingBounds)
    else
      var start :- Encoded(s.start.value);
      var end :- Encoded(s.end.value);
      Ok(Range(start, end))
  }

  /** What a query for a range selects: from its start on, up to but not including its end. */
  predicate InRange(b: seq<byte>, r: Range) {
    Compare(r.start, b) <= 0 && Compare(b, r.end) < 0
  }

  /** `k` has every part of `prefix` and at least one more. */
  ghost predicate Extends(k: Key, prefix: Key) {
    |k| > |prefix| && Canonical(k[..|prefix|]) == Canonical(prefix)
  }

  // ---- prefixes --------------------------------------------------------------------------------------------

  /** Above p + [0] and below some extension of p there are only extensions of p. */
  lemma {:induction false} BetweenExtensions(p: seq<byte>, rest: seq<byte>, b: seq<byte>)
    requires rest != []
    ensures InRange(b, Range(p + [0], p + rest)) <==> Within(b, p) && Compare(b, p + rest) < 0
    ensures Within(b, p) ==> Compare(b, p + rest) == Compare(b[|p|..], rest)
  {
    if Within(b, p) {
      var tail := b[|p|..];
      assert b == p + tail;
      CompareCommonPrefix(p, [0], tail);
      CompareCommonPrefix(p, tail, rest);
    } else {
      Outside(p, b, rest);
    }
  }

  /** A string that does not extend p lies on one side of every extension of p. */
  lemma {:induction false} Outside(p: seq<byte>, b: seq<byte>, rest: seq<byte>)
    requires !Within(b, p) && rest != []
    ensures Compare(p + [0], b) > 0 || Compare(b, p + rest) > 0
  {
    if p != [] && b != [] && p[0] == b[0] {
      assert (p + [0])[1..] == p[1..] + [0] && (p + rest)[1..] == p[1..] + rest;
      Outside(p[1..], b[1..], rest);
    }
  }

  lemma ComparePartCanonical(p: Part, q: Part)
    ensures ComparePart(p, q) == 0 <==> CanonicalPart(p) == CanonicalPart(q)
  {
    match (p, q) {
      case (Bytes(a), Bytes(b)) => CompareEqual(a, b);
      case (Str(a), Str(b)) =>
        CompareEqual(Utf8.Scalars(a), Utf8.Scalars(b));
        Utf8.TextInjective(Utf8.Scalars(a), Utf8.Scalars(b));
      case _ =>
    }
  }

  /** Part codes are not prefix-free, but what follows settles it: unless it starts with 0xff, one split is possible. */
  lemma SplitIsUnique(p: Part, q: Part, s: seq<byte>, t: seq<byte>)
    requires Encodable(p) && Encodable(q) && Separated(s) && Separated(t)
    requires EncodePart(p) + s == EncodePart(q) + t
    ensures CanonicalPart(p) == CanonicalPart(q) && s == t
  {
    PartOrder(p, q, s, t);
    CompareEqual(EncodePart(p) + s, EncodePart(q) + t);
    ComparePartCanonical(p, q);
    CompareEqual(s, t);
  }

  lemma CanonicalPartEncodes(p: Part)
    ensures EncodePart(CanonicalPart(p)) == EncodePart(p)
  {
    if p.Str? {
      Utf8.ScalarsOfText(Utf8.Scalars(p.text));
    }
  }

  lemma {:induction false} CanonicalEncodes(k: Key)
    ensures EncodeParts(Canonical(k)) == EncodeParts(k)
  {
    if k != [] {
      CanonicalPartEncodes(k[0]);
      CanonicalEncodes(k[1..]);
    }
  }

  lemma {:induction false} SplitPrefix(k: Key, prefix: Key, rest: seq<byte>)
    requires EncodableKey(k) && EncodableKey(prefix)
    requires EncodeParts(k) == EncodeParts(prefix) + rest && rest != [] && Separated(rest)
    ensures Extends(k, prefix)
  {
    hide EncodePart, Encodable, CanonicalPart;
    if prefix == [] {
      assert k[..0] == [];
    } else {
      assert k != [];
      var s, t := EncodeParts(k[1..]), EncodeParts(prefix[1..]) + rest;
      EncodePartsSeparated(k[1..]);
      EncodePartsSeparated(prefix[1..]);
      assert EncodeParts(k) == EncodePart(prefix[0]) + t;
      SplitIsUnique(k[0], prefix[0], s, t);
      SplitPrefix(k[1..], prefix[1..], rest);
      assert k[..|prefix|] == [k[0]] + k[1..][..|prefix| - 1];
    }
  }

  lemma ExtensionEncodes(k: Key, prefix: Key)
    requires Extends(k, prefix)
    ensures var tail := k[|prefix|..]; tail != [] && EncodeParts(k) == EncodeParts(prefix) + EncodeParts(tail)
  {
    hide EncodePart, CanonicalPart;
    var head, tail := k[..|prefix|], k[|prefix|..];
    assert k == head + tail;
    EncodePartsAppend(head, tail);
    CanonicalEncodes(head);
    CanonicalEncodes(prefix);
  }

  /** Bytes that carry on from a whole prefix with anything but 0xff are further parts. */
  lemma ExtendsByBytes(k: Key, prefix: Key)
    requires EncodableKey(k) && EncodableKey(prefix)
    ensures var b, p := EncodeParts(k), EncodeParts(prefix); Extends(k, prefix) <==> Within(b, p) && b[|p|] < 0xff
  {
    hide EncodePart, EncodableKey;
    var b, p := EncodeParts(k), EncodeParts(prefix);
    if Extends(k, prefix) {
      ExtensionEncodes(k, prefix);
      EncodePartsSeparated(k[|prefix|..]);
    }
    if Within(b, p) && b[|p|] < 0xff {
      assert b == p + b[|p|..];
      SplitPrefix(k, prefix, b[|p|..]);
    }
  }

  /** A prefix-only selector's range holds exactly the keys that extend the prefix by whole parts. */
  lemma PrefixSelects(prefix: Key, k: Key)
    requires prefix != [] && EncodableKey(k) && EncodableKey(prefix)
    ensures var r := RangeOf(Selector(Some(prefix), None, None));
      r.Ok? && (InRange(EncodeParts(k), r.value) <==> Extends(k, prefix))
  {
    var b, p := EncodeParts(k), EncodeParts(prefix);
    BetweenExtensions(p, [0xff], b);
    ExtendsByBytes(k, prefix);
  }

  // ---- a start or end key under a prefix -------------------------------------------------------------------

  /** The bytes an escaped part carries. */
  function Content(p: Part): Option<seq<byte>> {
    match p
    case Bytes(b) => Some(b)
    case Str(s) => Some(Utf8.Encode(s))
    case _ => None
  }

  /** Not an extension: the part in the last position of `prefix` is a string or bytes that goes on with a NUL. */
  ghost predicate NulContinues(k: Key, prefix: Key) {
    prefix != [] &&
    var n := |prefix| - 1;
    |k| > n && Canonical(k[..n]) == Canonical(prefix[..n]) && PartContinues(k[n], prefix[n])
  }

  ghost predicate PartContinues(p: Part, q: Part) {
    Rank(p) == Rank(q) && Content(q).Some? && Content(q).value + [0] <= Content(p).value
  }

  lemma {:induction false} EscapedNul(a: seq<byte>, c: seq<byte>)
    ensures Escaped(a + [0] + c) == Escaped(a) + [0xff] + Escaped(c)
  {
    var b := a + [0] + c;
    if a == [] {
      assert b == [0] + c;
    } else {
      assert b[1..] == a[1..] + [0] + c;
      EscapedNul(a[1..], c);
    }
  }

  lemma {:induction false} EscapedContinues(a: seq<byte>, b: seq<byte>, s: seq<byte>, r: seq<byte>)
    requires Separated(s) && Escaped(a) + s == Escaped(b) + ([0xff] + r)
    ensures b + [0] <= a
  {
    var x, y := Escaped(a) + s, Escaped(b) + ([0xff] + r);
    assert x[0] == y[0] && x[1] == y[1];
    if a == [] {
      assert false;
    } else if b != [] {
      var n := if a[0] == 0 then 2 else 1;
      assert x[n..] == Escaped(a[1..]) + s && y[n..] == Escaped(b[1..]) + ([0xff] + r);
      EscapedContinues(a[1..], b[1..], s, r);
      assert a == [a[0]] + a[1..] && b == [b[0]] + b[1..];
    }
  }

  lemma FixedPartEnds(p: Part, q: Part, s: seq<byte>, t: seq<byte>)
    requires Encodable(p) && Encodable(q) && Tag(p) == Tag(q) && Content(q).None?
    requires Payload(p) + s == Payload(q) + t
    ensures s == t
  {
    CompareEqual(Payload(p) + s, Payload(q) + t);
    CompareEqual(s, t);
    match p {
      case Big(n) => BigOrder(n, q.n, s, t);
      case Num(x) => NumberPatternOrder(x, q.bits, s, t);
      case Bool(_) => assert Payload(p) + s == s && Payload(q) + t == t;
    }
  }

  lemma ContentEscapes(p: Part)
    requires Content(p).Some?
    ensures EncodePart(p) == [Tag(p)] + Escaped(Content(p).value)
  {
  }

  lemma SameTag(p: Part, q: Part, x: seq<byte>, y: seq<byte>)
    requires [Tag(p)] + x == [Tag(q)] + y
    ensures Tag(p) == Tag(q) && Rank(p) == Rank(q) && x == y
  {
    assert ([Tag(p)] + x)[0] == Tag(p) && ([Tag(q)] + y)[0] == Tag(q);
    assert ([Tag(p)] + x)[1..] == x && ([Tag(q)] + y)[1..] == y;
  }

  lemma LastPartContinues(p: Part, q: Part, s: seq<byte>, r: seq<byte>)
    requires Encodable(p) && Encodable(q) && Separated(s)
    requires EncodePart(p) + s == EncodePart(q) + ([0xff] + r)
    ensures PartContinues(p, q)
  {
    hide Payload, Escaped, Encodable;
    var t := [0xff] + r;
    assert EncodePart(p) + s == [Tag(p)] + (Payload(p) + s) && EncodePart(q) + t == [Tag(q)] + (Payload(q) + t);
    SameTag(p, q, Payload(p) + s, Payload(q) + t);
    if Content(q).None? {
      FixedPartEnds(p, q, s, t);
    } else {
      EscapedPayload(p);
      EscapedPayload(q);
      EscapedContinues(Content(p).value, Content(q).value, s, r);
    }
  }

  lemma EscapedPayload(p: Part)
    requires Content(p).Some?
    ensures Payload(p) == Escaped(Content(p).value)
  {
  }

  lemma PartContinuesByBytes(p: Part, q: Part) returns (rest: seq<byte>)
    requires PartContinues(p, q)
    ensures EncodePart(p) == EncodePart(q) + ([0xff] + rest)
  {
    hide EncodePart, Escaped;
    var a, b := Content(p).value, Content(q).value;
    var c := a[|b| + 1..];
    assert a == b + [0] + c;
    EscapedNul(b, c);
    ContentEscapes(p);
    ContentEscapes(q);
    rest := Escaped(c);
    assert [Tag(p)] + (Escaped(b) + [0xff] + rest) == ([Tag(p)] + Escaped(b)) + ([0xff] + rest);
  }

  lemma {:induction false} SplitContinuation(k: Key, prefix: Key, rest: seq<byte>)
    requires EncodableKey(k) && EncodableKey(prefix) && prefix != []
    requires EncodeParts(k) == EncodeParts(prefix) + ([0xff] + rest)
    ensures NulContinues(k, prefix)
  {
    hide EncodePart, Encodable, CanonicalPart;
    assert k != [];
    EncodePartsSeparated(k[1..]);
    var t := EncodeParts(prefix[1..]) + ([0xff] + rest);
    assert EncodeParts(k) == EncodePart(prefix[0]) + t;
    if |prefix| == 1 {
      assert t == [0xff] + rest;
      LastPartContinues(k[0], prefix[0], EncodeParts(k[1..]), rest);
      assert k[..0] == prefix[..0];
    } else {
      EncodePartsSeparated(prefix[1..]);
      SplitIsUnique(k[0], prefix[0], EncodeParts(k[1..]), t);
      SplitContinuation(k[1..], prefix[1..], rest);
      NulContinuesCons(k, prefix);
    }
  }

  lemma NulContinuesCons(k: Key, prefix: Key)
    requires |prefix| > 1 && k != [] && CanonicalPart(k[0]) == CanonicalPart(prefix[0])
    requires NulContinues(k[1..], prefix[1..])
    ensures NulContinues(k, prefix)
  {
    var n := |prefix| - 1;
    assert k[..n] == [k[0]] + k[1..][..n - 1] && prefix[..n] == [prefix[0]] + prefix[1..][..n - 1];
  }

  lemma ContinuationEncodes(k: Key, prefix: Key) returns (rest: seq<byte>)
    requires NulContinues(k, prefix)
    ensures EncodeParts(k) == EncodeParts(prefix) + ([0xff] + rest)
  {
    hide EncodePart, PartContinues, CanonicalPart;
    var n := |prefix| - 1;
    var tail := EncodeParts(k[n + 1..]);
    var head, code := EncodeParts(prefix[..n]), EncodePart(prefix[n]);
    assert EncodeParts(k[..n]) == head by {
      CanonicalEncodes(k[..n]);
      CanonicalEncodes(prefix[..n]);
    }
    SplitAt(k, n);
    SplitAt(prefix, n);
    assert EncodeParts(prefix[n + 1..]) == [];
    var r := PartContinuesByBytes(k[n], prefix[n]);
    rest := r + tail;
    assert head + (code + ([0xff] + r) + tail) == head + code + ([0xff] + rest);
  }

  lemma SplitAt(k: Key, n: nat)
    requires n < |k|
    ensures EncodeParts(k) == EncodeParts(k[..n]) + (EncodePart(k[n]) + EncodeParts(k[n + 1..]))
  {
    hide EncodePart;
    assert k == k[..n] + k[n..] && k[n..][1..] == k[n + 1..];
    EncodePartsAppend(k[..n], k[n..]);
  }

  lemma WithinExtension(p: seq<byte>, t: seq<byte>)
    requires t != []
    ensures Within(p + t, p) && (p + t)[|p|] == t[0]
  {
  }

  lemma ContinuesByBytes(k: Key, prefix: Key)
    requires EncodableKey(k) && EncodableKey(prefix) && prefix != []
    ensures var b, p := EncodeParts(k), EncodeParts(prefix); NulContinues(k, prefix) <==> Within(b, p) && b[|p|] == 0xff
  {
    hide EncodeParts, NulContinues, EncodableKey;
    var b, p := EncodeParts(k), EncodeParts(prefix);
    if NulContinues(k, prefix) {
      var rest := ContinuationEncodes(k, prefix);
      WithinExtension(p, [0xff] + rest);
    }
    if Within(b, p) && b[|p|] == 0xff {
      var rest := b[|p| + 1..];
      assert b == p + ([0xff] + rest);
      SplitContinuation(k, prefix, rest);
    }
  }

  /** The byte test lets through every extension, and also a key whose part goes on with a NUL: nothing else. */
  lemma WithinExactly(k: Key, prefix: Key)
    requires EncodableKey(k) && EncodableKey(prefix) && prefix != []
    ensures Within(EncodeParts(k), EncodeParts(prefix)) <==> Extends(k, prefix) || NulContinues(k, prefix)
    ensures !(Extends(k, prefix) && NulContinues(k, prefix))
  {
    ExtendsByBytes(k, prefix);
    ContinuesByBytes(k, prefix);
  }

  lemma NotAbove(a: seq<byte>, b: seq<byte>, c: seq<byte>)
    requires Compare(a, b) <= 0 && Compare(b, c) <= 0
    ensures Compare(a, c) <= 0
  {
    CompareEqual(a, b);
    CompareEqual(b, c);
    if a != b && b != c {
      LessTransitive(a, b, c);
    }
  }

  /** With a start key that extends the prefix, the range is the part of the prefix's keys from it on. */
  lemma PrefixStartSelects(prefix: Key, start: Key, k: Key)
    requires prefix != [] && EncodableKey(k) && EncodableKey(prefix) && EncodableKey(start)
    requires Extends(start, prefix)
    ensures var r := RangeOf(Selector(Some(prefix), Some(start), None));
      r.Ok? && (InRange(EncodeParts(k), r.value) <==> Extends(k, prefix) && CompareKey(start, k) <= 0)
  {
    var p, s, b := EncodeParts(prefix), EncodeParts(start), EncodeParts(k);
    WithinExactly(start, prefix);
    PrefixSelects(prefix, start);
    PrefixSelects(prefix, k);
    EncodePreservesOrder(start, k);
    if Compare(s, b) <= 0 {
      NotAbove(p + [0], s, b);
    }
  }

  /** With an end key that extends the prefix, it is the part below it. */
  lemma PrefixEndSelects(prefix: Key, end: Key, k: Key)
    requires prefix != [] && EncodableKey(k) && EncodableKey(prefix) && EncodableKey(end)
    requires Extends(end, prefix)
    ensures var r := RangeOf(Selector(Some(prefix), None, Some(end)));
      r.Ok? && (InRange(EncodeParts(k), r.value) <==> Extends(k, prefix) && CompareKey(k, end) < 0)
  {
    var p, e, b := EncodeParts(prefix), EncodeParts(end), EncodeParts(k);
    WithinExactly(end, prefix);
    PrefixSelects(prefix, end);
    PrefixSelects(prefix, k);
    EncodePreservesOrder(k, end);
    if Compare(b, e) < 0 {
      LessTransitive(b, e, p + [0xff]);
    }
  }

  /** An accepted start key that merely goes on with a NUL selects nothing at all. */
  lemma NulStartSelectsNothing(prefix: Key, start: Key, b: seq<byte>)
    requires prefix != [] && EncodableKey(prefix) && EncodableKey(start) && NulContinues(start, prefix)
    ensures var r := RangeOf(Selector(Some(prefix), Some(start), None)); r.Ok? && !InRange(b, r.value)
  {
    var p, s := EncodeParts(prefix), EncodeParts(start);
    WithinExactly(start, prefix);
    ContinuesByBytes(start, prefix);
    BetweenExtensions(p, [0xff], s);
    CompareFlip(s, p + [0xff]);
    if Compare(s, b) <= 0 {
      NotAbove(p + [0xff], s, b);
      CompareFlip(p + [0xff], b);
    }
  }

  /**
   * An accepted end key that goes on with a NUL lets in, beside the prefix's keys, those that go on with a NUL below
   * it.
   */
  lemma NulEndSelects(prefix: Key, end: Key, k: Key)
    requires prefix != [] && EncodableKey(k) && EncodableKey(prefix) && EncodableKey(end) && NulContinues(end, prefix)
    ensures var r := RangeOf(Selector(Some(prefix), None, Some(end)));
      r.Ok? && (InRange(EncodeParts(k), r.value)
                <==> Extends(k, prefix) || (NulContinues(k, prefix) && CompareKey(k, end) < 0))
  {
    var p, e, b := EncodeParts(prefix), EncodeParts(end), EncodeParts(k);
    WithinExactly(end, prefix);
    WithinExactly(k, prefix);
    EncodePreservesOrder(k, end);
    NulEndBytes(prefix, end, b);
    if Extends(k, prefix) {
      ExtendsByBytes(k, prefix);
    }
  }

  lemma NulEndBytes(prefix: Key, end: Key, b: seq<byte>)
    requires prefix != [] && EncodableKey(prefix) && EncodableKey(end) && NulContinues(end, prefix)
    ensures var p, e := EncodeParts(prefix), EncodeParts(end);
      && (InRange(b, Range(p + [0], e)) <==> Within(b, p) && Compare(b, e) < 0)
      && (Within(b, p) && b[|p|] < 0xff ==> Compare(b, e) < 0)
  {
    var p := EncodeParts(prefix);
    var rest := ContinuationEncodes(end, prefix);
    BetweenExtensions(p, [0xff] + rest, b);
  }

  const A: Key := [Str([97])]
  const A_NUL: Key := [Str([97, 0])]
  const A_NUL_B: Key := [Str([97, 0, 98])]

  lemma TextsOfExample()
    ensures Utf8.Encode([97]) == [97] && Utf8.Encode([97, 0]) == [97, 0] && Utf8.Encode([97, 0, 98]) == [97, 0, 98]
  {
    AsciiEncodes([97]);
    AsciiEncodes([97, 0]);
    AsciiEncodes([97, 0, 98]);
  }

  lemma {:induction false} AsciiEncodes(b: seq<byte>)
    requires forall i | 0 <= i < |b| :: b[i] < 0x80
    ensures Utf8.Encode(b) == b
  {
    if b != [] {
      AsciiEncodes(b[1..]);
      assert b == [b[0]] + b[1..];
    }
  }

  /**
   * The example: under the prefix "a", the end key a NUL b is accepted and selects a NUL, which does not extend the
   * prefix.
   */
  lemma NulKeySelected()
    ensures NulContinues(A_NUL, A) && !Extends(A_NUL, A)
    ensures var r := RangeOf(Selector(Some(A), None, Some(A_NUL_B))); r.Ok? && InRange(EncodeParts(A_NUL), r.value)
  {
    hide InRange;
    TextsOfExample();
    assert PartContinues(A_NUL[0], A[0]) && PartContinues(A_NUL_B[0], A[0]);
    assert EncodableKey(A) && EncodableKey(A_NUL) && EncodableKey(A_NUL_B);
    assert A_NUL[..0] == A[..0] == A_NUL_B[..0];
    assert [97, 0][1..] == [0] && [97, 0, 98][1..] == [0, 98] && [0, 98][1..] == [98];
    NulEndSelects(A, A_NUL_B, A_NUL);
  }

  // ---- selectors without a prefix, and those that are refused ----------------------------------------------

  /** A start and an end select the keys from the start on, up to but not including the end, in key order. */
  lemma StartEndSelects(start: Key, end: Key, k: Key)
    requires start != [] && end != [] && EncodableKey(start) && EncodableKey(end) && EncodableKey(k)
    ensures var r := RangeOf(Selector(None, Some(start), Some(end)));
      r.Ok? && (InRange(EncodeParts(k), r.value) <==> CompareKey(start, k) <= 0 && CompareKey(k, end) < 0)
  {
    hide EncodeParts, CompareKey, Compare;
    EncodePreservesOrder(start, k);
    EncodePreservesOrder(k, end);
  }

  /** A start or end key that may go with a prefix. */
  ghost predicate Goes(k: Option<Key>, prefix: Key) {
    k.Some? ==> k.value != [] && (Extends(k.value, prefix) || NulContinues(k.value, prefix))
  }

  ghost predicate EncodableSelector(s: Selector) {
    && (s.prefix.Some? ==> EncodableKey(s.prefix.value)) && (s.start.Some? ==> EncodableKey(s.start.value))
    && (s.end.Some? ==> EncodableKey(s.end.value))
  }

  /** Which selectors are accepted; all others are refused. */
  lemma AcceptedIff(s: Selector)
    requires EncodableSelector(s)
    ensures RangeOf(s).Ok? <==>
      if s.prefix.Some?
      then s.prefix.value != [] && !(s.start.Some? && s.end.Some?)
           && Goes(s.start, s.prefix.value) && Goes(s.end, s.prefix.value)
      else s.start.Some? && s.end.Some? && s.start.value != [] && s.end.value != []
  {
    hide EncodeParts, Within, Extends, NulContinues, EncodableKey;
    if s.prefix.Some? && s.prefix.value != [] {
      if s.start.Some? { WithinExactly(s.start.value, s.prefix.value); }
      if s.end.Some? { WithinExactly(s.end.value, s.prefix.value); }
    }
  }
}
