/** Byte strings and the lexicographic order that SQLite's BLOB comparison, memcmp and Deno all use. */
module Bytes {
  type byte = b: int | 0 <= b < 256

  /** Three-way lexicographic comparison: -1, 0 or 1. A proper prefix comes first. */
  function Compare(a: seq<int>, b: seq<int>): (c: int)
    ensures -1 <= c <= 1
  {
    if a == [] then (if b == [] then 0 else -1)
    else if b == [] then 1
    else if a[0] < b[0] then -1
    else if a[0] > b[0] then 1
    else Compare(a[1..], b[1..])
  }

  predicate Less(a: seq<int>, b: seq<int>) {
    Compare(a, b) < 0
  }

  lemma {:induction false} CompareEqual(a: seq<int>, b: seq<int>)
    ensures Compare(a, b) == 0 <==> a == b
  {
    if a != [] && b != [] && a[0] == b[0] {
      CompareEqual(a[1..], b[1..]);
      assert a == [a[0]] + a[1..] && b == [b[0]] + b[1..];
    }
  }

  lemma {:induction false} CompareFlip(a: seq<int>, b: seq<int>)
    ensures Compare(b, a) == -Compare(a, b)
  {
    if a != [] && b != [] && a[0] == b[0] {
      CompareFlip(a[1..], b[1..]);
    }
  }

  lemma {:induction false} LessTransitive(a: seq<int>, b: seq<int>, c: seq<int>)
    requires Less(a, b) && Less(b, c)
    ensures Less(a, c)
  {
    if a != [] && a[0] == b[0] == c[0] {
      LessTransitive(a[1..], b[1..], c[1..]);
    }
  }

  /** A common prefix never decides. */
  lemma {:induction false} CompareCommonPrefix(p: seq<int>, a: seq<int>, b: seq<int>)
    ensures Compare(p + a, p + b) == Compare(a, b)
  {
    if p == [] {
      assert p + a == a && p + b == b;
    } else {
      assert (p + a)[1..] == p[1..] + a && (p + b)[1..] == p[1..] + b;
      CompareCommonPrefix(p[1..], a, b);
    }
  }

  /** Once the first strings differ at some position inside both, whatever follows them cannot matter. */
  lemma {:induction false} CompareDecided(a: seq<int>, b: seq<int>, s: seq<int>, t: seq<int>)
    requires Compare(a, b) != 0
    requires !(a <= b) && !(b <= a)
    ensures Compare(a + s, b + t) == Compare(a, b)
  {
    assert a != [] && b != [];
    assert (a + s)[0] == a[0] && (b + t)[0] == b[0];
    if a[0] == b[0] {
      assert (a + s)[1..] == a[1..] + s && (b + t)[1..] == b[1..] + t;
      CompareDecided(a[1..], b[1..], s, t);
    }
  }

  function Sign(n: int): int { if n < 0 then -1 else if n > 0 then 1 else 0 }

  /** One more element decides only between equally long strings that were equal so far. */
  lemma {:induction false} CompareAppend(a: seq<int>, b: seq<int>, x: int, y: int)
    requires |a| == |b|
    ensures Compare(a + [x], b + [y]) == if Compare(a, b) != 0 then Compare(a, b) else Sign(x - y)
  {
    if a == [] {
      assert a + [x] == [x] && b + [y] == [y];
    } else {
      assert (a + [x])[1..] == a[1..] + [x] && (b + [y])[1..] == b[1..] + [y];
      CompareAppend(a[1..], b[1..], x, y);
    }
  }

  /** The first difference decides; without one the shorter string comes first. */
  predicate DiffersAt(a: seq<int>, b: seq<int>, k: nat) {
    k <= |a| && k < |b| && a[..k] == b[..k] && (k == |a| || a[k] < b[k])
  }

  lemma {:induction false} LessMeans(a: seq<int>, b: seq<int>)
    ensures Less(a, b) <==> exists k: nat :: DiffersAt(a, b, k)
  {
    if Less(a, b) {
      var k := FirstDifference(a, b);
    }
    if k: nat :| DiffersAt(a, b, k) {
      DifferenceDecides(a, b, k);
    }
  }

  lemma {:induction false} FirstDifference(a: seq<int>, b: seq<int>) returns (k: nat)
    requires Less(a, b)
    ensures DiffersAt(a, b, k)
  {
    if a == [] || a[0] < b[0] {
      k := 0;
    } else {
      k := FirstDifference(a[1..], b[1..]);
      assert a[..k + 1] == [a[0]] + a[1..][..k] && b[..k + 1] == [b[0]] + b[1..][..k];
      k := k + 1;
    }
  }

  lemma {:induction false} DifferenceDecides(a: seq<int>, b: seq<int>, k: nat)
    requires DiffersAt(a, b, k)
    ensures Less(a, b)
  {
    if k > 0 {
      assert a[..k][0] == b[..k][0] && a[1..][..k - 1] == a[..k][1..] && b[1..][..k - 1] == b[..k][1..];
      DifferenceDecides(a[1..], b[1..], k - 1);
    }
  }
}
