/** Concatenation, and counting occurrences. */
module Sequences {
  lemma Regroup<T>(a: seq<T>, b: seq<T>, c: seq<T>)
    ensures a + (b + c) == (a + b) + c
  {
  }

  /** How often x occurs. */
  function Count<T(==)>(q: seq<T>, x: T): nat {
    if q == [] then 0 else One(q[0] == x) + Count(q[1..], x)
  }

  function One(b: bool): nat { if b then 1 else 0 }

  lemma {:induction false} CountConcat<T>(a: seq<T>, b: seq<T>, x: T)
    ensures Count(a + b, x) == Count(a, x) + Count(b, x)
  {
    if a == [] {
      assert a + b == b;
    } else {
      assert (a + b)[1..] == a[1..] + b;
      CountConcat(a[1..], b, x);
    }
  }

  lemma CountAppend<T>(a: seq<T>, y: T, x: T)
    ensures Count(a + [y], x) == Count(a, x) + One(y == x)
  {
    CountConcat(a, [y], x);
    assert Count([y], x) == One(y == x) + Count([y][1..], x);
  }

  lemma {:induction false} CountPositive<T>(a: seq<T>, x: T)
    ensures Count(a, x) > 0 <==> x in a
  {
    if a != [] {
      CountPositive(a[1..], x);
    }
  }
}
