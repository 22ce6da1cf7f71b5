/** Paging through a range of keys: the scans behind Kv.list, the iterator, and what its pages add up to. */
module KvList {
  import opened Wrappers
  import opened Bytes
  import opened KvRange
  import opened KvStore

  // ---- scans -----------------------------------------------------------------------------------------------

  /** Scan order: byte order, or its reverse. */
  predicate Before(reverse: bool, a: KeyBytes, b: KeyBytes) {
    if reverse then Less(b, a) else Less(a, b)
  }

  lemma BeforeTotal(reverse: bool, a: KeyBytes, b: KeyBytes)
    ensures Before(reverse, a, b) || Before(reverse, b, a) || a == b
    ensures !(Before(reverse, a, b) && Before(reverse, b, a)) && !Before(reverse, a, a)
  {
    CompareFlip(a, b);
    CompareEqual(a, b);
    CompareEqual(a, a);
  }

  lemma BeforeTransitive(reverse: bool, a: KeyBytes, b: KeyBytes, c: KeyBytes)
    requires Before(reverse, a, b) && Before(reverse, b, c)
    ensures Before(reverse, a, c)
  {
    if reverse { LessTransitive(c, b, a); } else { LessTransitive(a, b, c); }
  }

  ghost predicate IsFirst(reverse: bool, keys: set<KeyBytes>, k: KeyBytes) {
    k in keys && forall other | other in keys :: other == k || Before(reverse, k, other)
  }

  lemma {:induction false} HasFirst(reverse: bool, keys: set<KeyBytes>) returns (k: KeyBytes)
    requires keys != {}
    ensures IsFirst(reverse, keys, k)
    decreases keys
  {
    k :| k in keys;
    if keys != {k} {
      var rest := HasFirst(reverse, keys - {k});
      BeforeTotal(reverse, k, rest);
      var first := if Before(reverse, k, rest) then k else rest;
      forall other | other in keys
        ensures other == first || Before(reverse, first, other)
      {
        if other != k && other != rest && first == k {
          BeforeTransitive(reverse, k, rest, other);
        }
      }
      k := first;
    }
  }

  lemma FirstExists(reverse: bool, keys: set<KeyBytes>)
    requires keys != {}
    ensures exists k :: IsFirst(reverse, keys, k)
  {
    var k := HasFirst(reverse, keys);
  }

  lemma FirstIsUnique(reverse: bool, keys: set<KeyBytes>, a: KeyBytes, b: KeyBytes)
    requires IsFirst(reverse, keys, a) && IsFirst(reverse, keys, b)
    ensures a == b
  {
    BeforeTotal(reverse, a, b);
  }

  /** All the keys, in scan order. */
  ghost function Ordered(reverse: bool, keys: set<KeyBytes>): seq<KeyBytes>
    decreases keys
  {
    if keys == {} then [] else
      FirstExists(reverse, keys);
      var k :| IsFirst(reverse, keys, k);
      [k] + Ordered(reverse, keys - {k})
  }

  lemma {:induction false} OrderedKeys(reverse: bool, keys: set<KeyBytes>)
    ensures |Ordered(reverse, keys)| == |keys|
    ensures forall k :: k in Ordered(reverse, keys) <==> k in keys
    decreases keys
  {
    if keys != {} {
      var s := Ordered(reverse, keys);
      OrderedKeys(reverse, keys - {s[0]});
      assert s == [s[0]] + Ordered(reverse, keys - {s[0]});
      assert keys == (keys - {s[0]}) + {s[0]};
    }
  }

  ghost predicate Sorted(reverse: bool, s: seq<KeyBytes>) {
    forall i, j | 0 <= i < j < |s| :: Before(reverse, s[i], s[j])
  }

  lemma {:induction false} OrderedIsSorted(reverse: bool, keys: set<KeyBytes>)
    ensures Sorted(reverse, Ordered(reverse, keys))
    decreases keys
  {
    if keys != {} {
      var s := Ordered(reverse, keys);
      OrderedIsSorted(reverse, keys - {s[0]});
      assert s[1..] == Ordered(reverse, keys - {s[0]});
      forall i, j | 0 <= i < j < |s|
        ensures Before(reverse, s[i], s[j])
      {
        if i > 0 {
          assert s[i] == s[1..][i - 1] && s[j] == s[1..][j - 1];
        } else {
          OrderedKeys(reverse, keys - {s[0]});
          assert s[j] in s[1..];
        }
      }
    }
  }

  lemma {:induction false} OrderedStep(reverse: bool, keys: set<KeyBytes>, k: KeyBytes)
    requires IsFirst(reverse, keys, k)
    ensures Ordered(reverse, keys) == [k] + Ordered(reverse, keys - {k})
  {
    FirstIsUnique(reverse, keys, Ordered(reverse, keys)[0], k);
  }

  /** Keys below a cut come before keys above it. */
  lemma {:induction false} OrderedSplit(reverse: bool, low: set<KeyBytes>, high: set<KeyBytes>)
    requires low !! high
    requires forall a, b | a in low && b in high :: Before(reverse, a, b)
    ensures Ordered(reverse, low + high) == Ordered(reverse, low) + Ordered(reverse, high)
    decreases low
  {
    hide Ordered, Before, IsFirst;
    if low == {} {
      assert low + high == high;
      assert Ordered(reverse, low) == [] by { OrderedNothing(reverse); }
    } else {
      var k := HasFirst(reverse, low);
      FirstOfUnion(reverse, low, high, k);
      OrderedStep(reverse, low, k);
      OrderedStep(reverse, low + high, k);
      assert (low + high) - {k} == (low - {k}) + high;
      OrderedSplit(reverse, low - {k}, high);
    }
  }

  lemma OrderedNothing(reverse: bool)
    ensures Ordered(reverse, {}) == []
  {
  }

  lemma FirstOfUnion(reverse: bool, low: set<KeyBytes>, high: set<KeyBytes>, k: KeyBytes)
    requires IsFirst(reverse, low, k)
    requires forall b | b in high :: Before(reverse, k, b)
    ensures IsFirst(reverse, low + high, k)
  {
  }

  /** The keys of a range whose rows have not expired. */
  ghost function LiveKeys(t: Table, r: Range, now: int): set<KeyBytes> {
    set k | k in t && InRange(k, r) && Unexpired(t[k], now)
  }

  function Smaller(a: nat, b: nat): nat { if a < b then a else b }

  /** The keys that a query for a page gives: the first of the live ones in scan order, up to a limit. */
  ghost function ScanKeys(t: Table, r: Range, limit: nat, reverse: bool, now: int): seq<KeyBytes> {
    var all := Ordered(reverse, LiveKeys(t, r, now));
    all[..Smaller(limit, |all|)]
  }

  datatype Entry = Entry(key: KeyBytes, row: Row)

  function KeysOf(rows: seq<Entry>): (s: seq<KeyBytes>)
    ensures |s| == |rows|
    ensures forall i | 0 <= i < |s| :: s[i] == rows[i].key
  {
    seq(|rows|, i requires 0 <= i < |rows| => rows[i].key)
  }

  ghost predicate IsScan(rows: seq<Entry>, t: Table, r: Range, limit: nat, reverse: bool, now: int) {
    && KeysOf(rows) == ScanKeys(t, r, limit, reverse, now)
    && forall i | 0 <= i < |rows| :: rows[i].key in t && rows[i].row == t[rows[i].key]
  }

  method Scan(t: Table, r: Range, limit: nat, reverse: bool, now: int) returns (rows: seq<Entry>)
    ensures IsScan(rows, t, r, limit, reverse, now)
  {
    hide Ordered, Before, InRange;
    rows := [];
    var keys := set k | k in t && InRange(k, r) && Unexpired(t[k], now);
    ghost var all := Ordered(reverse, keys);
    while |rows| < limit && keys != {}
      invariant |rows| <= limit
      invariant KeysOf(rows) + Ordered(reverse, keys) == all
      invariant forall i | 0 <= i < |rows| :: rows[i].key in t && rows[i].row == t[rows[i].key]
      invariant forall k | k in keys :: k in t
      decreases keys
    {
      ghost var first := HasFirst(reverse, keys);
      assert forall other | other in keys :: other == first || Before(reverse, first, other);
      var k :| k in keys && forall other | other in keys :: other == k || Before(reverse, k, other);
      OrderedStep(reverse, keys, k);
      assert IsFirst(reverse, keys, k);
      assert KeysOf(rows + [Entry(k, t[k])]) == KeysOf(rows) + [k];
      assert KeysOf(rows) + ([k] + Ordered(reverse, keys - {k})) == (KeysOf(rows) + [k]) + Ordered(reverse, keys - {k});
      rows := rows + [Entry(k, t[k])];
      keys := keys - {k};
    }
    OrderedKeys(reverse, keys);
    assert KeysOf(rows) == all[..|rows|];
    assert |rows| == Smaller(limit, |all|);
    assert all == Ordered(reverse, LiveKeys(t, r, now));
  }

  // ---- ranges that move ------------------------------------------------------------------------------------

  /** k + [0] is the next byte string after k. */
  lemma {:induction false} Successor(k: KeyBytes, b: KeyBytes)
    ensures Compare(k + [0], b) <= 0 <==> Less(k, b)
  {
    if k != [] && b != [] && k[0] == b[0] {
      assert (k + [0])[1..] == k[1..] + [0];
      Successor(k[1..], b[1..]);
    } else if k == [] && b != [] {
      assert (k + [0])[1..] == [];
    }
  }

  /** The range that is left after key k has been passed. */
  function Beyond(r: Range, k: KeyBytes, reverse: bool): Range {
    if reverse then r.(end := k) else r.(start := k + [0])
  }

  lemma BeyondIs(r: Range, k: KeyBytes, reverse: bool, b: KeyBytes)
    requires InRange(k, r)
    ensures InRange(b, Beyond(r, k, reverse)) <==> InRange(b, r) && Before(reverse, k, b)
  {
    Successor(k, b);
    CompareFlip(k, b);
    if reverse {
      if Less(b, k) {
        LessTransitive(b, k, r.end);
      }
    } else if Less(k, b) {
      NotAbove(r.start, k, b);
    }
  }

  // ---- the iterator ----------------------------------------------------------------------------------------

  datatype Options = Options(limit: Option<nat>, batchSize: nat, reverse: bool)

  datatype Iter = Iter(
    options: Options, range: Range, buffer: seq<Entry>, done: bool, returned: nat, cursor: Option<KeyBytes>)

  /** The constructor: a cursor moves the start, or the end when going backwards. */
  function Open(r: Range, options: Options, cursor: Option<KeyBytes>): Iter {
    Iter(options, if cursor.Some? then Beyond(r, cursor.value, options.reverse) else r, [], false, 0, None)
  }

  /** How many rows the next page asks for. */
  function BatchOf(it: Iter): nat
    requires it.options.limit.Some? ==> it.returned < it.options.limit.value
  {
    var b := Smaller(it.options.batchSize, 500);
    if it.options.limit.Some? then Smaller(b, it.options.limit.value - it.returned) else b
  }

  predicate LimitReached(it: Iter) {
    it.options.limit.Some? && it.returned >= it.options.limit.value
  }

  /** After a page: the buffer is filled, and the range shrinks to what lies beyond its last row. */
  function WithPage(it: Iter, rows: seq<Entry>, batch: nat): Iter {
    it.(buffer := rows, done := |rows| < batch,
        range := if rows == [] then it.range else Beyond(it.range, rows[|rows| - 1].key, it.options.reverse))
  }

  ghost predicate NeedsPage(it: Iter) {
    it.buffer == [] && !it.done
  }

  /** One call of next() on the table as it is then: `mid` has its page, `after` has handed out its first row. */
  ghost predicate IsNextCall(it: Iter, t: Table, now: int, after: Iter, r: Option<Entry>) {
    if LimitReached(it) then after == it && r == None else
      exists mid ::
        && (if NeedsPage(it) then IsPage(it, t, now, mid) else mid == it)
        && Pops(mid, after, r)
  }

  ghost predicate IsPage(it: Iter, t: Table, now: int, mid: Iter)
    requires !LimitReached(it)
  {
    IsScan(mid.buffer, t, it.range, BatchOf(it), it.options.reverse, now) &&
      mid == WithPage(it, mid.buffer, BatchOf(it))
  }

  ghost predicate Pops(mid: Iter, after: Iter, r: Option<Entry>) {
    if mid.buffer == [] then after == mid && r == None
    else r == Some(mid.buffer[0])
         && after == mid.(buffer := mid.buffer[1..], returned := mid.returned + 1, cursor := Some(mid.buffer[0].key))
  }

  class KvListIterator {
    const kv: Kv
    const options: Options
    var range: Range
    var buffer: seq<Entry>
    var done: bool
    var returned: nat
    var cursor: Option<KeyBytes>

    ghost function State(): Iter
      reads this
    {
      Iter(options, range, buffer, done, returned, cursor)
    }

    constructor (kv: Kv, r: Range, options: Options, resume: Option<KeyBytes>)
      ensures this.kv == kv && State() == Open(r, options, resume)
    {
      this.kv, this.options := kv, options;
      range := if resume.Some? then Beyond(r, resume.value, options.reverse) else r;
      buffer, done, returned, cursor := [], false, 0, None;
    }

    method Next(now: int) returns (r: Option<Entry>)
      modifies this
      ensures IsNextCall(old(State()), kv.kv, now, State(), r)
    {
      hide IsScan, Beyond, Smaller;
      if options.limit.Some? && returned >= options.limit.value {
        return None;
      }
      ghost var it := State();
      if buffer == [] && !done {
        var batch := if options.limit.Some?
                     then Smaller(Smaller(options.batchSize, 500), options.limit.value - returned)
                     else Smaller(options.batchSize, 500);
        assert batch == BatchOf(it);
        var rows := Scan(kv.kv, range, batch, options.reverse, now);
        if |rows| < batch {
          done := true;
        }
        buffer := rows;
        if rows != [] {
          range := Beyond(range, rows[|rows| - 1].key, options.reverse);
        }
        assert IsPage(it, kv.kv, now, State());
      }
      ghost var mid := State();
      assert if NeedsPage(it) then IsPage(it, kv.kv, now, mid) else mid == it;
      if buffer == [] {
        assert Pops(mid, State(), None);
        return None;
      }
      var row := buffer[0];
      buffer := buffer[1..];
      returned := returned + 1;
      cursor := Some(row.key);
      assert Pops(mid, State(), Some(row));
      r := Some(row);
    }
  }
}
