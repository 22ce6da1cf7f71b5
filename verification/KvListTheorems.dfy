/** What a listing yields, whatever commits happen between its pages. */
module KvListTheorems {
  import opened Wrappers
  import opened Bytes
  import opened KvKeys
  import Utf8
  import opened KvRange
  import opened KvStore
  import opened KvList

  /** The table and the clock as one call of next() finds them. */
  datatype View = View(t: Table, now: int)

  /** Calls of next() one after another, each on its own view of the database. */
  ghost predicate IsRun(iters: seq<Iter>, views: seq<View>, results: seq<Option<Entry>>) {
    && |iters| == |views| + 1 && |results| == |views|
    && forall i | 0 <= i < |views| :: IsNextCall(iters[i], views[i].t, views[i].now, iters[i + 1], results[i])
  }

  function Yielded(results: seq<Option<Entry>>): (s: seq<Entry>)
    decreases |results|
  {
    if results == [] then [] else
      var n := |results| - 1;
      Yielded(results[..n]) + (if results[n].Some? then [results[n].value] else [])
  }

  ghost predicate Live(v: View, k: KeyBytes) {
    k in v.t && Unexpired(v.t[k], v.now)
  }

  ghost predicate WasRead(views: seq<View>, e: Entry) {
    exists i :: 0 <= i < |views| && Live(views[i], e.key) && views[i].t[e.key] == e.row
  }

  // ---- pages -----------------------------------------------------------------------------------------------

  ghost function After(reverse: bool, keys: set<KeyBytes>, c: KeyBytes): set<KeyBytes> {
    set k | k in keys && Before(reverse, c, k)
  }

  lemma AfterFirst(reverse: bool, keys: set<KeyBytes>, k0: KeyBytes)
    requires IsFirst(reverse, keys, k0)
    ensures After(reverse, keys, k0) == keys - {k0}
  {
    hide Before;
    BeforeTotal(reverse, k0, k0);
  }

  lemma AfterLater(reverse: bool, keys: set<KeyBytes>, k0: KeyBytes, c: KeyBytes)
    requires IsFirst(reverse, keys, k0) && c in keys && c != k0
    ensures After(reverse, keys, c) == After(reverse, keys - {k0}, c)
  {
    hide Before;
    BeforeTotal(reverse, k0, c);
  }

  lemma {:induction false} OrderedDrop(reverse: bool, keys: set<KeyBytes>, n: nat)
    requires 1 <= n <= |Ordered(reverse, keys)|
    ensures var s := Ordered(reverse, keys); Ordered(reverse, After(reverse, keys, s[n - 1])) == s[n..]
    decreases n
  {
    hide After, Before, Ordered, IsFirst;
    var s := Ordered(reverse, keys);
    assert |s| == |keys| && s[n - 1] in keys by { OrderedKeys(reverse, keys); }
    var k0 := HasFirst(reverse, keys);
    OrderedStep(reverse, keys, k0);
    var rest := keys - {k0};
    var tail := Ordered(reverse, rest);
    if n == 1 {
      AfterFirst(reverse, keys, k0);
    } else {
      OrderedDrop(reverse, rest, n - 1);
      assert tail[n - 2] == s[n - 1] && tail[n - 1..] == s[n..];
      assert tail[n - 2] in rest by { OrderedKeys(reverse, rest); }
      AfterLater(reverse, keys, k0, s[n - 1]);
    }
  }

  /** What is left to list on an unchanged table once key c has been passed. */
  lemma LiveBeyond(t: Table, r: Range, now: int, c: KeyBytes, reverse: bool)
    requires InRange(c, r)
    ensures LiveKeys(t, Beyond(r, c, reverse), now) == After(reverse, LiveKeys(t, r, now), c)
  {
    hide InRange, Before, Beyond;
    forall k
      ensures InRange(k, Beyond(r, c, reverse)) <==> InRange(k, r) && Before(reverse, c, k)
    {
      BeyondIs(r, c, reverse, k);
    }
  }

  /** The keys that a page fetches are the first ones in order. */
  lemma PageKeys(it: Iter, t: Table, now: int, mid: Iter)
    requires !LimitReached(it) && IsPage(it, t, now, mid)
    ensures var rows, reverse := KeysOf(mid.buffer), it.options.reverse;
      var keys := LiveKeys(t, it.range, now);
      && Sorted(reverse, rows)
      && |Ordered(reverse, keys)| == |keys| && rows == Ordered(reverse, keys)[..Smaller(BatchOf(it), |keys|)]
      && (forall i | 0 <= i < |rows| :: rows[i] in keys)
  {
    hide Before, Beyond, LiveKeys, BatchOf, Ordered;
    var reverse := it.options.reverse;
    var keys := LiveKeys(t, it.range, now);
    OrderedKeys(reverse, keys);
    OrderedIsSorted(reverse, keys);
  }

  /** A page and what it leaves make up what there was; a short page leaves nothing. */
  lemma PageLeaves(it: Iter, t: Table, now: int, mid: Iter)
    requires !LimitReached(it) && IsPage(it, t, now, mid)
    ensures var rows, reverse := KeysOf(mid.buffer), it.options.reverse;
      && Ordered(reverse, LiveKeys(t, it.range, now)) == rows + Ordered(reverse, LiveKeys(t, mid.range, now))
      && (mid.done ==> LiveKeys(t, mid.range, now) == {})
  {
    hide InRange, Before, Beyond, LiveKeys, BatchOf, Ordered, IsScan, After;
    var reverse := it.options.reverse;
    var keys := LiveKeys(t, it.range, now);
    var all := Ordered(reverse, keys);
    var rows := KeysOf(mid.buffer);
    PageKeys(it, t, now, mid);
    if rows == [] {
      if mid.done { assert keys == {}; }
    } else {
      var last := rows[|rows| - 1];
      assert last == all[|rows| - 1] && last in keys;
      LiveInRange(t, it.range, now, last);
      LiveBeyond(t, it.range, now, last, reverse);
      OrderedDrop(reverse, keys, |rows|);
      assert all == all[..|rows|] + all[|rows|..];
      if mid.done {
        NoneLeft(reverse, LiveKeys(t, mid.range, now));
      }
    }
  }

  lemma NoneLeft(reverse: bool, keys: set<KeyBytes>)
    requires |Ordered(reverse, keys)| == 0
    ensures keys == {}
  {
    OrderedKeys(reverse, keys);
  }

  lemma LiveInRange(t: Table, r: Range, now: int, k: KeyBytes)
    requires k in LiveKeys(t, r, now)
    ensures InRange(k, r) && Live(View(t, now), k)
  {
  }

  // ---- over a run ------------------------------------------------------------------------------------------

  /** Everything fetched so far: handed out, or still in the buffer. */
  function Fetched(ys: seq<Entry>, it: Iter): seq<Entry> {
    ys + it.buffer
  }

  /** Beyond everything fetched, and only there, the range still has keys of the range it started as. */
  ghost predicate Frontier(r: Range, it: Iter, f: seq<KeyBytes>) {
    forall k :: InRange(k, it.range) <==> InRange(k, r) && (f == [] || Before(it.options.reverse, f[|f| - 1], k))
  }

  ghost predicate Inv(r: Range, options: Options, it: Iter, ys: seq<Entry>, views: seq<View>) {
    var f := KeysOf(Fetched(ys, it));
    && it.options == options && it.returned == |ys| && (options.limit.Some? ==> |ys| <= options.limit.value)
    && Sorted(options.reverse, f)
    && (forall i | 0 <= i < |f| :: InRange(f[i], r))
    && Frontier(r, it, f)
    && (forall e | e in Fetched(ys, it) :: WasRead(views, e))
  }

  lemma SortedAppend(reverse: bool, a: seq<KeyBytes>, b: seq<KeyBytes>)
    requires Sorted(reverse, a) && Sorted(reverse, b)
    requires a != [] ==> forall i | 0 <= i < |b| :: Before(reverse, a[|a| - 1], b[i])
    ensures Sorted(reverse, a + b)
  {
    hide Before;
    var c := a + b;
    forall i, j | 0 <= i < j < |c|
      ensures Before(reverse, c[i], c[j])
    {
      if i < |a| <= j {
        if i < |a| - 1 {
          BeforeTransitive(reverse, a[i], a[|a| - 1], b[j - |a|]);
        }
      }
    }
  }

  /** A page moves the frontier to its last row. */
  lemma PageFrontier(r: Range, it: Iter, f: seq<KeyBytes>, rows: seq<KeyBytes>, mid: Iter)
    requires Frontier(r, it, f) && mid.options == it.options && Sorted(it.options.reverse, rows)
    requires forall i | 0 <= i < |rows| :: InRange(rows[i], it.range)
    requires mid.range == if rows == [] then it.range else Beyond(it.range, rows[|rows| - 1], it.options.reverse)
    ensures Frontier(r, mid, f + rows)
  {
    hide Beyond, Before, InRange;
    if rows == [] {
      assert f + rows == f;
    } else {
      var reverse, last := it.options.reverse, rows[|rows| - 1];
      forall k
        ensures InRange(k, mid.range) <==> InRange(k, r) && Before(reverse, last, k)
      {
        BeyondIs(it.range, last, reverse, k);
        if Before(reverse, last, k) && f != [] && InRange(k, r) {
          BeforeTransitive(reverse, f[|f| - 1], last, k);
        }
      }
    }
  }

  lemma WasReadLater(views: seq<View>, v: View, e: Entry)
    requires WasRead(views, e)
    ensures WasRead(views + [v], e)
  {
    var i :| 0 <= i < |views| && Live(views[i], e.key) && views[i].t[e.key] == e.row;
    assert (views + [v])[i] == views[i];
  }

  lemma PageWasRead(it: Iter, views: seq<View>, v: View, mid: Iter, e: Entry)
    requires !LimitReached(it) && IsPage(it, v.t, v.now, mid) && e in mid.buffer
    ensures WasRead(views + [v], e)
  {
    var i :| 0 <= i < |mid.buffer| && mid.buffer[i] == e;
    PageKeys(it, v.t, v.now, mid);
    assert KeysOf(mid.buffer)[i] == e.key;
    LiveInRange(v.t, it.range, v.now, e.key);
    assert (views + [v])[|views|] == v;
  }

  lemma PageKeepsInv(r: Range, options: Options, it: Iter, ys: seq<Entry>, views: seq<View>, v: View, mid: Iter)
    requires Inv(r, options, it, ys, views) && !LimitReached(it) && it.buffer == [] && IsPage(it, v.t, v.now, mid)
    ensures Inv(r, options, mid, ys, views + [v])
  {
    hide InRange, Before, Beyond, LiveKeys, BatchOf, Ordered, IsScan, Frontier, WasRead;
    var f, rows := KeysOf(ys), KeysOf(mid.buffer);
    assert Fetched(ys, it) == ys;
    assert KeysOf(Fetched(ys, mid)) == f + rows;
    PageKeys(it, v.t, v.now, mid);
    forall i | 0 <= i < |rows|
      ensures InRange(rows[i], it.range) && InRange(rows[i], r)
      ensures f != [] ==> Before(options.reverse, f[|f| - 1], rows[i])
    {
      LiveInRange(v.t, it.range, v.now, rows[i]);
      FrontierAt(r, it, f, rows[i]);
    }
    SortedAppend(options.reverse, f, rows);
    PageFrontier(r, it, f, rows, mid);
    forall e | e in Fetched(ys, mid)
      ensures WasRead(views + [v], e)
    {
      if e in ys { WasReadLater(views, v, e); } else { PageWasRead(it, views, v, mid, e); }
    }
  }

  lemma FrontierAt(r: Range, it: Iter, f: seq<KeyBytes>, k: KeyBytes)
    requires Frontier(r, it, f)
    ensures InRange(k, it.range) <==> InRange(k, r) && (f == [] || Before(it.options.reverse, f[|f| - 1], k))
  {
  }

  lemma SameKeepsInv(r: Range, options: Options, it: Iter, ys: seq<Entry>, views: seq<View>, v: View)
    requires Inv(r, options, it, ys, views)
    ensures Inv(r, options, it, ys, views + [v])
  {
    hide WasRead, InRange, Before, Frontier;
    forall e | e in Fetched(ys, it)
      ensures WasRead(views + [v], e)
    {
      WasReadLater(views, v, e);
    }
  }

  lemma PopKeepsInv(r: Range, options: Options, mid: Iter, ys: seq<Entry>, views: seq<View>, after: Iter,
      e: Option<Entry>)
    requires Inv(r, options, mid, ys, views) && !LimitReached(mid) && Pops(mid, after, e)
    ensures Inv(r, options, after, if e.Some? then ys + [e.value] else ys, views)
  {
    hide WasRead, InRange, Before, Frontier;
    if e.Some? {
      assert Fetched(ys + [e.value], after) == Fetched(ys, mid);
      FrontierSame(r, mid, after, KeysOf(Fetched(ys, mid)));
    }
  }

  lemma FrontierSame(r: Range, a: Iter, b: Iter, f: seq<KeyBytes>)
    requires Frontier(r, a, f) && a.range == b.range && a.options == b.options
    ensures Frontier(r, b, f)
  {
  }

  ghost function MidOf(it: Iter, v: View, after: Iter, e: Option<Entry>): Iter
    requires IsNextCall(it, v.t, v.now, after, e)
    ensures var mid := MidOf(it, v, after, e);
      if LimitReached(it) then mid == it && after == it && e == None
      else (if NeedsPage(it) then IsPage(it, v.t, v.now, mid) else mid == it) && Pops(mid, after, e)
  {
    if LimitReached(it) then it else
      var mid :| (if NeedsPage(it) then IsPage(it, v.t, v.now, mid) else mid == it) && Pops(mid, after, e);
      mid
  }

  lemma NextKeepsInv(r: Range, options: Options, it: Iter, ys: seq<Entry>, views: seq<View>, v: View, after: Iter,
      e: Option<Entry>)
    requires Inv(r, options, it, ys, views) && IsNextCall(it, v.t, v.now, after, e)
    ensures Inv(r, options, after, if e.Some? then ys + [e.value] else ys, views + [v])
  {
    hide Inv, IsPage, Pops, IsNextCall;
    var mid := MidOf(it, v, after, e);
    if LimitReached(it) {
      SameKeepsInv(r, options, it, ys, views, v);
    } else {
      if NeedsPage(it) {
        PageKeepsInv(r, options, it, ys, views, v, mid);
        assert !LimitReached(mid) by { PageCounts(it, v, mid); }
      } else {
        SameKeepsInv(r, options, it, ys, views, v);
      }
      PopKeepsInv(r, options, mid, ys, views + [v], after, e);
    }
  }

  lemma PageCounts(it: Iter, v: View, mid: Iter)
    requires !LimitReached(it) && IsPage(it, v.t, v.now, mid)
    ensures !LimitReached(mid) && mid.options == it.options && mid.returned == it.returned
    ensures it.options.batchSize > 0 ==> mid.done || mid.buffer != []
  {
    hide IsScan, Beyond;
  }

  ghost predicate Starts(it: Iter, r: Range, options: Options) {
    it == Open(r, options, None)
  }

  lemma {:induction false} RunKeepsInv(r: Range, options: Options, iters: seq<Iter>, views: seq<View>,
      results: seq<Option<Entry>>)
    requires IsRun(iters, views, results) && Starts(iters[0], r, options)
    ensures Inv(r, options, iters[|views|], Yielded(results), views)
    decreases |views|
  {
    hide IsNextCall;
    if views == [] {
      assert KeysOf(Fetched([], iters[0])) == [];
    } else {
      hide Inv;
      var n := |views| - 1;
      RunKeepsInv(r, options, iters[..n + 1], views[..n], results[..n]);
      NextKeepsInv(r, options, iters[n], Yielded(results[..n]), views[..n], views[n], iters[n + 1], results[n]);
      assert views[..n] + [views[n]] == views;
      assert Yielded(results[..n]) + [] == Yielded(results[..n]);
    }
  }

  /**
   * Whatever is committed between calls, a listing hands out keys of the range in strictly monotone order, so none
   * twice, each with a row that was live at one of the calls, and never more than the limit.
   */
  lemma ListIsMonotone(r: Range, options: Options, iters: seq<Iter>, views: seq<View>, results: seq<Option<Entry>>)
    requires IsRun(iters, views, results) && Starts(iters[0], r, options)
    ensures var ys := Yielded(results);
      && Sorted(options.reverse, KeysOf(ys))
      && (forall e | e in ys :: InRange(e.key, r) && WasRead(views, e))
      && (options.limit.Some? ==> |ys| <= options.limit.value)
  {
    hide Before, InRange, WasRead, Frontier, Yielded, IsNextCall;
    RunKeepsInv(r, options, iters, views, results);
    var ys, it := Yielded(results), iters[|views|];
    var f := KeysOf(Fetched(ys, it));
    assert forall i | 0 <= i < |ys| :: KeysOf(ys)[i] == f[i] && Fetched(ys, it)[i] == ys[i];
  }

  // ---- nothing is missed -----------------------------------------------------------------------------------

  /** Key k has been fetched, or still lies ahead of an unfinished listing. */
  ghost predicate NotMissed(it: Iter, ys: seq<Entry>, k: KeyBytes) {
    k in KeysOf(Fetched(ys, it)) || (InRange(k, it.range) && !it.done)
  }

  lemma PageMissesNothing(it: Iter, ys: seq<Entry>, v: View, mid: Iter, k: KeyBytes)
    requires !LimitReached(it) && it.buffer == [] && !it.done && IsPage(it, v.t, v.now, mid)
    requires NotMissed(it, ys, k) && Live(v, k)
    ensures NotMissed(mid, ys, k)
  {
    hide InRange, Before, Beyond, BatchOf, Ordered, IsScan;
    var keys, rows := LiveKeys(v.t, it.range, v.now), KeysOf(mid.buffer);
    assert Fetched(ys, it) == ys;
    assert KeysOf(Fetched(ys, mid)) == KeysOf(ys) + rows;
    if k !in KeysOf(ys) {
      PageKeys(it, v.t, v.now, mid);
      PageLeaves(it, v.t, v.now, mid);
      assert k in keys;
      var rest := LiveKeys(v.t, mid.range, v.now);
      OrderedKeys(it.options.reverse, keys);
      OrderedKeys(it.options.reverse, rest);
      assert k in rows + Ordered(it.options.reverse, rest);
    }
  }

  lemma NextMissesNothing(it: Iter, ys: seq<Entry>, v: View, after: Iter, e: Option<Entry>, k: KeyBytes)
    requires IsNextCall(it, v.t, v.now, after, e) && NotMissed(it, ys, k) && Live(v, k)
    requires it.done || it.buffer != [] || it.options.batchSize > 0
    ensures NotMissed(after, if e.Some? then ys + [e.value] else ys, k)
    ensures e.None? && !LimitReached(it) && it.options.batchSize > 0 ==> after.done && after.buffer == []
  {
    hide IsPage, IsNextCall, InRange, Live;
    var mid := MidOf(it, v, after, e);
    if !LimitReached(it) {
      if NeedsPage(it) {
        PageMissesNothing(it, ys, v, mid, k);
        PageCounts(it, v, mid);
      }
      if e.Some? {
        assert Fetched(ys + [e.value], after) == Fetched(ys, mid);
      }
    }
  }

  lemma {:induction false} RunMissesNothing(r: Range, options: Options, iters: seq<Iter>, views: seq<View>,
      results: seq<Option<Entry>>, k: KeyBytes)
    requires IsRun(iters, views, results) && Starts(iters[0], r, options) && options.batchSize > 0
    requires InRange(k, r) && forall i | 0 <= i < |views| :: Live(views[i], k)
    ensures NotMissed(iters[|views|], Yielded(results), k) && iters[|views|].options == options
    decreases |views|
  {
    hide IsNextCall, InRange, Live;
    if views != [] {
      var n := |views| - 1;
      RunMissesNothing(r, options, iters[..n + 1], views[..n], results[..n], k);
      NextMissesNothing(iters[n], Yielded(results[..n]), views[n], iters[n + 1], results[n], k);
      NextKeepsOptions(iters[n], views[n], iters[n + 1], results[n]);
      assert Yielded(results[..n]) + [] == Yielded(results[..n]);
    }
  }

  lemma NextKeepsOptions(it: Iter, v: View, after: Iter, e: Option<Entry>)
    requires IsNextCall(it, v.t, v.now, after, e)
    ensures after.options == it.options
  {
    hide IsPage, IsNextCall;
    var mid := MidOf(it, v, after, e);
    if NeedsPage(it) && !LimitReached(it) {
      PageCounts(it, v, mid);
    }
  }

  /**
   * A key of the range that is live at every call is handed out by a listing that runs to its end, unless the limit
   * stopped it.
   */
  lemma ListIsComplete(r: Range, options: Options, iters: seq<Iter>, views: seq<View>, results: seq<Option<Entry>>,
      k: KeyBytes)
    requires IsRun(iters, views, results) && Starts(iters[0], r, options) && options.batchSize > 0
    requires InRange(k, r) && forall i | 0 <= i < |views| :: Live(views[i], k)
    requires views != [] && results[|views| - 1].None? && !LimitReached(iters[|views| - 1])
    ensures k in KeysOf(Yielded(results))
  {
    hide IsNextCall, InRange, Live, Yielded;
    var n := |views| - 1;
    RunMissesNothing(r, options, iters[..n + 1], views[..n], results[..n], k);
    NextMissesNothing(iters[n], Yielded(results[..n]), views[n], iters[n + 1], results[n], k);
    RunMissesNothing(r, options, iters, views, results, k);
    assert Fetched(Yielded(results), iters[n + 1]) == Yielded(results);
  }

  // ---- on an unchanged table -------------------------------------------------------------------------------

  /** Fetched keys and the keys that lie ahead are the keys of one scan. */
  ghost predicate Partial(r: Range, v: View, it: Iter, ys: seq<Entry>) {
    var reverse := it.options.reverse;
    && KeysOf(Fetched(ys, it)) + Ordered(reverse, LiveKeys(v.t, it.range, v.now)) ==
      Ordered(reverse, LiveKeys(v.t, r, v.now))
    && (it.done ==> LiveKeys(v.t, it.range, v.now) == {})
    && it.returned == |ys|
  }

  lemma PageKeepsPartial(r: Range, v: View, it: Iter, ys: seq<Entry>, mid: Iter)
    requires !LimitReached(it) && NeedsPage(it) && IsPage(it, v.t, v.now, mid) && Partial(r, v, it, ys)
    ensures Partial(r, v, mid, ys)
  {
    hide IsPage, Ordered, LiveKeys;
    PageLeaves(it, v.t, v.now, mid);
    PageCounts(it, v, mid);
    assert Fetched(ys, it) == ys && KeysOf(Fetched(ys, mid)) == KeysOf(ys) + KeysOf(mid.buffer);
  }

  lemma PopKeepsPartial(r: Range, v: View, mid: Iter, ys: seq<Entry>, after: Iter, e: Option<Entry>)
    requires Pops(mid, after, e) && Partial(r, v, mid, ys)
    ensures Partial(r, v, after, if e.Some? then ys + [e.value] else ys)
  {
    hide Ordered, LiveKeys;
    if e.Some? {
      assert Fetched(ys + [e.value], after) == Fetched(ys, mid);
    }
  }

  lemma NextKeepsPartial(r: Range, v: View, it: Iter, ys: seq<Entry>, after: Iter, e: Option<Entry>)
    requires IsNextCall(it, v.t, v.now, after, e) && Partial(r, v, it, ys)
    ensures Partial(r, v, after, if e.Some? then ys + [e.value] else ys)
  {
    hide IsNextCall, IsPage, Partial, Pops;
    var mid := MidOf(it, v, after, e);
    if !LimitReached(it) {
      if NeedsPage(it) { PageKeepsPartial(r, v, it, ys, mid); }
      PopKeepsPartial(r, v, mid, ys, after, e);
    }
  }

  lemma {:induction false} RunKeepsPartial(r: Range, options: Options, v: View, iters: seq<Iter>, views: seq<View>,
      results: seq<Option<Entry>>)
    requires IsRun(iters, views, results) && Starts(iters[0], r, options) &&
      forall i | 0 <= i < |views| :: views[i] == v
    ensures Partial(r, v, iters[|views|], Yielded(results)) && iters[|views|].options == options
    decreases |views|
  {
    hide IsNextCall;
    if views == [] {
      assert KeysOf(Fetched([], iters[0])) == [];
    } else {
      hide Partial;
      var n := |views| - 1;
      RunKeepsPartial(r, options, v, iters[..n + 1], views[..n], results[..n]);
      NextKeepsPartial(r, v, iters[n], Yielded(results[..n]), iters[n + 1], results[n]);
      NextKeepsOptions(iters[n], v, iters[n + 1], results[n]);
      assert Yielded(results[..n]) + [] == Yielded(results[..n]);
    }
  }

  /**
   * With no commits in between, the pages add up to the first rows of one scan of the range: all of them, or as many
   * as the limit, once next() has answered that it is done.
   */
  lemma PagesAddUp(r: Range, options: Options, v: View, iters: seq<Iter>, views: seq<View>, results: seq<Option<Entry>>)
    requires IsRun(iters, views, results) && Starts(iters[0], r, options) &&
      forall i | 0 <= i < |views| :: views[i] == v
    ensures KeysOf(Yielded(results)) <= Ordered(options.reverse, LiveKeys(v.t, r, v.now))
    ensures views != [] && results[|views| - 1].None? && options.batchSize > 0 ==>
      var all := Ordered(options.reverse, LiveKeys(v.t, r, v.now));
      KeysOf(Yielded(results)) == if options.limit.Some? then all[..Smaller(options.limit.value, |all|)] else all
  {
    hide IsNextCall, LiveKeys, Ordered, IsPage;
    RunKeepsPartial(r, options, v, iters, views, results);
    var it, ys := iters[|views|], Yielded(results);
    assert KeysOf(Fetched(ys, it)) == KeysOf(ys) + KeysOf(it.buffer);
    if views != [] && results[|views| - 1].None? && options.batchSize > 0 {
      var n := |views| - 1;
      RunKeepsPartial(r, options, v, iters[..n + 1], views[..n], results[..n]);
      RunKeepsInv(r, options, iters, views, results);
      LastCall(iters[n], v, it);
      if !LimitReached(iters[n]) {
        assert Ordered(options.reverse, LiveKeys(v.t, it.range, v.now)) == [] by { OrderedNothing(options.reverse); }
      }
    }
  }

  lemma LastCall(it: Iter, v: View, after: Iter)
    requires IsNextCall(it, v.t, v.now, after, None) && it.options.batchSize > 0
    ensures LimitReached(it) ==> after == it
    ensures !LimitReached(it) ==> after.done && after.buffer == []
  {
    hide IsNextCall, IsPage;
    var mid := MidOf(it, v, after, None);
    if !LimitReached(it) && NeedsPage(it) {
      PageCounts(it, v, mid);
    }
  }

  /**
   * A cursor is taken unchecked. Forward, the listing stays in the range iff the key after the cursor is not below its
   * start; in reverse, iff the cursor is not above its end. Otherwise it stays only by being empty.
   */
  predicate StaysInside(r: Range, c: KeyBytes, reverse: bool) {
    if reverse then Compare(c, r.end) <= 0 || Compare(c, r.start) <= 0
    else Compare(r.start, c + [0]) <= 0 || Compare(r.end, c + [0]) <= 0
  }

  lemma BeyondAnyCursor(r: Range, c: KeyBytes, reverse: bool, b: KeyBytes)
    ensures InRange(b, Beyond(r, c, reverse)) && InRange(b, r) <==> InRange(b, r) && Before(reverse, c, b)
    ensures InRange(b, Beyond(r, c, reverse)) && StaysInside(r, c, reverse) ==> InRange(b, r)
  {
    Successor(c, b);
    if InRange(b, Beyond(r, c, reverse)) && StaysInside(r, c, reverse) {
      if reverse {
        CompareFlip(c, r.start);
        CompareFlip(b, c);
        if Compare(c, r.end) <= 0 {
          BelowNotAbove(b, c, r.end);
        } else {
          NotAbove(c, r.start, b);
        }
      } else {
        CompareFlip(r.end, b);
        if Compare(r.start, c + [0]) <= 0 {
          NotAbove(r.start, c + [0], b);
        } else {
          NotAbove(r.end, c + [0], b);
        }
      }
    }
  }

  lemma BelowNotAbove(a: KeyBytes, b: KeyBytes, c: KeyBytes)
    requires Less(a, b) && Compare(b, c) <= 0
    ensures Less(a, c)
  {
    CompareEqual(b, c);
    if b != c { LessTransitive(a, b, c); }
  }

  /** A resumed listing stays in the selector's range exactly under that condition, which a caller can check. */
  lemma StaysInsideIff(r: Range, options: Options, c: KeyBytes)
    ensures StaysInside(r, c, options.reverse)
      <==> forall b :: InRange(b, Open(r, options, Some(c)).range) ==> InRange(b, r)
  {
    hide InRange, Beyond, Before, StaysInside;
    forall b
      ensures InRange(b, Beyond(r, c, options.reverse)) && StaysInside(r, c, options.reverse) ==> InRange(b, r)
    {
      BeyondAnyCursor(r, c, options.reverse, b);
    }
    if !StaysInside(r, c, options.reverse) {
      var b := Outsider(r, c, options.reverse);
    }
  }

  lemma Outsider(r: Range, c: KeyBytes, reverse: bool) returns (b: KeyBytes)
    requires !StaysInside(r, c, reverse)
    ensures InRange(b, Beyond(r, c, reverse)) && !InRange(b, r)
  {
    CompareEqual(c + [0], c + [0]);
    CompareEqual(r.start, r.start);
    CompareEqual(r.end, r.end);
    CompareFlip(r.end, c + [0]);
    CompareFlip(c, r.end);
    CompareFlip(c, r.start);
    CompareFlip(r.start, r.end);
    if !reverse {
      b := c + [0];
      CompareFlip(r.start, b);
    } else if Compare(r.start, r.end) <= 0 {
      b := r.end;
    } else {
      b := r.start;
    }
  }

  /**
   * Resuming from a cursor: what a new listing would list of the range is what comes after the cursor key, and it is
   * all that it would list if it stays in the range. With the cursor left by a listing that handed out the first n
   * keys, it is the remaining ones.
   */
  lemma ResumeContinues(r: Range, options: Options, v: View, c: KeyBytes, n: nat)
    ensures var keys, reverse := LiveKeys(v.t, r, v.now), options.reverse;
      var resumed := LiveKeys(v.t, Open(r, options, Some(c)).range, v.now);
      && (forall k | InRange(k, r) :: k in resumed <==> k in After(reverse, keys, c))
      && (StaysInside(r, c, reverse) ==>
            Ordered(reverse, keys) == Ordered(reverse, keys - After(reverse, keys, c)) + Ordered(reverse, resumed))
      && (1 <= n <= |Ordered(reverse, keys)| && c == Ordered(reverse, keys)[n - 1] ==>
            Ordered(reverse, resumed) == Ordered(reverse, keys)[n..])
  {
    hide Ordered, Before, InRange, StaysInside, Beyond;
    var keys, reverse := LiveKeys(v.t, r, v.now), options.reverse;
    var resumed := LiveKeys(v.t, Beyond(r, c, reverse), v.now);
    OrderedKeys(reverse, keys);
    forall k
      ensures InRange(k, Beyond(r, c, reverse)) && InRange(k, r) <==> InRange(k, r) && Before(reverse, c, k)
      ensures InRange(k, Beyond(r, c, reverse)) && StaysInside(r, c, reverse) ==> InRange(k, r)
    {
      BeyondAnyCursor(r, c, reverse, k);
    }
    if 1 <= n <= |Ordered(reverse, keys)| && c == Ordered(reverse, keys)[n - 1] {
      OrderedDrop(reverse, keys, n);
      assert c in keys;
      LiveInRange(v.t, r, v.now, c);
      LiveBeyond(v.t, r, v.now, c, reverse);
    }
    if StaysInside(r, c, reverse) {
      assert resumed == After(reverse, keys, c);
      SplitAfter(reverse, keys, c);
    }
  }

  lemma SplitAfter(reverse: bool, keys: set<KeyBytes>, c: KeyBytes)
    ensures var high := After(reverse, keys, c);
      Ordered(reverse, keys) == Ordered(reverse, keys - high) + Ordered(reverse, high)
  {
    hide Ordered, Before;
    var high := After(reverse, keys, c);
    var low := keys - high;
    forall a, b | a in low && b in high
      ensures Before(reverse, a, b)
    {
      BeforeTotal(reverse, a, c);
      if a != c { BeforeTransitive(reverse, a, c, b); }
    }
    OrderedSplit(reverse, low, high);
    assert low + high == keys;
  }

  lemma BetweenExamples()
    ensures InRange([2, 97, 98, 0], Range([2, 97, 0, 0], [2, 98, 0, 0xff]))
    ensures !InRange([2, 97, 98, 0], Range([2, 98, 0, 0], [2, 98, 0, 0xff]))
  {
    hide Compare;
    var ab: seq<byte> := [2, 97, 98, 0];
    Ordering([2, 97], 0, [0], 98, [0]);
    Ordering([2], 97, [98, 0], 98, [0, 0]);
    Ordering([2], 97, [98, 0], 98, [0, 0xff]);
    assert [2, 97] + [0] + [0] == [2, 97, 0, 0] && [2, 97] + [98] + [0] == ab == [2] + [97] + [98, 0];
    assert [2] + [98] + [0, 0] == [2, 98, 0, 0] && [2] + [98] + [0, 0xff] == [2, 98, 0, 0xff];
    CompareFlip([2, 98, 0, 0], ab);
  }

  lemma ExampleCodes()
    ensures EncodeParts([Str([97])]) == [2, 97, 0] && EncodeParts([Str([98])]) == [2, 98, 0]
    ensures EncodeParts([Str([97, 98])]) == [2, 97, 98, 0]
  {
    AsciiEncodes([97]);
    AsciiEncodes([98]);
    AsciiEncodes([97, 98]);
    OneString([97]);
    OneString([98]);
    OneString([97, 98]);
    assert [97, 98][1..] == [98];
  }

  /** The example: under the prefix "b", a forward listing resumed from the key "a" also lists the key "ab". */
  lemma CursorLeavesPrefix()
    ensures var b, a, ab := EncodeParts([Str([98])]), EncodeParts([Str([97])]), EncodeParts([Str([97, 98])]);
      var r := Range(b + [0], b + [0xff]);
      && RangeOf(Selector(Some([Str([98])]), None, None)) == Ok(r)
      && InRange(ab, Open(r, Options(None, 100, false), Some(a)).range) && !InRange(ab, r)
  {
    hide InRange, EncodeParts;
    ExampleCodes();
    BetweenExamples();
    var b, a := EncodeParts([Str([98])]), EncodeParts([Str([97])]);
    assert b + [0] == [2, 98, 0, 0] && b + [0xff] == [2, 98, 0, 0xff] && a + [0] == [2, 97, 0, 0];
  }

  lemma OneString(t: Utf8.text)
    ensures EncodeParts([Str(t)]) == [TAG_STRING] + Escaped(Utf8.Encode(t))
  {
    assert EncodeParts([]) == [];
  }

  /** The first different byte decides. */
  lemma {:induction false} Ordering(p: seq<byte>, x: byte, s: seq<byte>, y: byte, t: seq<byte>)
    requires x < y
    ensures Less(p + [x] + s, p + [y] + t)
  {
    var a, b := p + [x] + s, p + [y] + t;
    if p != [] {
      assert a[1..] == p[1..] + [x] + s && b[1..] == p[1..] + [y] + t;
      Ordering(p[1..], x, s, y, t);
    }
  }

  /** The key of the last row handed out, which is what the iterator's cursor stands for. */
  function LastKey(ys: seq<Entry>): Option<KeyBytes> {
    if ys == [] then None else Some(ys[|ys| - 1].key)
  }

  lemma NextMovesCursor(it: Iter, ys: seq<Entry>, v: View, after: Iter, e: Option<Entry>)
    requires IsNextCall(it, v.t, v.now, after, e) && it.cursor == LastKey(ys)
    ensures after.cursor == LastKey(if e.Some? then ys + [e.value] else ys)
  {
    hide IsNextCall, IsScan, Beyond;
    var mid := MidOf(it, v, after, e);
  }

  /** Whatever is committed between calls, the cursor is the key of the last row handed out. */
  lemma {:induction false} CursorIsLastKey(r: Range, options: Options, iters: seq<Iter>, views: seq<View>,
      results: seq<Option<Entry>>)
    requires IsRun(iters, views, results) && Starts(iters[0], r, options)
    ensures iters[|views|].cursor == LastKey(Yielded(results))
    decreases |views|
  {
    hide IsNextCall, LastKey;
    if views == [] {
      assert LastKey([]) == None by { NothingLast(); }
    } else {
      var n := |views| - 1;
      CursorIsLastKey(r, options, iters[..n + 1], views[..n], results[..n]);
      NextMovesCursor(iters[n], Yielded(results[..n]), views[n], iters[n + 1], results[n]);
      assert Yielded(results[..n]) + [] == Yielded(results[..n]);
    }
  }

  lemma NothingLast()
    ensures LastKey([]) == None
  {
  }

  /**
   * Listing on from the cursor that a listing has come to, on the same table: what the two hand out is the one scan,
   * wherever the first one stopped.
   */
  lemma ResumeFromCursor(r: Range, options: Options, v: View, iters: seq<Iter>, views: seq<View>,
      results: seq<Option<Entry>>)
    requires IsRun(iters, views, results) && Starts(iters[0], r, options) &&
      forall i | 0 <= i < |views| :: views[i] == v
    ensures var resumed := Open(r, options, iters[|views|].cursor).range;
      KeysOf(Yielded(results)) + Ordered(options.reverse, LiveKeys(v.t, resumed, v.now))
        == Ordered(options.reverse, LiveKeys(v.t, r, v.now))
  {
    hide IsNextCall, LiveKeys, Ordered, Before, InRange, WasRead, Beyond, Yielded;
    var ys, all := Yielded(results), Ordered(options.reverse, LiveKeys(v.t, r, v.now));
    PagesAddUp(r, options, v, iters, views, results);
    CursorIsLastKey(r, options, iters, views, results);
    if ys == [] {
      assert KeysOf(ys) + all == all;
    } else {
      var n := |ys|;
      ListIsMonotone(r, options, iters, views, results);
      assert ys[n - 1] in ys && KeysOf(ys)[n - 1] == ys[n - 1].key == all[n - 1];
      ResumeContinues(r, options, v, ys[n - 1].key, n);
      assert all == all[..n] + all[n..] && KeysOf(ys) == all[..n];
    }
  }

  /** A page has at most 500 rows, no more than the batch size, and no more than the limit leaves. */
  lemma PageIsSmall(it: Iter, t: Table, now: int, mid: Iter)
    requires !LimitReached(it) && IsPage(it, t, now, mid)
    ensures |mid.buffer| <= 500 && |mid.buffer| <= it.options.batchSize
    ensures it.options.limit.Some? ==> it.returned + |mid.buffer| <= it.options.limit.value
    ensures |mid.buffer| < |LiveKeys(t, it.range, now)| ==>
      |mid.buffer| == 500 || |mid.buffer| == it.options.batchSize
      || (it.options.limit.Some? && it.returned + |mid.buffer| == it.options.limit.value)
  {
    hide Ordered;
    OrderedKeys(it.options.reverse, LiveKeys(t, it.range, now));
  }
}
