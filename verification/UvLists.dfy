/** The pool queue and a loop's done list: singly linked through the requests themselves. */
module UvLists {
  import opened UvPool

  class Request {
    const id: Id
    var next: Request?
    var canceled: bool

    constructor (id: Id)
      ensures this.id == id && next == null && !canceled
    {
      this.id, next, canceled := id, null, false;
    }
  }

  /** Every element points to its successor, the last one to nothing. */
  ghost predicate Chained(s: seq<Request>)
    reads s
  {
    && (forall i, j | 0 <= i < j < |s| :: s[i] != s[j])
    && (forall i, j | 0 <= i < j == i + 1 < |s| :: s[i].next == s[j])
    && (s != [] ==> s[|s| - 1].next == null)
  }

  ghost predicate Unlinked(before: seq<Request>, after: seq<Request>, req: Request) {
    exists i | 0 <= i < |before| :: before[i] == req && after == before[..i] + before[i + 1..]
  }

  class RequestList {
    var head: Request?
    var tail: Request?
    ghost var items: seq<Request>

    ghost predicate Valid()
      reads this, items
    {
      && Chained(items)
      && head == (if items == [] then null else items[0])
      && tail == (if items == [] then null else items[|items| - 1])
    }

    constructor ()
      ensures Valid() && items == []
    {
      head, tail, items := null, null, [];
    }

    /** At the tail, as pool_submit and req_done do. The request may come with a stale link from another list. */
    method Append(req: Request)
      requires Valid() && req !in items
      modifies this, req`next, (if tail != null then {tail} else {})`next
      ensures Valid() && items == old(items) + [req]
    {
      req.next := null;
      if tail != null {
        tail.next := req;
      } else {
        head := req;
      }
      tail := req;
      items := items + [req];
    }

    /** Off the head; the request keeps its link into the list. */
    method Pop() returns (req: Request?)
      requires Valid()
      modifies this
      ensures Valid()
      ensures old(items) == [] ==> req == null && items == []
      ensures old(items) != [] ==> req == old(items[0]) && items == old(items[1..])
    {
      req := head;
      if req != null {
        head := req.next;
        if head == null { tail := null; }
        ghost var was := items;
        items := items[1..];
        assert forall i | 0 <= i < |items| :: items[i] == was[i + 1] && items[i].next == was[i + 1].next;
      }
    }

    /** Unlinks a request wherever it is, as uv_cancel does. */
    method Remove(req: Request) returns (found: bool)
      requires Valid()
      modifies this, items`next
      ensures Valid() && (found <==> req in old(items))
      ensures found ==> Unlinked(old(items), items, req)
      ensures !found ==> items == old(items)
    {
      var p, prev := head, null;
      ghost var i := 0;
      while p != null && p != req
        invariant 0 <= i <= |items|
        invariant Valid() && items == old(items)
        invariant p == if i < |items| then items[i] else null
        invariant prev == if i > 0 then items[i - 1] else null
        invariant req !in items[..i]
        decreases |items| - i
      {
        assert p == items[i];
        prev, p := p, p.next;
        i := i + 1;
      }
      found := p != null;
      if found {
        if prev != null {
          prev.next := p.next;
        } else {
          head := p.next;
        }
        if tail == p { tail := prev; }
        ghost var was := items;
        items := items[..i] + items[i + 1..];
        assert forall j | 0 <= j < |items| :: items[j] == was[if j < i then j else j + 1];
      }
    }
  }

  function IdsOf(s: seq<Request>): (ids: seq<Id>)
    ensures |ids| == |s| && forall i | 0 <= i < |s| :: ids[i] == s[i].id
  {
    seq(|s|, i requires 0 <= i < |s| => s[i].id)
  }

  /** Requests with different ids, and the loop that they belong to. */
  ghost predicate Distinct(s: seq<Request>) {
    forall i, j | 0 <= i < j < |s| :: s[i].id != s[j].id
  }

  lemma {:induction false} IndexOfUnique(s: seq<Id>, i: nat)
    requires i < |s| && forall j | 0 <= j < i :: s[j] != s[i]
    ensures IndexOf(s, s[i]) == i
    decreases |s|
  {
    if i > 0 {
      assert s[0] != s[i];
      IndexOfUnique(s[1..], i - 1);
    }
  }

  /** Unlinking is what the pool's steps call Without. */
  lemma UnlinkIsWithout(s: seq<Request>, t: seq<Request>, req: Request)
    requires Distinct(s) && Unlinked(s, t, req)
    ensures IdsOf(t) == Without(IdsOf(s), req.id)
  {
    var ids := IdsOf(s);
    var i :| 0 <= i < |s| && s[i] == req && t == s[..i] + s[i + 1..];
    assert ids[i] in ids;
    IndexOfUnique(ids, i);
  }

  // ---- runs of the interleaved system ----------------------------------------------------------------------

  lemma RunsFirst(s: State, step: Step, rest: seq<Step>, t: State)
    requires Enabled(s, step) && Runs(Do(s, step), rest, t)
    ensures Runs(s, [step] + rest, t)
  {
    assert ([step] + rest)[1..] == rest;
  }

  function Reports(ids: seq<Id>, cancelled: set<Id>): (ds: seq<Delivery>)
    ensures |ds| == |ids|
    ensures forall i | 0 <= i < |ds| :: ds[i] == Delivery(ids[i], if ids[i] in cancelled then Canceled else Completed)
  {
    seq(|ids|, i requires 0 <= i < |ids| => Delivery(ids[i], if ids[i] in cancelled then Canceled else Completed))
  }

  function PopSteps(n: nat, l: nat): seq<Step> {
    if n == 0 then [Step.Pop(l)] else [Step.Pop(l), Deliver(l)] + PopSteps(n - 1, l)
  }

  /** Everything on loop l's done list delivered in order, and the drain over. */
  function Emptied(s: State, l: nat): State
    requires l < |s.loops|
  {
    var lp := s.loops[l];
    s.(loops := s.loops[l := Loop(Free, false, lp.kick, [], lp.nreqs - |lp.done|)],
       delivered := s.delivered + Reports(lp.done, s.cancelled))
  }

  lemma {:induction false} PopStepsRun(s: State, l: nat)
    requires l < |s.loops| && s.loops[l].call == Free && s.loops[l].draining
    ensures Runs(s, PopSteps(|s.loops[l].done|, l), Emptied(s, l))
    decreases |s.loops[l].done|
  {
    hide Runs;
    var lp := s.loops[l];
    var t := Do(s, Step.Pop(l));
    if lp.done == [] {
      assert s.delivered + Reports([], s.cancelled) == s.delivered;
      assert t == Emptied(s, l);
      assert Runs(t, [], t) by { RunsNone(t); }
      RunsFirst(s, Step.Pop(l), [], t);
      assert [Step.Pop(l)] + [] == [Step.Pop(l)];
    } else {
      PopDeliver(s, l);
      var u := Do(t, Deliver(l));
      var rest := PopSteps(|lp.done| - 1, l);
      PopStepsRun(u, l);
      EmptiedStep(s, l);
      RunsFirst(t, Deliver(l), rest, Emptied(s, l));
      RunsFirst(s, Step.Pop(l), [Deliver(l)] + rest, Emptied(s, l));
      assert [Step.Pop(l)] + ([Deliver(l)] + rest) == [Step.Pop(l), Deliver(l)] + rest;
    }
  }

  lemma RunsNone(s: State)
    ensures Runs(s, [], s)
  {
  }

  lemma PopDeliver(s: State, l: nat)
    requires l < |s.loops| && s.loops[l].call == Free && s.loops[l].draining && s.loops[l].done != []
    ensures var t, lp := Do(s, Step.Pop(l)), s.loops[l];
      && Enabled(t, Deliver(l))
      && Do(t, Deliver(l)).loops == s.loops[l := lp.(done := lp.done[1..], nreqs := lp.nreqs - 1)]
      && Do(t, Deliver(l))
           == s.(loops := Do(t, Deliver(l)).loops, delivered := s.delivered + Reports([lp.done[0]], s.cancelled))
  {
    var lp := s.loops[l];
    assert Reports([lp.done[0]], s.cancelled)
        == [Delivery(lp.done[0], if lp.done[0] in s.cancelled then Canceled else Completed)];
  }

  lemma ReportsSplit(ids: seq<Id>, cancelled: set<Id>)
    requires ids != []
    ensures Reports(ids, cancelled) == Reports([ids[0]], cancelled) + Reports(ids[1..], cancelled)
  {
  }

  lemma EmptiedStep(s: State, l: nat)
    requires l < |s.loops| && s.loops[l].call == Free && s.loops[l].draining && s.loops[l].done != []
    ensures var t := Do(s, Step.Pop(l)); Enabled(t, Deliver(l)) && Emptied(Do(t, Deliver(l)), l) == Emptied(s, l)
  {
    hide Do, Reports;
    PopDeliver(s, l);
    var u := Do(Do(s, Step.Pop(l)), Deliver(l));
    var ids := s.loops[l].done;
    ReportsSplit(ids, s.cancelled);
    assert s.delivered + Reports([ids[0]], s.cancelled) + Reports(ids[1..], s.cancelled)
        == s.delivered + Reports(ids, s.cancelled);
    assert Emptied(u, l).loops == Emptied(s, l).loops;
  }

  /** Loop l drained from its done list's present state. */
  function Drained(s: State, l: nat): State
    requires l < |s.loops|
  {
    Emptied(s.(loops := s.loops[l := s.loops[l].(draining := true, kick := false)]), l)
  }

  /** A drain is a run of Pop and Deliver steps of its loop. */
  lemma DrainRuns(s: State, l: nat)
    requires l < |s.loops| && s.loops[l].call == Free
    ensures Runs(s, [BeginDrain(l)] + PopSteps(|s.loops[l].done|, l), Drained(s, l))
  {
    hide Runs;
    PopStepsRun(Do(s, BeginDrain(l)), l);
    RunsFirst(s, BeginDrain(l), PopSteps(|s.loops[l].done|, l), Drained(s, l));
  }

  // ---- the critical sections -------------------------------------------------------------------------------

  class Pool {
    const queue: RequestList
    var threads: nat
    var tokens: nat

    constructor ()
      ensures fresh(queue) && queue.Valid() && queue.items == [] && threads == 0 && tokens == 0
    {
      var q := new RequestList();
      queue, threads, tokens := q, 0, 0;
    }

    ghost predicate Shows(s: State)
      reads this, queue
    {
      s.pool == IdsOf(queue.items) && s.tokens == tokens && |s.workers| == threads
    }

    /**
     * pool_submit, called by loop l: the request is inserted and the semaphore released, or refused. Starting a thread
     * can fail, which only matters when there is none.
     */
    method Submit(req: Request, started: bool, ghost s: State, ghost l: nat) returns (ok: bool)
      requires queue.Valid() && req !in queue.items
      requires Shows(s) && l < |s.loops| && s.loops[l].call == Submitting(req.id)
      modifies this, queue, req`next, (if queue.tail != null then {queue.tail} else {})`next
      ensures queue.Valid()
      ensures ok <==> old(threads) > 0 || started
      ensures queue.items == (if ok then old(queue.items) + [req] else old(queue.items))
      ensures threads == old(threads) + (if old(threads) < POOL_THREADS && started then 1 else 0)
        || (old(threads) >= POOL_THREADS && threads == old(threads))
      ensures tokens == old(tokens) + (if ok then 1 else 0)
      ensures var insert := Insert(l, old(threads) < POOL_THREADS && started);
        if ok then Enabled(s, insert) && Enabled(Do(s, insert), Release(l)) && Shows(Do(Do(s, insert), Release(l)))
        else Enabled(s, Refuse(l)) && Shows(Do(s, Refuse(l)))
    {
      if threads < POOL_THREADS {
        if started {
          threads := threads + 1;
        } else if threads == 0 {
          return false;
        }
      }
      queue.Append(req);
      tokens := tokens + 1;
      ok := true;
    }
  }

  /** The marks that uv_cancel sets are those that the system records. */
  ghost predicate Marked(reqs: seq<Request>, cancelled: set<Id>)
    reads reqs
  {
    forall i | 0 <= i < |reqs| :: reqs[i].canceled <==> reqs[i].id in cancelled
  }

  class LoopState {
    const done: RequestList
    var kick: bool
    var nreqs: int
    ghost var delivered: seq<Request>

    constructor ()
      ensures fresh(done) && done.Valid() && done.items == [] && !kick && nreqs == 0 && delivered == []
    {
      var d := new RequestList();
      done, kick, nreqs, delivered := d, false, 0, [];
    }

    ghost predicate Shows(s: State, l: nat)
      reads this, done, done.items
    {
      && l < |s.loops| && s.loops[l].done == IdsOf(done.items) && s.loops[l].kick == kick && s.loops[l].nreqs == nreqs
      && Marked(done.items, s.cancelled)
    }

    method ReqDone(req: Request)
      requires done.Valid() && req !in done.items
      modifies `kick, done, req`next, (if done.tail != null then {done.tail} else {})`next
      ensures done.Valid() && done.items == old(done.items) + [req] && kick
    {
      done.Append(req);
      kick := true;
    }

    /**
     * run_pending of loop l, with callbacks that submit nothing: everything on the done list is delivered in order,
     * once, as the drain of the interleaved system does it.
     */
    method RunPending(ghost s: State, ghost l: nat)
      requires done.Valid() && Shows(s, l) && s.loops[l].call == Free
      modifies this, done
      ensures Shows(Drained(s, l), l)
      ensures done.Valid() && done.items == [] && !kick
      ensures nreqs == old(nreqs) - |old(done.items)|
      ensures delivered == old(delivered) + old(done.items)
    {
      hide Chained;
      kick := false;
      var req := done.Pop();
      while req != null
        invariant done.Valid() && !kick
        invariant req == null ==> done.items == [] && delivered == old(delivered) + old(done.items)
        invariant req != null ==> delivered + [req] + done.items == old(delivered) + old(done.items)
        invariant nreqs - |done.items| - (if req != null then 1 else 0) == old(nreqs) - |old(done.items)|
        decreases |done.items|, req != null
      {
        nreqs := nreqs - 1;
        delivered := delivered + [req];
        req := done.Pop();
      }
    }
  }

  ghost predicate Apart(s: seq<Request>, t: seq<Request>) {
    && (forall i | 0 <= i < |s| :: s[i] !in t)
    && (forall i | 0 <= i < |t| :: t[i] !in s)
  }

  lemma StillApart(s: seq<Request>, s': seq<Request>, t: seq<Request>, req: Request)
    requires Apart(s, t) && Unlinked(s, s', req) && forall i, j | 0 <= i < j < |s| :: s[i] != s[j]
    ensures Apart(s', t) && req !in s' && req !in t && Apart(s', t + [req])
  {
    var i :| 0 <= i < |s| && s[i] == req && s' == s[..i] + s[i + 1..];
    forall j | 0 <= j < |s'| ensures s'[j] !in t && s'[j] != req {
      assert s'[j] == s[if j < i then j else j + 1];
    }
  }

  /** Ids stand for addresses. */
  ghost predicate Only(reqs: seq<Request>, req: Request) {
    forall i | 0 <= i < |reqs| :: reqs[i].id == req.id ==> reqs[i] == req
  }

  lemma OnlyOne(reqs: seq<Request>, req: Request)
    requires Only(reqs, req)
    ensures req.id in IdsOf(reqs) <==> req in reqs
  {
    if req in reqs {
      var i :| 0 <= i < |reqs| && reqs[i] == req;
      assert IdsOf(reqs)[i] == req.id;
    }
  }

  /** What cancelling a queued request leaves of the interleaved system: off the pool, on its loop's done list. */
  lemma CancelIs(s: State, l: nat, o: nat, r: Id)
    requires l < |s.loops| && s.loops[l].call == Free && r in s.pool && r in s.owner && s.owner[r] == o < |s.loops|
    ensures Enabled(Do(s, Step.Cancel(l, r)), CancelDone(l))
    ensures var u := Do(Do(s, Step.Cancel(l, r)), CancelDone(l));
      && u.pool == Without(s.pool, r) && u.cancelled == s.cancelled + {r} && |u.loops| == |s.loops|
      && u.loops[o].done == s.loops[o].done + [r] && u.loops[o].kick && u.loops[o].nreqs == s.loops[o].nreqs
  {
    hide Without;
  }

  method MarkDone(lp: LoopState, req: Request, ghost cancelled: set<Id>)
    requires lp.done.Valid() && req !in lp.done.items && Marked(lp.done.items, cancelled)
    requires forall i | 0 <= i < |lp.done.items| :: lp.done.items[i].id != req.id
    modifies lp`kick, lp.done, req, (if lp.done.tail != null then {lp.done.tail} else {})`next
    ensures lp.done.Valid() && lp.done.items == old(lp.done.items) + [req] && lp.kick && req.canceled
    ensures Marked(lp.done.items, cancelled + {req.id})
  {
    hide Chained;
    req.canceled := true;
    ghost var d := lp.done.items;
    lp.ReqDone(req);
    assert forall i | 0 <= i < |d| :: d[i].canceled == old(d[i].canceled);
  }

  /**
   * uv_cancel, called by loop l on a request of loop o: a queued request moves from the pool to its loop's done list,
   * marked; any other is busy.
   */
  method Cancel(queue: RequestList, lp: LoopState, req: Request, ghost s: State, ghost l: nat, ghost o: nat)
    returns (ok: bool)
    requires queue.Valid() && lp.done.Valid() && queue != lp.done && Apart(queue.items, lp.done.items)
    requires s.pool == IdsOf(queue.items) && lp.Shows(s, o) && l < |s.loops| && s.loops[l].call == Free
    requires req.id in s.owner && s.owner[req.id] == o
    requires Distinct(queue.items) && Only(queue.items, req) && Only(lp.done.items, req)
    modifies queue, lp`kick, lp.done, req, queue.items`next, lp.done.items`next
    ensures queue.Valid() && lp.done.Valid() && Apart(queue.items, lp.done.items)
    ensures ok <==> req in old(queue.items)
    ensures !ok ==> queue.items == old(queue.items) && lp.done.items == old(lp.done.items)
    ensures !ok ==> Do(s, Step.Cancel(l, req.id)) == s && lp.Shows(s, o)
    ensures ok ==> req.canceled && lp.kick && lp.done.items == old(lp.done.items) + [req]
    ensures ok ==> Unlinked(old(queue.items), queue.items, req)
    ensures ok ==> Enabled(Do(s, Step.Cancel(l, req.id)), CancelDone(l))
    ensures ok ==>
      var u := Do(Do(s, Step.Cancel(l, req.id)), CancelDone(l)); u.pool == IdsOf(queue.items) && lp.Shows(u, o)
  {
    hide Unlinked, Do, Enabled, Chained, Marked, Without;
    ghost var was, d := queue.items, lp.done.items;
    OnlyOne(was, req);
    ok := RemoveApart(queue, lp.done, req, s.cancelled);
    if ok {
      ghost var q := queue.items;
      CancelIs(s, l, o, req.id);
      UnlinkIsWithout(was, q, req);
      assert forall i | 0 <= i < |q| :: q[i] != req && q[i] !in d;
      assert forall i | 0 <= i < |d| :: d[i] != req && d[i].id != req.id;
      MarkDone(lp, req, s.cancelled);
      assert IdsOf(d + [req]) == IdsOf(d) + [req.id];
    } else {
      BusyIs(s, l, req.id);
    }
  }

  lemma BusyIs(s: State, l: nat, r: Id)
    requires l < |s.loops| && s.loops[l].call == Free && r !in s.pool
    ensures Do(s, Step.Cancel(l, r)) == s
  {
  }

  method RemoveApart(queue: RequestList, done: RequestList, req: Request, ghost cancelled: set<Id>) returns (ok: bool)
    requires Marked(done.items, cancelled) && queue.Valid() && done.Valid() && queue != done
    requires Apart(queue.items, done.items)
    modifies queue, queue.items`next
    ensures queue.Valid() && done.Valid() && Apart(queue.items, done.items) && done.items == old(done.items)
    ensures Marked(done.items, cancelled)
    ensures ok <==> req in old(queue.items)
    ensures !ok ==> queue.items == old(queue.items)
    ensures ok ==> Unlinked(old(queue.items), queue.items, req)
    ensures ok ==> req !in queue.items && req !in done.items && Apart(queue.items, done.items + [req])
  {
    hide Unlinked;
    ok := queue.Remove(req);
    if ok {
      StillApart(old(queue.items), queue.items, done.items, req);
    }
  }
}
