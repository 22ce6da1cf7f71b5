/** The thread pool as an interleaving of loop threads and workers, one step per critical section. */
module UvPool {
  import opened Sequences

  type Id = nat

  const POOL_THREADS := 4

  datatype Worker = Waiting | Woken | Running(r: Id) | Finished(r: Id)

  /** What a loop thread is in the middle of. */
  datatype Call = Free | Submitting(r: Id) | Releasing | Cancelling(r: Id) | Popped(r: Id)

  datatype Loop = Loop(call: Call, draining: bool, kick: bool, done: seq<Id>, nreqs: int)

  datatype Status = Completed | Canceled

  datatype Delivery = Delivery(r: Id, status: Status)

  /** pool, tokens, workers and loops are the program's; the rest records what has happened. */
  datatype State = State(
    pool: seq<Id>, tokens: nat, workers: seq<Worker>, loops: seq<Loop>,
    owner: map<Id, nat>, inserted: seq<Id>, started: seq<Id>, cancelled: set<Id>,
    delivered: seq<Delivery>, refused: seq<Id>)

  datatype Step =
    | QueueWork(l: nat, r: Id)
    | Insert(l: nat, thread: bool)
    | Refuse(l: nat)
    | Release(l: nat)
    | Wake(w: nat)
    | Take(w: nat)
    | Finish(w: nat)
    | Complete(w: nat)
    | Cancel(l: nat, r: Id)
    | CancelDone(l: nat)
    | BeginDrain(l: nat)
    | Pop(l: nat)
    | Deliver(l: nat)

  function IndexOf(s: seq<Id>, r: Id): (i: nat)
    requires r in s
    ensures i < |s| && s[i] == r
  {
    if s[0] == r then 0 else 1 + IndexOf(s[1..], r)
  }

  /** A queue without one of its elements, as unlinking leaves it. */
  function Without(s: seq<Id>, r: Id): seq<Id> {
    if r in s then s[..IndexOf(s, r)] + s[IndexOf(s, r) + 1..] else s
  }

  predicate Enabled(s: State, step: Step) {
    match step
    case QueueWork(l, r) => l < |s.loops| && s.loops[l].call == Free && r !in s.owner
    case Insert(l, thread) =>
      && l < |s.loops| && s.loops[l].call.Submitting?
      && (thread ==> |s.workers| < POOL_THREADS) && (!thread ==> |s.workers| > 0)
    case Refuse(l) => l < |s.loops| && s.loops[l].call.Submitting? && |s.workers| == 0
    case Release(l) => l < |s.loops| && s.loops[l].call.Releasing?
    case Wake(w) => w < |s.workers| && s.workers[w].Waiting? && s.tokens > 0
    case Take(w) => w < |s.workers| && s.workers[w].Woken?
    case Finish(w) => w < |s.workers| && s.workers[w].Running?
    case Complete(w) => w < |s.workers| && s.workers[w].Finished? && Known(s, s.workers[w].r)
    case Cancel(l, r) => l < |s.loops| && s.loops[l].call == Free
    case CancelDone(l) => l < |s.loops| && s.loops[l].call.Cancelling? && Known(s, s.loops[l].call.r)
    case BeginDrain(l) => l < |s.loops| && s.loops[l].call == Free
    case Pop(l) => l < |s.loops| && s.loops[l].call == Free && s.loops[l].draining
    case Deliver(l) => l < |s.loops| && s.loops[l].call.Popped?
  }

  predicate Known(s: State, r: Id) { r in s.owner && s.owner[r] < |s.loops| }

  function SetCall(s: State, l: nat, call: Call): State
    requires l < |s.loops|
  {
    s.(loops := s.loops[l := s.loops[l].(call := call)])
  }

  /** req_done: to the tail of the done list of the request's loop, which is told. */
  function ReqDone(s: State, r: Id): State
    requires Known(s, r)
  {
    var lp := s.loops[s.owner[r]];
    s.(loops := s.loops[s.owner[r] := lp.(done := lp.done + [r], kick := true)])
  }

  function Do(s: State, step: Step): State
    requires Enabled(s, step)
  {
    match step
    case QueueWork(l, r) =>
      var lp := s.loops[l];
      s.(loops := s.loops[l := lp.(call := Submitting(r), nreqs := lp.nreqs + 1)], owner := s.owner[r := l])
    case Insert(l, thread) =>
      var r := s.loops[l].call.r;
      SetCall(s, l, Releasing).(
        pool := s.pool + [r], inserted := s.inserted + [r],
        workers := if thread then s.workers + [Waiting] else s.workers)
    case Refuse(l) =>
      var lp := s.loops[l];
      s.(loops := s.loops[l := lp.(call := Free, nreqs := lp.nreqs - 1)], refused := s.refused + [lp.call.r])
    case Release(l) => SetCall(s, l, Free).(tokens := s.tokens + 1)
    case Wake(w) => s.(workers := s.workers[w := Woken], tokens := s.tokens - 1)
    case Take(w) =>
      if s.pool == [] then s.(workers := s.workers[w := Waiting])
      else s.(workers := s.workers[w := Running(s.pool[0])], pool := s.pool[1..], started := s.started + [s.pool[0]])
    case Finish(w) => s.(workers := s.workers[w := Finished(s.workers[w].r)])
    case Complete(w) => ReqDone(s, s.workers[w].r).(workers := s.workers[w := Waiting])
    case Cancel(l, r) =>
      if r !in s.pool then s
      else SetCall(s, l, Cancelling(r)).(pool := Without(s.pool, r), cancelled := s.cancelled + {r})
    case CancelDone(l) => ReqDone(SetCall(s, l, Free), s.loops[l].call.r)
    case BeginDrain(l) => s.(loops := s.loops[l := s.loops[l].(draining := true, kick := false)])
    case Pop(l) =>
      var lp := s.loops[l];
      if lp.done == [] then s.(loops := s.loops[l := lp.(draining := false)])
      else s.(loops := s.loops[l := lp.(call := Popped(lp.done[0]), done := lp.done[1..])])
    case Deliver(l) =>
      var lp := s.loops[l];
      var r := lp.call.r;
      s.(loops := s.loops[l := lp.(call := Free, nreqs := lp.nreqs - 1)],
         delivered := s.delivered + [Delivery(r, if r in s.cancelled then Canceled else Completed)])
  }

  predicate Initial(s: State) {
    && s.pool == [] && s.tokens == 0 && s.workers == [] && s.owner == map[]
    && s.inserted == [] && s.started == [] && s.cancelled == {} && s.delivered == [] && s.refused == []
    && forall l | 0 <= l < |s.loops| :: s.loops[l] == Loop(Free, false, false, [], 0)
  }

  /** The states that a schedule can reach. */
  predicate Runs(s: State, steps: seq<Step>, t: State)
    decreases |steps|
  {
    if steps == [] then s == t
    else Enabled(s, steps[0]) && Runs(Do(s, steps[0]), steps[1..], t)
  }

  // ---- where the requests are ------------------------------------------------------------------------------

  function HeldBy(ws: seq<Worker>, r: Id): nat {
    if ws == [] then 0 else Holds(ws[0], r) + HeldBy(ws[1..], r)
  }

  function Holds(w: Worker, r: Id): nat { One((w.Running? || w.Finished?) && w.r == r) }

  function SubmittedBy(ls: seq<Loop>, r: Id): nat {
    if ls == [] then 0 else Submits(ls[0], r) + SubmittedBy(ls[1..], r)
  }

  function Submits(lp: Loop, r: Id): nat { One(lp.call.Submitting? && lp.call.r == r) }

  function ReturnedTo(ls: seq<Loop>, r: Id): nat {
    if ls == [] then 0 else Returns(ls[0], r) + ReturnedTo(ls[1..], r)
  }

  function Returns(lp: Loop, r: Id): nat {
    One((lp.call.Cancelling? || lp.call.Popped?) && lp.call.r == r) + Count(lp.done, r)
  }

  function Ids(ds: seq<Delivery>): (ids: seq<Id>)
    ensures |ids| == |ds| && forall i | 0 <= i < |ds| :: ids[i] == ds[i].r
  {
    seq(|ds|, i requires 0 <= i < |ds| => ds[i].r)
  }

  /** Places where no worker has taken r and nobody has cancelled it. */
  function Early(s: State, r: Id): nat { Count(s.pool, r) + SubmittedBy(s.loops, r) }

  /** Places after that: at a worker, on its way to a done list, on one, or delivered. */
  function Late(s: State, r: Id): nat {
    HeldBy(s.workers, r) + ReturnedTo(s.loops, r) + Count(Ids(s.delivered), r)
  }

  /** Every submitted request is in exactly one place, and no other request is anywhere. */
  ghost predicate Conserved(s: State) {
    forall r :: Early(s, r) + Count(s.refused, r) + Late(s, r) == One(r in s.owner)
  }

  /** The requests past the pool are those that started, once each, and those that were cancelled; never both. */
  ghost predicate Accounted(s: State) {
    forall r :: Count(s.started, r) + One(r in s.cancelled) == Late(s, r)
  }

  // ---- the other invariants --------------------------------------------------------------------------------

  /** The requests of a loop that are neither delivered nor refused. */
  function Outstanding(s: State, l: nat): set<Id> {
    set r | r in s.owner && s.owner[r] == l && r !in Ids(s.delivered) && r !in s.refused
  }

  predicate Counted(s: State) {
    forall l | 0 <= l < |s.loops| :: s.loops[l].nreqs == |Outstanding(s, l)|
  }

  /**
   * A loop thread that submits or delivers, and a done list, only has requests of that loop (it may cancel anybody's).
   */
  predicate Mine(owner: map<Id, nat>, l: nat, lp: Loop) {
    && (forall i | 0 <= i < |lp.done| :: lp.done[i] in owner && owner[lp.done[i]] == l)
    && ((lp.call.Submitting? || lp.call.Popped?) ==> lp.call.r in owner && owner[lp.call.r] == l)
  }

  predicate Owned(s: State) {
    && (forall r | r in s.owner :: s.owner[r] < |s.loops|)
    && (forall l | 0 <= l < |s.loops| :: Mine(s.owner, l, s.loops[l]))
  }

  predicate Truthful(s: State) {
    forall i | 0 <= i < |s.delivered| :: s.delivered[i].status == Canceled <==> s.delivered[i].r in s.cancelled
  }

  function Wakes(ws: seq<Worker>): nat { if ws == [] then 0 else (if ws[0].Woken? then 1 else 0) + Wakes(ws[1..]) }
  function Releases(ls: seq<Loop>): nat {
    if ls == [] then 0 else (if ls[0].call.Releasing? then 1 else 0) + Releases(ls[1..])
  }

  /** There is a token, a release under way or a woken worker for every queued request, and somebody to take it. */
  predicate Covered(s: State) {
    && s.tokens + Releases(s.loops) + Wakes(s.workers) >= |s.pool|
    && (s.workers == [] ==> s.pool == [])
    && |s.workers| <= POOL_THREADS
  }

  /** A loop with something to deliver is being drained or has been told. */
  predicate Told(s: State) {
    forall l | 0 <= l < |s.loops| :: s.loops[l].done != [] ==> s.loops[l].kick || s.loops[l].draining
  }

  function Kept(ids: seq<Id>, gone: set<Id>): seq<Id> {
    if ids == [] then []
    else (if ids[0] in gone then [] else [ids[0]]) + Kept(ids[1..], gone)
  }

  /** Requests start in the order of insertion; only cancelled ones are skipped. */
  predicate InOrder(s: State) {
    s.started + s.pool == Kept(s.inserted, s.cancelled)
  }

  ghost predicate Inv(s: State) {
    Conserved(s) && Accounted(s) && Counted(s) && Owned(s) && Truthful(s) && Covered(s) && Told(s) && InOrder(s)
  }
}
