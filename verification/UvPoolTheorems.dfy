/** What holds of every schedule of the thread pool, and that no request is stranded. */
module UvPoolTheorems {
  import opened Sequences
  import opened UvPool
  import opened UvPoolInvariants

  /** How often r is on an intrusive list or at a worker: the pool queue, a worker, or any done list. */
  function Linked(s: State, r: Id): nat { Count(s.pool, r) + HeldBy(s.workers, r) + OnDone(s.loops, r) }

  function OnDone(ls: seq<Loop>, r: Id): nat {
    if ls == [] then 0 else Count(ls[0].done, r) + OnDone(ls[1..], r)
  }

  lemma {:induction false} DoneIsReturned(ls: seq<Loop>, r: Id)
    ensures OnDone(ls, r) <= ReturnedTo(ls, r)
  {
    if ls != [] {
      DoneIsReturned(ls[1..], r);
    }
  }

  lemma ReachableInv(s0: State, steps: seq<Step>, s: State)
    requires Initial(s0) && Runs(s0, steps, s)
    ensures Inv(s)
  {
    InitialInv(s0);
    RunKeepsInv(s0, steps, s);
  }

  /** In every schedule a request is linked once at most, is executed once at most, and is delivered once at most. */
  lemma OnePlaceOnly(s0: State, steps: seq<Step>, s: State, r: Id)
    requires Initial(s0) && Runs(s0, steps, s)
    ensures Linked(s, r) + Count(Ids(s.delivered), r) <= 1
    ensures Count(s.started, r) <= 1
  {
    hide Runs, Initial, Count, HeldBy, OnDone, ReturnedTo, SubmittedBy;
    ReachableInv(s0, steps, s);
    DoneIsReturned(s.loops, r);
    assert Early(s, r) + Count(s.refused, r) + Late(s, r) == One(r in s.owner);
    assert Count(s.started, r) + One(r in s.cancelled) == Late(s, r);
  }

  /** A cancelled request is never executed and reports UV_ECANCELED; any other delivered one was executed once. */
  lemma CancelledNeverRuns(s0: State, steps: seq<Step>, s: State, i: nat)
    requires Initial(s0) && Runs(s0, steps, s)
    ensures forall r :: !(r in s.cancelled && r in s.started)
    ensures i < |s.delivered| ==> var d := s.delivered[i];
      && (d.status == Canceled <==> d.r in s.cancelled)
      && Count(s.started, d.r) == One(d.status == Completed)
  {
    hide Runs, Initial, Count, HeldBy, ReturnedTo, SubmittedBy;
    ReachableInv(s0, steps, s);
    forall r ensures !(r in s.cancelled && r in s.started) {
      assert Early(s, r) + Count(s.refused, r) + Late(s, r) == One(r in s.owner);
      assert Count(s.started, r) + One(r in s.cancelled) == Late(s, r);
      CountPositive(s.started, r);
    }
    if i < |s.delivered| {
      var r := s.delivered[i].r;
      assert Ids(s.delivered)[i] == r;
      CountPositive(Ids(s.delivered), r);
      assert Early(s, r) + Count(s.refused, r) + Late(s, r) == One(r in s.owner);
      assert Count(s.started, r) + One(r in s.cancelled) == Late(s, r);
    }
  }

  /** Executions start in the order of insertion, skipping only cancelled requests; nreqs is what is outstanding. */
  lemma FirstInFirstExecuted(s0: State, steps: seq<Step>, s: State)
    requires Initial(s0) && Runs(s0, steps, s)
    ensures s.started <= Kept(s.inserted, s.cancelled)
    ensures forall l | 0 <= l < |s.loops| :: s.loops[l].nreqs == |Outstanding(s, l)|
  {
    hide Runs, Initial;
    ReachableInv(s0, steps, s);
  }

  // ---- nothing is stranded ---------------------------------------------------------------------------------

  /** Steps that need no new request, no cancellation and no spurious turn of a loop. */
  predicate Progress(s: State, step: Step)
    requires Enabled(s, step)
  {
    && !step.QueueWork? && !step.Cancel?
    && (step.BeginDrain? ==> s.loops[step.l].kick)
  }

  predicate Moving(s: State, step: Step) { Enabled(s, step) && Progress(s, step) }

  ghost predicate CanMove(s: State) {
    exists step :: Moving(s, step)
  }

  lemma ItMoves(s: State, step: Step)
    requires Moving(s, step)
    ensures CanMove(s)
  {
  }

  lemma HeldByPositive(ws: seq<Worker>, w: nat)
    requires w < |ws| && (ws[w].Running? || ws[w].Finished?)
    ensures HeldBy(ws, ws[w].r) > 0
  {
    HeldByUpdate(ws, w, ws[w], ws[w].r);
    HeldByUpdate(ws, w, Waiting, ws[w].r);
  }

  /** A worker that does not wait can move, and so can a loop thread that is not free or has something to deliver. */
  lemma BusyWorkerMoves(s: State, w: nat)
    requires Conserved(s) && Owned(s) && w < |s.workers| && s.workers[w] != Waiting
    ensures CanMove(s)
  {
    match s.workers[w] {
      case Woken => ItMoves(s, Take(w));
      case Running(r) => ItMoves(s, Finish(w));
      case Finished(r) =>
        HeldByPositive(s.workers, w);
        assert Early(s, r) + Count(s.refused, r) + Late(s, r) == One(r in s.owner);
        ItMoves(s, Complete(w));
    }
  }

  lemma BusyLoopMoves(s: State, l: nat)
    requires Conserved(s) && Owned(s) && Told(s) && l < |s.loops| && (s.loops[l].call != Free || s.loops[l].done != [])
    ensures CanMove(s)
  {
    hide Do, Count, HeldBy, SubmittedBy, ReturnedTo, CanMove;
    var lp := s.loops[l];
    match lp.call {
      case Free =>
        if lp.draining {
          ItMoves(s, Pop(l));
        } else {
          ItMoves(s, BeginDrain(l));
        }
      case Submitting(r) =>
        var step := Insert(l, |s.workers| == 0);
        ItMoves(s, step);
      case Releasing => ItMoves(s, Release(l));
      case Cancelling(r) =>
        LoopUpdate(s.loops, l, lp, r);
        assert Early(s, r) + Count(s.refused, r) + Late(s, r) == One(r in s.owner);
        ItMoves(s, CancelDone(l));
      case Popped(r) => ItMoves(s, Deliver(l));
    }
  }

  lemma {:induction false} AllWaiting(ws: seq<Worker>, r: Id)
    requires forall w | 0 <= w < |ws| :: ws[w] == Waiting
    ensures Wakes(ws) == 0 && HeldBy(ws, r) == 0
  {
    if ws != [] { AllWaiting(ws[1..], r); }
  }

  lemma {:induction false} AllFree(ls: seq<Loop>, r: Id)
    requires forall l | 0 <= l < |ls| :: ls[l].call == Free && ls[l].done == []
    ensures Releases(ls) == 0 && SubmittedBy(ls, r) == 0 && ReturnedTo(ls, r) == 0
  {
    if ls != [] { AllFree(ls[1..], r); }
  }

  /** At most four workers in any run, and while there are fewer an insertion can start one more. */
  lemma FourWorkers(s0: State, steps: seq<Step>, s: State)
    requires Initial(s0) && Runs(s0, steps, s)
    ensures |s.workers| <= 4
    ensures forall l | 0 <= l < |s.loops| && s.loops[l].call.Submitting? ::
      Enabled(s, Insert(l, true)) <==> |s.workers| < 4
    ensures forall l | 0 <= l < |s.loops| && Enabled(s, Insert(l, true)) ::
      |Do(s, Insert(l, true)).workers| == |s.workers| + 1
  {
    ReachableInv(s0, steps, s);
  }

  /** No request is stranded: when nothing can move any more, every submitted request was delivered or refused. */
  lemma StuckMeansDelivered(s: State, r: Id)
    requires Inv(s) && !CanMove(s) && r in s.owner
    ensures r in Ids(s.delivered) || r in s.refused
    ensures s.pool == []
  {
    hide Counted, Truthful, InOrder, Accounted, HeldBy, SubmittedBy, ReturnedTo, CanMove, Owned, Told, Covered;
    forall w | 0 <= w < |s.workers| ensures s.workers[w] == Waiting {
      if s.workers[w] != Waiting { BusyWorkerMoves(s, w); }
    }
    forall l | 0 <= l < |s.loops| ensures s.loops[l].call == Free && s.loops[l].done == [] {
      if s.loops[l].call != Free || s.loops[l].done != [] { BusyLoopMoves(s, l); }
    }
    AllWaiting(s.workers, r);
    AllFree(s.loops, r);
    if s.pool != [] { QueuedIsTaken(s); }
    assert Early(s, r) + Count(s.refused, r) + Late(s, r) == One(r in s.owner);
    CountPositive(s.refused, r);
    CountPositive(Ids(s.delivered), r);
  }

  lemma QueuedIsTaken(s: State)
    requires Covered(s) && Releases(s.loops) == 0 && Wakes(s.workers) == 0 && s.pool != []
    requires forall w | 0 <= w < |s.workers| :: s.workers[w] == Waiting
    ensures CanMove(s)
  {
    ItMoves(s, Wake(0));
  }

  // ---- and moving always ends ------------------------------------------------------------------------------

  function CallWork(call: Call): nat {
    match call
    case Free => 0
    case Submitting(_) => 10
    case Releasing => 3
    case Cancelling(_) => 5
    case Popped(_) => 1
  }

  function LoopWork(lp: Loop): nat {
    CallWork(lp.call) + 2 * |lp.done| + 2 * One(lp.kick) + One(lp.draining)
  }

  function WorkerWork(w: Worker): nat {
    match w
    case Waiting => 0
    case Woken => 1
    case Running(_) => 6
    case Finished(_) => 5
  }

  function LoopsWork(ls: seq<Loop>): nat { if ls == [] then 0 else LoopWork(ls[0]) + LoopsWork(ls[1..]) }
  function WorkersWork(ws: seq<Worker>): nat { if ws == [] then 0 else WorkerWork(ws[0]) + WorkersWork(ws[1..]) }

  function Work(s: State): nat {
    6 * |s.pool| + 2 * s.tokens + LoopsWork(s.loops) + WorkersWork(s.workers)
  }

  lemma {:induction false} LoopsWorkUpdate(ls: seq<Loop>, l: nat, lp: Loop)
    requires l < |ls|
    ensures LoopsWork(ls[l := lp]) == LoopsWork(ls) - LoopWork(ls[l]) + LoopWork(lp)
  {
    if l == 0 {
      assert ls[0 := lp][1..] == ls[1..];
    } else {
      assert ls[l := lp][1..] == ls[1..][l - 1 := lp];
      LoopsWorkUpdate(ls[1..], l - 1, lp);
    }
  }

  lemma {:induction false} WorkersWorkUpdate(ws: seq<Worker>, w: nat, x: Worker)
    requires w < |ws|
    ensures WorkersWork(ws[w := x]) == WorkersWork(ws) - WorkerWork(ws[w]) + WorkerWork(x)
  {
    if w == 0 {
      assert ws[0 := x][1..] == ws[1..];
    } else {
      assert ws[w := x][1..] == ws[1..][w - 1 := x];
      WorkersWorkUpdate(ws[1..], w - 1, x);
    }
  }

  lemma {:induction false} WorkersWorkAppend(ws: seq<Worker>)
    ensures WorkersWork(ws + [Waiting]) == WorkersWork(ws)
  {
    if ws == [] {
      assert ws + [Waiting] == [Waiting];
    } else {
      assert (ws + [Waiting])[1..] == ws[1..] + [Waiting];
      WorkersWorkAppend(ws[1..]);
    }
  }

  lemma ReqDoneWork(s: State, r: Id)
    requires Known(s, r)
    ensures LoopsWork(ReqDone(s, r).loops) <= LoopsWork(s.loops) + 4
  {
    LoopsWorkUpdate(s.loops, s.owner[r], ReqDone(s, r).loops[s.owner[r]]);
  }

  lemma ProgressWorks(s: State, step: Step)
    requires Enabled(s, step) && Progress(s, step)
    ensures Work(Do(s, step)) < Work(s)
  {
    hide Without, LoopsWork, WorkersWork;
    var t := Do(s, step);
    match step {
      case Insert(l, thread) =>
        LoopsWorkUpdate(s.loops, l, t.loops[l]);
        WorkersWorkAppend(s.workers);
      case Refuse(l) => LoopsWorkUpdate(s.loops, l, t.loops[l]);
      case Release(l) => LoopsWorkUpdate(s.loops, l, t.loops[l]);
      case Wake(w) => WorkersWorkUpdate(s.workers, w, t.workers[w]);
      case Take(w) => WorkersWorkUpdate(s.workers, w, t.workers[w]);
      case Finish(w) => WorkersWorkUpdate(s.workers, w, t.workers[w]);
      case Complete(w) =>
        WorkersWorkUpdate(s.workers, w, t.workers[w]);
        ReqDoneWork(s, s.workers[w].r);
      case CancelDone(l) =>
        LoopsWorkUpdate(s.loops, l, SetCall(s, l, Free).loops[l]);
        ReqDoneWork(SetCall(s, l, Free), s.loops[l].call.r);
      case BeginDrain(l) => LoopsWorkUpdate(s.loops, l, t.loops[l]);
      case Pop(l) => LoopsWorkUpdate(s.loops, l, t.loops[l]);
      case Deliver(l) => LoopsWorkUpdate(s.loops, l, t.loops[l]);
    }
  }

  predicate ProgressRun(s: State, steps: seq<Step>, t: State)
    decreases |steps|
  {
    if steps == [] then s == t
    else Enabled(s, steps[0]) && Progress(s, steps[0]) && ProgressRun(Do(s, steps[0]), steps[1..], t)
  }

  /**
   * Without new requests every schedule is finite, whatever its order; with StuckMeansDelivered, it delivers
   * everything.
   */
  lemma {:induction false} ProgressEnds(s: State, steps: seq<Step>, t: State)
    requires ProgressRun(s, steps, t)
    ensures |steps| + Work(t) <= Work(s)
    decreases |steps|
  {
    hide Work, Enabled, Do, Progress;
    if steps != [] {
      ProgressWorks(s, steps[0]);
      ProgressEnds(Do(s, steps[0]), steps[1..], t);
    }
  }

  /** Semaphore tokens, releases under way and woken workers always cover the queue. */
  lemma TokensCoverQueue(s0: State, steps: seq<Step>, s: State)
    requires Initial(s0) && Runs(s0, steps, s)
    ensures s.tokens + Releases(s.loops) + Wakes(s.workers) >= |s.pool|
    ensures s.pool != [] ==> s.workers != []
  {
    hide Runs, Initial;
    ReachableInv(s0, steps, s);
  }
}
