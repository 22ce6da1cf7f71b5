/** What every schedule of thread-safe functions keeps: order, one finalizer, counts and liveness. */
module NapiTsfTheorems {
  import opened Sequences
  import opened NapiTsf

  // ---- queue lemmas ----------------------------------------------------------------------------------------

  lemma {:induction false} CallsAppend(tasks: seq<Task>, t: Task, f: nat)
    ensures Calls(tasks + [t], f) == Calls(tasks, f) + (if t.Call? && t.f == f then [t.data] else [])
  {
    if tasks == [] {
      assert tasks + [t] == [t];
    } else {
      assert (tasks + [t])[1..] == tasks[1..] + [t];
      CallsAppend(tasks[1..], t, f);
      Regroup(if tasks[0].Call? && tasks[0].f == f then [tasks[0].data] else [], Calls(tasks[1..], f),
        if t.Call? && t.f == f then [t.data] else []);
    }
  }

  lemma {:induction false} CountsAppend(tasks: seq<Task>, t: Task, f: nat)
    ensures Closings(tasks + [t], f) == Closings(tasks, f) + One(t == Close(f))
    ensures Works(tasks + [t]) == Works(tasks) + One(t.Work?)
  {
    if tasks == [] {
      assert tasks + [t] == [t];
    } else {
      assert (tasks + [t])[1..] == tasks[1..] + [t];
      CountsAppend(tasks[1..], t, f);
    }
  }

  lemma {:induction false} NoClosings(tasks: seq<Task>, f: nat, i: nat)
    requires i < |tasks| && Closings(tasks, f) == 0
    ensures tasks[i] != Close(f)
  {
    if i > 0 { NoClosings(tasks[1..], f, i - 1); }
  }

  lemma {:induction false} NoCalls(tasks: seq<Task>, f: nat)
    requires forall i | 0 <= i < |tasks| :: !(tasks[i].Call? && tasks[i].f == f)
    ensures Calls(tasks, f) == []
  {
    if tasks != [] {
      assert !(tasks[0].Call? && tasks[0].f == f);
      NoCalls(tasks[1..], f);
    }
  }

  lemma {:induction false} RefsUpdate(fns: seq<Fn>, f: nat, fn: Fn)
    requires f < |fns|
    ensures Refs(fns[f := fn]) == Refs(fns) - One(fns[f].refd && !fns[f].freed) + One(fn.refd && !fn.freed)
  {
    if f == 0 {
      assert fns[0 := fn][1..] == fns[1..];
    } else {
      assert fns[f := fn][1..] == fns[1..][f - 1 := fn];
      RefsUpdate(fns[1..], f - 1, fn);
    }
  }

  lemma {:induction false} RefsAppend(fns: seq<Fn>, fn: Fn)
    ensures Refs(fns + [fn]) == Refs(fns) + One(fn.refd && !fn.freed)
  {
    if fns == [] {
      assert fns + [fn] == [fn];
    } else {
      assert (fns + [fn])[1..] == fns[1..] + [fn];
      RefsAppend(fns[1..], fn);
    }
  }

  // ---- steps -----------------------------------------------------------------------------------------------

  lemma LocalAlive(s: State, step: Step)
    requires Alive(s) && Enabled(s, step) && !Drains(step)
    ensures Alive(Do(s, step))
  {
    hide Refs, Works;
    var t := Do(s, step);
    match step {
      case Create(threads, maxQueue) => RefsAppend(s.fns, t.fns[|s.fns|]);
      case CallFn(f, data, _) =>
        RefsUpdate(s.fns, f, t.fns[f]);
        CountsAppend(s.tasks, Call(f, data), f);
      case Acquire(f) => RefsUpdate(s.fns, f, t.fns[f]);
      case Release(f, _) => RefsUpdate(s.fns, f, t.fns[f]);
      case PostClose(f) =>
        RefsUpdate(s.fns, f, t.fns[f]);
        CountsAppend(s.tasks, Close(f), f);
      case Ref(f) => RefsUpdate(s.fns, f, t.fns[f]);
      case Unref(f) => RefsUpdate(s.fns, f, t.fns[f]);
      case PostWork => CountsAppend(s.tasks, Work, 0);
      case _ =>
    }
  }

  lemma DrainAlive(s: State, step: Step)
    requires Alive(s) && Enabled(s, step) && Drains(step)
    requires step.Free? ==> !s.fns[s.drain.f].freed
    ensures Alive(Do(s, step))
  {
    hide Refs, Works;
    var t := Do(s, step);
    match step {
      case Take => WorkTaken(s.tasks);
      case Uncount => RefsUpdate(s.fns, s.drain.task.f, t.fns[s.drain.task.f]);
      case Deliver => RefsUpdate(s.fns, s.drain.f, t.fns[s.drain.f]);
      case Finalize => RefsUpdate(s.fns, s.drain.task.f, t.fns[s.drain.task.f]);
      case Free => RefsUpdate(s.fns, s.drain.f, s.fns[s.drain.f].(freed := true));
      case CompleteWork =>
    }
  }

  lemma StepAlive(s: State, step: Step)
    requires Inv(s) && Enabled(s, step)
    ensures Alive(Do(s, step))
  {
    hide Alive, Do;
    if Drains(step) {
      if step.Free? { assert FnInv(s, s.drain.f); }
      DrainAlive(s, step);
    } else {
      LocalAlive(s, step);
    }
  }

  lemma WorkTaken(tasks: seq<Task>)
    requires tasks != []
    ensures Works(tasks) == Works(tasks[1..]) + One(tasks[0].Work?)
  {
  }

  lemma StepTargets(s: State, step: Step)
    requires Targets(s) && Enabled(s, step)
    ensures Targets(Do(s, step))
  {
  }

  lemma CallTaken(tasks: seq<Task>, f: nat)
    requires tasks != []
    ensures Calls(tasks, f)
      == (if tasks[0].Call? && tasks[0].f == f then [tasks[0].data] else []) + Calls(tasks[1..], f)
    ensures Closings(tasks, f) == One(tasks[0] == Close(f)) + Closings(tasks[1..], f)
  {
  }

  predicate Drains(step: Step) {
    step.Take? || step.Uncount? || step.Deliver? || step.CompleteWork? || step.Finalize? || step.Free?
  }

  lemma LocalKeeps(s: State, step: Step, f: nat)
    requires (step.Create? || step.Ref? || step.Unref? || step.StartWork? || step.StartFails?)
    requires f < |s.fns| && FnInv(s, f) && Enabled(s, step)
    ensures FnInv(Do(s, step), f)
  {
    hide Calls, Closings, InFlight;
  }

  lemma AcquireKeeps(s: State, g: nat, f: nat)
    requires f < |s.fns| && FnInv(s, f) && Enabled(s, Acquire(g))
    ensures FnInv(Do(s, Acquire(g)), f)
  {
    hide Calls, Closings, InFlight;
  }

  lemma ReleaseKeeps(s: State, g: nat, abort: bool, f: nat)
    requires f < |s.fns| && FnInv(s, f) && Enabled(s, Release(g, abort))
    ensures FnInv(Do(s, Release(g, abort)), f)
  {
    hide Calls, Closings, InFlight;
  }

  lemma QueueCall(s: State, g: nat, data: Data, blocking: bool, f: nat)
    requires f < |s.fns| && FnInv(s, f) && Enabled(s, CallFn(g, data, blocking))
    ensures FnInv(Do(s, CallFn(g, data, blocking)), f)
  {
    hide Calls, Closings, InFlight;
    if CallStatus(s.fns[g], blocking) == Ok {
      CallsAppend(s.tasks, Call(g, data), f);
      CountsAppend(s.tasks, Call(g, data), f);
      if g == f {
        Regroup(s.fns[f].delivered + InFlight(s.drain, f), Calls(s.tasks, f), [data]);
        forall i | 0 <= i < |s.tasks| ensures s.tasks[i] != Close(f) {
          NoClosings(s.tasks, f, i);
        }
      }
    }
  }

  lemma QueueOther(s: State, step: Step, f: nat)
    requires (step.PostClose? || step.PostWork?) && f < |s.fns| && FnInv(s, f) && Enabled(s, step)
    ensures FnInv(Do(s, step), f)
  {
    hide Calls, Closings, InFlight;
    var task := if step.PostWork? then Work else Close(step.f);
    CallsAppend(s.tasks, task, f);
    CountsAppend(s.tasks, task, f);
  }

  lemma TakeKeeps(s: State, f: nat)
    requires f < |s.fns| && FnInv(s, f) && Enabled(s, Take)
    ensures FnInv(Do(s, Take), f)
  {
    hide Calls, Closings;
    CallTaken(s.tasks, f);
    if s.tasks[0] == Close(f) { NoCalls(s.tasks[1..], f); }
    if s.tasks[0].Call? && s.tasks[0].f == f {
      Regroup(s.fns[f].delivered, [s.tasks[0].data], Calls(s.tasks[1..], f));
    }
  }

  lemma UncountKeeps(s: State, step: Step, f: nat)
    requires (step.Uncount? || step.Deliver? || step.CompleteWork?) && f < |s.fns| && FnInv(s, f) && Enabled(s, step)
    ensures FnInv(Do(s, step), f)
  {
    hide Calls, Closings;
  }

  lemma FinishKeeps(s: State, step: Step, f: nat)
    requires (step.Finalize? || step.Free?) && f < |s.fns| && FnInv(s, f) && Enabled(s, step)
    ensures FnInv(Do(s, step), f)
  {
    hide Calls, Closings;
  }

  lemma StepKeepsFn(s: State, step: Step, f: nat)
    requires f < |s.fns| && FnInv(s, f) && Enabled(s, step)
    ensures f < |Do(s, step).fns| && FnInv(Do(s, step), f)
  {
    hide FnInv;
    match step {
      case CallFn(g, data, blocking) => QueueCall(s, g, data, blocking, f);
      case Acquire(g) => AcquireKeeps(s, g, f);
      case Release(g, abort) => ReleaseKeeps(s, g, abort, f);
      case PostClose(_) => QueueOther(s, step, f);
      case PostWork => QueueOther(s, step, f);
      case Take => TakeKeeps(s, f);
      case Uncount => UncountKeeps(s, step, f);
      case Deliver => UncountKeeps(s, step, f);
      case CompleteWork => UncountKeeps(s, step, f);
      case Finalize => FinishKeeps(s, step, f);
      case Free => FinishKeeps(s, step, f);
      case _ => LocalKeeps(s, step, f);
    }
  }

  lemma NewFn(s: State, threads: nat, maxQueue: nat)
    requires Inv(s) && threads > 0
    ensures FnInv(Do(s, Create(threads, maxQueue)), |s.fns|)
  {
    hide Alive, Refs;
    var f := |s.fns|;
    forall i | 0 <= i < |s.tasks| ensures Known(s.tasks[i], f) {
    }
    Untouched(s.tasks, f);
  }

  lemma {:induction false} Untouched(tasks: seq<Task>, f: nat)
    requires forall i | 0 <= i < |tasks| :: Known(tasks[i], f)
    ensures Calls(tasks, f) == [] && Closings(tasks, f) == 0
  {
    if tasks != [] {
      assert Known(tasks[0], f);
      Untouched(tasks[1..], f);
    }
  }

  lemma StepKeepsInv(s: State, step: Step)
    requires Inv(s) && Enabled(s, step)
    ensures Inv(Do(s, step))
  {
    hide FnInv, Targets, Alive;
    var t := Do(s, step);
    StepAlive(s, step);
    StepTargets(s, step);
    forall f | 0 <= f < |t.fns| ensures FnInv(t, f) {
      if f < |s.fns| {
        StepKeepsFn(s, step, f);
      } else {
        NewFn(s, step.threads, step.maxQueue);
      }
    }
  }

  lemma {:induction false} RunKeepsInv(s: State, steps: seq<Step>, t: State)
    requires Inv(s) && Runs(s, steps, t)
    ensures Inv(t)
    decreases |steps|
  {
    hide Inv, Enabled, Do;
    if steps != [] {
      StepKeepsInv(s, steps[0]);
      RunKeepsInv(Do(s, steps[0]), steps[1..], t);
    }
  }

  lemma Reachable(steps: seq<Step>, s: State)
    requires Runs(INITIAL, steps, s)
    ensures Inv(s)
  {
    RunKeepsInv(INITIAL, steps, s);
  }

  // ---- theorems --------------------------------------------------------------------------------------------

  /** Calls are delivered in the order of acceptance; queued is exactly the number not yet delivered or in hand. */
  lemma DeliveredInOrder(steps: seq<Step>, s: State, f: nat)
    requires Runs(INITIAL, steps, s) && f < |s.fns|
    ensures s.fns[f].delivered <= s.fns[f].accepted
    ensures s.drain == Idle ==> s.fns[f].queued == |s.fns[f].accepted| - |s.fns[f].delivered|
  {
    hide Runs;
    Reachable(steps, s);
    assert FnInv(s, f);
  }

  /**
   * How many close tasks a function gets, posted or about to be: one for each accepted abort; without any, one
   * when the last thread is gone. So there is exactly one iff a single release aborted, or none did and all are gone.
   */
  lemma CloseTasks(steps: seq<Step>, s: State, f: nat)
    requires Runs(INITIAL, steps, s) && f < |s.fns|
    ensures var fn := s.fns[f];
      var posted := fn.posting + Closings(s.tasks, f) + One(s.drain == Got(Close(f))) + fn.closed;
      && posted == (if fn.aborts > 0 then fn.aborts else One(fn.threads == 0))
      && (fn.closing <==> posted > 0)
  {
    hide Runs;
    Reachable(steps, s);
    assert FnInv(s, f);
  }

  /**
   * As long as no freed memory is touched, the finalizer runs once at most, after every accepted call was delivered;
   * memory goes after it.
   */
  lemma FinalizerComesLast(steps: seq<Step>, s: State, f: nat)
    requires Runs(INITIAL, steps, s) && f < |s.fns|
    ensures var fn := s.fns[f];
      && fn.fins <= 1 && (fn.freed ==> fn.fins == 1)
      && (fn.fins == 1 ==> fn.delivered == fn.accepted && fn.queued == 0 && fn.closing)
  {
    hide Runs;
    Reachable(steps, s);
    assert FnInv(s, f);
  }

  /** In the queue a close follows every call of its function. */
  lemma CloseFollowsCalls(steps: seq<Step>, s: State, f: nat, i: nat, j: nat)
    requires Runs(INITIAL, steps, s) && f < |s.fns| && i < |s.tasks| && j < |s.tasks|
    requires s.tasks[i] == Close(f) && s.tasks[j].Call? && s.tasks[j].f == f
    ensures j < i
  {
    hide Runs;
    Reachable(steps, s);
    assert FnInv(s, f);
  }

  /**
   * Once nothing is under way, a function that was released by all its threads is finalized and freed, all calls
   * made. It was aborted once at most: with two aborts there is no coming to rest without touching freed memory.
   */
  lemma QuietMeansFinalized(steps: seq<Step>, s: State, f: nat)
    requires Runs(INITIAL, steps, s) && f < |s.fns|
    requires s.tasks == [] && s.drain == Idle && s.fns[f].posting == 0
    ensures s.fns[f].delivered == s.fns[f].accepted && s.fns[f].queued == 0
    ensures s.fns[f].fins == 1 && s.fns[f].freed <==> s.fns[f].threads == 0 || s.fns[f].aborts > 0
    ensures s.fns[f].aborts <= 1
  {
    hide Runs;
    Reachable(steps, s);
    assert FnInv(s, f);
  }

  /** The pump runs exactly while a referenced function or a piece of work is left. */
  lemma PumpWhileLive(steps: seq<Step>, s: State)
    requires Runs(INITIAL, steps, s)
    ensures s.live == Refs(s.fns) + s.work + Works(s.tasks) + One(s.drain == Got(Work))
    ensures s.pump <==> s.live > 0
  {
    hide Runs;
    Reachable(steps, s);
  }

  // ---- freed memory ----------------------------------------------------------------------------------------

  predicate OfMainThread(step: Step) {
    step.Uncount? || step.Deliver? || step.Finalize?
  }

  /** The main thread touches freed memory exactly at a close task after the first, which takes a second abort. */
  lemma MainThreadTouches(steps: seq<Step>, s: State, step: Step)
    requires Runs(INITIAL, steps, s) && Possible(s, step) && OfMainThread(step)
    ensures Touches(s, step) <==> step.Finalize? && s.fns[s.drain.task.f].closed > 0
    ensures Touches(s, step) ==> s.fns[s.drain.task.f].aborts > 1
  {
    hide Runs, Calls, Closings;
    Reachable(steps, s);
    var f := if step.Deliver? then s.drain.f else s.drain.task.f;
    assert FnInv(s, f);
  }

  /** A thread that still holds a function can touch it after it was freed only if somebody aborted it. */
  lemma HolderTouches(steps: seq<Step>, s: State, f: nat)
    requires Runs(INITIAL, steps, s) && f < |s.fns| && s.fns[f].freed && s.fns[f].threads > 0
    ensures s.fns[f].aborts > 0
  {
    hide Runs;
    Reachable(steps, s);
    assert FnInv(s, f);
  }

  /** With plain releases only, neither happens: the main thread does not touch freed memory, and nobody holds it. */
  lemma PlainReleaseIsSafe(steps: seq<Step>, s: State, step: Step)
    requires Runs(INITIAL, steps, s) && Possible(s, step)
    requires forall i | 0 <= i < |steps| :: !(steps[i].Release? && steps[i].abort)
    ensures OfMainThread(step) ==> !Touches(s, step)
    ensures forall f | 0 <= f < |s.fns| && s.fns[f].freed :: s.fns[f].threads == 0
  {
    hide Runs, Touches, Possible;
    NoAborts(INITIAL, steps, s);
    assert Unaborted(s);
    if OfMainThread(step) {
      MainThreadTouches(steps, s, step);
      DrainIsKnown(s, step);
    }
    forall f | 0 <= f < |s.fns| && s.fns[f].freed
      ensures s.fns[f].threads == 0
    {
      if s.fns[f].threads > 0 { HolderTouches(steps, s, f); }
    }
  }

  lemma DrainIsKnown(s: State, step: Step)
    requires Possible(s, step)
    ensures step.Finalize? ==> s.drain.Got? && s.drain.task.Close? && s.drain.task.f < |s.fns|
  {
  }

  predicate Unaborted(s: State) {
    forall f | 0 <= f < |s.fns| :: s.fns[f].aborts == 0
  }

  lemma {:induction false} NoAborts(s: State, steps: seq<Step>, t: State)
    requires Runs(s, steps, t) && Unaborted(s)
    requires forall i | 0 <= i < |steps| :: !(steps[i].Release? && steps[i].abort)
    ensures Unaborted(t)
    decreases |steps|
  {
    hide Do, Enabled, Unaborted;
    if steps != [] {
      NoAbortHere(s, steps[0]);
      NoAborts(Do(s, steps[0]), steps[1..], t);
    }
  }

  lemma NoAbortHere(s: State, step: Step)
    requires Enabled(s, step) && Unaborted(s) && !(step.Release? && step.abort)
    ensures Unaborted(Do(s, step))
  {
    hide Touches;
  }

  // ---- aborts that are safe --------------------------------------------------------------------------------

  /** Every abort of f that counts finds no other thread holding f: each caller can see to that before it aborts. */
  ghost predicate AbortsAlone(s: State, steps: seq<Step>, f: nat)
    decreases |steps|
  {
    steps != [] ==>
      && Enabled(s, steps[0])
      && (steps[0] == Release(f, true) ==> s.fns[f].threads <= 1)
      && AbortsAlone(Do(s, steps[0]), steps[1..], f)
  }

  predicate ClosedAlone(s: State, f: nat) {
    f < |s.fns| && s.fns[f].closing ==> s.fns[f].threads == 0
  }

  lemma {:induction false} AbortsAloneKept(s: State, steps: seq<Step>, t: State, f: nat)
    requires Runs(s, steps, t) && AbortsAlone(s, steps, f) && ClosedAlone(s, f)
    ensures ClosedAlone(t, f)
    decreases |steps|
  {
    hide Do, Enabled, ClosedAlone;
    if steps != [] {
      StepClosesAlone(s, steps[0], f);
      AbortsAloneKept(Do(s, steps[0]), steps[1..], t, f);
    }
  }

  lemma StepClosesAlone(s: State, step: Step, f: nat)
    requires Enabled(s, step) && ClosedAlone(s, f) && (step == Release(f, true) ==> s.fns[f].threads <= 1)
    ensures ClosedAlone(Do(s, step), f)
  {
    hide Touches;
  }

  /** If every abort of f finds no other holder, nobody holds f once it is freed. */
  lemma LoneAbortIsSafe(steps: seq<Step>, s: State, f: nat)
    requires Runs(INITIAL, steps, s) && AbortsAlone(INITIAL, steps, f) && f < |s.fns| && s.fns[f].freed
    ensures s.fns[f].threads == 0
  {
    hide Runs, AbortsAlone;
    AbortsAloneKept(INITIAL, steps, s, f);
    Reachable(steps, s);
    assert FnInv(s, f);
  }

  /** What the main thread does next when it is not at rest. */
  function NextDrain(s: State): Step {
    match s.drain
    case Idle => Take
    case Got(Work) => CompleteWork
    case Got(Call(_, _)) => Uncount
    case Got(Close(_)) => Finalize
    case Calling(_, _) => Deliver
    case Finishing(_) => Free
  }

  function Left(s: State): nat {
    3 * |s.tasks| + (match s.drain case Idle => 0 case Got(_) => 2 case _ => 1)
  }

  /** No function was aborted more than once. */
  predicate Once(s: State) {
    forall f | 0 <= f < |s.fns| :: s.fns[f].aborts <= 1
  }

  /** The main thread alone does not change who holds what. */
  predicate SameHolders(s: State, t: State) {
    |t.fns| == |s.fns| && forall f | 0 <= f < |s.fns| :: HeldAs(s.fns[f], t.fns[f])
  }

  predicate HeldAs(a: Fn, b: Fn) {
    b.threads == a.threads && b.aborts == a.aborts && b.posting == a.posting && b.closing == a.closing
  }

  lemma CloseIsFresh(s: State)
    requires Inv(s) && Once(s) && s.drain.Got? && s.drain.task.Close?
    ensures s.drain.task.f < |s.fns| && !s.fns[s.drain.task.f].finalized && !s.fns[s.drain.task.f].freed
  {
    assert FnInv(s, s.drain.task.f);
  }

  lemma CallIsFresh(s: State)
    requires Inv(s)
    ensures s.drain.Got? && s.drain.task.Call? ==> s.drain.task.f < |s.fns| && !s.fns[s.drain.task.f].freed
    ensures s.drain.Calling? ==> s.drain.f < |s.fns| && !s.fns[s.drain.f].freed
  {
    assert s.drain.Got? && s.drain.task.Call? ==> FnInv(s, s.drain.task.f);
    assert s.drain.Calling? ==> FnInv(s, s.drain.f);
  }

  lemma DrainsOn(s: State)
    requires Inv(s) && Once(s) && (s.tasks != [] || s.drain != Idle)
    ensures var step := NextDrain(s); Enabled(s, step) && Left(Do(s, step)) < Left(s) && SameHolders(s, Do(s, step))
  {
    hide FnInv, Alive;
    if s.drain.Got? && s.drain.task.Close? { CloseIsFresh(s); }
    CallIsFresh(s);
  }

  /** While no function was aborted twice, the main thread can always come to rest. */
  lemma {:induction false} ComesToRest(s: State) returns (steps: seq<Step>, t: State)
    requires Inv(s) && Once(s)
    ensures Runs(s, steps, t) && Inv(t) && t.tasks == [] && t.drain == Idle && SameHolders(s, t)
    decreases Left(s)
  {
    hide Inv, Do, Enabled, NextDrain;
    if s.tasks == [] && s.drain == Idle {
      return [], s;
    }
    var step := NextDrain(s);
    DrainsOn(s);
    StepKeepsInv(s, step);
    var u := Do(s, step);
    assert Once(u);
    steps, t := ComesToRest(u);
    RunsFirst(s, step, steps, t);
    steps := [step] + steps;
  }

  lemma RunsFirst(s: State, step: Step, rest: seq<Step>, t: State)
    requires Enabled(s, step) && Runs(Do(s, step), rest, t)
    ensures Runs(s, [step] + rest, t)
  {
    assert ([step] + rest)[1..] == rest;
  }

  /**
   * An abort that leaves a holder behind, of a function that was not aborted before, can go on to the function being
   * freed under that holder (where no other function was aborted twice).
   */
  lemma AbortWithHolderFrees(before: seq<Step>, s: State, f: nat) returns (steps: seq<Step>, t: State)
    requires Runs(INITIAL, before, s) && Once(s) && f < |s.fns| && s.fns[f].aborts == 0 && s.fns[f].threads > 1
    requires !s.fns[f].freed
    ensures Enabled(s, Release(f, true)) && Runs(Do(s, Release(f, true)), steps, t)
    ensures f < |t.fns| && t.fns[f].freed && t.fns[f].threads == s.fns[f].threads - 1 > 0
  {
    hide Inv;
    Reachable(before, s);
    var a := Do(s, Release(f, true));
    StepKeepsInv(s, Release(f, true));
    OnePosting(a, f);
    var b := Do(a, PostClose(f));
    StepKeepsInv(a, PostClose(f));
    assert Once(b);
    var rest: seq<Step>;
    rest, t := ComesToRest(b);
    RunsFirst(a, PostClose(f), rest, t);
    steps := [PostClose(f)] + rest;
    assert HeldAs(b.fns[f], t.fns[f]);
    RestFrees(t, f);
  }

  lemma OnePosting(s: State, f: nat)
    requires Inv(s) && f < |s.fns| && s.fns[f].aborts == 1 && s.fns[f].posting > 0
    ensures s.fns[f].posting == 1
  {
    assert FnInv(s, f);
  }

  lemma RestFrees(s: State, f: nat)
    requires Inv(s) && s.tasks == [] && s.drain == Idle && f < |s.fns| && s.fns[f].aborts == 1 && s.fns[f].posting == 0
    ensures s.fns[f].freed
  {
    assert FnInv(s, f);
  }

  lemma {:induction false} RunsOn(s: State, steps: seq<Step>, t: State, step: Step)
    requires Runs(s, steps, t) && Enabled(t, step)
    ensures Runs(s, steps + [step], Do(t, step))
    decreases |steps|
  {
    hide Do, Enabled;
    if steps == [] {
      assert (steps + [step])[1..] == [];
    } else {
      assert (steps + [step])[1..] == steps[1..] + [step];
      RunsOn(Do(s, steps[0]), steps[1..], t, step);
    }
  }

  /** A step taken at the end of some run. */
  ghost predicate Arrives(s: State) {
    exists steps :: Runs(INITIAL, steps, s)
  }

  lemma ArrivesOn(s: State, step: Step, t: State)
    requires Arrives(s) && Enabled(s, step) && t == Do(s, step)
    ensures Arrives(t)
  {
    hide Runs, Do, Enabled;
    var steps :| Runs(INITIAL, steps, s);
    RunsOn(INITIAL, steps, s, step);
  }

  /** One function, not finalized and keeping the pump alive. */
  function Alone(tasks: seq<Task>, fn: Fn, drain: Drain): State {
    State(tasks, [fn], drain, 1, true, 0)
  }

  lemma Aborts(tasks: seq<Task>, fn: Fn)
    requires Arrives(Alone(tasks, fn, Idle)) && fn.threads > 0 && !fn.freed
    ensures Arrives(Alone(tasks + [Close(0)], Aborted(fn), Idle))
  {
    hide Arrives;
    var counted := Aborted(fn).(posting := fn.posting + 1);
    assert [fn][0 := counted] == [counted] && [counted][0 := Aborted(fn)] == [Aborted(fn)];
    ArrivesOn(Alone(tasks, fn, Idle), Release(0, true), Alone(tasks, counted, Idle));
    ArrivesOn(Alone(tasks, counted, Idle), PostClose(0), Alone(tasks + [Close(0)], Aborted(fn), Idle));
  }

  function Aborted(fn: Fn): Fn
    requires fn.threads > 0
  {
    fn.(threads := fn.threads - 1, closing := true, aborts := fn.aborts + 1)
  }

  lemma CloseDone(tasks: seq<Task>, fn: Fn)
    requires Arrives(Alone([Close(0)] + tasks, fn, Idle)) && !fn.finalized && !fn.freed && fn.refd
    ensures Arrives(State(tasks, [Gone(fn)], Idle, 0, false, 0))
  {
    hide Arrives;
    var s := Alone([Close(0)] + tasks, fn, Idle);
    assert s.tasks[1..] == tasks;
    ArrivesOn(s, Take, Alone(tasks, fn, Got(Close(0))));
    var finishing := Gone(fn).(freed := false);
    assert [fn][0 := finishing] == [finishing] && [finishing][0 := Gone(fn)] == [Gone(fn)];
    ArrivesOn(Alone(tasks, fn, Got(Close(0))), Finalize, Alone(tasks, finishing, Finishing(0)));
    ArrivesOn(Alone(tasks, finishing, Finishing(0)), Free, State(tasks, [Gone(fn)], Idle, 0, false, 0));
  }

  function Gone(fn: Fn): Fn {
    fn.(finalized := true, freed := true, fins := fn.fins + 1, closed := fn.closed + 1)
  }

  lemma Begins(threads: nat, maxQueue: nat)
    requires threads > 0
    ensures Arrives(Do(INITIAL, Create(threads, maxQueue)))
  {
    assert Runs(INITIAL, [], INITIAL);
    assert Arrives(INITIAL);
    ArrivesOn(INITIAL, Create(threads, maxQueue), Do(INITIAL, Create(threads, maxQueue)));
  }

  const PAIR := Fn(2, 0, 0, false, true, false, false, [], [], 0, 0, 0, 0)

  lemma PairBegins()
    ensures Arrives(Alone([], PAIR, Idle))
  {
    Begins(2, 0);
    assert Do(INITIAL, Create(2, 0)) == Alone([], PAIR, Idle);
  }

  lemma PairAborts()
    ensures Arrives(Alone([Close(0), Close(0)], Aborted(Aborted(PAIR)), Idle))
  {
    hide Arrives, Do;
    PairBegins();
    assert [] + [Close(0)] == [Close(0)] && [Close(0)] + [Close(0)] == [Close(0), Close(0)];
    Aborts([], PAIR);
    Aborts([Close(0)], Aborted(PAIR));
  }

  /** Two aborts post two close tasks. */
  lemma TwoAborts()
    ensures exists s :: Arrives(s) && |s.fns| == 1 && s.fns[0].aborts == 2 && s.tasks == [Close(0), Close(0)]
  {
    hide Arrives, Do;
    PairAborts();
  }

  /** One abort of two threads: the function is freed under the other one, whose next call touches it. */
  lemma AbortLeavesHolder()
    ensures exists s :: Arrives(s) && |s.fns| == 1 && s.fns[0].aborts == 1 && s.fns[0].threads == 1
                        && Touches(s, CallFn(0, 0, false))
  {
    hide Arrives, Do;
    PairBegins();
    Aborts([], PAIR);
    assert [] + [Close(0)] == [Close(0)] + [];
    CloseDone([], Aborted(PAIR));
    var s := State([], [Gone(Aborted(PAIR))], Idle, 0, false, 0);
    assert Touches(s, CallFn(0, 0, false));
  }

  /** Two aborts: the second close task finds the function freed. */
  lemma SecondCloseTouches()
    ensures exists s :: Arrives(s) && |s.fns| == 1 && s.drain == Got(Close(0)) && Touches(s, Finalize)
  {
    hide Arrives;
    PairAborts();
    var fn := Aborted(Aborted(PAIR));
    assert [Close(0), Close(0)] == [Close(0)] + [Close(0)];
    CloseDone([Close(0)], fn);
    var s := State([Close(0)], [Gone(fn)], Idle, 0, false, 0);
    var t := s.(tasks := [], drain := Got(Close(0)));
    ArrivesOn(s, Take, t);
    assert Touches(t, Finalize);
  }

  // ---- the queue limit -------------------------------------------------------------------------------------

  predicate CallsOf(step: Step, f: nat) { step.CallFn? && step.f == f }

  /**
   * A step pushes a queue over its limit exactly when it is a blocking call, not of a closing function, that finds it
   * full.
   */
  lemma PassesLimit(s: State, step: Step, f: nat)
    requires Enabled(s, step) && f < |s.fns| && s.fns[f].maxQueue > 0
    ensures s.fns[f].queued < Do(s, step).fns[f].queued && Do(s, step).fns[f].queued > s.fns[f].maxQueue <==>
      CallsOf(step, f) && step.blocking && !s.fns[f].closing && s.fns[f].queued >= s.fns[f].maxQueue
    ensures Do(s, step).fns[f].maxQueue == s.fns[f].maxQueue
  {
    hide Touches;
  }

  /** In every run without a blocking call of a function its queue stays within the limit. */
  lemma LimitHolds(steps: seq<Step>, s: State, f: nat)
    requires Runs(INITIAL, steps, s) && f < |s.fns| && s.fns[f].maxQueue > 0
    requires forall i | 0 <= i < |steps| :: !(CallsOf(steps[i], f) && steps[i].blocking)
    ensures s.fns[f].queued <= s.fns[f].maxQueue
  {
    LimitKept(INITIAL, steps, s, f);
  }

  predicate WithinLimit(s: State, f: nat) {
    f < |s.fns| && s.fns[f].maxQueue > 0 ==> s.fns[f].queued <= s.fns[f].maxQueue
  }

  lemma {:induction false} LimitKept(s: State, steps: seq<Step>, t: State, f: nat)
    requires Runs(s, steps, t) && WithinLimit(s, f)
    requires forall i | 0 <= i < |steps| :: !(CallsOf(steps[i], f) && steps[i].blocking)
    ensures WithinLimit(t, f)
    decreases |steps|
  {
    if steps != [] {
      StepWithinLimit(s, steps[0], f);
      LimitKept(Do(s, steps[0]), steps[1..], t, f);
    }
  }

  lemma StepWithinLimit(s: State, step: Step, f: nat)
    requires Enabled(s, step) && WithinLimit(s, f) && !(CallsOf(step, f) && step.blocking)
    ensures WithinLimit(Do(s, step), f)
  {
    hide Touches;
    if f < |s.fns| && s.fns[f].maxQueue > 0 { PassesLimit(s, step, f); }
  }

  /** Two blocking calls overfill a queue of one. */
  lemma BlockingOverfills()
    ensures exists s :: Arrives(s) && |s.fns| == 1 && s.fns[0].maxQueue == 1 && s.fns[0].queued == 2
  {
    hide Arrives;
    var s0 := Do(INITIAL, Create(1, 1));
    assert Arrives(s0) by { Begins(1, 1); }
    var s1 := Do(s0, CallFn(0, 5, true));
    ArrivesOn(s0, CallFn(0, 5, true), s1);
    ArrivesOn(s1, CallFn(0, 6, true), Do(s1, CallFn(0, 6, true)));
  }

  // ---- what each call does, field by field -----------------------------------------------------------------

  /** A call of a function that is there, not closing, and unlimited, below its limit or called blocking is accepted. */
  lemma CallIsAccepted(s: State, f: nat, data: Data, blocking: bool)
    requires f < |s.fns| && !s.fns[f].freed && !s.fns[f].closing
    requires blocking || s.fns[f].maxQueue == 0 || s.fns[f].queued < s.fns[f].maxQueue
    ensures Enabled(s, CallFn(f, data, blocking)) && CallStatus(s.fns[f], blocking) == Ok
    ensures var t, fn := Do(s, CallFn(f, data, blocking)), s.fns[f];
      && t.tasks == s.tasks + [Call(f, data)]
      && t.fns == s.fns[f := fn.(queued := fn.queued + 1, accepted := fn.accepted + [data])]
      && t.live == s.live && t.pump == s.pump && t.drain == s.drain && t.work == s.work
  {
  }

  /** A full queue is the answer to exactly the other calls of a function that is not closing; they change nothing. */
  lemma CallIsRefused(s: State, f: nat, data: Data, blocking: bool)
    requires f < |s.fns| && !s.fns[f].freed
    ensures CallStatus(s.fns[f], blocking) == QueueFull <==>
      !s.fns[f].closing && !blocking && 0 < s.fns[f].maxQueue <= s.fns[f].queued
    ensures CallStatus(s.fns[f], blocking) == Closing <==> s.fns[f].closing
    ensures Enabled(s, CallFn(f, data, blocking))
    ensures CallStatus(s.fns[f], blocking) != Ok ==> Do(s, CallFn(f, data, blocking)) == s
  {
  }

  /** Acquiring adds a thread to a function that is not closing; otherwise nothing changes. */
  lemma AcquireAdds(s: State, f: nat)
    requires f < |s.fns| && !s.fns[f].freed
    ensures Enabled(s, Acquire(f))
    ensures Do(s, Acquire(f)).(fns := s.fns) == s
    ensures Do(s, Acquire(f)).fns
      == if s.fns[f].closing then s.fns else s.fns[f := s.fns[f].(threads := s.fns[f].threads + 1)]
  {
  }

  /**
   * Releasing takes a thread off, if there is one. A close task becomes due on an abort, and when the last thread goes
   * of a function that is not closing; from then on the function is closing.
   */
  lemma ReleaseTakes(s: State, f: nat, abort: bool)
    requires f < |s.fns| && !s.fns[f].freed
    ensures Enabled(s, Release(f, abort)) && Do(s, Release(f, abort)).(fns := s.fns) == s
    ensures var fn, after := s.fns[f], Do(s, Release(f, abort)).fns;
      var closes := fn.threads > 0 && (abort || (fn.threads == 1 && !fn.closing));
      && after == s.fns[f := after[f]]
      && after[f].threads == (if fn.threads == 0 then 0 else fn.threads - 1)
      && after[f].closing == (fn.closing || closes)
      && after[f].posting == fn.posting + (if closes then 1 else 0)
      && after[f].queued == fn.queued && after[f].accepted == fn.accepted && after[f].refd == fn.refd
  {
  }

  /** A reference is taken and given up once; the pump starts with the first and stops with the last. */
  lemma RefsCount(s: State, f: nat)
    requires f < |s.fns| && !s.fns[f].freed && (s.pump <==> s.live > 0) && (s.fns[f].refd ==> s.live > 0)
    ensures Enabled(s, Ref(f)) && Enabled(s, Unref(f))
    ensures var t := Do(s, Ref(f));
      t.fns[f].refd && t.live == (if s.fns[f].refd then s.live else s.live + 1) && t.pump
    ensures var t := Do(s, Unref(f));
      && !t.fns[f].refd && t.live == (if s.fns[f].refd then s.live - 1 else s.live)
      && (t.pump <==> t.live > 0)
  {
  }
}
