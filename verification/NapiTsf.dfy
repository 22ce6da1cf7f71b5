/** Thread-safe functions as an interleaving of addon threads and the main thread, one step per critical section. */
module NapiTsf {
  import opened Sequences

  type Data = int

  datatype Status = Ok | Closing | QueueFull | InvalidArg

  /** One function. The last six fields record what happened. */
  datatype Fn = Fn(
    threads: nat, maxQueue: nat, queued: nat, closing: bool, refd: bool, finalized: bool, freed: bool,
    accepted: seq<Data>, delivered: seq<Data>, aborts: nat, posting: nat, closed: nat, fins: nat)

  datatype Task = Call(f: nat, data: Data) | Close(f: nat) | Work

  /** Where the main thread is inside the pump. */
  datatype Drain = Idle | Got(task: Task) | Calling(f: nat, data: Data) | Finishing(f: nat)

  /** g_tasks, g_live, whether the pump was started; work counts asynchronous work whose thread still runs. */
  datatype State = State(tasks: seq<Task>, fns: seq<Fn>, drain: Drain, live: nat, pump: bool, work: nat)

  datatype Step =
    | Create(threads: nat, maxQueue: nat)
    | CallFn(f: nat, data: Data, blocking: bool)
    | Acquire(f: nat)
    | Release(f: nat, abort: bool)
    | PostClose(f: nat)
    | Ref(f: nat)
    | Unref(f: nat)
    | StartWork
    | StartFails
    | PostWork
    | Take
    | Uncount
    | Deliver
    | CompleteWork
    | Finalize
    | Free

  /** What some thread may do next, whether or not the function it is about still exists. */
  predicate Possible(s: State, step: Step) {
    match step
    case Create(threads, _) => threads > 0
    case CallFn(f, _, _) => f < |s.fns|
    case Acquire(f) => f < |s.fns|
    case Release(f, _) => f < |s.fns|
    case PostClose(f) => f < |s.fns| && s.fns[f].posting > 0
    case Ref(f) => f < |s.fns|
    case Unref(f) => f < |s.fns|
    case StartWork => true
    case StartFails => s.work > 0
    case PostWork => s.work > 0
    case Take => s.drain == Idle && s.tasks != []
    case Uncount => s.drain.Got? && s.drain.task.Call? && s.drain.task.f < |s.fns|
    case Deliver => s.drain.Calling? && s.drain.f < |s.fns|
    case CompleteWork => s.drain == Got(Work)
    case Finalize => s.drain.Got? && s.drain.task.Close? && s.drain.task.f < |s.fns|
    case Free => s.drain.Finishing? && s.drain.f < |s.fns|
  }

  /** The step reads or writes the memory of a function that was freed: what happens from there on is undefined. */
  predicate Touches(s: State, step: Step)
    requires Possible(s, step)
  {
    match step
    case CallFn(f, _, _) => s.fns[f].freed
    case Acquire(f) => s.fns[f].freed
    case Release(f, _) => s.fns[f].freed
    case Ref(f) => s.fns[f].freed
    case Unref(f) => s.fns[f].freed
    case Uncount => s.fns[s.drain.task.f].freed
    case Deliver => s.fns[s.drain.f].freed
    case Finalize => s.fns[s.drain.task.f].freed
    case _ => false
  }

  predicate Enabled(s: State, step: Step) {
    Possible(s, step) && !Touches(s, step)
  }

  // ---- the critical sections on one function ---------------------------------------------------------------

  /** napi_call_threadsafe_function: blocking mode never waits, it only ignores the limit. */
  function CallStatus(fn: Fn, blocking: bool): Status {
    if fn.closing then Closing
    else if fn.maxQueue > 0 && fn.queued >= fn.maxQueue && !blocking then QueueFull
    else Ok
  }

  /** Whether a release makes its thread post a close task: always on abort, else on the first drop to zero threads. */
  function Closes(fn: Fn, abort: bool): bool
    requires fn.threads > 0
  {
    abort || (fn.threads == 1 && !fn.closing)
  }

  function Released(fn: Fn, abort: bool): Fn {
    if fn.threads == 0 then fn
    else fn.(threads := fn.threads - 1,
             closing := fn.closing || Closes(fn, abort),
             aborts := fn.aborts + (if abort then 1 else 0),
             posting := fn.posting + (if Closes(fn, abort) then 1 else 0))
  }

  function LiveInc(s: State): State {
    s.(live := s.live + 1, pump := if s.live == 0 then true else s.pump)
  }

  function LiveDec(s: State): State {
    if s.live == 0 then s
    else s.(live := s.live - 1, pump := if s.live == 1 then false else s.pump)
  }

  function SetFn(s: State, f: nat, fn: Fn): State
    requires f < |s.fns|
  {
    s.(fns := s.fns[f := fn])
  }

  function Do(s: State, step: Step): State
    requires Enabled(s, step)
  {
    match step
    case Create(threads, maxQueue) =>
      LiveInc(s).(fns := s.fns + [Fn(threads, maxQueue, 0, false, true, false, false, [], [], 0, 0, 0, 0)])
    case CallFn(f, data, blocking) =>
      var fn := s.fns[f];
      if CallStatus(fn, blocking) != Ok then s
      else
        SetFn(s, f, fn.(queued := fn.queued + 1, accepted := fn.accepted + [data])).(tasks := s.tasks + [Call(f, data)])
    case Acquire(f) =>
      var fn := s.fns[f];
      if fn.closing then s else SetFn(s, f, fn.(threads := fn.threads + 1))
    case Release(f, abort) => SetFn(s, f, Released(s.fns[f], abort))
    case PostClose(f) => SetFn(s, f, s.fns[f].(posting := s.fns[f].posting - 1)).(tasks := s.tasks + [Close(f)])
    case Ref(f) => if s.fns[f].refd then s else LiveInc(SetFn(s, f, s.fns[f].(refd := true)))
    case Unref(f) => if s.fns[f].refd then LiveDec(SetFn(s, f, s.fns[f].(refd := false))) else s
    case StartWork => LiveInc(s).(work := s.work + 1)
    case StartFails => LiveDec(s).(work := s.work - 1)
    case PostWork => s.(tasks := s.tasks + [Work], work := s.work - 1)
    case Take => s.(drain := Got(s.tasks[0]), tasks := s.tasks[1..])
    case Uncount =>
      var f := s.drain.task.f;
      var fn := s.fns[f];
      SetFn(s, f, fn.(queued := if fn.queued > 0 then fn.queued - 1 else 0)).(drain := Calling(f, s.drain.task.data))
    case Deliver =>
      var fn := s.fns[s.drain.f];
      SetFn(s, s.drain.f, fn.(delivered := fn.delivered + [s.drain.data])).(drain := Idle)
    case CompleteWork => LiveDec(s).(drain := Idle)
    case Finalize =>
      var f := s.drain.task.f;
      var fn := s.fns[f];
      if fn.finalized then SetFn(s, f, fn.(closed := fn.closed + 1)).(drain := Idle)
      else SetFn(s, f, fn.(finalized := true, fins := fn.fins + 1, closed := fn.closed + 1)).(drain := Finishing(f))
    case Free =>
      var fn := s.fns[s.drain.f];
      var t := SetFn(s, s.drain.f, fn.(freed := true)).(drain := Idle);
      if fn.refd then LiveDec(t) else t
  }

  const INITIAL := State([], [], Idle, 0, false, 0)

  predicate Runs(s: State, steps: seq<Step>, t: State)
    decreases |steps|
  {
    if steps == [] then s == t
    else Enabled(s, steps[0]) && Runs(Do(s, steps[0]), steps[1..], t)
  }

  // ---- what is where ---------------------------------------------------------------------------------------

  /** The data of a function's call tasks, in queue order. */
  function Calls(tasks: seq<Task>, f: nat): seq<Data> {
    if tasks == [] then []
    else (if tasks[0].Call? && tasks[0].f == f then [tasks[0].data] else []) + Calls(tasks[1..], f)
  }

  function Closings(tasks: seq<Task>, f: nat): nat {
    if tasks == [] then 0 else One(tasks[0] == Close(f)) + Closings(tasks[1..], f)
  }

  function Works(tasks: seq<Task>): nat {
    if tasks == [] then 0 else One(tasks[0].Work?) + Works(tasks[1..])
  }

  /** A call that the main thread has taken off the queue and not yet made. */
  function InFlight(d: Drain, f: nat): seq<Data> {
    match d
    case Got(Call(g, data)) => if g == f then [data] else []
    case Calling(g, data) => if g == f then [data] else []
    case _ => []
  }

  /** The functions that keep the event loop alive. */
  function Refs(fns: seq<Fn>): nat {
    if fns == [] then 0 else One(fns[0].refd && !fns[0].freed) + Refs(fns[1..])
  }

  // ---- invariants ------------------------------------------------------------------------------------------

  /** How many close tasks the releases so far have called for. */
  function Decided(fn: Fn): nat {
    if fn.aborts > 0 then fn.aborts else One(fn.threads == 0)
  }

  /** What was accepted is delivered, in flight or queued, in this order; queued counts what is not yet uncounted. */
  predicate Delivering(s: State, f: nat)
    requires f < |s.fns|
  {
    var fn := s.fns[f];
    && fn.accepted == fn.delivered + InFlight(s.drain, f) + Calls(s.tasks, f)
    && fn.queued == |Calls(s.tasks, f)| + One(s.drain.Got? && s.drain.task.Call? && s.drain.task.f == f)
  }

  /** Every close task that was called for is about to be posted, queued, in hand or done; only one can be done. */
  predicate Closed(s: State, f: nat)
    requires f < |s.fns|
  {
    var fn := s.fns[f];
    && (fn.closing <==> Decided(fn) > 0)
    && fn.posting + Closings(s.tasks, f) + One(s.drain == Got(Close(f))) + fn.closed == Decided(fn)
    && fn.closed == fn.fins == One(fn.finalized)
    && ((fn.finalized && !fn.freed) <==> s.drain == Finishing(f))
    && (fn.freed ==> fn.finalized)
  }

  /** No call follows a close of the same function, and none is left once a close was taken. */
  predicate ClosesLast(s: State, f: nat)
    requires f < |s.fns|
  {
    && (forall i, j | 0 <= i < j < |s.tasks| :: s.tasks[i] == Close(f) ==> !(s.tasks[j].Call? && s.tasks[j].f == f))
    && (s.fns[f].finalized || s.drain == Got(Close(f)) ==> Calls(s.tasks, f) == [] && InFlight(s.drain, f) == [])
  }

  predicate FnInv(s: State, f: nat)
    requires f < |s.fns|
  {
    Delivering(s, f) && Closed(s, f) && ClosesLast(s, f)
  }

  predicate Known(t: Task, n: nat) { t.Work? || t.f < n }

  predicate Targets(s: State) {
    && (forall i | 0 <= i < |s.tasks| :: Known(s.tasks[i], |s.fns|))
    && (match s.drain
        case Idle => true
        case Got(t) => Known(t, |s.fns|)
        case Calling(f, _) => f < |s.fns|
        case Finishing(f) => f < |s.fns|)
  }

  /** g_live counts the referenced functions and the unfinished work; the pump runs exactly while it is positive. */
  predicate Alive(s: State) {
    && s.live == Refs(s.fns) + s.work + Works(s.tasks) + One(s.drain == Got(Work))
    && (s.pump <==> s.live > 0)
  }

  predicate Inv(s: State) {
    Targets(s) && Alive(s) && forall f | 0 <= f < |s.fns| :: FnInv(s, f)
  }
}
