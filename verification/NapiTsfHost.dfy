/** The thread-safe function calls themselves: each changes the host as its steps of the interleaved system say. */
module NapiTsfHost {
  import opened Sequences
  import opened NapiTsf
  import opened NapiTsfTheorems

  class Tsf {
    const maxQueue: nat
    var threads: nat
    var queued: nat
    var closing: bool
    var refd: bool
    var finalized: bool
    ghost var freed: bool
    ghost var accepted: seq<Data>
    ghost var delivered: seq<Data>
    ghost var aborts: nat
    ghost var posting: nat
    ghost var closed: nat
    ghost var fins: nat

    ghost function Value(): Fn
      reads this
    {
      Fn(threads, maxQueue, queued, closing, refd, finalized, freed, accepted, delivered, aborts, posting, closed, fins)
    }

    constructor (threads: nat, maxQueue: nat)
      ensures Value() == Fn(threads, maxQueue, 0, false, true, false, false, [], [], 0, 0, 0, 0)
    {
      this.threads, this.maxQueue, queued, closing, refd, finalized := threads, maxQueue, 0, false, true, false;
      freed, accepted, delivered, aborts, posting, closed, fins := false, [], [], 0, 0, 0, 0;
    }
  }

  ghost function Values(fns: seq<Tsf>): (vs: seq<Fn>)
    reads fns
    ensures |vs| == |fns| && forall i | 0 <= i < |fns| :: vs[i] == fns[i].Value()
  {
    seq(|fns|, i requires 0 <= i < |fns| reads fns => fns[i].Value())
  }

  class Host {
    var tasks: seq<Task>
    var fns: seq<Tsf>
    var live: nat
    var pump: bool
    ghost var work: nat
    ghost var drain: Drain

    ghost predicate Valid()
      reads this
    {
      forall i, j | 0 <= i < j < |fns| :: fns[i] != fns[j]
    }

    ghost function View(): State
      reads this, fns
    {
      State(tasks, Values(fns), drain, live, pump, work)
    }

    constructor ()
      ensures Valid() && View() == INITIAL
    {
      tasks, fns, live, pump, work, drain := [], [], 0, false, 0, Idle;
    }

    method LiveInc()
      modifies `live, `pump
      ensures View() == NapiTsf.LiveInc(old(View()))
    {
      if live == 0 { pump := true; }
      live := live + 1;
    }

    method LiveDec()
      modifies `live, `pump
      ensures View() == NapiTsf.LiveDec(old(View()))
    {
      if live == 0 { return; }
      live := live - 1;
      if live == 0 { pump := false; }
    }

    method Create(threads: nat, maxQueue: nat) returns (ok: bool)
      requires Valid()
      modifies this
      ensures Valid() && (ok <==> threads > 0)
      ensures View() == if ok then Do(old(View()), Step.Create(threads, maxQueue)) else old(View())
    {
      if threads == 0 { return false; }
      var t := new Tsf(threads, maxQueue);
      ghost var was := Values(fns);
      fns := fns + [t];
      assert Values(fns) == was + [t.Value()];
      LiveInc();
      ok := true;
    }

    method Call(f: nat, data: Data, blocking: bool) returns (status: Status)
      requires Valid() && Enabled(View(), CallFn(f, data, blocking))
      modifies this, fns[f]
      ensures Valid() && View() == Do(old(View()), CallFn(f, data, blocking))
      ensures status == CallStatus(old(View()).fns[f], blocking)
      ensures status == Closing <==> old(fns[f].closing)
      ensures status == QueueFull <==>
        !old(fns[f].closing) && !blocking && 0 < fns[f].maxQueue <= old(fns[f].queued)
      ensures status == Ok || status == Closing || status == QueueFull
      ensures tasks == if status == Ok then old(tasks) + [Task.Call(f, data)] else old(tasks)
      ensures fns[f].accepted == if status == Ok then old(fns[f].accepted) + [data] else old(fns[f].accepted)
    {
      var t := fns[f];
      ghost var was := Values(fns);
      if t.closing {
        status := Closing;
      } else if t.maxQueue > 0 && t.queued >= t.maxQueue && !blocking {
        status := QueueFull;
      } else {
        t.queued := t.queued + 1;
        t.accepted := t.accepted + [data];
        tasks := tasks + [Task.Call(f, data)];
        assert Values(fns) == was[f := t.Value()];
        status := Ok;
      }
    }

    method Acquire(f: nat) returns (status: Status)
      requires Valid() && Enabled(View(), Step.Acquire(f))
      modifies fns[f]
      ensures Valid() && View() == Do(old(View()), Step.Acquire(f))
      ensures status == if old(fns[f].closing) then Closing else Ok
      ensures fns[f].threads == old(fns[f].threads) + if status == Ok then 1 else 0
    {
      var t := fns[f];
      ghost var was := Values(fns);
      if t.closing {
        status := Closing;
      } else {
        t.threads := t.threads + 1;
        assert Values(fns) == was[f := t.Value()];
        status := Ok;
      }
    }

    /** The counters, under the lock; then, if that closes the function, the close task. */
    method Release(f: nat, abort: bool) returns (status: Status)
      requires Valid() && Enabled(View(), Step.Release(f, abort))
      modifies this, fns[f]
      ensures Valid()
      ensures var fn, s := old(View()).fns[f], Do(old(View()), Step.Release(f, abort));
        View() == if fn.threads > 0 && Closes(fn, abort) then Do(s, PostClose(f)) else s
      ensures status == if old(fns[f].threads) == 0 then InvalidArg else Ok
      ensures fns[f].threads == if old(fns[f].threads) == 0 then 0 else old(fns[f].threads) - 1
      ensures tasks == if status == Ok && (abort || (old(fns[f].threads) == 1 && !old(fns[f].closing)))
                       then old(tasks) + [Close(f)] else old(tasks)
    {
      hide Do;
      var ok, close := CountDown(f, abort);
      if !ok { return InvalidArg; }
      if close { PostCloseTask(f); }
      status := Ok;
    }

    method CountDown(f: nat, abort: bool) returns (ok: bool, close: bool)
      requires Valid() && Enabled(View(), Step.Release(f, abort))
      modifies fns[f]
      ensures View() == Do(old(View()), Step.Release(f, abort))
      ensures ok == (old(fns[f].threads) > 0) && close == (ok && Closes(old(View()).fns[f], abort))
      ensures fns[f].posting == old(fns[f].posting) + One(close)
      ensures fns[f].threads == if ok then old(fns[f].threads) - 1 else old(fns[f].threads)
    {
      var t := fns[f];
      ghost var was := Values(fns);
      close := false;
      ok := t.threads > 0;
      if ok {
        t.threads := t.threads - 1;
        if abort { t.closing := true; }
        if t.threads == 0 || abort {
          if !t.closing || abort {
            t.closing := true;
            close := true;
          }
        }
        if abort { t.aborts := t.aborts + 1; }
        if close { t.posting := t.posting + 1; }
      }
      assert t.Value() == Released(was[f], abort);
      assert Values(fns) == was[f := t.Value()];
    }

    method PostCloseTask(f: nat)
      requires Valid() && Enabled(View(), PostClose(f))
      modifies `tasks, fns[f]
      ensures View() == Do(old(View()), PostClose(f))
      ensures tasks == old(tasks) + [Close(f)] && fns[f].threads == old(fns[f].threads)
    {
      ghost var was := Values(fns);
      tasks := tasks + [Close(f)];
      fns[f].posting := fns[f].posting - 1;
      assert Values(fns) == was[f := fns[f].Value()];
    }

    method Ref(f: nat)
      requires Valid() && Enabled(View(), Step.Ref(f))
      modifies this, fns[f]
      ensures Valid() && View() == Do(old(View()), Step.Ref(f))
      ensures fns[f].refd && live == old(live) + if old(fns[f].refd) then 0 else 1
    {
      var t := fns[f];
      ghost var was := Values(fns);
      if !t.refd {
        t.refd := true;
        assert Values(fns) == was[f := t.Value()];
        LiveInc();
      }
    }

    method Unref(f: nat)
      requires Valid() && Enabled(View(), Step.Unref(f))
      modifies this, fns[f]
      ensures Valid() && View() == Do(old(View()), Step.Unref(f))
      ensures !fns[f].refd && live == if old(fns[f].refd) && old(live) > 0 then old(live) - 1 else old(live)
    {
      var t := fns[f];
      ghost var was := Values(fns);
      if t.refd {
        t.refd := false;
        assert Values(fns) == was[f := t.Value()];
        LiveDec();
      }
    }

    /** finish_tsf for the close task in hand, of a function that still exists: a finalized one is left alone. */
    method Finish(f: nat) returns (first: bool)
      requires Valid() && drain == Got(Close(f)) && f < |fns| && !fns[f].freed
      modifies `drain, fns[f]
      ensures View() == Do(old(View()), Finalize) && first == View().drain.Finishing?
    {
      hide Do;
      FinalizeIs(View(), f);
      var t := fns[f];
      ghost var was := Values(fns);
      t.closed := t.closed + 1;
      first := !t.finalized;
      if first {
        t.finalized := true;
        t.fins := t.fins + 1;
        drain := Finishing(f);
      } else {
        drain := Idle;
      }
      assert Values(fns) == was[f := t.Value()];
    }

    method FreeFn(f: nat)
      requires Valid() && drain == Finishing(f) && f < |fns|
      modifies `drain, `live, `pump, fns[f]
      ensures View() == Do(old(View()), Free) && drain == Idle
    {
      var t := fns[f];
      ghost var was := Values(fns);
      t.freed := true;
      drain := Idle;
      assert Values(fns) == was[f := t.Value()];
      if t.refd { LiveDec(); }
    }

    /** The call in hand is counted off. */
    method CountOff(f: nat, data: Data)
      requires Valid() && drain == Got(Task.Call(f, data)) && f < |fns| && !fns[f].freed
      modifies `drain, fns[f]
      ensures View() == Do(old(View()), Uncount) && drain == Calling(f, data)
    {
      var t := fns[f];
      ghost var was := Values(fns);
      if t.queued > 0 { t.queued := t.queued - 1; }
      drain := Calling(f, data);
      assert Values(fns) == was[f := t.Value()];
    }

    /** The call in hand is made. */
    method Make(f: nat, data: Data)
      requires Valid() && drain == Calling(f, data) && f < |fns| && !fns[f].freed
      modifies `drain, fns[f]
      ensures View() == Do(old(View()), Deliver) && drain == Idle
    {
      var t := fns[f];
      ghost var was := Values(fns);
      t.delivered := t.delivered + [data];
      drain := Idle;
      assert Values(fns) == was[f := t.Value()];
    }

    /** One task off the queue, and what it asks for. */
    method DrainOne()
      requires Valid() && Inv(View()) && Once(View()) && drain == Idle && tasks != []
      modifies this, fns
      ensures Valid() && Inv(View()) && Once(View()) && drain == Idle && tasks == old(tasks[1..]) && fns == old(fns)
    {
      hide Inv, Do, Once;
      HeadIsKnown(View());
      StepKeepsInv(View(), Take);
      OnceKept(View(), Take);
      TakeIs(View());
      var task := tasks[0];
      drain := Got(task);
      tasks := tasks[1..];
      RunTask(task);
    }

    method RunTask(task: Task)
      requires Valid() && Inv(View()) && Once(View()) && drain == Got(task) && Known(task, |fns|)
      modifies this, fns
      ensures Valid() && Inv(View()) && Once(View()) && drain == Idle && tasks == old(tasks) && fns == old(fns)
    {
      hide Inv, Do, Once;
      match task {
        case Work =>
          StepKeepsInv(View(), CompleteWork);
          OnceKept(View(), CompleteWork);
          WorkIs(View());
          drain := Idle;
          LiveDec();
        case Call(f, data) => RunCall(f, data);
        case Close(f) => RunClose(f);
      }
    }

    method RunCall(f: nat, data: Data)
      requires Valid() && Inv(View()) && Once(View()) && drain == Got(Task.Call(f, data)) && f < |fns|
      modifies this, fns
      ensures Valid() && Inv(View()) && Once(View()) && drain == Idle && tasks == old(tasks) && fns == old(fns)
    {
      hide Inv, Do, Once;
      CallIs(View());
      StepKeepsInv(View(), Uncount);
      OnceKept(View(), Uncount);
      CountOff(f, data);
      StepKeepsInv(View(), Deliver);
      OnceKept(View(), Deliver);
      Make(f, data);
    }

    method RunClose(f: nat)
      requires Valid() && Inv(View()) && Once(View()) && drain == Got(Close(f)) && f < |fns|
      modifies this, fns
      ensures Valid() && Inv(View()) && Once(View()) && drain == Idle && tasks == old(tasks) && fns == old(fns)
    {
      hide Inv, Do, Once;
      CloseIs(View());
      StepKeepsInv(View(), Finalize);
      OnceKept(View(), Finalize);
      var first := Finish(f);
      if first {
        StepKeepsInv(View(), Free);
        OnceKept(View(), Free);
        FreeFn(f);
      }
    }

    /**
     * fg_drain, with callbacks that do nothing and no function aborted twice: the queue is emptied in order and every
     * accepted call is made.
     */
    method DrainAll() returns (processed: nat)
      requires Valid() && Inv(View()) && Once(View()) && drain == Idle
      modifies this, fns
      ensures Valid() && Inv(View()) && drain == Idle && tasks == [] && fns == old(fns)
      ensures processed == |old(tasks)|
      ensures forall i | 0 <= i < |fns| :: fns[i].delivered == fns[i].accepted && fns[i].queued == 0
    {
      hide Inv, Do, Once;
      processed := 0;
      while tasks != []
        invariant Valid() && Inv(View()) && Once(View()) && drain == Idle && fns == old(fns)
        invariant processed + |tasks| == |old(tasks)|
        decreases |tasks|
      {
        DrainOne();
        processed := processed + 1;
      }
      EmptyIsDelivered(View());
    }
  }

  lemma FinalizeIs(s: State, f: nat)
    requires s.drain == Got(Close(f)) && f < |s.fns| && !s.fns[f].freed
    ensures var fn := s.fns[f];
      Do(s, Finalize) == State(s.tasks,
        s.fns[f := if fn.finalized then fn.(closed := fn.closed + 1)
                   else fn.(finalized := true, fins := fn.fins + 1, closed := fn.closed + 1)],
        if fn.finalized then Idle else Finishing(f), s.live, s.pump, s.work)
  {
  }

  lemma HeadIsKnown(s: State)
    requires Inv(s) && s.drain == Idle && s.tasks != []
    ensures Enabled(s, Take) && Known(s.tasks[0], |s.fns|)
  {
  }

  lemma TakeIs(s: State)
    requires Enabled(s, Take)
    ensures Do(s, Take) == s.(drain := Got(s.tasks[0]), tasks := s.tasks[1..])
  {
  }

  lemma WorkIs(s: State)
    requires s.drain == Got(Work)
    ensures Do(s, CompleteWork) == NapiTsf.LiveDec(s).(drain := Idle)
  {
  }

  lemma CallIs(s: State)
    requires Inv(s) && s.drain.Got? && s.drain.task.Call? && s.drain.task.f < |s.fns|
    ensures !s.fns[s.drain.task.f].freed && Enabled(s, Uncount)
    ensures Do(s, Uncount).tasks == s.tasks && Enabled(Do(s, Uncount), Deliver)
    ensures Do(Do(s, Uncount), Deliver).tasks == s.tasks
  {
    assert FnInv(s, s.drain.task.f);
  }

  /** The close task of a function that was aborted once at most finds it still there. */
  lemma CloseIs(s: State)
    requires Inv(s) && Once(s) && s.drain.Got? && s.drain.task.Close? && s.drain.task.f < |s.fns|
    ensures !s.fns[s.drain.task.f].freed && Enabled(s, Finalize)
    ensures Do(s, Finalize).tasks == s.tasks
    ensures Do(s, Finalize).drain == Idle || Do(s, Finalize).drain == Finishing(s.drain.task.f)
    ensures Do(s, Finalize).drain != Idle ==>
      Enabled(Do(s, Finalize), Free) && Do(Do(s, Finalize), Free).tasks == s.tasks
  {
    assert FnInv(s, s.drain.task.f);
  }

  lemma OnceKept(s: State, step: Step)
    requires Once(s) && Enabled(s, step) && Drains(step)
    ensures Once(Do(s, step))
  {
  }

  lemma EmptyIsDelivered(s: State)
    requires Inv(s) && s.tasks == [] && s.drain == Idle
    ensures forall f | 0 <= f < |s.fns| :: s.fns[f].delivered == s.fns[f].accepted && s.fns[f].queued == 0
  {
    forall f | 0 <= f < |s.fns| ensures s.fns[f].delivered == s.fns[f].accepted && s.fns[f].queued == 0 {
      assert FnInv(s, f);
    }
  }
}
