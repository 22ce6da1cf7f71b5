/** What every step of the thread pool keeps. */
module UvPoolInvariants {
  import opened Wrappers
  import opened Sequences
  import opened UvPool

  // ---- counting --------------------------------------------------------------------------------------------

  lemma WithoutOne(q: seq<Id>, x: Id, r: Id)
    requires x in q
    ensures Count(Without(q, x), r) == Count(q, r) - One(x == r) && |Without(q, x)| == |q| - 1
  {
    var i := IndexOf(q, x);
    var a, b := q[..i], q[i + 1..];
    assert q == a + ([x] + b);
    CountConcat(a, [x] + b, r);
    CountConcat([x], b, r);
    assert Count([x], r) == One(x == r) + Count([], r);
    CountConcat(a, b, r);
  }

  lemma {:induction false} HeldByUpdate(ws: seq<Worker>, i: nat, w: Worker, r: Id)
    requires i < |ws|
    ensures HeldBy(ws[i := w], r) == HeldBy(ws, r) - Holds(ws[i], r) + Holds(w, r)
  {
    if i == 0 {
      assert ws[0 := w][1..] == ws[1..];
    } else {
      assert ws[i := w][1..] == ws[1..][i - 1 := w];
      HeldByUpdate(ws[1..], i - 1, w, r);
    }
  }

  lemma {:induction false} HeldByAppend(ws: seq<Worker>, r: Id)
    ensures HeldBy(ws + [Waiting], r) == HeldBy(ws, r)
  {
    if ws == [] {
      assert ws + [Waiting] == [Waiting];
    } else {
      assert (ws + [Waiting])[1..] == ws[1..] + [Waiting];
      HeldByAppend(ws[1..], r);
    }
  }

  lemma {:induction false} LoopUpdate(ls: seq<Loop>, l: nat, lp: Loop, r: Id)
    requires l < |ls|
    ensures SubmittedBy(ls[l := lp], r) == SubmittedBy(ls, r) - Submits(ls[l], r) + Submits(lp, r)
    ensures ReturnedTo(ls[l := lp], r) == ReturnedTo(ls, r) - Returns(ls[l], r) + Returns(lp, r)
    ensures SubmittedBy(ls, r) >= Submits(ls[l], r) && ReturnedTo(ls, r) >= Returns(ls[l], r)
  {
    if l == 0 {
      assert ls[0 := lp][1..] == ls[1..];
    } else {
      assert ls[l := lp][1..] == ls[1..][l - 1 := lp];
      LoopUpdate(ls[1..], l - 1, lp, r);
    }
  }

  // ---- conservation ----------------------------------------------------------------------------------------

  lemma ReqDoneCounts(s: State, x: Id, r: Id)
    requires Known(s, x)
    ensures var t := ReqDone(s, x);
      SubmittedBy(t.loops, r) == SubmittedBy(s.loops, r) &&
        ReturnedTo(t.loops, r) == ReturnedTo(s.loops, r) + One(x == r)
  {
    var lp := s.loops[s.owner[x]];
    LoopUpdate(s.loops, s.owner[x], lp.(done := lp.done + [x], kick := true), r);
    CountAppend(lp.done, x, r);
  }

  /** The request that a step takes out of the early half, if any. */
  function Leaves(s: State, step: Step): Option<Id>
    requires Enabled(s, step)
  {
    match step
    case Refuse(l) => Some(s.loops[l].call.r)
    case Take(w) => if s.pool == [] then None else Some(s.pool[0])
    case Cancel(l, r) => if r in s.pool then Some(r) else None
    case _ => None
  }

  /** How a step moves requests between the two halves: only QueueWork adds, only Take and Cancel cross over. */
  predicate Moves(s: State, step: Step, r: Id)
    requires Enabled(s, step)
  {
    var t, gone := Do(s, step), Leaves(s, step);
    && Early(t, r) == Early(s, r) + One(step.QueueWork? && step.r == r) - One(gone == Some(r))
    && Late(t, r) == Late(s, r) + One(!step.Refuse? && gone == Some(r))
    && (gone == Some(r) ==> Early(s, r) > 0)
  }

  lemma CallMoves(s: State, step: Step, r: Id)
    requires Enabled(s, step)
    requires step.QueueWork? || step.Insert? || step.Refuse? || step.Release? || step.Cancel? || step.BeginDrain?
    ensures Moves(s, step, r)
  {
    hide Count, SubmittedBy, ReturnedTo, HeldBy, Without;
    var t := Do(s, step);
    LoopUpdate(s.loops, step.l, t.loops[step.l], r);
    match step {
      case Insert(l, thread) =>
        CountAppend(s.pool, s.loops[l].call.r, r);
        HeldByAppend(s.workers, r);
      case Cancel(l, x) =>
        if x in s.pool {
          WithoutOne(s.pool, x, r);
          CountPositive(s.pool, x);
        }
      case _ =>
    }
  }

  lemma DrainMoves(s: State, step: Step, r: Id)
    requires Enabled(s, step)
    requires step.CancelDone? || step.Pop? || step.Deliver?
    ensures Moves(s, step, r)
  {
    hide SubmittedBy, ReturnedTo, HeldBy, Without;
    var t := Do(s, step);
    match step {
      case CancelDone(l) =>
        var m := SetCall(s, l, Free);
        LoopUpdate(s.loops, l, m.loops[l], r);
        ReqDoneCounts(m, s.loops[l].call.r, r);
      case Pop(l) =>
        LoopUpdate(s.loops, l, t.loops[l], r);
      case Deliver(l) =>
        LoopUpdate(s.loops, l, t.loops[l], r);
        assert Ids(t.delivered) == Ids(s.delivered) + [s.loops[l].call.r];
        CountAppend(Ids(s.delivered), s.loops[l].call.r, r);
    }
  }

  lemma WorkerMoves(s: State, step: Step, r: Id)
    requires Enabled(s, step)
    requires step.Wake? || step.Take? || step.Finish? || step.Complete?
    ensures Moves(s, step, r)
  {
    hide SubmittedBy, ReturnedTo, HeldBy, Without;
    var t := Do(s, step);
    HeldByUpdate(s.workers, step.w, t.workers[step.w], r);
    if step.Complete? {
      ReqDoneCounts(s, s.workers[step.w].r, r);
    }
  }

  lemma StepMoves(s: State, step: Step, r: Id)
    requires Enabled(s, step)
    ensures Moves(s, step, r)
  {
    hide Moves, Do, Enabled;
    match step {
      case Wake(_) => WorkerMoves(s, step, r);
      case Take(_) => WorkerMoves(s, step, r);
      case Finish(_) => WorkerMoves(s, step, r);
      case Complete(_) => WorkerMoves(s, step, r);
      case CancelDone(_) => DrainMoves(s, step, r);
      case Pop(_) => DrainMoves(s, step, r);
      case Deliver(_) => DrainMoves(s, step, r);
      case _ => CallMoves(s, step, r);
    }
  }

  /** A request of the early half has not been taken, cancelled, delivered or refused. */
  lemma EarlyIsFresh(s: State, r: Id)
    requires Conserved(s) && Accounted(s) && Early(s, r) > 0
    ensures r in s.owner && r !in s.started && r !in s.cancelled && r !in s.refused && r !in Ids(s.delivered)
    ensures Count(s.pool, r) <= 1
  {
    hide Count, SubmittedBy, ReturnedTo, HeldBy;
    assert Early(s, r) + Count(s.refused, r) + Late(s, r) == One(r in s.owner);
    assert Count(s.started, r) + One(r in s.cancelled) == Late(s, r);
    CountPositive(s.started, r);
    CountPositive(s.refused, r);
    CountPositive(Ids(s.delivered), r);
  }

  lemma StepConservesAt(s: State, step: Step, r: Id)
    requires Conserved(s) && Accounted(s) && Enabled(s, step)
    ensures var t := Do(s, step);
      && Early(t, r) + Count(t.refused, r) + Late(t, r) == One(r in t.owner)
      && Count(t.started, r) + One(r in t.cancelled) == Late(t, r)
  {
    hide Early, Late, Without, Count, Conserved, Accounted, SetCall, ReqDone;
    ConservedAt(s, r);
    StepMoves(s, step, r);
    match step {
      case Refuse(l) => CountAppend(s.refused, s.loops[l].call.r, r);
      case Take(w) => if s.pool != [] { CountAppend(s.started, s.pool[0], r); }
      case _ => SameRecords(s, step);
    }
  }

  lemma ConservedAt(s: State, r: Id)
    requires Conserved(s) && Accounted(s)
    ensures Early(s, r) + Count(s.refused, r) + Late(s, r) == One(r in s.owner)
    ensures Count(s.started, r) + One(r in s.cancelled) == Late(s, r)
  {
  }

  /** The records that a step leaves alone. */
  lemma SameRecords(s: State, step: Step)
    requires Enabled(s, step)
    ensures var t := Do(s, step);
      && (!step.Refuse? ==> t.refused == s.refused) && (!step.Take? ==> t.started == s.started)
      && (!step.QueueWork? ==> t.owner == s.owner) && (!step.Cancel? ==> t.cancelled == s.cancelled)
  {
  }

  lemma StepConserves(s: State, step: Step)
    requires Conserved(s) && Accounted(s) && Enabled(s, step)
    ensures Conserved(Do(s, step)) && Accounted(Do(s, step))
  {
    hide Early, Late, Count, Do, Enabled;
    var t := Do(s, step);
    forall r ensures Early(t, r) + Count(t.refused, r) + Late(t, r) == One(r in t.owner)
      && Count(t.started, r) + One(r in t.cancelled) == Late(t, r) {
      StepConservesAt(s, step, r);
    }
  }

  // ---- ownership and counting ------------------------------------------------------------------------------

  lemma MineAfter(s: State, step: Step, l: nat)
    requires Enabled(s, step) && l < |s.loops| && Mine(s.owner, l, s.loops[l])
    ensures Mine(Do(s, step).owner, l, Do(s, step).loops[l])
  {
    hide Without;
  }

  lemma StepOwned(s: State, step: Step)
    requires Owned(s) && Enabled(s, step)
    ensures Owned(Do(s, step))
  {
    hide Without, Mine;
    var t := Do(s, step);
    forall l | 0 <= l < |t.loops| ensures Mine(t.owner, l, t.loops[l]) {
      MineAfter(s, step, l);
    }
  }

  lemma SameOutstanding(s: State, t: State, l: nat)
    requires s.owner == t.owner && s.delivered == t.delivered && s.refused == t.refused
    ensures Outstanding(t, l) == Outstanding(s, l)
  {
  }

  /** A request that a loop holds between its done list and the callback is outstanding. */
  lemma PoppedIsOutstanding(s: State, l: nat)
    requires Conserved(s) && Owned(s) && l < |s.loops| && s.loops[l].call.Popped?
    ensures s.loops[l].call.r in Outstanding(s, l)
  {
    var r := s.loops[l].call.r;
    LoopUpdate(s.loops, l, s.loops[l], r);
    assert Early(s, r) + Count(s.refused, r) + Late(s, r) == One(r in s.owner);
    CountPositive(s.refused, r);
    CountPositive(Ids(s.delivered), r);
  }

  lemma StepCounts(s: State, step: Step)
    requires Conserved(s) && Accounted(s) && Counted(s) && Owned(s) && Enabled(s, step)
    ensures Counted(Do(s, step))
  {
    hide Conserved, Accounted, Early, Late, Without;
    var t := Do(s, step);
    forall k | 0 <= k < |t.loops| ensures t.loops[k].nreqs == |Outstanding(t, k)| {
      match step {
        case QueueWork(l, r) =>
          Submitted(s, t, l, r, k);
        case Refuse(l) =>
          RefusedIsOutstanding(s, l);
          Gone(s, t, l, s.loops[l].call.r, k);
        case Deliver(l) =>
          PoppedIsOutstanding(s, l);
          assert Ids(t.delivered) == Ids(s.delivered) + [s.loops[l].call.r];
          Gone(s, t, l, s.loops[l].call.r, k);
        case _ =>
          SameOutstanding(s, t, k);
      }
    }
  }

  lemma RefusedIsOutstanding(s: State, l: nat)
    requires Conserved(s) && Accounted(s) && Owned(s) && l < |s.loops| && s.loops[l].call.Submitting?
    ensures s.loops[l].call.r in Outstanding(s, l)
  {
    SubmittingIsEarly(s, l);
    EarlyIsFresh(s, s.loops[l].call.r);
  }

  lemma Gone(s: State, t: State, l: nat, r: Id, k: nat)
    requires r in Outstanding(s, l) && t.owner == s.owner
    requires forall x :: x in Ids(t.delivered) || x in t.refused <==> x == r || x in Ids(s.delivered) || x in s.refused
    ensures |Outstanding(t, k)| == |Outstanding(s, k)| - (if k == l then 1 else 0)
  {
    if k == l {
      assert Outstanding(t, k) == Outstanding(s, k) - {r};
    } else {
      assert Outstanding(t, k) == Outstanding(s, k);
    }
  }

  lemma Submitted(s: State, t: State, l: nat, r: Id, k: nat)
    requires r !in s.owner && t.owner == s.owner[r := l] && t.delivered == s.delivered && t.refused == s.refused
    requires Conserved(s) && Accounted(s)
    ensures |Outstanding(t, k)| == |Outstanding(s, k)| + (if k == l then 1 else 0)
  {
    hide Early, Late, Conserved, Accounted, Count;
    ConservedAt(s, r);
    NowhereElse(s, r);
    if k == l {
      assert Outstanding(t, k) == Outstanding(s, k) + {r};
    } else {
      assert Outstanding(t, k) == Outstanding(s, k);
    }
  }

  lemma NowhereElse(s: State, r: Id)
    requires Early(s, r) + Count(s.refused, r) + Late(s, r) == 0
    ensures r !in s.refused && r !in Ids(s.delivered)
  {
    CountPositive(s.refused, r);
    CountPositive(Ids(s.delivered), r);
  }

  // ---- statuses, tokens, wake-ups and order ----------------------------------------------------------------

  lemma StepTruthful(s: State, step: Step)
    requires Conserved(s) && Accounted(s) && Truthful(s) && Enabled(s, step)
    ensures Truthful(Do(s, step))
  {
    hide Early, Late, Conserved, Accounted, Without;
    if step.Cancel? && step.r in s.pool {
      PoolIsEarly(s, step.r);
      EarlyIsFresh(s, step.r);
      forall i | 0 <= i < |s.delivered| ensures s.delivered[i].r != step.r {
        assert Ids(s.delivered)[i] == s.delivered[i].r;
      }
    }
  }

  lemma PoolIsEarly(s: State, r: Id)
    requires r in s.pool
    ensures Early(s, r) > 0
  {
    CountPositive(s.pool, r);
  }

  lemma {:induction false} ReleasesUpdate(ls: seq<Loop>, l: nat, lp: Loop)
    requires l < |ls|
    ensures Releases(ls[l := lp]) == Releases(ls) - (if ls[l].call.Releasing? then 1 else 0) +
      (if lp.call.Releasing? then 1 else 0)
  {
    if l == 0 {
      assert ls[0 := lp][1..] == ls[1..];
    } else {
      assert ls[l := lp][1..] == ls[1..][l - 1 := lp];
      ReleasesUpdate(ls[1..], l - 1, lp);
    }
  }

  lemma {:induction false} WakesUpdate(ws: seq<Worker>, w: nat, x: Worker)
    requires w < |ws|
    ensures Wakes(ws[w := x]) == Wakes(ws) - (if ws[w].Woken? then 1 else 0) + (if x.Woken? then 1 else 0)
  {
    if w == 0 {
      assert ws[0 := x][1..] == ws[1..];
    } else {
      assert ws[w := x][1..] == ws[1..][w - 1 := x];
      WakesUpdate(ws[1..], w - 1, x);
    }
  }

  lemma {:induction false} WakesAppend(ws: seq<Worker>)
    ensures Wakes(ws + [Waiting]) == Wakes(ws)
  {
    if ws == [] {
      assert ws + [Waiting] == [Waiting];
    } else {
      assert (ws + [Waiting])[1..] == ws[1..] + [Waiting];
      WakesAppend(ws[1..]);
    }
  }

  lemma StepCovers(s: State, step: Step)
    requires Covered(s) && Enabled(s, step)
    ensures Covered(Do(s, step))
  {
    hide Without;
    var t := Do(s, step);
    match step {
      case QueueWork(l, r) => ReleasesUpdate(s.loops, l, t.loops[l]);
      case Insert(l, thread) =>
        ReleasesUpdate(s.loops, l, t.loops[l]);
        WakesAppend(s.workers);
      case Refuse(l) => ReleasesUpdate(s.loops, l, t.loops[l]);
      case Release(l) => ReleasesUpdate(s.loops, l, t.loops[l]);
      case Wake(w) => WakesUpdate(s.workers, w, Woken);
      case Take(w) => WakesUpdate(s.workers, w, t.workers[w]);
      case Finish(w) => WakesUpdate(s.workers, w, t.workers[w]);
      case Complete(w) =>
        WakesUpdate(s.workers, w, Waiting);
        ReleasesUpdate(s.loops, s.owner[s.workers[w].r], t.loops[s.owner[s.workers[w].r]]);
      case Cancel(l, r) =>
        if r in s.pool {
          ReleasesUpdate(s.loops, l, t.loops[l]);
          WithoutOne(s.pool, r, r);
        }
      case CancelDone(l) =>
        var m := SetCall(s, l, Free);
        ReleasesUpdate(s.loops, l, m.loops[l]);
        ReleasesUpdate(m.loops, s.owner[s.loops[l].call.r], t.loops[s.owner[s.loops[l].call.r]]);
      case BeginDrain(l) => ReleasesUpdate(s.loops, l, t.loops[l]);
      case Pop(l) => ReleasesUpdate(s.loops, l, t.loops[l]);
      case Deliver(l) => ReleasesUpdate(s.loops, l, t.loops[l]);
    }
  }

  lemma StepTells(s: State, step: Step)
    requires Told(s) && Enabled(s, step)
    ensures Told(Do(s, step))
  {
    hide Without, IndexOf;
  }

  lemma {:induction false} KeptAppend(ids: seq<Id>, gone: set<Id>, r: Id)
    ensures Kept(ids + [r], gone) == Kept(ids, gone) + (if r in gone then [] else [r])
  {
    if ids == [] {
      assert ids + [r] == [r];
    } else {
      assert (ids + [r])[1..] == ids[1..] + [r];
      KeptAppend(ids[1..], gone, r);
      Regroup(if ids[0] in gone then [] else [ids[0]], Kept(ids[1..], gone), if r in gone then [] else [r]);
    }
  }

  /** Cancelling a request drops it from what is kept. */
  lemma {:induction false} KeptCancel(ids: seq<Id>, gone: set<Id>, r: Id)
    ensures Kept(ids, gone + {r}) == Kept(Kept(ids, gone), {r})
  {
    if ids != [] {
      KeptCancel(ids[1..], gone, r);
      if ids[0] !in gone {
        assert Kept(ids, gone)[1..] == Kept(ids[1..], gone);
      } else {
        assert Kept(ids, gone) == Kept(ids[1..], gone);
      }
    }
  }

  lemma {:induction false} KeptNothing(ids: seq<Id>, r: Id)
    requires r !in ids
    ensures Kept(ids, {r}) == ids
  {
    if ids != [] {
      assert ids[0] != r;
      KeptNothing(ids[1..], r);
      assert ids == [ids[0]] + ids[1..];
    }
  }

  lemma {:induction false} KeptConcat(a: seq<Id>, b: seq<Id>, gone: set<Id>)
    ensures Kept(a + b, gone) == Kept(a, gone) + Kept(b, gone)
  {
    if a == [] {
      assert a + b == b;
    } else {
      assert (a + b)[1..] == a[1..] + b;
      KeptConcat(a[1..], b, gone);
    }
  }

  lemma KeptWithout(started: seq<Id>, pool: seq<Id>, r: Id)
    requires r !in started && r in pool && Count(pool, r) <= 1
    ensures Kept(started + pool, {r}) == started + Without(pool, r)
  {
    hide Kept, Count;
    var i := IndexOf(pool, r);
    var a, b := pool[..i], pool[i + 1..];
    assert pool == a + ([r] + b);
    CountConcat(a, [r] + b, r);
    CountConcat([r], b, r);
    JustOne(r);
    CountPositive(a, r);
    CountPositive(b, r);
    KeptConcat(started, a + ([r] + b), {r});
    KeptConcat(a, [r] + b, {r});
    KeptConcat([r], b, {r});
    KeptNothing(started, r);
    KeptNothing(a, r);
    KeptNothing(b, r);
    assert [] + b == b;
  }

  lemma JustOne(r: Id)
    ensures Kept([r], {r}) == [] && Count([r], r) == 1
  {
    assert [r][1..] == [];
  }

  lemma StepKeepsOrder(s: State, step: Step)
    requires Conserved(s) && Accounted(s) && InOrder(s) && Enabled(s, step)
    ensures InOrder(Do(s, step))
  {
    hide Conserved, Accounted, Without, Kept;
    var t := Do(s, step);
    match step {
      case Insert(l, thread) =>
        var r := s.loops[l].call.r;
        SubmittingIsEarly(s, l);
        EarlyIsFresh(s, r);
        KeptAppend(s.inserted, s.cancelled, r);
        assert t.started + t.pool == (s.started + s.pool) + [r];
      case Take(w) =>
        if s.pool != [] {
          assert s.started + [s.pool[0]] + s.pool[1..] == s.started + s.pool;
        }
      case Cancel(l, r) =>
        if r in s.pool {
          PoolIsEarly(s, r);
          EarlyIsFresh(s, r);
          KeptCancel(s.inserted, s.cancelled, r);
          KeptWithout(s.started, s.pool, r);
        }
      case _ =>
    }
  }

  lemma SubmittingIsEarly(s: State, l: nat)
    requires l < |s.loops| && s.loops[l].call.Submitting?
    ensures Early(s, s.loops[l].call.r) > 0
  {
    LoopUpdate(s.loops, l, s.loops[l], s.loops[l].call.r);
  }

  // ---- every run -------------------------------------------------------------------------------------------

  lemma StepKeepsInv(s: State, step: Step)
    requires Inv(s) && Enabled(s, step)
    ensures Inv(Do(s, step))
  {
    hide Conserved, Accounted, Counted, Owned, Truthful, Covered, Told, InOrder, Do;
    StepConserves(s, step);
    StepOwned(s, step);
    StepCounts(s, step);
    StepTruthful(s, step);
    StepCovers(s, step);
    StepTells(s, step);
    StepKeepsOrder(s, step);
  }

  lemma {:induction false} NothingYet(ls: seq<Loop>, r: Id)
    requires forall l | 0 <= l < |ls| :: ls[l] == Loop(Free, false, false, [], 0)
    ensures SubmittedBy(ls, r) == 0 && ReturnedTo(ls, r) == 0
  {
    if ls != [] {
      NothingYet(ls[1..], r);
    }
  }

  lemma InitialInv(s: State)
    requires Initial(s)
    ensures Inv(s)
  {
    forall r ensures SubmittedBy(s.loops, r) == 0 && ReturnedTo(s.loops, r) == 0 {
      NothingYet(s.loops, r);
    }
    assert Ids(s.delivered) == [];
    forall l ensures Outstanding(s, l) == {} {
    }
  }

  lemma {:induction false} RunKeepsInv(s: State, steps: seq<Step>, t: State)
    requires Inv(s) && Runs(s, steps, t)
    ensures Inv(t)
    decreases |steps|
  {
    hide Inv, Enabled, Do;
    if steps != [] {
      StepKeepsInv(s, steps[0]);
      RunKeepsInv(Do(s, steps[0]), steps[1..], t);
    }
  }
}
