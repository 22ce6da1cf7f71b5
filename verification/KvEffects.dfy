/** What commits and rejections come to for one key or message: arithmetic, lives of values, when messages are due. */
module KvEffects {
  import opened Wrappers
  import opened KvStamps
  import opened KvStore
  import opened KvHistory
  import opened KvQueue

  // ---- arithmetic ------------------------------------------------------------------------------------------

  function Total(ns: seq<int>): int {
    if ns == [] then 0 else ns[0] + Total(ns[1..])
  }

  /** What a counter holds after operations of one kind: the sum modulo 2^64, the least or the greatest of all. */
  ghost predicate Results(kind: Kind, first: int, operands: seq<int>, x: int) {
    match kind
    case Sum =>
      0 <= x < 0x1_0000_0000_0000_0000 && exists k :: x == first + Total(operands) - k * 0x1_0000_0000_0000_0000
    case Min => x in [first] + operands && x <= first && forall o | o in operands :: x <= o
    case Max => x in [first] + operands && x >= first && forall o | o in operands :: x >= o
  }

  /** Arithmetic of one kind on one key, without an expiry. */
  predicate AllOn(ms: seq<Mutation>, kind: Kind, key: KeyBytes) {
    forall i | 0 <= i < |ms| :: ms[i].Arithmetic? && ms[i].kind == kind && ms[i].key == key && ms[i].expireIn == None
  }

  function Operands(ms: seq<Mutation>, kind: Kind, key: KeyBytes): (ns: seq<int>)
    requires AllOn(ms, kind, key)
    ensures |ns| == |ms| && forall i | 0 <= i < |ms| :: ns[i] == ms[i].operand
  {
    seq(|ms|, i requires 0 <= i < |ms| => ms[i].operand)
  }

  /** One step: the sum modulo 2^64, the smaller or the larger number. */
  lemma CombinedIs(kind: Kind, n: u64, m: u64)
    ensures var x := Combine(kind, n, m);
      match kind
      case Sum => (n + m < 0x1_0000_0000_0000_0000 ==> x == n + m)
        && (n + m >= 0x1_0000_0000_0000_0000 ==> x == n + m - 0x1_0000_0000_0000_0000)
      case Min => x <= n && x <= m && (x == n || x == m)
      case Max => x >= n && x >= m && (x == n || x == m)
  {
  }

  lemma ResultsStep(kind: Kind, n: u64, m: u64, operands: seq<int>, x: int)
    requires operands != [] && operands[0] == m && Results(kind, Combine(kind, n, m), operands[1..], x)
    ensures Results(kind, n, operands, x)
  {
    CombinedIs(kind, n, m);
    assert operands == [m] + operands[1..];
    if kind == Sum {
      var next := Combine(Sum, n, m);
      var k :| x == next + Total(operands[1..]) - k * 0x1_0000_0000_0000_0000;
      var j := if n + m < 0x1_0000_0000_0000_0000 then k else k + 1;
      assert x == n + Total(operands) - j * 0x1_0000_0000_0000_0000;
    }
  }

  lemma {:induction false} ArithmeticFolds(t: Table, kind: Kind, key: KeyBytes, ms: seq<Mutation>, raw: nat, now: int)
    requires AllOn(ms, kind, key) && ms != [] && Get(t, key, now).Some? && t[key].value.U64?
    ensures var r := MutateAll(t, ms, raw, now);
      && r.Some? && key in r.value && r.value[key].value.U64? && r.value[key].expires == None && r.value[key].vs == raw
      && Results(kind, t[key].value.n, Operands(ms, kind, key), r.value[key].value.n)
    decreases |ms|
  {
    hide Results, Combine;
    var n, m := t[key].value.n, ms[0].operand;
    var next := t[key := Row(U64(Combine(kind, n, m)), raw, None)];
    assert Mutate(t, ms[0], raw, now) == Some(next);
    var rest := ms[1..];
    assert Operands(ms, kind, key)[1..] == Operands(rest, kind, key);
    if rest == [] {
      NothingMore(kind, Combine(kind, n, m));
      assert Operands(rest, kind, key) == [];
      ResultsStep(kind, n, m, Operands(ms, kind, key), Combine(kind, n, m));
    } else {
      ArithmeticFolds(next, kind, key, rest, raw, now);
      ResultsStep(kind, n, m, Operands(ms, kind, key), MutateAll(next, rest, raw, now).value[key].value.n);
    }
  }

  lemma NothingMore(kind: Kind, n: u64)
    ensures Results(kind, n, [], n)
  {
    assert n == n + Total([]) - 0 * 0x1_0000_0000_0000_0000;
  }

  /** A commit of sums, of minima or of maxima on a live counter leaves the sum modulo 2^64, the least, the greatest. */
  lemma ArithmeticCommits(db: Db, kind: Kind, key: KeyBytes, ms: seq<Mutation>, now: int)
    requires AllOn(ms, kind, key) && ms != [] && Get(db.kv, key, now).Some? && db.kv[key].value.U64?
    requires db.version < MAX_SAFE
    ensures var (after, r) := CommitTo(db, [], ms, [], now);
      && r.Committed? && Get(after.kv, key, now).Some? && after.kv[key].value.U64?
      && Results(kind, db.kv[key].value.n, Operands(ms, kind, key), after.kv[key].value.n)
  {
    hide MutateAll, Results;
    ArithmeticFolds(db.kv, kind, key, ms, db.version + 1, now);
  }

  /** On a key without a live row, the first operand is what the counter starts from. */
  lemma CounterStarts(db: Db, kind: Kind, key: KeyBytes, m: u64, now: int)
    requires Get(db.kv, key, now) == None && db.version < MAX_SAFE
    ensures var (after, r) := CommitTo(db, [], [Arithmetic(kind, key, m, None)], [], now);
      r.Committed? && Get(after.kv, key, now) == Some(Row(U64(m), after.version, None))
  {
    var mutation := Arithmetic(kind, key, m, None);
    var next := db.kv[key := Row(U64(m), db.version + 1, None)];
    assert [mutation][1..] == [];
    assert MutateAll(db.kv, [mutation], db.version + 1, now) == Some(next);
  }

  /** On any other live value it throws, and nothing is changed. */
  lemma ArithmeticNeedsCounter(db: Db, kind: Kind, key: KeyBytes, m: u64, expireIn: Option<int>, now: int)
    requires Get(db.kv, key, now).Some? && !db.kv[key].value.U64?
    ensures CommitTo(db, [], [Arithmetic(kind, key, m, expireIn)], [], now) == (db, Threw)
  {
    assert MutateAll(db.kv, [Arithmetic(kind, key, m, expireIn)], db.version + 1, now) == None;
  }

  /** Without arithmetic, a commit fails exactly on a check, on what cannot be stored, or at commit number 2^53 - 1. */
  lemma CommitSucceedsIff(db: Db, checks: seq<Check>, ms: seq<Mutation>, es: seq<Enqueue>, now: int)
    requires forall i | 0 <= i < |ms| :: !ms[i].Arithmetic?
    ensures var r := CommitTo(db, checks, ms, es, now).1;
      && (r == Refused <==> exists i | 0 <= i < |checks| :: checks[i].stamp != CurrentStamp(db.kv, checks[i].key, now))
      && (r.Committed? <==>
           && r != Refused && db.version < 9007199254740991
           && (forall i | 0 <= i < |ms| :: ms[i].Set? ==> ms[i].value.Some?)
           && (forall i | 0 <= i < |es| :: es[i].payload.Some? && es[i].undelivered != BadKeys))
  {
    hide CurrentStamp, MutateAll, EnqueueAll;
    StorableIff(db.kv, ms, db.version + 1, now);
    SendableIff(db.queue, db.nextId, es, now);
  }

  lemma {:induction false} StorableIff(t: Table, ms: seq<Mutation>, raw: nat, now: int)
    requires forall i | 0 <= i < |ms| :: !ms[i].Arithmetic?
    ensures MutateAll(t, ms, raw, now).Some? <==> forall i | 0 <= i < |ms| :: ms[i].Set? ==> ms[i].value.Some?
    decreases |ms|
  {
    if ms != [] {
      var next := Mutate(t, ms[0], raw, now);
      assert ms == [ms[0]] + ms[1..];
      if next.Some? { StorableIff(next.value, ms[1..], raw, now); }
    }
  }

  lemma {:induction false} SendableIff(q: map<nat, QueueRow>, nextId: nat, es: seq<Enqueue>, now: int)
    ensures EnqueueAll(q, nextId, es, now).Some? <==>
      forall i | 0 <= i < |es| :: es[i].payload.Some? && es[i].undelivered != BadKeys
    decreases |es|
  {
    if es != [] {
      assert es == [es[0]] + es[1..];
      if Encodes(es[0]) { SendableIff(q[nextId := Untried(es[0], now)], nextId + 1, es[1..], now); }
    }
  }

  // ---- how long a value lives ------------------------------------------------------------------------------

  lemma {:induction false} OthersLeaveIt(t: Table, ms: seq<Mutation>, key: KeyBytes, raw: nat, now: int)
    requires MutateAll(t, ms, raw, now).Some? && forall i | 0 <= i < |ms| :: ms[i].key != key
    ensures RowAt(MutateAll(t, ms, raw, now).value, key) == RowAt(t, key)
    decreases |ms|
  {
    if ms != [] { OthersLeaveIt(Mutate(t, ms[0], raw, now).value, ms[1..], key, raw, now); }
  }

  lemma {:induction false} MutateAllSplits(t: Table, a: seq<Mutation>, b: seq<Mutation>, raw: nat, now: int)
    ensures MutateAll(t, a + b, raw, now) ==
      match MutateAll(t, a, raw, now) case None => None case Some(u) => MutateAll(u, b, raw, now)
    decreases |a|
  {
    hide Mutate;
    if a == [] {
      assert a + b == b;
    } else {
      assert (a + b)[1..] == a[1..] + b;
      match Mutate(t, a[0], raw, now) {
        case None =>
        case Some(u) => MutateAllSplits(u, a[1..], b, raw, now);
      }
    }
  }

  /** Whether a time is before the end of a life that began at `start`: always, without an end. */
  predicate Before(start: int, life: Option<int>, time: int) {
    life.None? || time < start + life.value
  }

  /** The last of the mutations of a key in a transaction stores this value. */
  predicate LastSets(ms: seq<Mutation>, i: nat, key: KeyBytes, value: Packed, life: Option<int>) {
    i < |ms| && ms[i] == Set(key, Some(value), life) && forall j | i < j < |ms| :: ms[j].key != key
  }

  /** A value that was set is there under the version of its commit, unless its life is over at once. */
  lemma SetIsStored(db: Db, checks: seq<Check>, ms: seq<Mutation>, es: seq<Enqueue>, now: int,
      i: nat, key: KeyBytes, value: Packed, life: Option<int>)
    requires LastSets(ms, i, key, value, life)
    requires CommitTo(db, checks, ms, es, now).1.Committed?
    ensures var after := CommitTo(db, checks, ms, es, now).0;
      RowAt(after.kv, key)
        == if Before(now, life, now)
           then Some(Row(value, after.version, if life.None? then None else Some(now + life.value)))
           else None
  {
    hide MutateAll, EnqueueAll, ChecksPass;
    var raw := db.version + 1;
    assert ms == ms[..i + 1] + ms[i + 1..] && ms[..i + 1] == ms[..i] + [ms[i]];
    MutateAllSplits(db.kv, ms[..i + 1], ms[i + 1..], raw, now);
    MutateAllSnoc(db.kv, ms[..i], ms[i], raw, now);
    OthersLeaveIt(MutateAll(db.kv, ms[..i + 1], raw, now).value, ms[i + 1..], key, raw, now);
  }

  /** The step writes nothing under the key, and is not later than the time. */
  predicate Spares(s: Step, key: KeyBytes, time: int) {
    match s
    case CommitStep(_, ms, _, now) => now <= time && forall i | 0 <= i < |ms| :: ms[i].key != key
    case TakeStep(_) => true
    case FailStep(row, _, _) => row.undelivered.Some? ==> key !in row.undelivered.value
  }

  /** Such a step leaves the row of the key, or takes out one that is over at the time. */
  lemma SparedRow(db: Db, s: Step, key: KeyBytes, time: int)
    requires Spares(s, key, time)
    ensures Get(After(db, s).kv, key, time) == Get(db.kv, key, time)
  {
    hide MutateAll, EnqueueAll, PutAll, ChecksPass;
    match s {
      case CommitStep(checks, ms, es, now) =>
        var raw := db.version + 1;
        if MutateAll(db.kv, ms, raw, now).Some? { OthersLeaveIt(db.kv, ms, key, raw, now); }
      case TakeStep(_) =>
      case FailStep(row, later, message) =>
        if row.undelivered.Some? && message.Some? {
          PutAllIs(db.kv, row.undelivered.value, message.value, db.version + 1);
        }
    }
  }

  lemma {:induction false} SparedRun(db: Db, steps: seq<Step>, key: KeyBytes, time: int)
    requires forall i | 0 <= i < |steps| :: Spares(steps[i], key, time)
    ensures Get(Run(db, steps)[|steps|].kv, key, time) == Get(db.kv, key, time)
    decreases |steps|
  {
    hide After, Spares, Get;
    if steps != [] {
      SparedRow(db, steps[0], key, time);
      SparedRun(After(db, steps[0]), steps[1..], key, time);
    }
  }

  /**
   * A value that a commit at time `now` stores with a life in milliseconds reads back, while nothing else writes its
   * key, exactly at times before now + life, with the versionstamp of the commit; without a life it always does.
   */
  lemma ValueLives(db: Db, checks: seq<Check>, ms: seq<Mutation>, es: seq<Enqueue>, now: int,
      i: nat, key: KeyBytes, value: Packed, life: Option<int>, steps: seq<Step>, time: int)
    requires LastSets(ms, i, key, value, life) && time >= now
    requires CommitTo(db, checks, ms, es, now).1.Committed?
    requires forall j | 0 <= j < |steps| :: Spares(steps[j], key, time)
    ensures var (after, r) := CommitTo(db, checks, ms, es, now);
      var last := Run(after, steps)[|steps|];
      if life.None? || time < now + life.value
      then Get(last.kv, key, time).Some? && Get(last.kv, key, time).value.value == value
           && CurrentStamp(last.kv, key, time) == Some(r.stamp)
      else Get(last.kv, key, time) == None
  {
    hide CommitTo, Run, StampOf, Spares;
    var (after, r) := CommitTo(db, checks, ms, es, now);
    SetIsStored(db, checks, ms, es, now, i, key, value, life);
    CommitAllOrNothing(db, checks, ms, es, now);
    SparedRun(after, steps, key, time);
  }

  /** A key deleted last is gone. */
  lemma DeletedIsGone(db: Db, checks: seq<Check>, ms: seq<Mutation>, es: seq<Enqueue>, now: int, i: nat, key: KeyBytes)
    requires i < |ms| && ms[i] == Delete(key) && forall j | i < j < |ms| :: ms[j].key != key
    requires CommitTo(db, checks, ms, es, now).1.Committed?
    ensures key !in CommitTo(db, checks, ms, es, now).0.kv
  {
    hide MutateAll, EnqueueAll, ChecksPass;
    var raw := db.version + 1;
    assert ms == ms[..i + 1] + ms[i + 1..] && ms[..i + 1] == ms[..i] + [ms[i]];
    MutateAllSplits(db.kv, ms[..i + 1], ms[i + 1..], raw, now);
    MutateAllSnoc(db.kv, ms[..i], ms[i], raw, now);
    OthersLeaveIt(MutateAll(db.kv, ms[..i + 1], raw, now).value, ms[i + 1..], key, raw, now);
  }

  // ---- when messages are due -------------------------------------------------------------------------------

  lemma {:induction false} EnqueuedRow(q: map<nat, QueueRow>, nextId: nat, es: seq<Enqueue>, now: int, i: nat)
    requires EnqueueAll(q, nextId, es, now).Some? && i < |es|
    ensures var r := EnqueueAll(q, nextId, es, now).value;
      && nextId + i in r && es[i].payload == Some(r[nextId + i].payload)
      && r[nextId + i].ready == now + es[i].delay && r[nextId + i].attempts == 0
      && r[nextId + i].backoff == es[i].backoff
      && r[nextId + i].undelivered == if es[i].undelivered.Keys? then Some(es[i].undelivered.keys) else None
    decreases |es|
  {
    var next := q[nextId := Untried(es[0], now)];
    if i > 0 {
      EnqueuedRow(next, nextId + 1, es[1..], now, i - 1);
    } else {
      EnqueueAllIs(next, nextId + 1, es[1..], now);
    }
  }

  /** A commit puts its messages into the queue, each due its delay after the commit. */
  lemma MessageIsQueued(db: Db, checks: seq<Check>, ms: seq<Mutation>, es: seq<Enqueue>, now: int, i: nat)
    requires CommitTo(db, checks, ms, es, now).1.Committed? && i < |es|
    ensures var q, id := CommitTo(db, checks, ms, es, now).0.queue, db.nextId + i;
      && id in q && q[id].ready == now + es[i].delay && Some(q[id].payload) == es[i].payload && q[id].attempts == 0
  {
    hide MutateAll, EnqueueAll, ChecksPass;
    EnqueuedRow(db.queue, db.nextId, es, now, i);
  }

  /** A rejected row comes back due after the backoff of that attempt, 100, 200, 400, 800 and 1600 ms by default. */
  lemma RetryIsQueued(db: Db, row: QueueRow, later: int, message: Option<Packed>)
    ensures var schedule := if row.backoff.Some? then row.backoff.value else [100, 200, 400, 800, 1600];
      var (after, r) := FailTo(db, row, later, message);
      && (r == Retried <==> row.attempts < |schedule|)
      && (r == Retried ==> after.queue == db.queue[db.nextId :=
            row.(ready := later + schedule[row.attempts], attempts := row.attempts + 1)])
      && (r != Retried ==> after.queue == db.queue)
  {
  }

  /** The row handed out was due first of those that are due, and of those due at the same time it was stored first. */
  lemma NextIs(q: map<nat, QueueRow>, now: int, id: nat)
    ensures IsNext(q, now, id) <==>
      && id in q && q[id].ready <= now
      && forall other | other in q && other != id && q[other].ready <= now ::
           q[id].ready < q[other].ready || (q[id].ready == q[other].ready && id < other)
  {
    if id in q && q[id].ready <= now {
      assert Earlier(q, id, id);
      forall other | other in q && other != id
        ensures Earlier(q, id, other) <==>
          q[id].ready < q[other].ready || (q[id].ready == q[other].ready && id < other)
      {
      }
    }
  }

  /** Of two messages of a commit with the same delay, the later one is not handed out while the earlier one waits. */
  lemma EqualsKeepOrder(db: Db, checks: seq<Check>, ms: seq<Mutation>, es: seq<Enqueue>, now: int,
      i: nat, j: nat, later: int)
    requires CommitTo(db, checks, ms, es, now).1.Committed? && i < j < |es| && es[i].delay == es[j].delay
    ensures !IsNext(CommitTo(db, checks, ms, es, now).0.queue, later, db.nextId + j)
  {
    hide CommitTo, IsNext;
    MessageIsQueued(db, checks, ms, es, now, i);
    MessageIsQueued(db, checks, ms, es, now, j);
    NextIs(CommitTo(db, checks, ms, es, now).0.queue, later, db.nextId + j);
  }

  /** A run of the broker from one state to another. */
  ghost predicate Happening(b: Broker, events: seq<Event>, t: Broker)
    decreases |events|
  {
    if events == [] then b == t
    else
      && Enabled(b, events[0]) && (events[0].Dispatches? ==> events[0].id in b.origin)
      && Happening(Happens(b, events[0]), events[1..], t)
  }

  /** A row waits unchanged until it is handed out. */
  lemma QueuedStays(b: Broker, e: Event, id: nat)
    requires Conserved(b) && Enabled(b, e) && (e.Dispatches? ==> e.id in b.origin) && id in b.db.queue
    requires !(e.Dispatches? && e.id == id)
    ensures id in Happens(b, e).db.queue && Happens(b, e).db.queue[id] == b.db.queue[id]
  {
    hide MutateAll, ChecksPass, EnqueueAll, AllCounted, AllEnded, NoneLost, Sends;
    assert id in b.origin && RowSound(b, id);
    match e {
      case Commits(checks, ms, es, now) =>
        if EnqueueAll(b.db.queue, b.db.nextId, es, now).Some? { EnqueueAllIs(b.db.queue, b.db.nextId, es, now); }
        SendsDb(b, CommitTo(b.db, checks, ms, es, now).0, es);
      case Rejects(i, later, message) => RetryIsQueued(b.db, b.flying[i], later, message);
      case _ =>
    }
  }

  lemma SendsDb(b: Broker, db: Db, es: seq<Enqueue>)
    ensures Sends(b, db, es).db == db
  {
  }

  /** No message is handed out before it is due: its delay after the commit, its backoff after the rejection. */
  lemma {:induction false} NotBeforeDue(b: Broker, events: seq<Event>, t: Broker, id: nat, now: int)
    requires Conserved(b) && id in b.db.queue && Happening(b, events, t)
    requires forall i | 0 <= i < |events| :: !(events[i].Dispatches? && events[i].id == id)
    requires Enabled(t, Dispatches(id, now))
    ensures now >= b.db.queue[id].ready
    decreases |events|
  {
    hide Conserved, Happens;
    if events != [] {
      QueuedStays(b, events[0], id);
      EventConserves(b, events[0]);
      NotBeforeDue(Happens(b, events[0]), events[1..], t, id, now);
    }
  }
}
