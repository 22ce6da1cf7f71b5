/**
 * The life of queue messages over every run without a crash: commits that enqueue, dispatches to the handler and
 * its outcomes, in any order and with any number of messages in flight.
 */
module KvQueue {
  import opened Wrappers
  import opened KvStore
  import opened KvStamps

  /** A message that is not retried any more was written under its keys, dropped, or lost. */
  datatype Outcome = Handled | GivenUp(how: Failure)

  /**
   * The database, the rows that handlers are working on, and a record of what happened: which message each row
   * carries, how often the handler was called with each, and how messages ended.
   */
  datatype Broker = Broker(
    db: Db, flying: map<nat, QueueRow>, origin: map<nat, nat>, sent: nat,
    calls: map<nat, nat>, schedules: map<nat, seq<nat>>, outcome: map<nat, Outcome>)

  datatype Event =
    | Commits(checks: seq<Check>, ms: seq<Mutation>, es: seq<Enqueue>, now: int)
    | Dispatches(id: nat, now: int)
    | Resolves(id: nat)
    | Rejects(id: nat, later: int, message: Option<Packed>)

  ghost predicate Enabled(b: Broker, e: Event) {
    match e
    case Commits(_, _, _, _) => true
    case Dispatches(id, now) => IsNext(b.db.queue, now, id)
    case Resolves(id) => id in b.flying && id in b.origin
    case Rejects(id, _, _) => id in b.flying && id in b.origin
  }

  function Schedules(e: Enqueue): seq<nat> {
    if e.backoff.Some? then e.backoff.value else DEFAULT_BACKOFF
  }

  function From(start: nat, n: nat): (r: set<nat>)
    ensures forall i :: i in r <==> start <= i < start + n
  {
    if n == 0 then {} else From(start, n - 1) + {start + n - 1}
  }

  /** The rows that `es` add carry the next messages, none of them tried yet. */
  function Sends(b: Broker, db: Db, es: seq<Enqueue>): Broker {
    var first, sent, n := b.db.nextId, b.sent, |es|;
    b.(db := db, sent := sent + n,
       origin := map id | id in b.origin.Keys + From(first, n) ::
         if id in From(first, n) then sent + (id - first) else b.origin[id],
       calls := map m | m in b.calls.Keys + From(sent, n) :: if m in From(sent, n) then 0 else b.calls[m],
       schedules := map m | m in b.schedules.Keys + From(sent, n) ::
         if m in From(sent, n) then Schedules(es[m - sent]) else b.schedules[m])
  }

  function Happens(b: Broker, e: Event): Broker
    requires e.Dispatches? ==> e.id in b.db.queue && e.id in b.origin
    requires e.Resolves? || e.Rejects? ==> e.id in b.flying && e.id in b.origin
  {
    match e
    case Commits(checks, ms, es, now) =>
      var (db, r) := CommitTo(b.db, checks, ms, es, now);
      if r.Committed? then Sends(b, db, es) else b.(db := db)
    case Dispatches(id, _) =>
      var m := b.origin[id];
      b.(db := b.db.(queue := b.db.queue - {id}), flying := b.flying[id := b.db.queue[id]],
         calls := b.calls[m := if m in b.calls then b.calls[m] + 1 else 1])
    case Resolves(id) =>
      b.(flying := b.flying - {id}, origin := b.origin - {id}, outcome := b.outcome[b.origin[id] := Handled])
    case Rejects(id, later, message) =>
      var row, m := b.flying[id], b.origin[id];
      var (db, how) := FailTo(b.db, row, later, message);
      var next := b.(db := db, flying := b.flying - {id}, origin := b.origin - {id});
      if how == Retried then next.(origin := (b.origin - {id})[b.db.nextId := m])
      else next.(outcome := b.outcome[m := GivenUp(how)])
  }

  // ---- the invariant ---------------------------------------------------------------------------------------

  function RowOfId(b: Broker, id: nat): QueueRow
    requires id in b.db.queue || id in b.flying
  {
    if id in b.db.queue then b.db.queue[id] else b.flying[id]
  }

  ghost predicate RowSound(b: Broker, id: nat)
    requires id in b.origin
  {
    id < b.db.nextId && b.origin[id] < b.sent && b.origin[id] !in b.outcome
  }

  /** Rows are in the table or in flight, under used ids, and each carries its own message. */
  ghost predicate RowsSound(b: Broker) {
    && b.db.queue.Keys !! b.flying.Keys
    && b.origin.Keys == b.db.queue.Keys + b.flying.Keys
    && (forall id | id in b.origin :: RowSound(b, id))
    && (forall i, j | i in b.origin && j in b.origin && b.origin[i] == b.origin[j] :: i == j)
  }

  ghost predicate Carried(b: Broker, m: nat) {
    exists id :: id in b.origin && b.origin[id] == m
  }

  /** Every message sent is carried by a row or has ended. */
  ghost predicate NoneLost(b: Broker) {
    && (forall m | m in b.outcome :: m < b.sent)
    && (forall m | 0 <= m < b.sent :: m in b.outcome || Carried(b, m))
  }

  /** A row counts the failed calls so far; a row in flight has one more call behind it. */
  ghost predicate Counted(b: Broker, id: nat)
    requires id in b.origin && (id in b.db.queue || id in b.flying)
  {
    var m, row := b.origin[id], RowOfId(b, id);
    && m in b.calls && m in b.schedules
    && b.schedules[m] == Schedule(row) && row.attempts <= |Schedule(row)|
    && b.calls[m] == row.attempts + (if id in b.db.queue then 0 else 1)
  }

  /** An ended message was handled within its allowance, or given up on when the allowance was used up. */
  ghost predicate Ended(b: Broker, m: nat)
    requires m in b.outcome
  {
    && m in b.calls && m in b.schedules
    && 1 <= b.calls[m] <= 1 + |b.schedules[m]|
    && (b.outcome[m] != Handled ==> b.calls[m] == 1 + |b.schedules[m]|)
  }

  ghost predicate AllCounted(b: Broker) {
    forall id | id in b.origin :: (id in b.db.queue || id in b.flying) && Counted(b, id)
  }

  ghost predicate AllEnded(b: Broker) {
    forall m | m in b.outcome :: Ended(b, m)
  }

  ghost predicate Conserved(b: Broker) {
    RowsSound(b) && NoneLost(b) && AllCounted(b) && AllEnded(b)
  }

  // ---- commits ---------------------------------------------------------------------------------------------

  lemma {:induction false} EnqueueAllIs(q: map<nat, QueueRow>, nextId: nat, es: seq<Enqueue>, now: int)
    requires EnqueueAll(q, nextId, es, now).Some?
    ensures Added(q, nextId, es, EnqueueAll(q, nextId, es, now).value)
    decreases |es|
  {
    if es != [] {
      var row := Untried(es[0], now);
      EnqueueAllIs(q[nextId := row], nextId + 1, es[1..], now);
      assert forall k | 1 <= k < |es| :: es[k] == es[1..][k - 1];
      var r := EnqueueAll(q, nextId, es, now).value;
      assert nextId in r && r[nextId] == row;
    }
  }

  /** `r` is `q` with one untried row for each of `es`, under ids from nextId up. */
  ghost predicate Added(q: map<nat, QueueRow>, nextId: nat, es: seq<Enqueue>, r: map<nat, QueueRow>) {
    && (forall id :: id in r <==> nextId <= id < nextId + |es| || id in q)
    && (forall id | nextId <= id < nextId + |es| ::
          id in r && r[id].attempts == 0 && Schedule(r[id]) == Schedules(es[id - nextId]))
    && (forall id | id in q && !(nextId <= id < nextId + |es|) :: r[id] == q[id])
  }

  ghost predicate SendsTo(b: Broker, db: Db, es: seq<Enqueue>) {
    Added(b.db.queue, b.db.nextId, es, db.queue) && db.nextId == b.db.nextId + |es|
  }

  lemma SendsRowSound(b: Broker, db: Db, es: seq<Enqueue>, id: nat)
    requires RowsSound(b) && NoneLost(b) && SendsTo(b, db, es) && id in Sends(b, db, es).origin
    ensures RowSound(Sends(b, db, es), id)
    ensures id in b.origin <==> id < b.db.nextId
    ensures Sends(b, db, es).origin[id] == if id in b.origin then b.origin[id] else b.sent + (id - b.db.nextId)
    ensures id in b.origin <==> Sends(b, db, es).origin[id] < b.sent
  {
    hide Schedules, Added;
    assert id in b.origin ==> RowSound(b, id);
  }

  lemma SendsRowsSound(b: Broker, db: Db, es: seq<Enqueue>)
    requires RowsSound(b) && NoneLost(b) && SendsTo(b, db, es)
    ensures RowsSound(Sends(b, db, es))
  {
    hide RowSound;
    var b' := Sends(b, db, es);
    forall id | id in b'.origin
      ensures RowSound(b', id)
    {
      SendsRowSound(b, db, es, id);
    }
    forall i, j | i in b'.origin && j in b'.origin && b'.origin[i] == b'.origin[j]
      ensures i == j
    {
      SendsRowSound(b, db, es, i);
      SendsRowSound(b, db, es, j);
    }
    SendsKeys(b, db, es);
  }

  lemma SendsKeys(b: Broker, db: Db, es: seq<Enqueue>)
    requires RowsSound(b) && SendsTo(b, db, es)
    ensures var b' := Sends(b, db, es);
      b'.db.queue.Keys !! b'.flying.Keys && b'.origin.Keys == b'.db.queue.Keys + b'.flying.Keys
  {
    assert forall id | id in b.flying :: RowSound(b, id);
  }

  lemma SendsNoneLost(b: Broker, db: Db, es: seq<Enqueue>)
    requires RowsSound(b) && NoneLost(b)
    ensures NoneLost(Sends(b, db, es))
  {
    hide Schedules;
    var b' := Sends(b, db, es);
    forall m | 0 <= m < b'.sent
      ensures m in b'.outcome || Carried(b', m)
    {
      if m >= b.sent {
        var id := b.db.nextId + (m - b.sent);
        assert id in b'.origin && b'.origin[id] == m;
      } else if m !in b.outcome {
        assert Carried(b, m);
        var id :| id in b.origin && b.origin[id] == m;
        assert RowSound(b, id);
        assert id in b'.origin && b'.origin[id] == m;
      }
    }
  }

  lemma SendsCounted(b: Broker, db: Db, es: seq<Enqueue>)
    requires RowsSound(b) && NoneLost(b) && AllCounted(b) && SendsTo(b, db, es)
    ensures AllCounted(Sends(b, db, es))
  {
    hide Schedules;
    var b' := Sends(b, db, es);
    SendsKeys(b, db, es);
    forall id | id in b'.origin
      ensures (id in b'.db.queue || id in b'.flying) && Counted(b', id)
    {
      SendsRowSound(b, db, es, id);
      if id in b.origin {
        OldRowCounted(b, db, es, id);
      } else {
        NewRowCounted(b, db, es, id);
      }
    }
  }

  lemma OldRowCounted(b: Broker, db: Db, es: seq<Enqueue>, id: nat)
    requires RowsSound(b) && AllCounted(b) && SendsTo(b, db, es) && id in b.origin
    ensures var b' := Sends(b, db, es); id in b'.origin && (id in b'.db.queue || id in b'.flying) && Counted(b', id)
  {
    hide Schedules;
    assert RowSound(b, id) && Counted(b, id);
  }

  lemma NewRowCounted(b: Broker, db: Db, es: seq<Enqueue>, id: nat)
    requires RowsSound(b) && SendsTo(b, db, es) && b.db.nextId <= id < b.db.nextId + |es|
    ensures var b' := Sends(b, db, es); id in b'.origin && (id in b'.db.queue || id in b'.flying) && Counted(b', id)
  {
    hide Schedules, RowsSound, Schedule;
    var b' := Sends(b, db, es);
    assert id in From(b.db.nextId, |es|) && b'.origin[id] in From(b.sent, |es|);
  }

  lemma SendsEnded(b: Broker, db: Db, es: seq<Enqueue>)
    requires NoneLost(b) && AllEnded(b)
    ensures AllEnded(Sends(b, db, es))
  {
    forall m | m in b.outcome
      ensures Ended(Sends(b, db, es), m)
    {
      assert Ended(b, m);
    }
  }

  lemma CommitConserves(b: Broker, checks: seq<Check>, ms: seq<Mutation>, es: seq<Enqueue>, now: int)
    requires Conserved(b)
    ensures Conserved(Happens(b, Commits(checks, ms, es, now)))
  {
    hide MutateAll, EnqueueAll, ChecksPass, Sends, RowsSound, NoneLost, AllCounted, AllEnded, Added;
    var (db, r) := CommitTo(b.db, checks, ms, es, now);
    if r.Committed? {
      EnqueueAllIs(b.db.queue, b.db.nextId, es, now);
      SendsRowsSound(b, db, es);
      SendsNoneLost(b, db, es);
      SendsCounted(b, db, es);
      SendsEnded(b, db, es);
    } else {
      assert Happens(b, Commits(checks, ms, es, now)) == b;
    }
  }

  // ---- dispatch and outcome --------------------------------------------------------------------------------

  lemma StillCarried(b: Broker, b': Broker, gone: nat, at: nat)
    requires NoneLost(b) && gone in b.origin && b'.sent == b.sent
    requires forall i | i in b.origin && i != gone :: i in b'.origin && b'.origin[i] == b.origin[i]
    requires forall m | m in b.outcome :: m in b'.outcome
    requires forall m | m in b'.outcome :: m < b'.sent
    requires b.origin[gone] in b'.outcome || (at in b'.origin && b'.origin[at] == b.origin[gone])
    ensures NoneLost(b')
  {
    forall m | 0 <= m < b'.sent && m !in b'.outcome
      ensures Carried(b', m)
    {
      assert Carried(b, m);
      var i :| i in b.origin && b.origin[i] == m;
      var j := if i == gone then at else i;
      assert j in b'.origin && b'.origin[j] == m;
    }
  }

  lemma DispatchRows(b: Broker, id: nat, now: int)
    requires RowsSound(b) && id in b.db.queue && id in b.origin
    ensures RowsSound(Happens(b, Dispatches(id, now)))
  {
    var b' := Happens(b, Dispatches(id, now));
    forall i | i in b'.origin
      ensures RowSound(b', i)
    {
      assert RowSound(b, i);
    }
  }

  lemma DispatchCounted(b: Broker, id: nat, now: int)
    requires RowsSound(b) && AllCounted(b) && id in b.db.queue && id in b.origin
    ensures AllCounted(Happens(b, Dispatches(id, now)))
  {
    var b' := Happens(b, Dispatches(id, now));
    assert Counted(b, id);
    forall i | i in b'.origin
      ensures (i in b'.db.queue || i in b'.flying) && Counted(b', i)
    {
      assert Counted(b, i);
    }
  }

  lemma DispatchEnded(b: Broker, id: nat, now: int)
    requires RowsSound(b) && AllEnded(b) && id in b.db.queue && id in b.origin
    ensures AllEnded(Happens(b, Dispatches(id, now)))
  {
    assert RowSound(b, id);
    forall m | m in b.outcome
      ensures Ended(Happens(b, Dispatches(id, now)), m)
    {
      assert Ended(b, m);
    }
  }

  lemma DispatchConserves(b: Broker, id: nat, now: int)
    requires Conserved(b) && id in b.db.queue && id in b.origin
    ensures Conserved(Happens(b, Dispatches(id, now)))
  {
    DispatchRows(b, id, now);
    DispatchCounted(b, id, now);
    DispatchEnded(b, id, now);
    hide RowsSound, AllCounted, AllEnded;
    StillCarried(b, Happens(b, Dispatches(id, now)), id, id);
  }

  /** Row `id` leaves the flight and its message ends as `o`. */
  ghost predicate Lands(b: Broker, b': Broker, id: nat, o: Outcome) {
    && id in b.flying && id in b.origin
    && b'.sent == b.sent && b'.calls == b.calls && b'.schedules == b.schedules
    && b'.db.queue == b.db.queue && b'.db.nextId == b.db.nextId
    && b'.flying == b.flying - {id} && b'.origin == b.origin - {id}
    && b'.outcome == b.outcome[b.origin[id] := o]
    && (o != Handled ==> b.flying[id].attempts >= |Schedule(b.flying[id])|)
  }

  lemma LandingRows(b: Broker, b': Broker, id: nat, o: Outcome)
    requires RowsSound(b) && Lands(b, b', id, o)
    ensures RowsSound(b')
  {
    hide Schedule;
    forall i | i in b'.origin
      ensures RowSound(b', i)
    {
      assert RowSound(b, i);
    }
  }

  lemma LandingCounted(b: Broker, b': Broker, id: nat, o: Outcome)
    requires RowsSound(b) && AllCounted(b) && Lands(b, b', id, o)
    ensures AllCounted(b')
  {
    hide Schedule;
    forall i | i in b'.origin
      ensures (i in b'.db.queue || i in b'.flying) && Counted(b', i)
    {
      assert Counted(b, i);
    }
  }

  lemma LandingEnded(b: Broker, b': Broker, id: nat, o: Outcome)
    requires RowsSound(b) && AllCounted(b) && AllEnded(b) && Lands(b, b', id, o)
    ensures AllEnded(b')
  {
    hide Schedule;
    assert Counted(b, id);
    forall m | m in b'.outcome
      ensures Ended(b', m)
    {
      assert m != b.origin[id] ==> Ended(b, m);
    }
  }

  lemma LandingConserves(b: Broker, b': Broker, id: nat, o: Outcome)
    requires Conserved(b) && Lands(b, b', id, o)
    ensures Conserved(b')
  {
    LandingRows(b, b', id, o);
    LandingCounted(b, b', id, o);
    LandingEnded(b, b', id, o);
    assert RowSound(b, id);
    hide RowsSound, AllCounted, AllEnded, Schedule;
    StillCarried(b, b', id, id);
  }

  /** Row `id` leaves the flight and its message goes on in a new row of the queue. */
  ghost predicate Retries(b: Broker, b': Broker, id: nat, again: QueueRow) {
    && id in b.flying && id in b.origin
    && again.attempts == b.flying[id].attempts + 1 <= |Schedule(b.flying[id])| &&
      Schedule(again) == Schedule(b.flying[id])
    && b'.sent == b.sent && b'.calls == b.calls && b'.schedules == b.schedules && b'.outcome == b.outcome
    && b'.db.queue == b.db.queue[b.db.nextId := again] && b'.db.nextId == b.db.nextId + 1
    && b'.flying == b.flying - {id} && b'.origin == (b.origin - {id})[b.db.nextId := b.origin[id]]
  }

  lemma RetryRows(b: Broker, b': Broker, id: nat, again: QueueRow)
    requires RowsSound(b) && Retries(b, b', id, again)
    ensures RowsSound(b') && b.db.nextId !in b.origin
  {
    hide Schedule;
    assert b.db.nextId in b.origin ==> RowSound(b, b.db.nextId);
    assert RowSound(b, id);
    forall i | i in b'.origin
      ensures RowSound(b', i)
    {
      if i != b.db.nextId { assert RowSound(b, i); }
    }
  }

  lemma RetryCounted(b: Broker, b': Broker, id: nat, again: QueueRow)
    requires RowsSound(b) && AllCounted(b) && Retries(b, b', id, again) && b.db.nextId !in b.origin
    ensures AllCounted(b')
  {
    hide Schedule;
    assert Counted(b, id);
    forall i | i in b'.origin
      ensures (i in b'.db.queue || i in b'.flying) && Counted(b', i)
    {
      if i != b.db.nextId {
        assert Counted(b, i);
      }
    }
  }

  lemma RetryEnded(b: Broker, b': Broker, id: nat, again: QueueRow)
    requires AllEnded(b) && Retries(b, b', id, again)
    ensures AllEnded(b')
  {
    hide Schedule;
    forall m | m in b'.outcome
      ensures Ended(b', m)
    {
      assert Ended(b, m);
    }
  }

  lemma RetryConserves(b: Broker, b': Broker, id: nat, again: QueueRow)
    requires Conserved(b) && Retries(b, b', id, again)
    ensures Conserved(b')
  {
    RetryRows(b, b', id, again);
    RetryCounted(b, b', id, again);
    RetryEnded(b, b', id, again);
    hide RowsSound, AllCounted, AllEnded, Schedule;
    StillCarried(b, b', id, b.db.nextId);
  }

  lemma EventConserves(b: Broker, e: Event)
    requires Conserved(b) && Enabled(b, e) && (e.Dispatches? ==> e.id in b.origin)
    ensures Conserved(Happens(b, e))
  {
    hide RowsSound, NoneLost, AllEnded, PutAll;
    match e {
      case Commits(checks, ms, es, now) => CommitConserves(b, checks, ms, es, now);
      case Dispatches(id, now) => DispatchConserves(b, id, now);
      case Resolves(id) =>
        LandingConserves(b, Happens(b, e), id, Handled);
      case Rejects(id, later, message) =>
        var row := b.flying[id];
        assert Counted(b, id);
        if row.attempts < |Schedule(row)| {
          var again := row.(ready := later + Schedule(row)[row.attempts], attempts := row.attempts + 1);
          RetryConserves(b, Happens(b, e), id, again);
        } else {
          LandingConserves(b, Happens(b, e), id, GivenUp(FailTo(b.db, row, later, message).1));
        }
    }
  }

  // ---- every run -------------------------------------------------------------------------------------------

  /**
   * `b` comes about from an empty queue by events each of which could happen when it did (every row has a message
   * then).
   */
  ghost predicate Reachable(b: Broker, events: seq<Event>)
    decreases |events|
  {
    if events == [] then
      b.db.queue == map[] && b.flying == map[] && b.origin == map[] && b.sent == 0 && b.outcome == map[]
    else
      var n := |events| - 1;
      exists before :: Reachable(before, events[..n]) && Enabled(before, events[n])
        && (events[n].Dispatches? ==> events[n].id in before.origin) && b == Happens(before, events[n])
  }

  lemma {:induction false} ReachableConserved(b: Broker, events: seq<Event>)
    requires Reachable(b, events)
    ensures Conserved(b)
    decreases |events|
  {
    if events != [] {
      var n := |events| - 1;
      var before :| Reachable(before, events[..n]) && Enabled(before, events[n])
        && (events[n].Dispatches? ==> events[n].id in before.origin) && b == Happens(before, events[n]);
      ReachableConserved(before, events[..n]);
      EventConserves(before, events[n]);
    }
  }

  predicate Waiting(b: Broker, m: nat) { exists id :: id in b.db.queue && id in b.origin && b.origin[id] == m }
  predicate InFlight(b: Broker, m: nat) { exists id :: id in b.flying && id in b.origin && b.origin[id] == m }

  /**
   * In every run each message sent is in exactly one place: waiting, in flight, or ended in exactly one way (handled,
   * written under its keys, dropped or lost), and at most one row carries it. It has been attempted at most once more
   * than its schedule is long, and exactly that often when it was given up on.
   */
  lemma MessagesAreConserved(b: Broker, events: seq<Event>, m: nat)
    requires Reachable(b, events) && m < b.sent
    ensures Waiting(b, m) || InFlight(b, m) || m in b.outcome
    ensures !(Waiting(b, m) && InFlight(b, m)) && !(Waiting(b, m) && m in b.outcome)
    ensures !(InFlight(b, m) && m in b.outcome)
    ensures b.origin.Keys == b.db.queue.Keys + b.flying.Keys
    ensures forall i, j | i in b.origin && j in b.origin && b.origin[i] == b.origin[j] == m :: i == j
    ensures m in b.calls && m in b.schedules && b.calls[m] <= 1 + |b.schedules[m]|
    ensures m in b.outcome && b.outcome[m] != Handled ==> b.calls[m] == 1 + |b.schedules[m]|
  {
    ReachableConserved(b, events);
    if m in b.outcome {
      assert Ended(b, m);
    } else {
      assert Carried(b, m);
      var id :| id in b.origin && b.origin[id] == m;
      assert Counted(b, id);
    }
  }

  // ---- losing a message ------------------------------------------------------------------------------------

  const ONCE := Enqueue(Some(Json([1])), 0, Some([]), Keys([[2]]))
  const TRIED := QueueRow(0, Json([1]), 0, Some([]), Some([[2]]))
  const SENDING := Commits([], [], [ONCE], 0)

  const EMPTY := Broker(Db(map[], map[], 1, 0), map[], map[], 0, map[], map[], map[])

  lemma Sent() returns (b: Broker)
    ensures Reachable(b, [SENDING]) && b.db == Db(map[], map[1 := TRIED], 2, 1)
    ensures b.flying == map[] && b.origin == map[1 := 0] && b.outcome == map[]
  {
    hide Reachable;
    b := Happens(EMPTY, SENDING);
    OneSent();
    assert Reachable(EMPTY, []) by { EmptyIsReachable(); }
    assert [] + [SENDING] == [SENDING];
    Happened(EMPTY, [], SENDING);
    assert 1 in From(1, 1) && 0 in From(0, 1);
  }

  lemma EmptyIsReachable()
    ensures Reachable(EMPTY, [])
  {
  }

  lemma OneSent()
    ensures CommitTo(EMPTY.db, [], [], [ONCE], 0) == (Db(map[], map[1 := TRIED], 2, 1), Committed(StampOf(1)))
  {
    assert EnqueueAll(map[], 1, [ONCE], 0) == EnqueueAll(map[1 := TRIED], 2, [], 0);
  }

  /**
   * A handler that makes its message uncloneable and rejects: the message has keys to be written under, and is lost.
   */
  lemma SpoiltMessageIsLost()
    ensures exists b, events :: Reachable(b, events) && b.outcome == map[0 := GivenUp(Lost)] && b.db.kv == map[]
  {
    hide Reachable;
    var b1 := Sent();
    var b2 := Happens(b1, Dispatches(1, 0));
    assert IsNext(b1.db.queue, 0, 1);
    Happened(b1, [SENDING], Dispatches(1, 0));
    assert b2.flying == map[1 := TRIED] && b2.origin == map[1 := 0] && b2.db.kv == map[] && b2.outcome == map[];
    var e := Rejects(1, 0, None);
    assert FailTo(b2.db, TRIED, 0, None).1 == Lost && FailTo(b2.db, TRIED, 0, None).0.kv == map[];
    Happened(b2, [SENDING] + [Dispatches(1, 0)], e);
  }

  lemma Happened(b: Broker, events: seq<Event>, e: Event)
    requires Reachable(b, events) && Enabled(b, e) && (e.Dispatches? ==> e.id in b.origin)
    ensures Reachable(Happens(b, e), events + [e])
  {
    assert (events + [e])[..|events|] == events;
  }
}
