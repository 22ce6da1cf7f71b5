/** The Deno KV database: a table of rows, a queue table and a commit counter, changed one transaction at a time. */
module KvStore {
  import opened Wrappers
  import opened Bytes
  import opened KvStamps
  import Utf8

  type u64 = n: int | 0 <= n < 0x1_0000_0000_0000_0000

  /** The commit counter is read as a JavaScript number, which throws above this one. */
  const MAX_SAFE := 0x1F_FFFF_FFFF_FFFF

  /** A value as it is stored: its encoding and its bytes, or the number that the eight bytes of a KvU64 stand for. */
  datatype Packed = Json(bytes: seq<byte>) | Raw(bytes: seq<byte>) | U64(n: u64)

  datatype Row = Row(value: Packed, vs: nat, expires: Option<int>)

  type KeyBytes = seq<byte>
  type Table = map<KeyBytes, Row>

  datatype QueueRow = QueueRow(
    ready: int, payload: Packed, attempts: nat, backoff: Option<seq<nat>>, undelivered: Option<seq<KeyBytes>>)

  datatype Db = Db(kv: Table, queue: map<nat, QueueRow>, nextId: nat, version: nat)

  datatype Check = Check(key: KeyBytes, stamp: Option<Utf8.text>)

  datatype Kind = Sum | Min | Max

  /** A value that packValue cannot encode is None. */
  datatype Mutation =
    | Set(key: KeyBytes, value: Option<Packed>, expireIn: Option<int>)
    | Delete(key: KeyBytes)
    | Arithmetic(kind: Kind, key: KeyBytes, operand: u64, expireIn: Option<int>)

  /** The keys for an undelivered message; encoding one of them throws if it is no key. */
  datatype Fallback = NoKeys | Keys(keys: seq<KeyBytes>) | BadKeys

  datatype Enqueue = Enqueue(payload: Option<Packed>, delay: nat, backoff: Option<seq<nat>>, undelivered: Fallback)

  predicate Encodes(e: Enqueue) {
    e.payload.Some? && !e.undelivered.BadKeys?
  }

  /** The row that an enqueue adds. */
  function Untried(e: Enqueue, now: int): QueueRow
    requires Encodes(e)
  {
    QueueRow(now + e.delay, e.payload.value, 0, e.backoff,
             if e.undelivered.Keys? then Some(e.undelivered.keys) else None)
  }

  datatype CommitResult = Committed(stamp: Utf8.text) | Refused | Threw

  // ---- reading ---------------------------------------------------------------------------------------------

  predicate Unexpired(r: Row, now: int) {
    r.expires.None? || r.expires.value > now
  }

  /** Reading one key: an expired row counts as absent. */
  function Get(t: Table, key: KeyBytes, now: int): Option<Row> {
    if key in t && Unexpired(t[key], now) then Some(t[key]) else None
  }

  function CurrentStamp(t: Table, key: KeyBytes, now: int): Option<Utf8.text> {
    match Get(t, key, now) case None => None case Some(row) => Some(StampOf(row.vs))
  }

  // ---- one transaction -------------------------------------------------------------------------------------

  predicate Passes(t: Table, c: Check, now: int) {
    c.stamp == CurrentStamp(t, c.key, now)
  }

  predicate ChecksPass(t: Table, checks: seq<Check>, now: int) {
    forall i | 0 <= i < |checks| :: Passes(t, checks[i], now)
  }

  function Expiry(expireIn: Option<int>, now: int): Option<int> {
    match expireIn case None => None case Some(ms) => Some(now + ms)
  }

  function Combine(kind: Kind, current: u64, operand: u64): u64 {
    match kind
    case Sum => (current + operand) % 0x1_0000_0000_0000_0000
    case Min => if operand < current then operand else current
    case Max => if operand > current then operand else current
  }

  /** One mutation under commit number `raw`; None when it throws. */
  function Mutate(t: Table, m: Mutation, raw: nat, now: int): Option<Table> {
    match m
    case Delete(key) => Some(t - {key})
    case Set(key, value, expireIn) =>
      if value.None? then None else Some(t[key := Row(value.value, raw, Expiry(expireIn, now))])
    case Arithmetic(kind, key, operand, expireIn) =>
      match Get(t, key, now)
      case None => Some(t[key := Row(U64(operand), raw, Expiry(expireIn, now))])
      case Some(row) =>
        if !row.value.U64? then None
        else Some(t[key := Row(U64(Combine(kind, row.value.n, operand)), raw, Expiry(expireIn, now))])
  }

  function MutateAll(t: Table, ms: seq<Mutation>, raw: nat, now: int): Option<Table>
    decreases |ms|
  {
    if ms == [] then Some(t) else
      match Mutate(t, ms[0], raw, now)
      case None => None
      case Some(t') => MutateAll(t', ms[1..], raw, now)
  }

  /** The queue rows that enqueues add, with ids from `nextId` up; None when a payload or a key cannot be encoded. */
  function EnqueueAll(q: map<nat, QueueRow>, nextId: nat, es: seq<Enqueue>, now: int): Option<map<nat, QueueRow>>
    decreases |es|
  {
    if es == [] then Some(q)
    else if !Encodes(es[0]) then None
    else EnqueueAll(q[nextId := Untried(es[0], now)], nextId + 1, es[1..], now)
  }

  /** The clean-up at the end of a commit takes out every expired row. */
  function Expire(t: Table, now: int): Table {
    map k | k in t && Unexpired(t[k], now) :: t[k]
  }

  function CommitTo(db: Db, checks: seq<Check>, ms: seq<Mutation>, es: seq<Enqueue>, now: int): (Db, CommitResult) {
    if !ChecksPass(db.kv, checks, now) then (db, Refused) else
      var raw := db.version + 1;
      if raw > MAX_SAFE then (db, Threw) else
      match (MutateAll(db.kv, ms, raw, now), EnqueueAll(db.queue, db.nextId, es, now))
      case (Some(kv), Some(queue)) => (Db(Expire(kv, now), queue, db.nextId + |es|, raw), Committed(StampOf(raw)))
      case _ => (db, Threw)
  }

  lemma {:induction false} MutateAllSnoc(t: Table, ms: seq<Mutation>, m: Mutation, raw: nat, now: int)
    ensures MutateAll(t, ms + [m], raw, now) ==
      match MutateAll(t, ms, raw, now) case None => None case Some(t') => Mutate(t', m, raw, now)
    decreases |ms|
  {
    hide Mutate;
    if ms == [] {
      assert (ms + [m])[1..] == [];
    } else {
      assert (ms + [m])[1..] == ms[1..] + [m];
      match Mutate(t, ms[0], raw, now) {
        case None =>
        case Some(t') => MutateAllSnoc(t', ms[1..], m, raw, now);
      }
    }
  }

  lemma {:induction false} MutateAllThrows(t: Table, ms: seq<Mutation>, i: nat, raw: nat, now: int)
    requires i <= |ms| && MutateAll(t, ms[..i], raw, now).None?
    ensures MutateAll(t, ms, raw, now).None?
    decreases |ms|
  {
    hide Mutate;
    if i > 0 {
      assert ms[..i][1..] == ms[1..][..i - 1];
      match Mutate(t, ms[0], raw, now) {
        case None =>
        case Some(t') => MutateAllThrows(t', ms[1..], i - 1, raw, now);
      }
    }
  }

  // ---- the queue -------------------------------------------------------------------------------------------

  const DEFAULT_BACKOFF: seq<nat> := [100, 200, 400, 800, 1600]

  function Schedule(row: QueueRow): seq<nat> {
    if row.backoff.Some? then row.backoff.value else DEFAULT_BACKOFF
  }

  predicate Earlier(q: map<nat, QueueRow>, a: nat, b: nat)
    requires a in q && b in q
  {
    q[a].ready < q[b].ready || (q[a].ready == q[b].ready && a <= b)
  }

  /** The row to hand out next: of those that are ready, the one ready first, and the older one of two. */
  ghost predicate IsNext(q: map<nat, QueueRow>, now: int, id: nat) {
    id in q && q[id].ready <= now && forall other | other in q && q[other].ready <= now :: Earlier(q, id, other)
  }

  lemma {:induction false} FirstOfSome(q: map<nat, QueueRow>, ids: set<nat>) returns (id: nat)
    requires ids != {} && ids <= q.Keys
    ensures id in ids && forall other | other in ids :: Earlier(q, id, other)
    decreases ids
  {
    id :| id in ids;
    if ids != {id} {
      var rest := FirstOfSome(q, ids - {id});
      forall other | other in ids
        ensures Earlier(q, if Earlier(q, rest, id) then rest else id, other)
      {
        assert other == id || Earlier(q, rest, other) by { assert other == id || other in ids - {id}; }
      }
      id := if Earlier(q, rest, id) then rest else id;
    } else {
      assert forall other | other in ids :: other == id;
    }
  }

  function PutAll(t: Table, keys: seq<KeyBytes>, value: Packed, raw: nat): Table
    decreases |keys|
  {
    if keys == [] then t else PutAll(t[keys[0] := Row(value, raw, None)], keys[1..], value, raw)
  }

  /** How a rejection ends: the row waits again, its message is under its keys, it is given up, or something threw. */
  datatype Failure = Retried | Written | Dropped | Lost

  /**
   * What becomes of the database when the handler rejects the message of a row taken from the queue. A message that
   * the handler made uncloneable is None. Nothing is rolled back here: when it throws, the counter has moved already.
   */
  function FailTo(db: Db, row: QueueRow, later: int, message: Option<Packed>): (Db, Failure) {
    if row.attempts < |Schedule(row)| then
      var again := row.(ready := later + Schedule(row)[row.attempts], attempts := row.attempts + 1);
      (db.(queue := db.queue[db.nextId := again], nextId := db.nextId + 1), Retried)
    else if row.undelivered.Some? then
      var raw := db.version + 1;
      var keys := row.undelivered.value;
      if raw > MAX_SAFE || (keys != [] && message.None?) then (db.(version := raw), Lost)
      else if keys == [] then (db.(version := raw), Written)
      else (db.(kv := PutAll(db.kv, keys, message.value, raw), version := raw), Written)
    else (db, Dropped)
  }

  lemma {:induction false} PutAllIs(t: Table, keys: seq<KeyBytes>, value: Packed, raw: nat)
    ensures var t' := PutAll(t, keys, value, raw);
      && t'.Keys == t.Keys + (set i | 0 <= i < |keys| :: keys[i])
      && forall k | k in t' :: t'[k] == if k in keys then Row(value, raw, None) else t[k]
    decreases |keys|
  {
    if keys != [] {
      PutAllIs(t[keys[0] := Row(value, raw, None)], keys[1..], value, raw);
      assert keys == [keys[0]] + keys[1..];
    }
  }

  /**
   * A rejected message ends up under all of its keys, at a new version and for good, and nothing else changes; it is
   * lost exactly when there are keys to write it under and it cannot be encoded any more, or the counter is used up.
   */
  lemma WrittenUnderKeys(db: Db, row: QueueRow, later: int, message: Option<Packed>)
    requires row.attempts >= |Schedule(row)| && row.undelivered.Some?
    ensures var (after, r) := FailTo(db, row, later, message); var keys := row.undelivered.value;
      && (r == Lost <==> db.version >= MAX_SAFE || (keys != [] && message.None?))
      && (r == Written <==> r != Lost)
      && after.version == db.version + 1 && after.queue == db.queue
      && (r == Lost ==> after.kv == db.kv)
      && (r == Written ==> forall k ::
            RowAt(after.kv, k) == if k in keys then Some(Row(message.value, after.version, None)) else RowAt(db.kv, k))
  {
    hide PutAll;
    if row.undelivered.value != [] && message.Some? {
      PutAllIs(db.kv, row.undelivered.value, message.value, db.version + 1);
    }
  }

  function RowAt(t: Table, key: KeyBytes): Option<Row> {
    if key in t then Some(t[key]) else None
  }

  datatype Pumped = Idle(wait: int) | Dispatched(id: nat, row: QueueRow)

  class Kv {
    var kv: Table
    var queue: map<nat, QueueRow>
    var nextId: nat
    var version: nat

    ghost function State(): Db
      reads this
    {
      Db(kv, queue, nextId, version)
    }

    constructor ()
      ensures State() == Db(map[], map[], 1, 0)
    {
      kv, queue, nextId, version := map[], map[], 1, 0;
    }

    /** _commit: everything inside one transaction, rolled back when a check fails or something throws. */
    method Commit(checks: seq<Check>, ms: seq<Mutation>, es: seq<Enqueue>, now: int) returns (r: CommitResult)
      modifies this
      ensures (State(), r) == CommitTo(old(State()), checks, ms, es, now)
    {
      var kv0, queue0, nextId0, version0 := kv, queue, nextId, version;
      for i := 0 to |checks|
        invariant State() == old(State())
        invariant forall j | 0 <= j < i :: Passes(kv, checks[j], now)
      {
        if checks[i].stamp != CurrentStamp(kv, checks[i].key, now) {
          assert !Passes(kv, checks[i], now);
          return Refused;
        }
      }
      version := version + 1;
      var raw := version;
      if raw > MAX_SAFE {
        version := version0;
        return Threw;
      }
      for i := 0 to |ms|
        invariant queue == queue0 && nextId == nextId0 && version == raw
        invariant MutateAll(kv0, ms[..i], raw, now) == Some(kv)
      {
        assert ms[..i + 1] == ms[..i] + [ms[i]];
        MutateAllSnoc(kv0, ms[..i], ms[i], raw, now);
        var changed := true;
        match ms[i] {
          case Delete(key) =>
            kv := kv - {key};
          case Set(key, value, expireIn) =>
            if value.None? {
              changed := false;
            } else {
              kv := kv[key := Row(value.value, raw, Expiry(expireIn, now))];
            }
          case Arithmetic(kind, key, operand, expireIn) =>
            var row := Get(kv, key, now);
            var next := operand;
            if row.Some? {
              if row.value.value.U64? {
                next := Combine(kind, row.value.value.n, operand);
              } else {
                changed := false;
              }
            }
            if changed {
              kv := kv[key := Row(U64(next), raw, Expiry(expireIn, now))];
            }
        }
        if !changed {
          MutateAllThrows(kv0, ms, i + 1, raw, now);
          kv, queue, nextId, version := kv0, queue0, nextId0, version0;
          return Threw;
        }
      }
      assert ms[..|ms|] == ms;
      for i := 0 to |es|
        invariant MutateAll(kv0, ms, raw, now) == Some(kv) && version == raw
        invariant nextId == nextId0 + i
        invariant EnqueueAll(queue0, nextId0, es, now) == EnqueueAll(queue, nextId, es[i..], now)
      {
        if es[i].payload.None? || es[i].undelivered.BadKeys? {
          kv, queue, nextId, version := kv0, queue0, nextId0, version0;
          return Threw;
        }
        var keys := if es[i].undelivered.Keys? then Some(es[i].undelivered.keys) else None;
        queue := queue[nextId := QueueRow(now + es[i].delay, es[i].payload.value, 0, es[i].backoff, keys)];
        nextId := nextId + 1;
        assert es[i..][1..] == es[i + 1..];
      }
      kv := Expire(kv, now);
      r := Committed(StampOf(raw));
    }

    /** _pump: takes the next ready row out of the queue, or says how long to wait for one. */
    method Pump(now: int) returns (r: Pumped)
      modifies `queue
      ensures match r
              case Idle(wait) =>
                State() == old(State()) && 1 <= wait <= 250
                && (forall id | id in queue :: queue[id].ready >= now + wait)
                && (wait < 250 ==> exists id :: id in queue && queue[id].ready == now + wait)
              case Dispatched(id, row) =>
                IsNext(old(queue), now, id) && row == old(queue)[id] && queue == old(queue) - {id}
    {
      var ids := set id | id in queue && queue[id].ready <= now;
      if ids == {} {
        if queue == map[] {
          return Idle(250);
        }
        ghost var first := FirstOfSome(queue, queue.Keys);
        var soon :| soon in queue && forall other | other in queue :: Earlier(queue, soon, other);
        assert soon !in ids;
        var wait := queue[soon].ready - now;
        assert forall other | other in queue :: Earlier(queue, soon, other) && queue[other].ready >= now + wait;
        return Idle(if wait > 250 then 250 else wait);
      }
      ghost var first := FirstOfSome(queue, ids);
      assert IsNext(queue, now, first);
      var id :| id in ids && forall other | other in ids :: Earlier(queue, id, other);
      var row := queue[id];
      queue := queue - {id};
      r := Dispatched(id, row);
    }

    /** The rejection branch of _pump: try again later, write the undelivered message under its keys, or give up. */
    method Failed(row: QueueRow, later: int, message: Option<Packed>) returns (r: Failure)
      modifies this
      ensures (State(), r) == FailTo(old(State()), row, later, message)
    {
      var schedule := Schedule(row);
      if row.attempts < |schedule| {
        queue := queue[nextId := row.(ready := later + schedule[row.attempts], attempts := row.attempts + 1)];
        nextId := nextId + 1;
        return Retried;
      }
      if row.undelivered.None? {
        return Dropped;
      }
      var keys := row.undelivered.value;
      version := version + 1;
      if version > MAX_SAFE {
        return Lost;
      }
      for i := 0 to |keys|
        invariant queue == old(queue) && nextId == old(nextId) && version == old(version) + 1
        invariant i > 0 ==> message.Some?
        invariant message.Some? ==>
          PutAll(kv, keys[i..], message.value, version) == PutAll(old(kv), keys, message.value, version)
        invariant i == 0 ==> kv == old(kv)
      {
        if message.None? {
          return Lost;
        }
        kv := kv[keys[i] := Row(message.value, version, None)];
        assert keys[i..][1..] == keys[i + 1..];
      }
      r := Written;
    }
  }
}
