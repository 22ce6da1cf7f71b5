/** What holds over every run of one process: versionstamps identify what is stored. */
module KvHistory {
  import opened Wrappers
  import opened Bytes
  import opened KvStamps
  import opened KvStore

  datatype Step =
    | CommitStep(checks: seq<Check>, ms: seq<Mutation>, es: seq<Enqueue>, now: int)
    | TakeStep(id: nat)
    | FailStep(row: QueueRow, later: int, message: Option<Packed>)

  function After(db: Db, s: Step): Db {
    match s
    case CommitStep(checks, ms, es, now) => CommitTo(db, checks, ms, es, now).0
    case TakeStep(id) => db.(queue := db.queue - {id})
    case FailStep(row, later, message) => FailTo(db, row, later, message).0
  }

  /** A database no row of which is newer than its commit counter, or has a number that cannot be read. */
  ghost predicate Valid(db: Db) {
    forall k | k in db.kv :: db.kv[k].vs <= db.version && db.kv[k].vs <= MAX_SAFE
  }

  /** Rows are kept as they are or carry a later commit number. */
  ghost predicate TableEvolves(before: Table, bound: nat, after: Table) {
    forall k | k in after :: (k in before && after[k] == before[k]) || after[k].vs > bound
  }

  ghost predicate Evolves(before: Db, after: Db) {
    before.version <= after.version && TableEvolves(before.kv, before.version, after.kv)
  }

  lemma EvolvesTransitive(a: Db, b: Db, c: Db)
    requires Evolves(a, b) && Evolves(b, c)
    ensures Evolves(a, c)
  {
  }

  lemma {:induction false} MutateAllEvolves(t: Table, ms: seq<Mutation>, raw: nat, now: int, bound: nat)
    requires bound < raw && MutateAll(t, ms, raw, now).Some?
    ensures var t' := MutateAll(t, ms, raw, now).value;
      TableEvolves(t, bound, t') && forall k | k in t' :: (k in t && t'[k] == t[k]) || t'[k].vs == raw
    decreases |ms|
  {
    if ms != [] {
      var next := Mutate(t, ms[0], raw, now).value;
      assert forall k | k in next :: (k in t && next[k] == t[k]) || next[k].vs == raw;
      MutateAllEvolves(next, ms[1..], raw, now, bound);
    }
  }

  lemma {:induction false} PutAllEvolves(t: Table, keys: seq<KeyBytes>, value: Packed, raw: nat)
    ensures var t' := PutAll(t, keys, value, raw);
      forall k | k in t' :: (k in t && t'[k] == t[k]) || t'[k].vs == raw
    decreases |keys|
  {
    if keys != [] {
      PutAllEvolves(t[keys[0] := Row(value, raw, None)], keys[1..], value, raw);
    }
  }

  lemma StepEvolves(db: Db, s: Step)
    requires Valid(db)
    ensures Valid(After(db, s)) && Evolves(db, After(db, s))
  {
    hide MutateAll, EnqueueAll, PutAll;
    match s {
      case CommitStep(checks, ms, es, now) =>
        var raw := db.version + 1;
        if MutateAll(db.kv, ms, raw, now).Some? {
          MutateAllEvolves(db.kv, ms, raw, now, db.version);
        }
      case TakeStep(id) =>
      case FailStep(row, later, message) =>
        if row.undelivered.Some? && message.Some? {
          PutAllEvolves(db.kv, row.undelivered.value, message.value, db.version + 1);
        }
    }
  }

  /** The states that a list of steps goes through. */
  function Run(db: Db, steps: seq<Step>): (states: seq<Db>)
    ensures |states| == |steps| + 1 && states[0] == db
    decreases |steps|
  {
    if steps == [] then [db] else [db] + Run(After(db, steps[0]), steps[1..])
  }

  lemma {:induction false} RunEvolves(db: Db, steps: seq<Step>, i: nat, j: nat)
    requires Valid(db) && i <= j <= |steps|
    ensures var states := Run(db, steps); Valid(states[i]) && Valid(states[j]) && Evolves(states[i], states[j])
    decreases |steps|
  {
    hide After;
    if steps != [] {
      var next := After(db, steps[0]);
      StepEvolves(db, steps[0]);
      if i > 0 {
        RunEvolves(next, steps[1..], i - 1, j - 1);
      } else if j > 0 {
        RunEvolves(next, steps[1..], 0, j - 1);
        EvolvesTransitive(db, next, Run(db, steps)[j]);
      }
    }
  }

  /** Two reads of a key with one versionstamp, at any two moments of a run, read the same bytes and encoding. */
  lemma SameStampSameValue(db: Db, steps: seq<Step>, i: nat, j: nat, key: KeyBytes, now: int, later: int)
    requires Valid(db) && i <= j <= |steps|
    requires var states := Run(db, steps);
      && CurrentStamp(states[i].kv, key, now).Some?
      && CurrentStamp(states[i].kv, key, now) == CurrentStamp(states[j].kv, key, later)
    ensures var states := Run(db, steps); Get(states[i].kv, key, now) == Get(states[j].kv, key, later)
  {
    hide StampOf, Run;
    var states := Run(db, steps);
    RunEvolves(db, steps, i, j);
    StampInjective(states[i].kv[key].vs, states[j].kv[key].vs);
  }

  /** An entry as get returns it, and the moment it was read. */
  datatype Read = Read(moment: nat, key: KeyBytes, now: int)

  function CheckOf(states: seq<Db>, r: Read): Check
    requires r.moment < |states|
  {
    Check(r.key, CurrentStamp(states[r.moment].kv, r.key, r.now))
  }

  /**
   * Optimistic concurrency: a commit that checks what was read is refused exactly when an entry now reads differently.
   */
  lemma CheckedCommitSeesWhatWasRead(db: Db, steps: seq<Step>, entries: seq<Read>, j: nat, checks: seq<Check>,
      ms: seq<Mutation>, es: seq<Enqueue>, now: int)
    requires Valid(db) && j <= |steps| && |checks| == |entries|
    requires forall i | 0 <= i < |entries| :: entries[i].moment <= j && checks[i] == CheckOf(Run(db, steps), entries[i])
    ensures var states := Run(db, steps);
      CommitTo(states[j], checks, ms, es, now).1 != Refused <==> forall r | 0 <= r < |entries| ::
        Get(states[j].kv, entries[r].key, now) == Get(states[entries[r].moment].kv, entries[r].key, entries[r].now)
  {
    hide Run, StampOf, Get;
    var states := Run(db, steps);
    forall r | 0 <= r < |entries|
      ensures Passes(states[j].kv, checks[r], now) <==>
        Get(states[j].kv, entries[r].key, now) == Get(states[entries[r].moment].kv, entries[r].key, entries[r].now)
    {
      PassesIffSame(db, steps, entries[r], j, now);
    }
  }

  lemma PassesIffSame(db: Db, steps: seq<Step>, read: Read, j: nat, now: int)
    requires Valid(db) && read.moment <= j <= |steps|
    ensures var states := Run(db, steps);
      Passes(states[j].kv, CheckOf(states, read), now) <==>
      Get(states[j].kv, read.key, now) == Get(states[read.moment].kv, read.key, read.now)
  {
    hide Run, StampOf, Get;
    var states := Run(db, steps);
    if Passes(states[j].kv, CheckOf(states, read), now) && Get(states[j].kv, read.key, now).Some? {
      SameStampSameValue(db, steps, read.moment, j, read.key, read.now, now);
    }
  }

  /**
   * A refused or throwing commit leaves rows, queue and counters as they were; a successful one moves the counter by
   * one.
   */
  lemma CommitAllOrNothing(db: Db, checks: seq<Check>, ms: seq<Mutation>, es: seq<Enqueue>, now: int)
    ensures var (after, r) := CommitTo(db, checks, ms, es, now);
      if r.Committed? then after.version == db.version + 1 && r.stamp == StampOf(after.version) else after == db
    ensures CommitTo(db, checks, ms, es, now).1 == Refused <==>
      exists i :: 0 <= i < |checks| && !Passes(db.kv, checks[i], now)
  {
  }

  /** Stamps of successful commits grow in string order. */
  lemma StampsIncrease(db: Db, steps: seq<Step>, i: nat, j: nat)
    requires Valid(db) && i < j < |steps| && steps[i].CommitStep? && steps[j].CommitStep?
    requires var states := Run(db, steps);
      var a, b := steps[i], steps[j];
      && CommitTo(states[i], a.checks, a.ms, a.es, a.now).1.Committed?
      && CommitTo(states[j], b.checks, b.ms, b.es, b.now).1.Committed?
    ensures var states := Run(db, steps);
      var a, b := steps[i], steps[j];
      Less(CommitTo(states[i], a.checks, a.ms, a.es, a.now).1.stamp,
        CommitTo(states[j], b.checks, b.ms, b.es, b.now).1.stamp)
  {
    hide Run, StampOf;
    var states := Run(db, steps);
    RunStep(db, steps, i);
    RunEvolves(db, steps, i + 1, j);
    CommitsEnd(states[i], steps[i].checks, steps[i].ms, steps[i].es, steps[i].now);
    CommitsEnd(states[j], steps[j].checks, steps[j].ms, steps[j].es, steps[j].now);
    StampOrder(states[i].version + 1, states[j].version + 1);
  }

  /** Once the counter has reached 2^53 - 1, a commit whose checks pass throws. */
  lemma CommitsEnd(db: Db, checks: seq<Check>, ms: seq<Mutation>, es: seq<Enqueue>, now: int)
    ensures CommitTo(db, checks, ms, es, now).1.Committed? ==> db.version < 9007199254740991
    ensures db.version >= 9007199254740991 && ChecksPass(db.kv, checks, now) ==>
      CommitTo(db, checks, ms, es, now) == (db, Threw)
  {
    hide MutateAll, EnqueueAll, ChecksPass;
  }

  lemma {:induction false} RunStep(db: Db, steps: seq<Step>, i: nat)
    requires i < |steps|
    ensures Run(db, steps)[i + 1] == After(Run(db, steps)[i], steps[i])
    decreases |steps|
  {
    hide After;
    if i > 0 {
      RunStep(After(db, steps[0]), steps[1..], i - 1);
    }
  }

  // ---- what a transaction does to one key ------------------------------------------------------------------

  /** The effect of one mutation on the row of `key` alone: None when it throws. */
  function Effect(row: Option<Row>, m: Mutation, key: KeyBytes, raw: nat, now: int): Option<Option<Row>> {
    if m.key != key then (if m.Set? && m.value.None? then None else Some(row)) else
      match m
      case Delete(_) => Some(None)
      case Set(_, value, expireIn) =>
        if value.None? then None else Some(Some(Row(value.value, raw, Expiry(expireIn, now))))
      case Arithmetic(kind, _, operand, expireIn) =>
        if row.None? || !Unexpired(row.value, now) then Some(Some(Row(U64(operand), raw, Expiry(expireIn, now))))
        else if !row.value.value.U64? then None
        else Some(Some(Row(U64(Combine(kind, row.value.value.n, operand)), raw, Expiry(expireIn, now))))
  }

  function Effects(row: Option<Row>, ms: seq<Mutation>, key: KeyBytes, raw: nat, now: int): Option<Option<Row>>
    decreases |ms|
  {
    if ms == [] then Some(row) else
      match Effect(row, ms[0], key, raw, now)
      case None => None
      case Some(row') => Effects(row', ms[1..], key, raw, now)
  }

  lemma MutateIsLocal(t: Table, m: Mutation, raw: nat, now: int, key: KeyBytes)
    ensures match Mutate(t, m, raw, now)
            case Some(t') => Effect(RowAt(t, key), m, key, raw, now) == Some(RowAt(t', key))
            case None => Effect(RowAt(t, m.key), m, m.key, raw, now) == None
  {
  }

  /**
   * Each key's row after a transaction is the fold of its own mutations; it throws exactly when some key's fold does.
   */
  lemma {:induction false} MutationsArePerKey(t: Table, ms: seq<Mutation>, raw: nat, now: int)
    ensures match MutateAll(t, ms, raw, now)
            case Some(t') => forall key :: Effects(RowAt(t, key), ms, key, raw, now) == Some(RowAt(t', key))
            case None => exists key :: Effects(RowAt(t, key), ms, key, raw, now) == None
    decreases |ms|
  {
    hide Mutate, Effect;
    if ms != [] {
      var next := Mutate(t, ms[0], raw, now);
      if next.Some? {
        forall key
          ensures Effect(RowAt(t, key), ms[0], key, raw, now) == Some(RowAt(next.value, key))
        {
          MutateIsLocal(t, ms[0], raw, now, key);
        }
        MutationsArePerKey(next.value, ms[1..], raw, now);
        if MutateAll(t, ms, raw, now).None? {
          var key :| Effects(RowAt(next.value, key), ms[1..], key, raw, now) == None;
          assert Effects(RowAt(t, key), ms, key, raw, now) == None;
        }
      } else {
        MutateIsLocal(t, ms[0], raw, now, ms[0].key);
        assert Effects(RowAt(t, ms[0].key), ms, ms[0].key, raw, now) == None;
      }
    }
  }
}
