/** Handle scopes, escapes and callbacks on the handle arena, as a stack machine over any well-nested run. */
module NapiHandles {
  import opened Sequences

  type Value = int

  const UNDEFINED: Value := 0

  /** An open scope or a native call: where the top was, and for an escapable scope the slot below it. */
  datatype Frame = Plain(mark: nat) | Escapable(mark: nat, slot: nat, escaped: bool) | Callback(mark: nat)

  /** The occupied slots, the open frames, and every reference that was stored and released so far. */
  datatype State = State(slots: seq<Value>, frames: seq<Frame>, stored: seq<Value>, released: seq<Value>)

  datatype Op =
    | Store(v: Value)
    | Open
    | OpenEscapable
    | Enter
    | Close
    | Escape(frame: nat, handle: nat)

  predicate Enabled(s: State, op: Op) {
    match op
    case Close => s.frames != []
    case Escape(f, h) => f < |s.frames| && s.frames[f].Escapable? && h < |s.slots| && s.frames[f].slot < |s.slots|
    case _ => true
  }

  function Push(s: State, v: Value): State {
    s.(slots := s.slots + [v], stored := s.stored + [v])
  }

  /** handles_close: everything from the top down to a mark is released. */
  function CloseTo(s: State, mark: nat): State
    decreases |s.slots|
  {
    if |s.slots| <= mark then s
    else
      var n := |s.slots| - 1;
      CloseTo(s.(slots := s.slots[..n], released := s.released + [s.slots[n]]), mark)
  }

  function Do(s: State, op: Op): State
    requires Enabled(s, op)
  {
    match op
    case Store(v) => Push(s, v)
    case Open => s.(frames := s.frames + [Plain(|s.slots|)])
    case OpenEscapable =>
      var t := Push(s, UNDEFINED);
      t.(frames := s.frames + [Frame.Escapable(|s.slots| + 1, |s.slots|, false)])
    case Enter => s.(frames := s.frames + [Callback(|s.slots|)])
    case Close =>
      var n := |s.frames| - 1;
      CloseTo(s, s.frames[n].mark).(frames := s.frames[..n])
    case Escape(f, h) =>
      var fr := s.frames[f];
      if fr.escaped then s
      else s.(slots := s.slots[fr.slot := s.slots[h]], frames := s.frames[f := fr.(escaped := true)],
              stored := s.stored + [s.slots[h]], released := s.released + [s.slots[fr.slot]])
  }

  /** A run that never closes a frame that was open below the given depth. */
  predicate Runs(s: State, ops: seq<Op>, t: State, depth: nat)
    decreases |ops|
  {
    if ops == [] then s == t
    else
      && Enabled(s, ops[0]) && (ops[0].Close? ==> |s.frames| > depth)
      && Runs(Do(s, ops[0]), ops[1..], t, depth)
  }

  const INITIAL := State([], [], [], [])

  // ---- invariants ------------------------------------------------------------------------------------------

  function Base(s: State, i: nat): nat
    requires i <= |s.frames|
  {
    if i == 0 then 0 else s.frames[i - 1].mark
  }

  /** Frames lie on top of each other; an escapable one has its slot right below its mark, above the frame around it. */
  predicate Nested(s: State) {
    && (forall i | 0 <= i < |s.frames| :: s.frames[i].mark <= |s.slots|)
    && (forall i, j | 0 <= i < j < |s.frames| :: s.frames[i].mark <= s.frames[j].mark)
    && (forall i | 0 <= i < |s.frames| :: s.frames[i].Escapable? ==> s.frames[i].mark == s.frames[i].slot + 1)
    && (forall i, j | 0 <= i < j < |s.frames| :: s.frames[j].Escapable? ==> s.frames[i].mark <= s.frames[j].slot)
  }

  /** Every stored reference is still in its slot or was released, once. */
  ghost predicate Balanced(s: State) {
    forall v :: Count(s.stored, v) == Count(s.released, v) + Count(s.slots, v)
  }

  lemma CountUpdate(a: seq<Value>, i: nat, x: Value, v: Value)
    requires i < |a|
    ensures Count(a[i := x], v) == Count(a, v) - One(a[i] == v) + One(x == v)
  {
    var l, r := a[..i], a[i + 1..];
    assert a == l + ([a[i]] + r) && a[i := x] == l + ([x] + r);
    CountConcat(l, [a[i]] + r, v);
    CountConcat(l, [x] + r, v);
    CountConcat([a[i]], r, v);
    CountConcat([x], r, v);
    assert [x][1..] == [] && [a[i]][1..] == [];
  }

  lemma {:induction false} CloseToFacts(s: State, mark: nat)
    ensures var t := CloseTo(s, mark);
      && t.frames == s.frames && t.stored == s.stored
      && t.slots == s.slots[..if mark <= |s.slots| then mark else |s.slots|]
    decreases |s.slots|
  {
    if |s.slots| > mark {
      var n := |s.slots| - 1;
      var u := s.(slots := s.slots[..n], released := s.released + [s.slots[n]]);
      CloseToFacts(u, mark);
      assert s.slots[..n][..mark] == s.slots[..mark];
    } else {
      assert s.slots[..|s.slots|] == s.slots;
    }
  }

  lemma {:induction false} CloseToBalanced(s: State, mark: nat)
    requires Balanced(s)
    ensures Balanced(CloseTo(s, mark))
    decreases |s.slots|
  {
    if |s.slots| > mark {
      var n := |s.slots| - 1;
      var u := s.(slots := s.slots[..n], released := s.released + [s.slots[n]]);
      forall v ensures Count(u.stored, v) == Count(u.released, v) + Count(u.slots, v) {
        CountAppend(s.released, s.slots[n], v);
        assert s.slots == s.slots[..n] + [s.slots[n]];
        CountAppend(s.slots[..n], s.slots[n], v);
      }
      CloseToBalanced(u, mark);
    }
  }

  lemma PushBalanced(s: State, v: Value)
    requires Balanced(s)
    ensures Balanced(Push(s, v))
  {
    hide Count;
    forall x ensures Count(s.stored + [v], x) == Count(s.released, x) + Count(s.slots + [v], x) {
      CountAppend(s.stored, v, x);
      CountAppend(s.slots, v, x);
    }
  }

  lemma StepBalanced(s: State, op: Op)
    requires Balanced(s) && Enabled(s, op)
    ensures Balanced(Do(s, op))
  {
    hide Count, CloseTo, Push;
    match op {
      case Store(v) => PushBalanced(s, v);
      case OpenEscapable => PushBalanced(s, UNDEFINED);
      case Close => CloseToBalanced(s, s.frames[|s.frames| - 1].mark);
      case Escape(f, h) =>
        var fr := s.frames[f];
        if !fr.escaped {
          forall v ensures Count(s.stored + [s.slots[h]], v)
            == Count(s.released + [s.slots[fr.slot]], v) + Count(s.slots[fr.slot := s.slots[h]], v) {
            CountAppend(s.stored, s.slots[h], v);
            CountAppend(s.released, s.slots[fr.slot], v);
            CountUpdate(s.slots, fr.slot, s.slots[h], v);
          }
        }
      case _ =>
    }
  }

  lemma CloseNested(s: State)
    requires Nested(s) && Enabled(s, Close)
    ensures Nested(Do(s, Close))
  {
    CloseToFacts(s, s.frames[|s.frames| - 1].mark);
  }

  lemma OpenNested(s: State, op: Op)
    requires Nested(s) && Enabled(s, op) && (op.Open? || op.OpenEscapable? || op.Enter?)
    ensures Nested(Do(s, op))
  {
    var t := Do(s, op);
    var n := |s.frames|;
    assert forall i | 0 <= i < n :: t.frames[i] == s.frames[i];
    assert t.frames[n].mark == |t.slots|;
  }

  lemma StepNested(s: State, op: Op)
    requires Nested(s) && Enabled(s, op)
    ensures Nested(Do(s, op))
  {
    if op.Close? {
      CloseNested(s);
    } else if !op.Store? && !op.Escape? {
      OpenNested(s, op);
    }
  }

  /** In every run: references balance and frames nest. */
  lemma {:induction false} RunKeeps(s: State, ops: seq<Op>, t: State, depth: nat)
    requires Balanced(s) && Nested(s) && Runs(s, ops, t, depth)
    ensures Balanced(t) && Nested(t)
    decreases |ops|
  {
    hide Balanced, Nested, Do, Enabled;
    if ops != [] {
      StepBalanced(s, ops[0]);
      StepNested(s, ops[0]);
      RunKeeps(Do(s, ops[0]), ops[1..], t, depth);
    }
  }

  /** When everything is closed again, exactly what was stored has been released, each reference once. */
  lemma AllReleased(ops: seq<Op>, t: State, v: Value)
    requires Runs(INITIAL, ops, t, 0)
    ensures Count(t.stored, v) == Count(t.released, v) + Count(t.slots, v)
    ensures t.slots == [] ==> Count(t.stored, v) == Count(t.released, v)
  {
    RunKeeps(INITIAL, ops, t, 0);
  }

  // ---- what a body leaves alone ----------------------------------------------------------------------------

  /** The slot of an open escapable scope that nothing has escaped to yet. */
  predicate Awaiting(s: State, depth: nat, i: nat) {
    exists f | 0 <= f < depth && f < |s.frames| :: s.frames[f].Escapable? && !s.frames[f].escaped &&
      s.frames[f].slot == i
  }

  /**
   * Compared with s, t has the same frames up to a depth but for what escaped, and every slot of the first n the same.
   */
  ghost predicate Above(s: State, t: State, depth: nat, n: nat) {
    && depth <= |s.frames| && depth <= |t.frames| && n <= |s.slots| && n <= |t.slots|
    && (forall f | 0 <= f < depth :: SameFrame(s.frames[f], t.frames[f]))
    && (forall f | depth <= f < |t.frames| ::
          t.frames[f].mark >= n && (t.frames[f].Escapable? ==> t.frames[f].slot >= n))
    && (forall i | 0 <= i < n :: t.slots[i] == s.slots[i] || Awaiting(s, depth, i))
  }

  /** The same frame, escaped to perhaps. */
  predicate SameFrame(a: Frame, b: Frame) {
    b == a || (a.Escapable? && !a.escaped && b == a.(escaped := true))
  }

  lemma StepAbove(s: State, t: State, op: Op, depth: nat, n: nat)
    requires Above(s, t, depth, n) && Enabled(t, op) && (op.Close? ==> |t.frames| > depth)
    ensures Above(s, Do(t, op), depth, n)
  {
    hide Awaiting;
    match op {
      case Close => CloseToFacts(t, t.frames[|t.frames| - 1].mark);
      case Escape(f, h) =>
        if !t.frames[f].escaped && f < depth {
          EscapesToAwaiting(s, t, f, depth);
        }
      case _ =>
    }
  }

  lemma EscapesToAwaiting(s: State, t: State, f: nat, depth: nat)
    requires f < depth <= |s.frames| && depth <= |t.frames| && SameFrame(s.frames[f], t.frames[f])
    requires t.frames[f].Escapable? && !t.frames[f].escaped
    ensures Awaiting(s, depth, t.frames[f].slot) && s.frames[f] == t.frames[f]
  {
  }

  /** Live slots never move or change while their frame is open, except that an escape fills its scope's slot once. */
  lemma {:induction false} BodyKeeps(s: State, t: State, ops: seq<Op>, u: State, depth: nat, n: nat)
    requires Above(s, t, depth, n) && Runs(t, ops, u, depth)
    ensures Above(s, u, depth, n)
    decreases |ops|
  {
    hide Above, Do, Enabled;
    if ops != [] {
      StepAbove(s, t, ops[0], depth, n);
      BodyKeeps(s, Do(t, ops[0]), ops[1..], u, depth, n);
    }
  }

  lemma Start(s: State)
    requires Nested(s)
    ensures Above(s, s, |s.frames|, |s.slots|)
  {
  }

  /**
   * A plain scope or a native call around any body leaves the top where it was and every slot as it was, escapes aside.
   */
  lemma ScopeReturns(s: State, op: Op, ops: seq<Op>, t: State)
    requires Nested(s) && (op.Open? || op.Enter?)
    requires Runs(Do(s, op), ops, t, |s.frames| + 1) && |t.frames| == |s.frames| + 1
    ensures var u := Do(t, Close);
      && |u.slots| == |s.slots| && |u.frames| == |s.frames|
      && (forall i | 0 <= i < |s.slots| :: u.slots[i] == s.slots[i] || Awaiting(s, |s.frames|, i))
      && (forall f | 0 <= f < |s.frames| :: SameFrame(s.frames[f], u.frames[f]))
  {
    var o := Do(s, op);
    StepNested(s, op);
    Start(o);
    BodyKeeps(o, o, ops, t, |o.frames|, |o.slots|);
    CloseToFacts(t, t.frames[|s.frames|].mark);
    assert SameFrame(o.frames[|s.frames|], t.frames[|s.frames|]);
    forall i | 0 <= i < |s.slots| && Awaiting(o, |o.frames|, i) ensures Awaiting(s, |s.frames|, i) {
      var f :| 0 <= f < |o.frames| && o.frames[f].Escapable? && !o.frames[f].escaped && o.frames[f].slot == i;
      assert o.frames[f] == s.frames[f];
    }
    forall f | 0 <= f < |s.frames| ensures SameFrame(s.frames[f], t.frames[f]) {
      assert o.frames[f] == s.frames[f] && SameFrame(o.frames[f], t.frames[f]);
    }
  }

  /** An escapable scope leaves one more slot: what escaped, or undefined; the rest as it was, other escapes aside. */
  lemma EscapableReturns(s: State, ops: seq<Op>, t: State)
    requires Nested(s)
    requires Runs(Do(s, OpenEscapable), ops, t, |s.frames| + 1) && |t.frames| == |s.frames| + 1
    ensures var u := Do(t, Close); var n := |s.slots|;
      && |u.slots| == n + 1 <= |t.slots| && |u.frames| == |s.frames|
      && u.slots[n] == t.slots[n] && t.frames[|s.frames|].Escapable? && t.frames[|s.frames|].slot == n
      && (!t.frames[|s.frames|].escaped ==> u.slots[n] == UNDEFINED)
      && (forall i | 0 <= i < n :: u.slots[i] == s.slots[i] || Awaiting(s, |s.frames|, i))
  {
    var o := Do(s, OpenEscapable);
    StepNested(s, OpenEscapable);
    Start(o);
    BodyKeeps(o, o, ops, t, |o.frames|, |o.slots|);
    CloseToFacts(t, t.frames[|s.frames|].mark);
    assert SameFrame(o.frames[|s.frames|], t.frames[|s.frames|]);
    forall i | 0 <= i < |s.slots| && Awaiting(o, |o.frames|, i) ensures Awaiting(s, |s.frames|, i) {
      var f :| 0 <= f < |o.frames| && o.frames[f].Escapable? && !o.frames[f].escaped && o.frames[f].slot == i;
      assert f < |s.frames| && o.frames[f] == s.frames[f];
    }
    Unescaped(o, o, ops, t, |s.frames|);
  }

  /** As long as nothing escapes to a frame, its slot stays what it was. */
  lemma {:induction false} Unescaped(s: State, t: State, ops: seq<Op>, u: State, f: nat)
    requires Nested(t) && Runs(t, ops, u, f + 1) && f < |t.frames| && t.frames[f].Escapable? && f < |u.frames|
    requires t.frames[f].slot < |t.slots|
    ensures u.frames[f].Escapable? && !u.frames[f].escaped && u.frames[f].slot < |u.slots| ==>
      u.slots[u.frames[f].slot] == t.slots[t.frames[f].slot] && u.frames[f] == t.frames[f]
    decreases |ops|
  {
    if ops != [] {
      var op := ops[0];
      var n := Do(t, op);
      StepNested(t, op);
      if op.Close? { CloseToFacts(t, t.frames[|t.frames| - 1].mark); }
      StepUnescaped(t, op, f);
      Unescaped(s, n, ops[1..], u, f);
    }
  }

  lemma StepUnescaped(t: State, op: Op, f: nat)
    requires Nested(t) && Enabled(t, op) && f < |t.frames| && t.frames[f].Escapable?
    requires op.Close? ==> |t.frames| > f + 1
    ensures var n := Do(t, op);
      && f < |n.frames| && n.frames[f].Escapable? && n.frames[f].slot == t.frames[f].slot < |n.slots|
      && (!n.frames[f].escaped ==> n.frames[f] == t.frames[f] && n.slots[t.frames[f].slot] == t.slots[t.frames[f].slot])
      && (t.frames[f].escaped ==> n.frames[f].escaped)
  {
    if op.Close? { CloseToFacts(t, t.frames[|t.frames| - 1].mark); }
    if op.Escape? && op.frame != f && t.frames[op.frame].Escapable? {
      if op.frame < f { assert t.frames[op.frame].mark <= t.frames[f].slot; }
      if f < op.frame { assert t.frames[f].mark <= t.frames[op.frame].slot; }
    }
  }

  /**
   * An escaped value is in its slot from the escape on, and survives everything until the frame around its scope
   * closes.
   */
  lemma EscapedLives(s: State, f: nat, h: nat, ops: seq<Op>, u: State)
    requires Nested(s) && Enabled(s, Escape(f, h)) && !s.frames[f].escaped
    requires Runs(Do(s, Escape(f, h)), ops, u, f)
    ensures s.frames[f].slot < |u.slots| && u.slots[s.frames[f].slot] == s.slots[h]
  {
    var e := Do(s, Escape(f, h));
    StepNested(s, Escape(f, h));
    var n := s.frames[f].slot + 1;
    assert e.frames[f].mark == n;
    StaysThrough(e, e, ops, u, f, n);
  }

  /** The slot below n stays, though frame f itself may be closed: its mark is n, and its slot was used up. */
  lemma {:induction false} StaysThrough(s: State, t: State, ops: seq<Op>, u: State, f: nat, n: nat)
    requires n > 0 && Runs(t, ops, u, f) && n <= |s.slots| && n <= |t.slots| && t.slots[n - 1] == s.slots[n - 1]
    requires forall g | 0 <= g < |t.frames| ::
      t.frames[g].Escapable? && t.frames[g].slot == n - 1 ==> t.frames[g].escaped
    requires forall g | f <= g < |t.frames| :: t.frames[g].mark >= n
    ensures n <= |u.slots| && u.slots[n - 1] == s.slots[n - 1]
    decreases |ops|
  {
    if ops != [] {
      var op := ops[0];
      if op.Close? { CloseToFacts(t, t.frames[|t.frames| - 1].mark); }
      StaysThrough(s, Do(t, op), ops[1..], u, f, n);
    }
  }
}
