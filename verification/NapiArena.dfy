/** The handle arena: slots in chunks that never move, filled and emptied at the top. */
module NapiArena {
  import opened NapiHandles

  const CHUNK := 512
  const MAX_CHUNKS := 4096

  /** An open scope as its addon holds it. */
  class Scope {
    const mark: nat
    const slot: nat
    const escapable: bool
    var escaped: bool

    constructor (mark: nat, slot: nat, escapable: bool)
      ensures this.mark == mark && this.slot == slot && this.escapable == escapable && !escaped
    {
      this.mark, this.slot, this.escapable, escaped := mark, slot, escapable, false;
    }
  }

  class Arena {
    var chunks: seq<array<Value>>
    var top: nat
    ghost var stored: seq<Value>
    ghost var released: seq<Value>

    ghost predicate Valid()
      reads `chunks, `top
    {
      && top <= CHUNK * |chunks| && |chunks| <= MAX_CHUNKS
      && (forall c | 0 <= c < |chunks| :: chunks[c].Length == CHUNK)
      && (forall c, d | 0 <= c < d < |chunks| :: chunks[c] != chunks[d])
    }

    /** slot_at: a handle is a chunk and a place in it. */
    function SlotAt(i: nat): Value
      requires Valid() && i < CHUNK * |chunks|
      reads `chunks, `top, chunks
    {
      chunks[i / CHUNK][i % CHUNK]
    }

    /** What the live handles refer to. */
    ghost function Slots(): (s: seq<Value>)
      requires Valid()
      reads `chunks, `top, chunks
      ensures |s| == top && forall i | 0 <= i < top :: s[i] == SlotAt(i)
    {
      SlotsTo(top)
    }

    ghost function SlotsTo(n: nat): (s: seq<Value>)
      requires Valid() && n <= top
      reads `chunks, `top, chunks
      ensures |s| == n && forall i | 0 <= i < n :: s[i] == SlotAt(i)
    {
      if n == 0 then [] else SlotsTo(n - 1) + [SlotAt(n - 1)]
    }

    /**
     * The arena as the stack machine sees it, with the frames that its callers hold (only those that matter are named).
     */
    ghost function View(frames: seq<Frame>): State
      requires Valid()
      reads this, chunks
    {
      State(Slots(), frames, stored, released)
    }

    constructor ()
      ensures Valid() && View([]) == INITIAL
    {
      chunks, top, stored, released := [], 0, [], [];
    }

    method SetSlot(i: nat, v: Value)
      requires Valid() && i < CHUNK * |chunks|
      modifies chunks[i / CHUNK]
      ensures Valid() && SlotAt(i) == v
      ensures forall j: nat | j < CHUNK * |chunks| && j != i :: SlotAt(j) == old(SlotAt(j))
    {
      chunks[i / CHUNK][i % CHUNK] := v;
      forall j: nat | j < CHUNK * |chunks| && j != i ensures j / CHUNK != i / CHUNK || j % CHUNK != i % CHUNK {
      }
    }

    /** Allocates the next chunk when the top reaches it; the chunks so far stay where they are. */
    method Reserve()
      requires Valid() && top < CHUNK * MAX_CHUNKS
      modifies `chunks
      ensures Valid() && top < CHUNK * |chunks| && old(chunks) <= chunks && Slots() == old(Slots())
      ensures forall c | old(|chunks|) <= c < |chunks| :: fresh(chunks[c])
    {
      if top / CHUNK == |chunks| {
        var chunk := new Value[CHUNK](_ => UNDEFINED);
        chunks := chunks + [chunk];
      }
    }

    /** H: the value goes into the next slot; a full arena ends the program, which is the other outcome here. */
    method H(v: Value) returns (ok: bool, handle: nat)
      requires Valid()
      modifies this, chunks
      ensures Valid() && old(chunks) <= chunks
      ensures forall c | old(|chunks|) <= c < |chunks| :: fresh(chunks[c])
      ensures ok <==> old(top) < 2097152
      ensures ok ==> handle == old(top) && top == old(top) + 1 && View([]) == Push(old(View([])), v)
      ensures ok ==> SlotAt(handle) == v && stored == old(stored) + [v] && released == old(released)
      ensures !ok ==> chunks == old(chunks) && View([]) == old(View([]))
    {
      hide SlotsTo;
      handle := top;
      ok := top / CHUNK < MAX_CHUNKS;
      if !ok {
        return;
      }
      Reserve();
      ghost var was := Slots();
      SetSlot(top, v);
      top := top + 1;
      stored := stored + [v];
      assert Slots() == was + [v];
    }

    method Pop()
      requires Valid() && top > 0
      modifies `top, `released
      ensures Valid() && top == old(top) - 1
      ensures View([]) == Popped(old(View([])))
      ensures Slots() == old(Slots())[..top] && released == old(released) + [old(Slots())[top]]
    {
      hide SlotsTo;
      ghost var was := Slots();
      top := top - 1;
      released := released + [SlotAt(top)];
      assert Slots() == was[..top];
    }

    /** handles_close: down to the mark, each reference released as its slot is left. */
    method HandlesClose(mark: nat)
      requires Valid()
      modifies `top, `released
      ensures Valid() && View([]) == CloseTo(old(View([])), mark)
      ensures top == if old(top) > mark then mark else old(top)
      ensures released == old(released) + Backwards(old(Slots())[top..])
    {
      hide CloseTo, Popped, SlotsTo, SlotAt;
      while top > mark
        invariant Valid() && CloseTo(View([]), mark) == CloseTo(old(View([])), mark)
        invariant top <= old(top) && (mark <= old(top) ==> mark <= top) && (mark > old(top) ==> top == old(top))
        invariant Slots() == old(Slots())[..top] && released == old(released) + Backwards(old(Slots())[top..])
        decreases top
      {
        CloseOne(View([]), mark);
        ghost var s, n := old(Slots()), top;
        Pop();
        assert s[..n][..top] == s[..top] && s[..n][top] == s[top];
        assert s[top..] == [s[top]] + s[n..];
      }
      CloseNone(View([]), mark);
    }

    method OpenHandleScope() returns (scope: Scope)
      requires Valid()
      ensures fresh(scope) && scope.mark == top && !scope.escapable
    {
      scope := new Scope(top, 0, false);
    }

    /** A slot for what will escape, below the mark. */
    method OpenEscapableScope() returns (ok: bool, scope: Scope)
      requires Valid()
      modifies this, chunks
      ensures Valid() && fresh(scope) && old(chunks) <= chunks
      ensures forall c | old(|chunks|) <= c < |chunks| :: fresh(chunks[c])
      ensures ok ==> scope.escapable && !scope.escaped && scope.slot == old(top) && scope.mark == old(top) + 1
      ensures ok ==> View([Frame.Escapable(scope.mark, scope.slot, false)]) == Do(old(View([])), OpenEscapable)
    {
      var handle: nat;
      var slot := top;
      ok, handle := H(UNDEFINED);
      scope := new Scope(top, slot, true);
    }

    /** napi_escape_handle: the slot's old reference goes, a new one to the escapee comes; a second call fails. */
    method EscapeHandle(scope: Scope, handle: nat) returns (ok: bool)
      requires Valid() && scope.escapable && scope.slot < top && handle < top
      modifies scope, this, chunks
      ensures Valid() && chunks == old(chunks) && ok == !old(scope.escaped) && scope.escaped
      ensures ok ==> SlotAt(scope.slot) == old(SlotAt(handle))
      ensures ok ==>
        stored == old(stored) + [old(SlotAt(handle))] && released == old(released) + [old(SlotAt(scope.slot))]
      ensures !ok ==> stored == old(stored) && released == old(released) && Slots() == old(Slots())
      ensures View([Frame.Escapable(scope.mark, scope.slot, true)])
        == Do(old(View([Frame.Escapable(scope.mark, scope.slot, scope.escaped)])), Escape(0, handle))
    {
      if scope.escaped {
        return false;
      }
      ghost var was := Slots();
      var v := SlotAt(handle);
      released := released + [SlotAt(scope.slot)];
      SetSlot(scope.slot, v);
      stored := stored + [v];
      scope.escaped := true;
      assert Slots() == was[scope.slot := v];
      ok := true;
    }
  }

  /** Last first, as closing leaves them. */
  function Backwards(s: seq<Value>): seq<Value> {
    if s == [] then [] else Backwards(s[1..]) + [s[0]]
  }

  /** One slot released from the top. */
  function Popped(s: State): State
    requires s.slots != []
  {
    s.(slots := s.slots[..|s.slots| - 1], released := s.released + [s.slots[|s.slots| - 1]])
  }

  lemma CloseOne(s: State, mark: nat)
    requires |s.slots| > mark
    ensures CloseTo(s, mark) == CloseTo(Popped(s), mark)
  {
  }

  lemma CloseNone(s: State, mark: nat)
    requires |s.slots| <= mark
    ensures CloseTo(s, mark) == s
  {
  }
}
