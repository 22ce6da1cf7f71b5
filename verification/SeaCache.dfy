/** The block cache: 64 slots, a byte budget, least recently used out first. */
module SeaCache {
  import opened Wrappers
  import opened Bytes

  const SLOTS := 64
  const BUDGET := 4194304

  /** A stored block: its size, and what decompressing it gives (nothing when it is damaged). */
  datatype Block = Block(raw: nat, content: Option<seq<byte>>)

  datatype Slot = Slot(block: int, data: Option<seq<byte>>, used: nat)

  // ---- the policy, on the list of resident blocks from least to most recently used -------------------------

  predicate InRange(recent: seq<nat>, blocks: seq<Block>) {
    forall i | 0 <= i < |recent| :: recent[i] < |blocks|
  }

  function Size(blocks: seq<Block>, recent: seq<nat>): nat
    requires InRange(recent, blocks)
  {
    if recent == [] then 0 else blocks[recent[0]].raw + Size(blocks, recent[1..])
  }

  /** Drops from the old end while the size is over the budget; the newest always stays. */
  function Trimmed(blocks: seq<Block>, recent: seq<nat>, budget: nat): (r: seq<nat>)
    requires InRange(recent, blocks)
    ensures InRange(r, blocks)
  {
    if Size(blocks, recent) > budget && |recent| > 1 then Trimmed(blocks, recent[1..], budget) else recent
  }

  function Without(s: seq<nat>, b: nat): (r: seq<nat>)
    ensures forall i | 0 <= i < |r| :: r[i] in s
  {
    if s == [] then []
    else if s[0] == b then s[1..]
    else [s[0]] + Without(s[1..], b)
  }

  /** What is left when a block comes in: all, or with every slot taken, all but the oldest. */
  function Room(recent: seq<nat>): (r: seq<nat>)
    ensures forall i | 0 <= i < |r| :: r[i] in recent
  {
    if |recent| >= SLOTS then recent[1..] else recent
  }

  /** Reading b: to the new end if it is there; else in at the new end, with whatever must go gone. */
  function Used(blocks: seq<Block>, recent: seq<nat>, b: nat, budget: nat): (r: seq<nat>)
    requires b < |blocks| && InRange(recent, blocks)
    ensures InRange(r, blocks)
  {
    if b in recent then Without(recent, b) + [b] else Trimmed(blocks, Room(recent) + [b], budget)
  }

  predicate Distinct(s: seq<nat>) {
    s != [] ==> s[0] !in s[1..] && Distinct(s[1..])
  }

  /** Strictly increasing uses. */
  predicate Ordered(s: seq<nat>, uses: map<nat, nat>) {
    s != [] ==> s[0] in uses && (forall x | x in s[1..] :: x in uses && uses[s[0]] < uses[x]) && Ordered(s[1..], uses)
  }

  lemma {:induction false} WithoutFacts(s: seq<nat>, b: nat, blocks: seq<Block>)
    requires Distinct(s) && b in s && InRange(s, blocks)
    ensures Distinct(Without(s, b)) && (forall x :: x in Without(s, b) <==> x in s && x != b)
    ensures |Without(s, b)| == |s| - 1 && Size(blocks, Without(s, b)) == Size(blocks, s) - blocks[b].raw
  {
    assert s == [s[0]] + s[1..];
    if s[0] != b {
      WithoutFacts(s[1..], b, blocks);
      var r := [s[0]] + Without(s[1..], b);
      assert r[1..] == Without(s[1..], b);
    }
  }

  lemma {:induction false} OrderedWithout(s: seq<nat>, b: nat, uses: map<nat, nat>)
    requires Ordered(s, uses)
    ensures Ordered(Without(s, b), uses)
  {
    if s != [] && s[0] != b {
      OrderedWithout(s[1..], b, uses);
      var r := [s[0]] + Without(s[1..], b);
      assert r[1..] == Without(s[1..], b);
    }
  }

  lemma {:induction false} OrderedSame(s: seq<nat>, uses: map<nat, nat>, other: map<nat, nat>)
    requires Ordered(s, uses) && forall x | x in s :: x in other && (x in uses ==> other[x] == uses[x])
    ensures Ordered(s, other)
  {
    if s != [] {
      OrderedSame(s[1..], uses, other);
    }
  }

  lemma {:induction false} AppendFacts(s: seq<nat>, b: nat, uses: map<nat, nat>, blocks: seq<Block>)
    requires Distinct(s) && b !in s && b in uses && Ordered(s, uses) &&
      (forall x | x in s :: x in uses && uses[x] < uses[b])
    requires InRange(s, blocks) && b < |blocks|
    ensures Distinct(s + [b]) && Ordered(s + [b], uses) && Size(blocks, s + [b]) == Size(blocks, s) + blocks[b].raw
  {
    if s == [] {
      assert s + [b] == [b] && [b][1..] == [];
    } else {
      assert (s + [b])[1..] == s[1..] + [b];
      AppendFacts(s[1..], b, uses, blocks);
    }
  }

  /** The first has the least use, the last the greatest. */
  lemma {:induction false} Ends(s: seq<nat>, uses: map<nat, nat>)
    requires Ordered(s, uses) && s != []
    ensures forall x | x in s :: x in uses && uses[s[0]] <= uses[x] <= uses[s[|s| - 1]]
    ensures forall x | x in s && uses[x] == uses[s[0]] :: x == s[0]
    ensures forall x | x in s && uses[x] == uses[s[|s| - 1]] :: x == s[|s| - 1]
  {
    assert s == [s[0]] + s[1..];
    if |s| > 1 {
      Ends(s[1..], uses);
      assert s[1..][|s| - 2] == s[|s| - 1];
    }
  }

  lemma {:induction false} TailFacts(s: seq<nat>, uses: map<nat, nat>)
    requires Distinct(s) && Ordered(s, uses) && s != []
    ensures forall x :: x in s[1..] <==> x in s && x != s[0]
  {
    assert s == [s[0]] + s[1..];
  }

  // ---- the slots -------------------------------------------------------------------------------------------

  /** Decompressing a sound block gives as many bytes as the index says. */
  ghost predicate Decodes(blocks: seq<Block>) {
    forall b | 0 <= b < |blocks| :: blocks[b].content.Some? ==> |blocks[b].content.value| == blocks[b].raw
  }

  /** Block b sits in slot place[b] with its own bytes; every occupied slot is the place of its block. */
  ghost predicate Placed(slots: seq<Slot>, place: map<nat, int>, blocks: seq<Block>) {
    && (forall b | b in place :: 0 <= place[b] < |slots| && InSlot(slots[place[b]], b, blocks))
    && (forall k | 0 <= k < |slots| && slots[k].data.Some? ::
          slots[k].block >= 0 && slots[k].block in place && place[slots[k].block] == k)
  }

  predicate InSlot(s: Slot, b: nat, blocks: seq<Block>) {
    s.block == b < |blocks| && s.data == blocks[b].content && s.data.Some?
  }

  ghost function Uses(slots: seq<Slot>, place: map<nat, int>): (u: map<nat, nat>)
    requires forall b | b in place :: 0 <= place[b] < |slots|
    ensures u.Keys == place.Keys && forall b | b in place :: u[b] == slots[place[b]].used
  {
    map b | b in place :: slots[place[b]].used
  }

  /** The resident blocks, each once, in order of use; the newest was used at the current tick. */
  ghost predicate Listed(recent: seq<nat>, uses: map<nat, nat>, tick: nat) {
    && Distinct(recent) && (forall b :: b in uses <==> b in recent)
    && Ordered(recent, uses)
    && (recent != [] ==> uses[recent[|recent| - 1]] == tick)
  }

  class Cache {
    const blocks: seq<Block>
    const slots: array<Slot>
    var tick: nat
    var cached: int
    var budget: nat
    ghost var place: map<nat, int>
    /** The blocks in the cache, least recently used first. */
    ghost var recent: seq<nat>

    ghost predicate Valid()
      reads this, slots
    {
      && slots.Length == SLOTS && Decodes(blocks) && InRange(recent, blocks)
      && Placed(slots[..], place, blocks)
      && Listed(recent, Uses(slots[..], place), tick)
      && cached == Size(blocks, recent)
    }

    constructor (blocks: seq<Block>, budget: nat)
      requires Decodes(blocks)
      ensures Valid() && recent == [] && fresh(slots) && this.blocks == blocks && this.budget == budget
    {
      this.blocks := blocks;
      slots := new Slot[SLOTS](_ => Slot(-1, None, 0));
      tick, cached, this.budget, place, recent := 0, 0, budget, map[], [];
    }

    /** Empties the least recently used slots until the budget is met or only the newest is left. */
    method Trim(limit: nat)
      requires Valid()
      modifies `cached, `place, `recent, slots
      ensures Valid() && recent == Trimmed(blocks, old(recent), limit)
    {
      hide Placed, Listed, Decodes, Uses;
      while cached > limit
        invariant Valid()
        invariant Trimmed(blocks, recent, limit) == Trimmed(blocks, old(recent), limit)
        decreases |recent|
      {
        var oldest := Oldest();
        if oldest < 0 {
          return;
        }
        Evict(oldest);
      }
    }

    /** The least recently used slot other than the newest, or -1. */
    method Oldest() returns (oldest: int)
      requires Valid()
      ensures oldest < 0 ==> |recent| <= 1
      ensures oldest >= 0 ==> |recent| > 1 && recent[0] in place && oldest == place[recent[0]]
    {
      hide Placed, Listed, Decodes, Uses, Size;
      oldest := -1;
      for i := 0 to SLOTS
        invariant -1 <= oldest < i
        invariant oldest >= 0 ==> slots[oldest].data.Some? && slots[oldest].used != tick
        invariant forall k | 0 <= k < i && slots[k].data.Some? && slots[k].used != tick ::
          oldest >= 0 && slots[oldest].used <= slots[k].used
      {
        var s := slots[i];
        if s.data.Some? && s.used != tick && (oldest < 0 || s.used < slots[oldest].used) {
          oldest := i;
        }
      }
      OldestIsFirst(slots[..], place, blocks, recent, tick, oldest);
    }

    method Evict(slot: int)
      requires Valid() && |recent| > 1 && recent[0] in place && slot == place[recent[0]]
      modifies `cached, `place, `recent, slots
      ensures Valid() && recent == old(recent)[1..]
    {
      hide Placed, Listed, Decodes, Uses;
      ghost var was, b := slots[..], recent[0];
      EvictKeeps(was, place, blocks, recent, tick);
      cached := cached - blocks[slots[slot].block].raw;
      slots[slot] := Slot(-1, None, slots[slot].used);
      place, recent := place - {b}, recent[1..];
      assert slots[..] == was[slot := Slot(-1, None, was[slot].used)];
    }

    /** Decompressed bytes of a block: always what decompressing it gives, whatever the cache holds. */
    method BlockData(b: nat) returns (r: Option<seq<byte>>)
      requires Valid() && b < |blocks|
      modifies this, slots
      ensures Valid() && r == blocks[b].content && budget == old(budget)
      ensures recent == if r.None? then old(recent) else Used(blocks, old(recent), b, budget)
    {
      hide Placed, Listed, Decodes, Uses, Size, Trimmed;
      var hit := Lookup(b);
      if hit >= 0 {
        r := Touch(hit, b);
        return;
      }
      r := blocks[b].content;
      if r.None? {
        NotResident(slots[..], place, blocks, recent, tick, b);
        return;
      }
      var slot := Choose();
      Insert(slot, b);
      Trim(budget);
    }

    method Lookup(b: nat) returns (hit: int)
      requires Valid() && b < |blocks|
      ensures hit < 0 ==> b !in recent
      ensures hit >= 0 ==> b in recent && b in place && hit == place[b]
    {
      hide Listed, Decodes, Uses, Size;
      for i := 0 to SLOTS
        invariant forall k | 0 <= k < i :: !(slots[k].data.Some? && slots[k].block == b)
      {
        if slots[i].data.Some? && slots[i].block == b {
          PlaceIsListed(slots[..], place, blocks, recent, tick, b);
          return i;
        }
      }
      hit := -1;
      PlaceIsListed(slots[..], place, blocks, recent, tick, b);
    }

    method Touch(hit: int, b: nat) returns (r: Option<seq<byte>>)
      requires Valid() && b < |blocks| && b in recent && b in place && hit == place[b]
      modifies `tick, `recent, slots
      ensures Valid() && r == blocks[b].content && r.Some? && recent == Without(old(recent), b) + [b]
    {
      hide Placed, Listed, Decodes, Uses, Size;
      ghost var was := slots[..];
      TouchKeeps(was, place, blocks, recent, tick, b);
      tick := tick + 1;
      slots[hit] := slots[hit].(used := tick);
      recent := Without(recent, b) + [b];
      assert slots[..] == was[hit := was[hit].(used := tick)];
      r := slots[hit].data;
    }

    /** The first slot that is free, or the one whose block was used longest ago. */
    method Choose() returns (slot: int)
      requires Valid()
      ensures 0 <= slot < SLOTS
      ensures slots[slot].data.None? <==> |recent| < SLOTS
      ensures slots[slot].data.Some? ==> recent != [] && slots[slot].block == recent[0]
    {
      hide Placed, Listed, Decodes, Uses, Size;
      slot := -1;
      var i := 0;
      while i < SLOTS
        invariant 0 <= i <= SLOTS && -1 <= slot < i && (i > 0 ==> slot >= 0)
        invariant forall k | 0 <= k < i :: slots[k].data.Some? && slots[slot].used <= slots[k].used
      {
        if slots[i].data.None? {
          slot := i;
          NotFull(slots[..], place, blocks, recent, tick, i);
          return;
        }
        if slot < 0 || slots[i].used < slots[slot].used {
          slot := i;
        }
        i := i + 1;
      }
      FullFirst(slots[..], place, blocks, recent, tick, slot);
    }

    method Insert(slot: int, b: nat)
      requires Valid() && b < |blocks| && blocks[b].content.Some? && b !in recent && 0 <= slot < SLOTS
      requires slots[slot].data.None? <==> |recent| < SLOTS
      requires slots[slot].data.Some? ==> recent != [] && slots[slot].block == recent[0]
      modifies `cached, `tick, `place, `recent, slots
      ensures Valid() && recent == Room(old(recent)) + [b]
    {
      hide Placed, Listed, Decodes, Uses;
      ghost var was := slots[..];
      InsertKeeps(was, place, blocks, recent, tick, slot, b);
      if slots[slot].data.Some? {
        cached := cached - blocks[slots[slot].block].raw;
      }
      tick := tick + 1;
      place := (if slots[slot].data.Some? then place - {recent[0]} else place)[b := slot];
      slots[slot] := Slot(b, blocks[b].content, tick);
      cached := cached + blocks[b].raw;
      recent := Room(recent) + [b];
      assert slots[..] == was[slot := Slot(b, blocks[b].content, tick)];
    }

    /** release(): the steady budget from here on. */
    method Release()
      requires Valid()
      modifies this, slots
      ensures Valid() && budget == 4194304 && recent == Trimmed(blocks, old(recent), budget)
    {
      hide Placed, Listed, Decodes, Uses;
      budget := BUDGET;
      Trim(budget);
    }
  }

  lemma PlaceIsListed(slots: seq<Slot>, place: map<nat, int>, blocks: seq<Block>, recent: seq<nat>, tick: nat, b: nat)
    requires Placed(slots, place, blocks) && Listed(recent, Uses(slots, place), tick)
    ensures b in recent <==> b in place
  {
  }

  lemma NotResident(slots: seq<Slot>, place: map<nat, int>, blocks: seq<Block>, recent: seq<nat>, tick: nat, b: nat)
    requires Placed(slots, place, blocks) && Listed(recent, Uses(slots, place), tick) && b < |blocks|
    requires blocks[b].content.None?
    ensures b !in recent
  {
    PlaceIsListed(slots, place, blocks, recent, tick, b);
  }

  // ---- finding the oldest ----------------------------------------------------------------------------------

  lemma OldestIsFirst(slots: seq<Slot>, place: map<nat, int>, blocks: seq<Block>, recent: seq<nat>, tick: nat,
      oldest: int)
    requires Placed(slots, place, blocks) && Listed(recent, Uses(slots, place), tick) && -1 <= oldest < |slots|
    requires oldest >= 0 ==> slots[oldest].data.Some? && slots[oldest].used != tick
    requires forall k | 0 <= k < |slots| && slots[k].data.Some? && slots[k].used != tick ::
      oldest >= 0 && slots[oldest].used <= slots[k].used
    ensures oldest < 0 ==> |recent| <= 1
    ensures oldest >= 0 ==> |recent| > 1 && recent[0] in place && oldest == place[recent[0]]
  {
    hide Ordered, Distinct;
    var uses := Uses(slots, place);
    if recent != [] {
      Ends(recent, uses);
      var first, last := recent[0], recent[|recent| - 1];
      assert first in recent && last in recent;
      if |recent| > 1 {
        FirstIsNotLast(recent, uses);
        assert slots[place[first]].used != tick;
      }
    }
    if oldest >= 0 {
      var b := slots[oldest].block;
      assert b in recent;
      if |recent| == 1 { OnlyOne(recent, b); }
    }
  }

  lemma OnlyOne(s: seq<nat>, b: nat)
    requires |s| == 1 && b in s
    ensures b == s[0]
  {
  }

  lemma FirstIsNotLast(s: seq<nat>, uses: map<nat, nat>)
    requires Ordered(s, uses) && |s| > 1
    ensures s[0] in uses && s[|s| - 1] in uses && uses[s[0]] < uses[s[|s| - 1]]
  {
    assert s[|s| - 1] == s[1..][|s| - 2];
  }

  // ---- counting slots --------------------------------------------------------------------------------------

  function Places(recent: seq<nat>, place: map<nat, int>): (r: seq<int>)
    requires forall b | b in recent :: b in place
    ensures |r| == |recent|
  {
    if recent == [] then [] else [place[recent[0]]] + Places(recent[1..], place)
  }

  lemma {:induction false} PlacesAre(recent: seq<nat>, place: map<nat, int>, k: int)
    requires forall b | b in recent :: b in place
    ensures k in Places(recent, place) <==> exists b | b in recent :: place[b] == k
  {
    if recent != [] {
      PlacesAre(recent[1..], place, k);
      assert recent == [recent[0]] + recent[1..];
    }
  }

  predicate Unrepeated(s: seq<int>) {
    s != [] ==> s[0] !in s[1..] && Unrepeated(s[1..])
  }

  lemma {:induction false} PlacesUnrepeated(slots: seq<Slot>, recent: seq<nat>, place: map<nat, int>,
      blocks: seq<Block>)
    requires Placed(slots, place, blocks) && Distinct(recent) && forall b | b in recent :: b in place
    ensures Unrepeated(Places(recent, place))
  {
    if recent != [] {
      PlacesUnrepeated(slots, recent[1..], place, blocks);
      PlacesAre(recent[1..], place, place[recent[0]]);
    }
  }

  function ToSet(s: seq<int>): (r: set<int>)
    ensures forall x :: x in r <==> x in s
  {
    if s == [] then {} else assert s == [s[0]] + s[1..]; {s[0]} + ToSet(s[1..])
  }

  lemma {:induction false} UnrepeatedSize(s: seq<int>)
    requires Unrepeated(s)
    ensures |ToSet(s)| == |s|
  {
    if s != [] { UnrepeatedSize(s[1..]); }
  }

  function Below(n: nat): (r: set<int>)
    ensures |r| == n && forall x :: x in r <==> 0 <= x < n
  {
    if n == 0 then {} else Below(n - 1) + {n - 1}
  }

  lemma SubsetSize(a: set<int>, b: set<int>)
    requires a <= b
    ensures |a| <= |b| && (|a| == |b| ==> a == b)
  {
    assert b == a + (b - a);
    assert |b| == |a| + |b - a|;
    if |a| == |b| { assert b - a == {}; }
  }

  lemma PlaceTaken(slots: seq<Slot>, place: map<nat, int>, blocks: seq<Block>, recent: seq<nat>, tick: nat, k: int)
    requires Placed(slots, place, blocks) && Listed(recent, Uses(slots, place), tick)
    requires forall b | b in recent :: b in place
    ensures k in Places(recent, place) <==> 0 <= k < |slots| && slots[k].data.Some?
  {
    hide Ordered;
    PlacesAre(recent, place, k);
    if 0 <= k < |slots| && slots[k].data.Some? { assert slots[k].block in recent; }
  }

  /** There are as many resident blocks as slots exactly when every slot is occupied. */
  lemma FullIff(slots: seq<Slot>, place: map<nat, int>, blocks: seq<Block>, recent: seq<nat>, tick: nat)
    requires Placed(slots, place, blocks) && Listed(recent, Uses(slots, place), tick)
    ensures |recent| <= |slots|
    ensures |recent| == |slots| <==> forall k | 0 <= k < |slots| :: slots[k].data.Some?
  {
    hide Ordered;
    var ps := Places(recent, place);
    PlacesUnrepeated(slots, recent, place, blocks);
    UnrepeatedSize(ps);
    forall k ensures k in ps <==> 0 <= k < |slots| && slots[k].data.Some? {
      PlaceTaken(slots, place, blocks, recent, tick, k);
    }
    CountTo(ps, |slots|);
  }

  lemma CountTo(ps: seq<int>, n: nat)
    requires |ToSet(ps)| == |ps| && forall k | k in ps :: 0 <= k < n
    ensures |ps| <= n && (|ps| == n <==> forall k | 0 <= k < n :: k in ps)
  {
    SubsetSize(ToSet(ps), Below(n));
    assert (forall k | 0 <= k < n :: k in ps) <==> ToSet(ps) == Below(n);
  }

  lemma NotFull(slots: seq<Slot>, place: map<nat, int>, blocks: seq<Block>, recent: seq<nat>, tick: nat, empty: nat)
    requires Placed(slots, place, blocks) && Listed(recent, Uses(slots, place), tick)
    requires empty < |slots| && slots[empty].data.None?
    ensures |recent| < |slots|
  {
    FullIff(slots, place, blocks, recent, tick);
  }

  lemma FullFirst(slots: seq<Slot>, place: map<nat, int>, blocks: seq<Block>, recent: seq<nat>, tick: nat, slot: int)
    requires Placed(slots, place, blocks) && Listed(recent, Uses(slots, place), tick) && 0 <= slot < |slots|
    requires forall k | 0 <= k < |slots| :: slots[k].data.Some? && slots[slot].used <= slots[k].used
    ensures |recent| >= |slots| && recent != [] && slots[slot].block == recent[0]
  {
    FullIff(slots, place, blocks, recent, tick);
    Ends(recent, Uses(slots, place));
    assert slots[slot].block in recent && recent[0] in recent;
  }

  // ---- steps -----------------------------------------------------------------------------------------------

  lemma EvictKeeps(slots: seq<Slot>, place: map<nat, int>, blocks: seq<Block>, recent: seq<nat>, tick: nat)
    requires Placed(slots, place, blocks) && Listed(recent, Uses(slots, place), tick) && |recent| > 1
    requires InRange(recent, blocks)
    ensures recent[0] in place && 0 <= place[recent[0]] < |slots| && slots[place[recent[0]]].block == recent[0]
    ensures var k := place[recent[0]]; var t := slots[k := Slot(-1, None, slots[k].used)];
      && Placed(t, place - {recent[0]}, blocks)
      && Listed(recent[1..], Uses(t, place - {recent[0]}), tick)
  {
    var uses, b := Uses(slots, place), recent[0];
    assert b in recent;
    var k := place[b];
    var t, rest := slots[k := Slot(-1, None, slots[k].used)], place - {b};
    assert Placed(t, rest, blocks);
    TailFacts(recent, uses);
    OrderedSame(recent[1..], uses, Uses(t, rest));
    assert recent[1..][|recent| - 2] == recent[|recent| - 1];
  }

  lemma TouchKeeps(slots: seq<Slot>, place: map<nat, int>, blocks: seq<Block>, recent: seq<nat>, tick: nat, b: nat)
    requires Placed(slots, place, blocks) && Listed(recent, Uses(slots, place), tick)
    requires b in recent && b in place && InRange(recent, blocks)
    ensures 0 <= place[b] < |slots| && InSlot(slots[place[b]], b, blocks)
    ensures var k := place[b]; var t := slots[k := slots[k].(used := tick + 1)];
      && Placed(t, place, blocks) && Listed(Without(recent, b) + [b], Uses(t, place), tick + 1)
    ensures InRange(Without(recent, b) + [b], blocks) && Size(blocks, Without(recent, b) + [b]) == Size(blocks, recent)
  {
    hide Ordered, Distinct, Without, Size;
    var uses, k := Uses(slots, place), place[b];
    var t := slots[k := slots[k].(used := tick + 1)];
    var after := Uses(t, place);
    Ends(recent, uses);
    WithoutFacts(recent, b, blocks);
    OrderedWithout(recent, b, uses);
    forall x | x in place && x != b ensures after[x] == uses[x] {
      assert place[x] != k;
    }
    OrderedSame(Without(recent, b), uses, after);
    AppendFacts(Without(recent, b), b, after, blocks);
  }

  lemma InsertKeeps(slots: seq<Slot>, place: map<nat, int>, blocks: seq<Block>, recent: seq<nat>, tick: nat, slot: int,
      b: nat)
    requires Placed(slots, place, blocks) && Listed(recent, Uses(slots, place), tick) && InRange(recent, blocks)
    requires |slots| == SLOTS && 0 <= slot < SLOTS && b < |blocks| && blocks[b].content.Some? && b !in recent
    requires slots[slot].data.None? <==> |recent| < SLOTS
    requires slots[slot].data.Some? ==> recent != [] && slots[slot].block == recent[0]
    ensures var t := slots[slot := Slot(b, blocks[b].content, tick + 1)];
      var after := (if slots[slot].data.Some? then place - {recent[0]} else place)[b := slot];
      && Placed(t, after, blocks) && Listed(Room(recent) + [b], Uses(t, after), tick + 1)
    ensures InRange(Room(recent) + [b], blocks)
    ensures Size(blocks, Room(recent) + [b])
      == Size(blocks, recent) - (if slots[slot].data.Some? then blocks[slots[slot].block].raw else 0) + blocks[b].raw
  {
    hide Ordered, Distinct, Size, Placed, Uses, Room;
    var t := slots[slot := Slot(b, blocks[b].content, tick + 1)];
    var full := slots[slot].data.Some?;
    var kept := if full then place - {recent[0]} else place;
    PlacesInRange(slots, place, blocks);
    var uses, after := Uses(slots, place), kept[b := slot];
    InsertPlaced(slots, place, blocks, slot, b, full, kept, tick);
    PlacesInRange(t, after, blocks);
    RoomFacts(recent, uses, blocks, tick);
    InsertUses(slots, place, blocks, slot, b, full, kept, tick);
    OrderedSame(Room(recent), uses, Uses(t, after));
    AppendFacts(Room(recent), b, Uses(t, after), blocks);
  }

  lemma PlacesInRange(slots: seq<Slot>, place: map<nat, int>, blocks: seq<Block>)
    requires Placed(slots, place, blocks)
    ensures forall b | b in place :: 0 <= place[b] < |slots|
  {
  }

  lemma RoomFacts(recent: seq<nat>, uses: map<nat, nat>, blocks: seq<Block>, tick: nat)
    requires Listed(recent, uses, tick) && InRange(recent, blocks)
    ensures Distinct(Room(recent)) && Ordered(Room(recent), uses) && InRange(Room(recent), blocks)
    ensures forall x :: x in Room(recent) <==> x in recent && !(|recent| >= SLOTS && x == recent[0])
    ensures forall x | x in Room(recent) :: x in uses && uses[x] <= tick
    ensures Size(blocks, Room(recent)) ==
      Size(blocks, recent) - (if |recent| >= SLOTS then blocks[recent[0]].raw else 0)
  {
    if recent != [] {
      Ends(recent, uses);
      TailOf(recent, uses);
      TailFacts(recent, uses);
    }
  }

  lemma InsertUses(slots: seq<Slot>, place: map<nat, int>, blocks: seq<Block>, slot: int, b: nat, full: bool,
      kept: map<nat, int>, tick: nat)
    requires Placed(slots, place, blocks) && 0 <= slot < |slots| && b < |blocks| && b !in place
    requires forall x | x in kept :: x in place && kept[x] == place[x] && kept[x] != slot
    requires Placed(slots[slot := Slot(b, blocks[b].content, tick + 1)], kept[b := slot], blocks)
    ensures var u := Uses(slots[slot := Slot(b, blocks[b].content, tick + 1)], kept[b := slot]);
      u.Keys == kept.Keys + {b} && u[b] == tick + 1 && forall x | x in kept :: u[x] == Uses(slots, place)[x]
  {
  }

  lemma TailOf(s: seq<nat>, uses: map<nat, nat>)
    requires Distinct(s) && Ordered(s, uses) && s != []
    ensures Distinct(s[1..]) && Ordered(s[1..], uses)
  {
  }

  lemma InsertPlaced(slots: seq<Slot>, place: map<nat, int>, blocks: seq<Block>, slot: int, b: nat, full: bool,
      kept: map<nat, int>, tick: nat)
    requires Placed(slots, place, blocks) && 0 <= slot < |slots| && b < |blocks| && blocks[b].content.Some?
    requires b !in place
    requires full == slots[slot].data.Some? && kept == if full then place - {slots[slot].block} else place
    ensures Placed(slots[slot := Slot(b, blocks[b].content, tick + 1)], kept[b := slot], blocks)
    ensures forall x | x in kept :: x in place && kept[x] == place[x] && kept[x] != slot
  {
  }

  // ---- what the policy guarantees --------------------------------------------------------------------------

  /** After trimming, the budget is met or one block is left; it is the newest, and nothing was dropped needlessly. */
  lemma {:induction false} TrimmedIsTight(blocks: seq<Block>, recent: seq<nat>, budget: nat) returns (k: nat)
    requires InRange(recent, blocks)
    ensures k <= |recent| && Trimmed(blocks, recent, budget) == recent[k..]
    ensures Size(blocks, recent[k..]) <= budget || |recent[k..]| == 1
    ensures recent != [] ==> k < |recent|
    ensures forall j | 0 <= j < k :: Size(blocks, recent[j..]) > budget
  {
    if Size(blocks, recent) > budget && |recent| > 1 {
      var k' := TrimmedIsTight(blocks, recent[1..], budget);
      k := k' + 1;
      assert recent[k..] == recent[1..][k'..];
      forall j | 0 <= j < k ensures Size(blocks, recent[j..]) > budget {
        if j > 0 { assert recent[j..] == recent[1..][j - 1..]; } else { assert recent[0..] == recent; }
      }
    } else {
      k := 0;
      assert recent[0..] == recent;
    }
  }

  ghost predicate Policy(blocks: seq<Block>, recent: seq<nat>, budget: nat)
    requires InRange(recent, blocks)
  {
    Distinct(recent) && |recent| <= SLOTS && (Size(blocks, recent) <= budget || |recent| == 1)
  }

  lemma {:induction false} TailsDistinct(s: seq<nat>, k: nat)
    requires Distinct(s) && k <= |s|
    ensures Distinct(s[k..])
  {
    if k == 0 {
      assert s[0..] == s;
    } else {
      TailsDistinct(s[1..], k - 1);
      assert s[1..][k - 1..] == s[k..];
    }
  }

  lemma {:induction false} AppendDistinct(s: seq<nat>, b: nat, blocks: seq<Block>)
    requires Distinct(s) && b !in s && InRange(s, blocks) && b < |blocks|
    ensures Distinct(s + [b]) && Size(blocks, s + [b]) == Size(blocks, s) + blocks[b].raw
  {
    if s == [] {
      assert s + [b] == [b] && [b][1..] == [];
    } else {
      assert (s + [b])[1..] == s[1..] + [b];
      AppendDistinct(s[1..], b, blocks);
    }
  }

  /** Every read keeps the policy, and the block that was read is the newest. */
  lemma UsedKeepsPolicy(blocks: seq<Block>, recent: seq<nat>, b: nat, budget: nat)
    requires b < |blocks| && InRange(recent, blocks) && Policy(blocks, recent, budget)
    ensures var r := Used(blocks, recent, b, budget); Policy(blocks, r, budget) && r != [] && r[|r| - 1] == b
  {
    hide Distinct, Size, Without, Trimmed;
    if b in recent {
      WithoutFacts(recent, b, blocks);
      AppendDistinct(Without(recent, b), b, blocks);
    } else {
      if |recent| >= SLOTS { TailsDistinct(recent, 1); }
      var all := Room(recent) + [b];
      AppendDistinct(Room(recent), b, blocks);
      var k := TrimmedIsTight(blocks, all, budget);
      TailsDistinct(all, k);
    }
  }

  /** And so does a smaller budget. */
  lemma TrimKeepsPolicy(blocks: seq<Block>, recent: seq<nat>, budget: nat, limit: nat)
    requires InRange(recent, blocks) && Policy(blocks, recent, budget)
    ensures Policy(blocks, Trimmed(blocks, recent, limit), limit)
  {
    hide Distinct, Size, Trimmed;
    var k := TrimmedIsTight(blocks, recent, limit);
    TailsDistinct(recent, k);
  }

  // ---- runs ------------------------------------------------------------------------------------------------

  datatype Op = Read(b: nat) | Shrink

  /** Any sequence of reads and releases answers every read with the decompressed block, and ends within the policy. */
  method Run(cache: Cache, ops: seq<Op>) returns (answers: seq<Option<seq<byte>>>)
    requires cache.Valid() && Policy(cache.blocks, cache.recent, cache.budget)
    requires forall i | 0 <= i < |ops| :: ops[i].Read? ==> ops[i].b < |cache.blocks|
    modifies cache, cache.slots
    ensures |answers| == |ops|
    ensures forall i | 0 <= i < |ops| :: answers[i] == if ops[i].Read? then cache.blocks[ops[i].b].content else None
    ensures cache.Valid() && Policy(cache.blocks, cache.recent, cache.budget)
  {
    hide Policy, Used, Trimmed, Placed, Listed, Uses, Decodes, Size;
    answers := [];
    for i := 0 to |ops|
      invariant cache.Valid() && Policy(cache.blocks, cache.recent, cache.budget)
      invariant |answers| == i
      invariant forall j | 0 <= j < i :: answers[j] == if ops[j].Read? then cache.blocks[ops[j].b].content else None
    {
      match ops[i] {
        case Read(b) =>
          UsedKeepsPolicy(cache.blocks, cache.recent, b, cache.budget);
          var data := cache.BlockData(b);
          answers := answers + [data];
        case Shrink =>
          TrimKeepsPolicy(cache.blocks, cache.recent, cache.budget, BUDGET);
          cache.Release();
          answers := answers + [None];
      }
    }
  }

  // ---- what goes and what stays ----------------------------------------------------------------------------

  /** Trimming drops blocks from the least recently used end only. */
  lemma TrimmedIsTail(blocks: seq<Block>, recent: seq<nat>, budget: nat) returns (k: nat)
    requires InRange(recent, blocks)
    ensures k <= |recent| && Trimmed(blocks, recent, budget) == recent[k..]
    ensures recent != [] ==> k < |recent|
    ensures k > 0 ==> Size(blocks, recent[k - 1..]) > budget
    decreases |recent|
  {
    if Size(blocks, recent) > budget && |recent| > 1 {
      k := TrimmedIsTail(blocks, recent[1..], budget);
      assert recent[1..][k..] == recent[k + 1..];
      if k > 0 {
        assert recent[1..][k - 1..] == recent[k..];
      } else {
        assert recent[0..] == recent;
      }
      k := k + 1;
    } else {
      k := 0;
      assert recent[0..] == recent;
    }
  }

  /** A block that is there moves to the recent end; the others keep their order and none goes. */
  lemma HitMoves(blocks: seq<Block>, recent: seq<nat>, i: nat, budget: nat)
    requires InRange(recent, blocks) && i < |recent| && recent[i] !in recent[..i]
    ensures Used(blocks, recent, recent[i], budget) == recent[..i] + recent[i + 1..] + [recent[i]]
  {
    WithoutAt(recent, i);
  }

  lemma {:induction false} WithoutAt(s: seq<nat>, i: nat)
    requires i < |s| && s[i] !in s[..i]
    ensures Without(s, s[i]) == s[..i] + s[i + 1..]
  {
    if i > 0 {
      assert s[0] in s[..i];
      assert s[1..][..i - 1] == s[..i][1..];
      WithoutAt(s[1..], i - 1);
      assert s[..i] == [s[0]] + s[1..][..i - 1] && s[i + 1..] == s[1..][i..];
    }
  }

  /** A block that is not there comes in at the new end; of the others the oldest go, and the rest keep their order. */
  lemma MissEvictsOldest(blocks: seq<Block>, recent: seq<nat>, b: nat, budget: nat) returns (k: nat)
    requires InRange(recent, blocks) && b < |blocks| && b !in recent
    ensures k <= |recent| && Used(blocks, recent, b, budget) == recent[k..] + [b]
    ensures |recent| < 64 && Size(blocks, recent + [b]) <= budget ==> k == 0
  {
    var all := Room(recent) + [b];
    var d := if |recent| >= SLOTS then 1 else 0;
    k := TrimmedIsTail(blocks, all, budget);
    assert Room(recent) == recent[d..];
    assert all[k..] == recent[d + k..] + [b];
    if k > 0 { SizeOfTail(blocks, all, k - 1); }
    if k > 0 && d == 0 { assert all == recent + [b]; }
    k := d + k;
  }

  lemma {:induction false} SizeOfTail(blocks: seq<Block>, s: seq<nat>, k: nat)
    requires InRange(s, blocks) && k <= |s|
    ensures Size(blocks, s[k..]) <= Size(blocks, s)
  {
    if k == 0 {
      assert s[0..] == s;
    } else {
      SizeOfTail(blocks, s[1..], k - 1);
      assert s[1..][k - 1..] == s[k..];
    }
  }

  /** The policy in full: every block once, at most 64 of them, within the budget or just the newest. */
  lemma PolicyMeans(blocks: seq<Block>, recent: seq<nat>, budget: nat)
    requires InRange(recent, blocks)
    ensures Policy(blocks, recent, budget) <==>
      && (forall i, j | 0 <= i < j < |recent| :: recent[i] != recent[j])
      && |recent| <= 64 && (Size(blocks, recent) <= budget || |recent| == 1)
  {
    DistinctMeans(recent);
  }

  lemma {:induction false} DistinctMeans(s: seq<nat>)
    ensures Distinct(s) <==> forall i, j | 0 <= i < j < |s| :: s[i] != s[j]
  {
    if s != [] {
      DistinctMeans(s[1..]);
      if Distinct(s) {
        forall i, j | 0 <= i < j < |s| ensures s[i] != s[j] {
          if i == 0 { assert s[j] == s[1..][j - 1]; } else { assert s[i] == s[1..][i - 1] && s[j] == s[1..][j - 1]; }
        }
      }
    }
  }
}
