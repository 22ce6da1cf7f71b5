/** What encoding and decoding an object graph come to: the reachable part of it, up to renaming. */
module KvValueTheorems {
  import opened Wrappers
  import opened KvValues

  // ---- reachability ----------------------------------------------------------------------------------------

  ghost predicate IsPath(h: Heap, p: seq<nat>) {
    p != [] && p[0] in h && (|p| > 1 ==> Ref(p[1]) in h[p[0]].kids && IsPath(h, p[1..]))
  }

  ghost predicate PathTo(h: Heap, v: Value, p: seq<nat>, r: nat) {
    IsPath(h, p) && v == Ref(p[0]) && p[|p| - 1] == r
  }

  ghost predicate Reaches(h: Heap, v: Value, r: nat) {
    exists p :: PathTo(h, v, p, r)
  }

  lemma ReachesSelf(h: Heap, r: nat)
    requires r in h
    ensures Reaches(h, Ref(r), r)
  {
    assert PathTo(h, Ref(r), [r], r);
  }

  lemma ReachesThrough(h: Heap, q: nat, v: Value, r: nat)
    requires q in h && v in h[q].kids && Reaches(h, v, r)
    ensures Reaches(h, Ref(q), r)
  {
    var p :| PathTo(h, v, p, r);
    assert ([q] + p)[1..] == p;
    assert PathTo(h, Ref(q), [q] + p, r);
  }

  lemma {:induction false} PathEndsInside(h: Heap, f: map<nat, nat>, p: seq<nat>)
    requires IsPath(h, p) && p[0] in f
    requires forall r | r in f :: r in h && AllKnown(f, h[r].kids)
    ensures p[|p| - 1] in f && p[|p| - 1] in h
  {
    if |p| > 1 {
      var i :| 0 <= i < |h[p[0]].kids| && h[p[0]].kids[i] == Ref(p[1]);
      assert Known(f, h[p[0]].kids[i]);
      PathEndsInside(h, f, p[1..]);
    }
  }

  /** The walk numbers only what it can reach ... */
  lemma {:induction false} WalkReaches(h: Heap, v: Value, seen: map<nat, nat>, r: nat)
    requires Walkable(h) && InHeap(h, v) && seen.Keys <= h.Keys
    requires Walk(h, v, seen).Walked? && r in Walk(h, v, seen).seen && r !in seen
    ensures Reaches(h, v, r)
    decreases h.Keys - seen.Keys, 0
  {
    hide Reaches;
    var q := v.id;
    var next := seen[q := |seen|];
    if r == q {
      ReachesSelf(h, q);
    } else {
      assert q in h.Keys - seen.Keys && q !in h.Keys - next.Keys;
      var i := WalkAllReaches(h, h[q].kids, next, r);
      ReachesThrough(h, q, h[q].kids[i], r);
    }
  }

  lemma {:induction false} WalkAllReaches(h: Heap, vs: seq<Value>, seen: map<nat, nat>, r: nat) returns (i: nat)
    requires Walkable(h) && AllInHeap(h, vs) && seen.Keys <= h.Keys
    requires WalkAll(h, vs, seen).Walked? && r in WalkAll(h, vs, seen).seen && r !in seen
    ensures i < |vs| && Reaches(h, vs[i], r)
    decreases h.Keys - seen.Keys, |vs|
  {
    hide Reaches;
    assert InHeap(h, vs[0]) && AllInHeap(h, vs[1..]);
    var first := Walk(h, vs[0], seen);
    if r in first.seen {
      WalkReaches(h, vs[0], seen, r);
      i := 0;
    } else {
      i := WalkAllReaches(h, vs[1..], first.seen, r);
      i := i + 1;
    }
  }

  // ---- what the encoder sees of a heap ---------------------------------------------------------------------

  /** Every reachable object is seen by the walk, or is the buffer under a view that is. */
  ghost predicate Under(h: Heap, v: Value, q: nat, r: nat)
    requires ValidHeap(h)
  {
    q in h && Reaches(Flat(h), v, q) && h[q].shape.View? && h[q].kids == [Ref(r)]
  }

  ghost predicate SeenOrUnder(h: Heap, v: Value, r: nat)
    requires ValidHeap(h)
  {
    Reaches(Flat(h), v, r) || exists q :: Under(h, v, q, r)
  }

  lemma {:induction false} FlatPath(h: Heap, p: seq<nat>)
    requires ValidHeap(h) && IsPath(Flat(h), p)
    ensures IsPath(h, p)
  {
    if |p| > 1 {
      FlatPath(h, p[1..]);
      assert ValidObject(h, h[p[0]]);
    }
  }

  lemma FlatReaches(h: Heap, v: Value, r: nat)
    requires ValidHeap(h) && Reaches(Flat(h), v, r)
    ensures Reaches(h, v, r)
  {
    var p :| PathTo(Flat(h), v, p, r);
    FlatPath(h, p);
    assert PathTo(h, v, p, r);
  }

  lemma {:induction false} PathIsSeen(h: Heap, p: seq<nat>)
    requires ValidHeap(h) && IsPath(h, p)
    ensures SeenOrUnder(h, Ref(p[0]), p[|p| - 1])
  {
    hide Reaches;
    var q := p[0];
    assert ValidObject(h, h[q]);
    ReachesSelf(Flat(h), q);
    if |p| > 1 {
      var r := p[1];
      assert ValidObject(h, h[r]);
      if h[q].shape.View? {
        assert h[r].kids == [] && |p| == 2;
        assert Under(h, Ref(q), q, r);
      } else {
        PathIsSeen(h, p[1..]);
        SeenThrough(h, q, r, p[|p| - 1]);
      }
    }
  }

  lemma SeenThrough(h: Heap, q: nat, k: nat, r: nat)
    requires ValidHeap(h) && q in h && Ref(k) in Flat(h)[q].kids && SeenOrUnder(h, Ref(k), r)
    ensures SeenOrUnder(h, Ref(q), r)
  {
    hide Reaches, Flat;
    if Reaches(Flat(h), Ref(k), r) {
      ReachesThrough(Flat(h), q, Ref(k), r);
    } else {
      var w :| Under(h, Ref(k), w, r);
      ReachesThrough(Flat(h), q, Ref(k), w);
      assert Under(h, Ref(q), w, r);
    }
  }

  lemma ReachedIsSeen(h: Heap, v: Value, r: nat)
    requires ValidHeap(h) && Reaches(h, v, r)
    ensures SeenOrUnder(h, v, r)
  {
    var p :| PathTo(h, v, p, r);
    PathIsSeen(h, p);
  }

  lemma UnderReaches(h: Heap, v: Value, q: nat, r: nat)
    requires ValidHeap(h) && Under(h, v, q, r)
    ensures Reaches(h, v, r) && r in h && h[r].shape.Buffer? && h[r].kids == []
    ensures !h[r].shape.View? && h[q].shape.length <= |h[r].shape.bytes|
  {
    assert ValidObject(h, h[q]) && ValidObject(h, h[r]);
    FlatReaches(h, v, q);
    var p :| PathTo(h, v, p, q);
    PathExtends(h, p, r);
    assert PathTo(h, v, p + [r], r);
  }

  /** Whatever is reached is the value itself or sits in something reached. */
  lemma {:induction false} ReachedFrom(h: Heap, p: seq<nat>) returns (q: nat)
    requires IsPath(h, p) && |p| > 1
    ensures q == p[|p| - 2] && IsPath(h, p[..|p| - 1]) && q in h && Ref(p[|p| - 1]) in h[q].kids
    decreases |p|
  {
    q := p[|p| - 2];
    if |p| == 2 {
      assert p[..1] == [p[0]];
    } else {
      q := ReachedFrom(h, p[1..]);
      assert p[..|p| - 1][1..] == p[1..][..|p| - 2];
    }
  }

  lemma {:induction false} PathExtends(h: Heap, p: seq<nat>, r: nat)
    requires IsPath(h, p) && p[|p| - 1] in h && Ref(r) in h[p[|p| - 1]].kids && r in h
    ensures IsPath(h, p + [r])
  {
    if |p| == 1 {
      assert (p + [r])[1..] == [r];
    } else {
      assert (p + [r])[1..] == p[1..] + [r];
      PathExtends(h, p[1..], r);
    }
  }

  // ---- the round trip --------------------------------------------------------------------------------------

  /** `nodes` and `x` are the part of `h` that `v` reaches, renamed by `f`, with the shapes that coding leaves. */
  ghost predicate Renamed(env: Globals, h: Heap, v: Value, f: map<nat, nat>, x: Value, nodes: seq<Node>) {
    && Numbered(f) && |nodes| == |f|
    && (forall r :: r in f <==> Reaches(h, v, r))
    && x == Rename(f, v)
    && forall r | r in f :: r in h && nodes[f[r]] == Image(env, f, h[r])
  }

  lemma WalkRoundTrip(env: Globals, h: Heap, v: Value)
    requires Walkable(h) && InHeap(h, v) && Walk(h, v, map[]).Walked?
    ensures var w := Walk(h, v, map[]); var (x, nodes) := Decode(env, w.out, 0); Renamed(env, h, v, w.seen, x, nodes)
  {
    hide Decode, Walk, Reaches, Image;
    var w := Walk(h, v, map[]);
    var (x, nodes) := Decode(env, w.out, 0);
    WalkInverts(env, h, v, map[]);
    assert Inverts(env, h, v, map[], w.out, w.seen);
    forall r | r in w.seen
      ensures IsImage(env, h, 0, w.seen, nodes, r)
    {
      var none: map<nat, nat> := map[];
      assert r !in none && |none| == 0;
    }
    forall r | r in w.seen
      ensures Reaches(h, v, r)
    {
      WalkReaches(h, v, map[], r);
    }
    forall r | Reaches(h, v, r)
      ensures r in w.seen
    {
      ReachedIsKnown(h, v, w.seen, r);
    }
  }

  /**
   * Decoding an encoded value gives the graph that the encoder sees again, cycles and sharing included: one object
   * for each object, in the order of first visits, with the shape that coding leaves and the same things inside.
   */
  lemma RoundTrip(env: Globals, h: Heap, v: Value)
    requires ValidHeap(h) && InHeap(h, v) && EncodeValue(h, v).Walked?
    ensures var w := EncodeValue(h, v); var (x, nodes) := Decode(env, w.out, 0);
      Renamed(env, Flat(h), v, w.seen, x, nodes)
  {
    hide Decode, Walk, Renamed, Flat;
    WalkRoundTrip(env, Flat(h), v);
  }

  lemma ReachedIsKnown(h: Heap, v: Value, f: map<nat, nat>, r: nat)
    requires Reaches(h, v, r) && Known(f, v)
    requires forall s | s in f :: s in h && AllKnown(f, h[s].kids)
    ensures r in f && r in h
  {
    var p :| PathTo(h, v, p, r);
    PathEndsInside(h, f, p);
  }

  lemma RenamedAt(env: Globals, h: Heap, v: Value, f: map<nat, nat>, x: Value, nodes: seq<Node>, r: nat)
    requires Renamed(env, h, v, f, x, nodes) && r in f
    ensures r in h && Reaches(h, v, r) && f[r] < |nodes| && nodes[f[r]] == Image(env, f, h[r])
  {
  }

  lemma RenamedIsClosed(env: Globals, h: Heap, v: Value, f: map<nat, nat>, x: Value, nodes: seq<Node>, r: nat)
    requires Walkable(h) && Renamed(env, h, v, f, x, nodes) && r in f
    ensures AllKnown(f, h[r].kids)
  {
    forall i | 0 <= i < |h[r].kids|
      ensures Known(f, h[r].kids[i])
    {
      var k := h[r].kids[i];
      if k.Ref? {
        assert InHeap(h, k);
        var p :| PathTo(h, v, p, r);
        PathExtends(h, p, k.id);
        assert PathTo(h, v, p + [k.id], k.id);
        assert Reaches(h, v, k.id);
      }
    }
  }

  // ---- which shapes survive --------------------------------------------------------------------------------

  /** What a caller can check before the call, object by object. */
  predicate Kept(env: Globals, n: Node) {
    n.plain &&
    match n.shape
    case Date(time) => time.Some?
    case Bytes(kind, _) => kind in TYPED
    case Error(name, message, stack, errors) =>
      && errors == [] && stack != Some("")
      && (if name !in env then name == "Error"
          else env[name].name == name && (env[name].OfErrors? ==> message == ""))
    case _ => true
  }

  lemma RestoredIffKept(env: Globals, n: Node)
    ensures Remade(env, n) == n <==> Kept(env, n)
  {
    assert "Uint8Array" in TYPED;
    var s := n.shape;
    if s.Error? && s.name in env && env[s.name].OfErrors? {
      assert |Characters(s.message)| == |s.message|;
    }
  }

  /** What goes missing from the stored contents, kind by kind, and what does not. */
  lemma ShapeLosses(stack: string, v: Value)
    requires stack != ""
    ensures Restored(ENGINE, Date(None)) == Date(Some(0))
    ensures Restored(ENGINE, Bytes("DataView", [1])) == Bytes("Uint8Array", [1])
    ensures Restored(ENGINE, Error("AbortError", "m", Some(stack), [])) == Error("Error", "m", Some(stack), [])
    ensures Restored(ENGINE, Error("TypeError", "m", Some(""), [])) == Error("TypeError", "m", None, [])
    ensures Restored(ENGINE, Error("AggregateError", "no", Some(stack), [v]))
      == Error("AggregateError", "", Some(stack), [Str("n"), Str("o")])
    ensures Kept(ENGINE, Node(Error("InternalError", "m", Some(stack), []), [], true))
    ensures Kept(ENGINE, Node(Error("AggregateError", "", Some(stack), []), [], true))
  {
    assert "DataView" !in TYPED && "AbortError" !in ENGINE;
    assert ENGINE["AggregateError"] == OfErrors("AggregateError") && ENGINE["TypeError"] == OfMessage("TypeError");
    assert Characters("no") == [Str("n"), Str("o")];
  }

  /**
   * An instance of a class that extends Error and keeps its name, or an error with a code: name and message alone stay.
   */
  const CODED := Node(Error("Error", "m", Some("s"), []), [], false)

  /** An Error that was given the name TypeError: it becomes one. */
  const NAMED := Node(Error("TypeError", "m", Some("s"), []), [], false)

  /**
   * An array, Date or Map of a subclass or with properties of its own, and a record with a symbol key or of a class.
   */
  const EXTENDED: seq<Node> := [
    Node(ArrayOf, [Null], false), Node(Date(Some(1)), [], false), Node(MapOf, [Null, Null], false),
    Node(Record(["p"]), [Null], false)
  ]

  /** Classes and properties outside the stored contents go missing: what comes back is the plain object. */
  lemma PropertyLosses(n: Node)
    requires n in [CODED, NAMED] + EXTENDED
    ensures Remade(ENGINE, n) == n.(plain := true) != n && !Kept(ENGINE, n)
  {
    assert "Error" !in ENGINE && ENGINE["TypeError"] == OfMessage("TypeError");
  }

  // ---- the decoded objects as a heap -----------------------------------------------------------------------

  function Doubled(vs: seq<Value>): (r: seq<Value>)
    ensures |r| == |vs|
    ensures forall i | 0 <= i < |vs| :: r[i] == Moved(vs[i])
  {
    seq(|vs|, i requires 0 <= i < |vs| => Moved(vs[i]))
  }

  function Moved(v: Value): Value {
    if v.Ref? then Ref(2 * v.id) else v
  }

  /** Object number k lies at 2 k; a decoded view stands on a buffer of its own, at 2 k + 1. */
  function ObjectAt(nodes: seq<Node>, a: nat): Node
    requires a / 2 < |nodes|
  {
    var n := nodes[a / 2];
    if a % 2 == 1 then Node(Buffer(if n.shape.Bytes? then n.shape.bytes else []), [], true)
    else if n.shape.Bytes? then Node(View(n.shape.kind, 0, |n.shape.bytes|), [Ref(a + 1)], n.plain)
    else n.(kids := Doubled(n.kids))
  }

  lemma LaidAt(nodes: seq<Node>, k: nat)
    requires k < |nodes|
    ensures 2 * k in Laid(nodes) && Laid(nodes)[2 * k] == ObjectAt(nodes, 2 * k)
    ensures 2 * k + 1 in Laid(nodes) <==> nodes[k].shape.Bytes?
    ensures nodes[k].shape.Bytes? ==> Laid(nodes)[2 * k + 1] == ObjectAt(nodes, 2 * k + 1)
  {
    assert (2 * k) / 2 == k == (2 * k + 1) / 2 && (2 * k) % 2 == 0 && (2 * k + 1) % 2 == 1;
  }

  function Laid(nodes: seq<Node>): Heap {
    map a: nat | 0 <= a < 2 * |nodes| && (a % 2 == 1 ==> nodes[a / 2].shape.Bytes?) :: ObjectAt(nodes, a)
  }

  // ---- isomorphism -----------------------------------------------------------------------------------------

  /** One-to-one from what v reaches, taking v to x and each object to one with the same shape and renamed contents. */
  ghost predicate IsIso(h: Heap, v: Value, f: map<nat, nat>, h': Heap, x: Value) {
    && (forall r :: r in f <==> Reaches(h, v, r))
    && (forall r, s | r in f && s in f && f[r] == f[s] :: r == s)
    && x == Rename(f, v)
    && forall r | r in f :: Matches(h, f, h', r)
  }

  ghost predicate Matches(h: Heap, f: map<nat, nat>, h': Heap, r: nat)
    requires r in f
  {
    r in h && f[r] in h' && h'[f[r]] == h[r].(kids := RenameAll(f, h[r].kids))
  }

  lemma IsoAt(h: Heap, v: Value, f: map<nat, nat>, h': Heap, x: Value, r: nat)
    requires IsIso(h, v, f, h', x) && Reaches(h, v, r)
    ensures r in f && Matches(h, f, h', r)
  {
  }

  ghost predicate Isomorphic(h: Heap, v: Value, h': Heap, x: Value) {
    exists f :: IsIso(h, v, f, h', x)
  }

  /** No other reachable object refers to buffer b, and the value is not b itself. */
  ghost predicate OwnBuffer(h: Heap, v: Value, r: nat, b: nat) {
    v != Ref(b) && forall q | q in h && q != r && Reaches(h, v, q) :: Ref(b) !in h[q].kids
  }

  /** A view comes back the same if it is of a listed class and covers a buffer that nothing else refers to. */
  ghost predicate KeptObject(env: Globals, h: Heap, v: Value, r: nat)
    requires ValidHeap(h) && r in h
  {
    Kept(env, Flat(h)[r]) && (h[r].shape.View? ==>
      var b := h[r].kids[0].id;
      h[r].shape.offset == 0 && h[r].shape.length == |h[b].shape.bytes| && OwnBuffer(h, v, r, b))
  }

  ghost predicate AllKept(env: Globals, h: Heap, v: Value)
    requires ValidHeap(h)
  {
    forall r | r in h && Reaches(h, v, r) :: KeptObject(env, h, v, r)
  }

  // ---- kept graphs come back -------------------------------------------------------------------------------

  /** Where an object ends up: with its number, or under the view that it belongs to. */
  ghost function Home(h: Heap, v: Value, f: map<nat, nat>, r: nat): nat
    requires ValidHeap(h) && SeenOrUnder(h, v, r) && forall q :: q in f <==> Reaches(Flat(h), v, q)
  {
    if r in f then 2 * f[r] else
      var q :| Under(h, v, q, r);
      2 * f[q] + 1
  }

  ghost function Homes(h: Heap, v: Value, f: map<nat, nat>): (m: map<nat, nat>)
    requires ValidHeap(h) && forall q :: q in f <==> Reaches(Flat(h), v, q)
    ensures forall r :: r in m <==> Reaches(h, v, r)
    ensures forall r | r in m :: SeenOrUnder(h, v, r) && m[r] == Home(h, v, f, r)
  {
    ReachedInHeap(h, v);
    AllReachedSeen(h, v);
    map r | r in h && Reaches(h, v, r) :: Home(h, v, f, r)
  }

  lemma ReachedInHeap(h: Heap, v: Value)
    ensures forall r | Reaches(h, v, r) :: r in h
  {
    forall r | Reaches(h, v, r)
      ensures r in h
    {
      var p :| PathTo(h, v, p, r);
      PathInHeap(h, p);
    }
  }

  lemma {:induction false} PathInHeap(h: Heap, p: seq<nat>)
    requires IsPath(h, p)
    ensures p[|p| - 1] in h
  {
    if |p| > 1 { PathInHeap(h, p[1..]); }
  }

  lemma AllReachedSeen(h: Heap, v: Value)
    requires ValidHeap(h)
    ensures forall r | Reaches(h, v, r) :: SeenOrUnder(h, v, r)
  {
    forall r | Reaches(h, v, r)
      ensures SeenOrUnder(h, v, r)
    {
      ReachedIsSeen(h, v, r);
    }
  }

  /** The buffer of a kept view is not seen by the walk, and no other view stands on it. */
  lemma KeptBuffer(env: Globals, h: Heap, v: Value, q: nat, b: nat)
    requires ValidHeap(h) && AllKept(env, h, v) && Under(h, v, q, b)
    ensures !Reaches(Flat(h), v, b)
    ensures forall w | Under(h, v, w, b) :: w == q
  {
    FlatReaches(h, v, q);
    assert KeptObject(env, h, v, q) && OwnBuffer(h, v, q, b);
    forall w | Under(h, v, w, b)
      ensures w == q
    {
      FlatReaches(h, v, w);
      assert Ref(b) in h[w].kids;
    }
    if Reaches(Flat(h), v, b) {
      var p :| PathTo(Flat(h), v, p, b);
      if |p| > 1 {
        var w := ReachedFrom(Flat(h), p);
        assert PathTo(Flat(h), v, p[..|p| - 1], w);
        FlatReaches(h, v, w);
      }
    }
  }

  lemma HomeOfSeen(h: Heap, v: Value, f: map<nat, nat>, r: nat)
    requires ValidHeap(h) && (forall q :: q in f <==> Reaches(Flat(h), v, q)) && r in f
    ensures SeenOrUnder(h, v, r) && Home(h, v, f, r) == 2 * f[r]
  {
  }

  lemma HomeOfBuffer(env: Globals, h: Heap, v: Value, f: map<nat, nat>, q: nat, b: nat)
    requires ValidHeap(h) && (forall r :: r in f <==> Reaches(Flat(h), v, r)) && AllKept(env, h, v) && Under(h, v, q, b)
    ensures b !in f && SeenOrUnder(h, v, b) && Home(h, v, f, b) == 2 * f[q] + 1
  {
    KeptBuffer(env, h, v, q, b);
  }

  /** Different objects have different homes. */
  lemma HomesInjective(env: Globals, h: Heap, v: Value, f: map<nat, nat>, r: nat, s: nat)
    requires ValidHeap(h) && (forall q :: q in f <==> Reaches(Flat(h), v, q)) && AllKept(env, h, v) && Numbered(f)
    requires SeenOrUnder(h, v, r) && SeenOrUnder(h, v, s) && Home(h, v, f, r) == Home(h, v, f, s)
    ensures r == s
  {
    hide Reaches, AllKept, Flat;
    if r !in f {
      var q :| Under(h, v, q, r) && Home(h, v, f, r) == 2 * f[q] + 1;
      if s !in f {
        var w :| Under(h, v, w, s) && Home(h, v, f, s) == 2 * f[w] + 1;
        assert f[q] == f[w];
      }
    }
  }

  /** A kept view and its buffer are at home next to each other. */
  lemma ViewHome(env: Globals, h: Heap, v: Value, f: map<nat, nat>, r: nat, b: nat)
    requires ValidHeap(h) && (forall q :: q in f <==> Reaches(Flat(h), v, q)) && AllKept(env, h, v)
    requires r in f && Under(h, v, r, b)
    ensures var m := Homes(h, v, f); r in m && b in m && m[r] == 2 * f[r] && m[b] == m[r] + 1
  {
    hide Reaches, AllKept, SeenOrUnder, Home;
    FlatReaches(h, v, r);
    HomeOfSeen(h, v, f, r);
    HomeOfBuffer(env, h, v, f, r, b);
    UnderReaches(h, v, r, b);
  }

  lemma ViewMatches(env: Globals, h: Heap, v: Value, f: map<nat, nat>, x: Value, nodes: seq<Node>, r: nat)
    requires ValidHeap(h) && Renamed(env, Flat(h), v, f, x, nodes) && AllKept(env, h, v) && r in f && r in h
    requires h[r].shape.View?
    ensures forall q :: q in f <==> Reaches(Flat(h), v, q)
    ensures var m := Homes(h, v, f); r in m && Matches(h, m, Laid(nodes), r)
  {
    hide Reaches, AllKept, Restored, Kept, SeenOrUnder, Renamed, Laid, Home;
    RenamedReaches(env, Flat(h), v, f, x, nodes);
    FlatReaches(h, v, r);
    KeptAt(env, h, v, r);
    RenamedAt(env, Flat(h), v, f, x, nodes, r);
    LaidAt(nodes, f[r]);
    RestoredIffKept(env, Flat(h)[r]);
    assert ValidObject(h, h[r]);
    var b := h[r].kids[0].id;
    assert h[r].kids == [Ref(b)];
    ViewHome(env, h, v, f, r, b);
    var m := Homes(h, v, f);
    assert RenameAll(m, h[r].kids) == [Ref(m[r] + 1)];
  }

  lemma SeenMatches(env: Globals, h: Heap, v: Value, f: map<nat, nat>, x: Value, nodes: seq<Node>, r: nat)
    requires ValidHeap(h) && Renamed(env, Flat(h), v, f, x, nodes) && AllKept(env, h, v) && r in f && r in h
    requires !h[r].shape.View?
    ensures forall q :: q in f <==> Reaches(Flat(h), v, q)
    ensures var m := Homes(h, v, f); r in m && Matches(h, m, Laid(nodes), r)
  {
    hide Reaches, AllKept, Restored, Kept, SeenOrUnder, Renamed, Laid, Home;
    RenamedReaches(env, Flat(h), v, f, x, nodes);
    var m := Homes(h, v, f);
    FlatReaches(h, v, r);
    HomeOfSeen(h, v, f, r);
    KeptAt(env, h, v, r);
    RenamedAt(env, Flat(h), v, f, x, nodes, r);
    LaidAt(nodes, f[r]);
    RestoredIffKept(env, Flat(h)[r]);
    assert ValidObject(h, h[r]);
    RenamedIsClosed(env, Flat(h), v, f, x, nodes, r);
    MovedIsRenamed(h, v, f, h[r].kids);
  }

  lemma RenamedReaches(env: Globals, h: Heap, v: Value, f: map<nat, nat>, x: Value, nodes: seq<Node>)
    requires Renamed(env, h, v, f, x, nodes)
    ensures forall q :: q in f <==> Reaches(h, v, q)
  {
  }

  lemma KeptAt(env: Globals, h: Heap, v: Value, r: nat)
    requires ValidHeap(h) && AllKept(env, h, v) && r in h && Reaches(h, v, r)
    ensures KeptObject(env, h, v, r)
  {
  }

  lemma KeptIsPlain(env: Globals, h: Heap, v: Value, r: nat)
    requires ValidHeap(h) && AllKept(env, h, v) && r in h && Reaches(h, v, r)
    ensures h[r].plain
  {
    assert KeptObject(env, h, v, r) && ValidObject(h, h[r]);
  }

  lemma MovedIsRenamed(h: Heap, v: Value, f: map<nat, nat>, vs: seq<Value>)
    requires ValidHeap(h) && (forall q :: q in f <==> Reaches(Flat(h), v, q)) && AllKnown(f, vs)
    ensures Doubled(RenameAll(f, vs)) == RenameAll(Homes(h, v, f), vs)
  {
    hide Reaches, SeenOrUnder, Flat;
    var m := Homes(h, v, f);
    forall i | 0 <= i < |vs|
      ensures Moved(Rename(f, vs[i])) == Rename(m, vs[i])
    {
      assert Known(f, vs[i]);
      if vs[i].Ref? {
        FlatReaches(h, v, vs[i].id);
        HomeOfSeen(h, v, f, vs[i].id);
      }
    }
  }

  lemma BufferMatches(env: Globals, h: Heap, v: Value, f: map<nat, nat>, x: Value, nodes: seq<Node>, q: nat, b: nat)
    requires ValidHeap(h) && Renamed(env, Flat(h), v, f, x, nodes) && AllKept(env, h, v) && Under(h, v, q, b)
    ensures (forall r :: r in f <==> Reaches(Flat(h), v, r))
    ensures var m := Homes(h, v, f); b in m && Matches(h, m, Laid(nodes), b)
  {
    hide Reaches, AllKept, Restored, Kept, SeenOrUnder, Renamed, Laid;
    RenamedReaches(env, Flat(h), v, f, x, nodes);
    UnderReaches(h, v, q, b);
    HomeOfBuffer(env, h, v, f, q, b);
    FlatReaches(h, v, q);
    KeptAt(env, h, v, q);
    KeptIsPlain(env, h, v, b);
    RenamedAt(env, Flat(h), v, f, x, nodes, q);
    LaidAt(nodes, f[q]);
    RestoredIffKept(env, Flat(h)[q]);
    assert ValidObject(h, h[q]);
    assert h[b].shape == Buffer(Flat(h)[q].shape.bytes);
    assert RenameAll(Homes(h, v, f), []) == [];
  }

  lemma HomesMatch(env: Globals, h: Heap, v: Value, f: map<nat, nat>, x: Value, nodes: seq<Node>, r: nat)
    requires ValidHeap(h) && Renamed(env, Flat(h), v, f, x, nodes) && AllKept(env, h, v)
    requires forall q :: q in f <==> Reaches(Flat(h), v, q)
    requires r in Homes(h, v, f)
    ensures Matches(h, Homes(h, v, f), Laid(nodes), r)
  {
    hide Reaches, AllKept, Flat, Renamed, Laid, Matches, SeenOrUnder;
    if r in f {
      assert r in h by { RenamedAt(env, Flat(h), v, f, x, nodes, r); }
      if h[r].shape.View? {
        ViewMatches(env, h, v, f, x, nodes, r);
      } else {
        SeenMatches(env, h, v, f, x, nodes, r);
      }
    } else {
      var q := ViewOver(h, v, r);
      BufferMatches(env, h, v, f, x, nodes, q, r);
    }
  }

  lemma HomesAreDistinct(env: Globals, h: Heap, v: Value, f: map<nat, nat>)
    requires ValidHeap(h) && (forall q :: q in f <==> Reaches(Flat(h), v, q)) && AllKept(env, h, v) && Numbered(f)
    ensures var m := Homes(h, v, f); forall r, s | r in m && s in m && m[r] == m[s] :: r == s
  {
    hide Reaches, AllKept, Flat, SeenOrUnder, Home, Numbered, ValidHeap;
    var m := Homes(h, v, f);
    forall r, s | r in m && s in m && m[r] == m[s]
      ensures r == s
    {
      HomesInjective(env, h, v, f, r, s);
    }
  }

  lemma MakesIso(h: Heap, v: Value, f: map<nat, nat>, h': Heap, x: Value)
    requires (forall r :: r in f <==> Reaches(h, v, r)) && (forall r, s | r in f && s in f && f[r] == f[s] :: r == s)
    requires x == Rename(f, v) && forall r | r in f :: Matches(h, f, h', r)
    ensures Isomorphic(h, v, h', x)
  {
    hide Reaches, Matches;
    assert IsIso(h, v, f, h', x);
  }

  lemma HomeOfRoot(h: Heap, v: Value, f: map<nat, nat>)
    requires ValidHeap(h) && InHeap(h, v) && forall q :: q in f <==> Reaches(Flat(h), v, q)
    ensures Rename(Homes(h, v, f), v) == Moved(Rename(f, v))
  {
    hide Reaches, Flat, SeenOrUnder;
    if v.Ref? {
      ReachesSelf(Flat(h), v.id);
      FlatReaches(h, v, v.id);
      HomeOfSeen(h, v, f, v.id);
    }
  }

  lemma KeptIsIsomorphic(env: Globals, h: Heap, v: Value, f: map<nat, nat>, x: Value, nodes: seq<Node>)
    requires ValidHeap(h) && InHeap(h, v) && Renamed(env, Flat(h), v, f, x, nodes) && AllKept(env, h, v)
    ensures Isomorphic(h, v, Laid(nodes), Moved(x))
  {
    hide Reaches, AllKept, Flat, Renamed, Laid, Matches, SeenOrUnder, Home, Numbered, ValidHeap, Rename, Moved;
    RenamedReaches(env, Flat(h), v, f, x, nodes);
    RenamedRoot(env, Flat(h), v, f, x, nodes);
    var m := Homes(h, v, f);
    HomesAreDistinct(env, h, v, f);
    forall r | r in m
      ensures Matches(h, m, Laid(nodes), r)
    {
      HomesMatch(env, h, v, f, x, nodes, r);
    }
    HomeOfRoot(h, v, f);
    MakesIso(h, v, m, Laid(nodes), Moved(x));
  }

  lemma RenamedRoot(env: Globals, h: Heap, v: Value, f: map<nat, nat>, x: Value, nodes: seq<Node>)
    requires Renamed(env, h, v, f, x, nodes)
    ensures Numbered(f) && x == Rename(f, v)
  {
  }

  lemma ViewOver(h: Heap, v: Value, r: nat) returns (q: nat)
    requires ValidHeap(h) && SeenOrUnder(h, v, r) && !Reaches(Flat(h), v, r)
    ensures Under(h, v, q, r)
  {
    q :| Under(h, v, q, r);
  }

  // ---- and only those --------------------------------------------------------------------------------------

  /** The walk's numbers, the decoded nodes, and an isomorphism to where they are laid. */
  ghost predicate Rivals(env: Globals, h: Heap, v: Value, f: map<nat, nat>, x: Value, nodes: seq<Node>,
      g: map<nat, nat>)
    requires ValidHeap(h)
  {
    InHeap(h, v) && Renamed(env, Flat(h), v, f, x, nodes) && IsIso(h, v, g, Laid(nodes), Moved(x))
  }

  lemma RivalsAt(env: Globals, h: Heap, v: Value, f: map<nat, nat>, x: Value, nodes: seq<Node>, g: map<nat, nat>,
      r: nat)
    requires ValidHeap(h) && Rivals(env, h, v, f, x, nodes, g) && Reaches(Flat(h), v, r)
    ensures r in f && r in h && f[r] < |nodes| && nodes[f[r]] == Image(env, f, Flat(h)[r])
    ensures AllKnown(f, Flat(h)[r].kids)
    ensures r in g && g[r] in Laid(nodes) && Laid(nodes)[g[r]] == h[r].(kids := RenameAll(g, h[r].kids))
    ensures g[r] == 2 * f[r] ==> ObjectAt(nodes, 2 * f[r]) == h[r].(kids := RenameAll(g, h[r].kids))
  {
    hide Flat, Laid, Reaches, Renamed, IsIso;
    RenamedReaches(env, Flat(h), v, f, x, nodes);
    RenamedAt(env, Flat(h), v, f, x, nodes, r);
    RenamedIsClosed(env, Flat(h), v, f, x, nodes, r);
    FlatReaches(h, v, r);
    IsoAt(h, v, g, Laid(nodes), Moved(x), r);
    LaidAt(nodes, f[r]);
  }

  /** The isomorphism has no choice: what the walk numbered k goes to 2 k. */
  lemma {:induction false} IsoFollowsPath(env: Globals, h: Heap, v: Value, f: map<nat, nat>, x: Value, nodes: seq<Node>,
      g: map<nat, nat>, p: seq<nat>)
    requires ValidHeap(h) && Rivals(env, h, v, f, x, nodes, g)
    requires IsPath(Flat(h), p) && Reaches(Flat(h), v, p[0]) && p[0] in f && p[0] in g && g[p[0]] == 2 * f[p[0]]
    ensures var r := p[|p| - 1]; r in f && r in g && g[r] == 2 * f[r]
    decreases |p|
  {
    hide Reaches, Rivals, Restored, Laid, IsPath;
    PathStep(Flat(h), p);
    if |p| > 1 {
      var q, kids := p[0], h[p[0]].kids;
      assert ValidObject(h, h[q]);
      assert kids == Flat(h)[q].kids;
      RivalsAt(env, h, v, f, x, nodes, g, q);
      var i :| 0 <= i < |kids| && kids[i] == Ref(p[1]);
      assert Known(f, kids[i]);
      assert p[1] in h;
      ReachedOn(Flat(h), v, q, p[1]);
      RivalsAt(env, h, v, f, x, nodes, g, p[1]);
      assert RenameAll(g, kids)[i] == Doubled(RenameAll(f, kids))[i];
      IsoFollowsPath(env, h, v, f, x, nodes, g, p[1..]);
    }
  }

  lemma PathStep(h: Heap, p: seq<nat>)
    requires IsPath(h, p)
    ensures p != [] && p[0] in h
    ensures |p| > 1 ==> Ref(p[1]) in h[p[0]].kids && IsPath(h, p[1..]) && p[1] in h
  {
  }

  lemma IsoIsHome(env: Globals, h: Heap, v: Value, f: map<nat, nat>, x: Value, nodes: seq<Node>, g: map<nat, nat>,
      r: nat)
    requires ValidHeap(h) && Rivals(env, h, v, f, x, nodes, g) && Reaches(Flat(h), v, r)
    ensures r in f && r in g && g[r] == 2 * f[r]
    ensures f[r] < |nodes| && ObjectAt(nodes, 2 * f[r]) == h[r].(kids := RenameAll(g, h[r].kids))
  {
    hide Rivals, Laid;
    var p :| PathTo(Flat(h), v, p, r);
    ReachesSelf(Flat(h), p[0]);
    RivalsAt(env, h, v, f, x, nodes, g, p[0]);
    assert g[p[0]] == 2 * f[p[0]] by { RivalsRoot(env, h, v, f, x, nodes, g); }
    IsoFollowsPath(env, h, v, f, x, nodes, g, p);
    RivalsAt(env, h, v, f, x, nodes, g, r);
  }

  lemma RivalsRoot(env: Globals, h: Heap, v: Value, f: map<nat, nat>, x: Value, nodes: seq<Node>, g: map<nat, nat>)
    requires ValidHeap(h) && Rivals(env, h, v, f, x, nodes, g)
    ensures Rename(g, v) == Moved(Rename(f, v)) && Numbered(f)
    ensures forall r, s | r in g && s in g && g[r] == g[s] :: r == s
  {
    hide Flat, Laid, Reaches, Matches;
  }

  /** What a view's buffer goes to. */
  lemma IsoOfBuffer(env: Globals, h: Heap, v: Value, f: map<nat, nat>, x: Value, nodes: seq<Node>, g: map<nat, nat>,
      r: nat, b: nat)
    requires ValidHeap(h) && Rivals(env, h, v, f, x, nodes, g) && Under(h, v, r, b)
    ensures r in f && f[r] < |nodes| && nodes[f[r]].shape.Bytes? && nodes[f[r]].shape == Restored(env, Flat(h)[r].shape)
    ensures h[r].shape == View(nodes[f[r]].shape.kind, 0, |nodes[f[r]].shape.bytes|)
    ensures b in g && g[b] == 2 * f[r] + 1
    ensures b in h && h[b].shape == Buffer(nodes[f[r]].shape.bytes)
    ensures h[r].plain && h[b].plain
  {
    hide Flat, Laid, Reaches, Renamed, IsIso, Restored;
    UnderReaches(h, v, r, b);
    IsoIsHome(env, h, v, f, x, nodes, g, r);
    RivalsAt(env, h, v, f, x, nodes, g, r);
    IsoAt(h, v, g, Laid(nodes), Moved(x), b);
    LaidAt(nodes, f[r]);
    assert (2 * f[r]) / 2 == f[r] && (2 * f[r]) % 2 == 0;
    assert RenameAll(g, h[r].kids)[0] == Ref(g[b]);
  }

  /** An isomorphic view and its buffer are kept. */
  lemma IsoViewIsKept(env: Globals, h: Heap, v: Value, f: map<nat, nat>, x: Value, nodes: seq<Node>, g: map<nat, nat>,
      r: nat)
    requires ValidHeap(h) && Rivals(env, h, v, f, x, nodes, g) && Reaches(Flat(h), v, r) && r in h && h[r].shape.View?
    ensures KeptObject(env, h, v, r)
  {
    hide Reaches, Rivals;
    assert ValidObject(h, h[r]);
    var b := h[r].kids[0].id;
    assert h[r].kids == [Ref(b)];
    assert Under(h, v, r, b);
    IsoOfBuffer(env, h, v, f, x, nodes, g, r, b);
    if v == Ref(b) {
      ReachesSelf(Flat(h), b);
      IsoIsHome(env, h, v, f, x, nodes, g, b);
    }
    forall q | q in h && q != r && Reaches(h, v, q)
      ensures Ref(b) !in h[q].kids
    {
      IsoSharesNothing(env, h, v, f, x, nodes, g, r, b, q);
    }
    RestoredIffKept(env, Flat(h)[r]);
    assert Flat(h)[r].shape.bytes == h[b].shape.bytes;
  }

  lemma IsoSharesNothing(env: Globals, h: Heap, v: Value, f: map<nat, nat>, x: Value, nodes: seq<Node>,
      g: map<nat, nat>, r: nat, b: nat, q: nat)
    requires ValidHeap(h) && Rivals(env, h, v, f, x, nodes, g)
    requires r in f && b in g && g[b] == 2 * f[r] + 1
    requires q in h && q != r && Reaches(h, v, q)
    ensures Ref(b) !in h[q].kids
  {
    hide Reaches, Rivals, Restored, Laid, Flat;
    assert ValidObject(h, h[q]);
    if Ref(b) in h[q].kids {
      ReachedIsSeen(h, v, q);
      if !Reaches(Flat(h), v, q) {
        var w := ViewOver(h, v, q);
        UnderReaches(h, v, w, q);
        assert false;
      } else {
        RivalsRoot(env, h, v, f, x, nodes, g);
        IsoIsHome(env, h, v, f, x, nodes, g, q);
        var i :| 0 <= i < |h[q].kids| && h[q].kids[i] == Ref(b);
        assert RenameAll(g, h[q].kids)[i] == Ref(2 * f[r] + 1);
        ObjectRefersTo(nodes, f[q], i, f[r]);
      }
    }
  }

  /** Only the view itself refers to the buffer laid under it. */
  lemma ObjectRefersTo(nodes: seq<Node>, k: nat, i: nat, n: nat)
    requires k < |nodes| && i < |ObjectAt(nodes, 2 * k).kids|
    ensures ObjectAt(nodes, 2 * k).kids[i] == Ref(2 * n + 1) ==> k == n
  {
    assert (2 * k) / 2 == k && (2 * k) % 2 == 0;
    if !nodes[k].shape.Bytes? {
      assert ObjectAt(nodes, 2 * k).kids[i] == Moved(nodes[k].kids[i]);
    }
  }

  lemma IsomorphicIsKept(env: Globals, h: Heap, v: Value, f: map<nat, nat>, x: Value, nodes: seq<Node>,
      g: map<nat, nat>, r: nat)
    requires ValidHeap(h) && Rivals(env, h, v, f, x, nodes, g) && r in h && Reaches(h, v, r)
    ensures KeptObject(env, h, v, r)
  {
    hide Reaches, Rivals, Restored, Laid;
    ReachedIsSeen(h, v, r);
    assert ValidObject(h, h[r]);
    if !Reaches(Flat(h), v, r) {
      var q := ViewOver(h, v, r);
      UnderReaches(h, v, q, r);
      IsoOfBuffer(env, h, v, f, x, nodes, g, q, r);
    } else if h[r].shape.View? {
      IsoViewIsKept(env, h, v, f, x, nodes, g, r);
    } else {
      IsoIsHome(env, h, v, f, x, nodes, g, r);
      RivalsAt(env, h, v, f, x, nodes, g, r);
      assert (2 * f[r]) / 2 == f[r] && (2 * f[r]) % 2 == 0;
      RestoredIffKept(env, h[r]);
    }
  }

  /**
   * The graph comes back isomorphic, buffers under views included, exactly when every reachable object is of a kind
   * that coding keeps and every reachable view has all of a buffer to itself.
   */
  lemma IsomorphicIffKept(env: Globals, h: Heap, v: Value)
    requires ValidHeap(h) && InHeap(h, v) && EncodeValue(h, v).Walked?
    ensures var (x, nodes) := Decode(env, EncodeValue(h, v).out, 0);
      Isomorphic(h, v, Laid(nodes), Moved(x)) <==> AllKept(env, h, v)
  {
    hide Decode, EncodeValue, Reaches, Renamed, KeptObject, Flat, IsIso, Laid;
    var f := EncodeValue(h, v).seen;
    var (x, nodes) := Decode(env, EncodeValue(h, v).out, 0);
    RoundTrip(env, h, v);
    if AllKept(env, h, v) {
      KeptIsIsomorphic(env, h, v, f, x, nodes);
    }
    if Isomorphic(h, v, Laid(nodes), Moved(x)) {
      var g :| IsIso(h, v, g, Laid(nodes), Moved(x));
      forall r | r in h && Reaches(h, v, r)
        ensures KeptObject(env, h, v, r)
      {
        IsomorphicIsKept(env, h, v, f, x, nodes, g, r);
      }
    }
  }

  /** An isomorphism leaves nothing over: whatever x reaches is the image of something that v reaches. */
  lemma IsoIsOnto(h: Heap, v: Value, f: map<nat, nat>, h': Heap, x: Value, s: nat)
    requires ValidHeap(h) && InHeap(h, v) && IsIso(h, v, f, h', x) && Reaches(h', x, s)
    ensures exists r :: r in f && f[r] == s
  {
    var p :| PathTo(h', x, p, s);
    ReachesSelf(h, v.id);
    IsoCovers(h, v, f, h', x, p, v.id);
  }

  lemma {:induction false} IsoCovers(h: Heap, v: Value, f: map<nat, nat>, h': Heap, x: Value, p: seq<nat>, r: nat)
    requires ValidHeap(h) && IsIso(h, v, f, h', x) && IsPath(h', p) && r in f && p[0] == f[r]
    ensures exists q :: q in f && f[q] == p[|p| - 1]
    decreases |p|
  {
    hide Reaches, IsPath, ValidHeap;
    assert Matches(h, f, h', r);
    PathStep(h', p);
    if |p| > 1 {
      var i :| 0 <= i < |h'[p[0]].kids| && h'[p[0]].kids[i] == Ref(p[1]);
      var k := h[r].kids[i];
      assert RenameAll(f, h[r].kids)[i] == Rename(f, k) == Ref(p[1]);
      KidsInHeap(h, r, k);
      ReachedOn(h, v, r, k.id);
      IsoCovers(h, v, f, h', x, p[1..], k.id);
    }
  }

  lemma KidsInHeap(h: Heap, r: nat, k: Value)
    requires ValidHeap(h) && r in h && k in h[r].kids && k.Ref?
    ensures k.id in h
  {
    assert ValidObject(h, h[r]);
  }

  lemma ReachedOn(h: Heap, v: Value, r: nat, k: nat)
    requires Reaches(h, v, r) && r in h && Ref(k) in h[r].kids && k in h
    ensures Reaches(h, v, k)
  {
    var p :| PathTo(h, v, p, r);
    PathExtends(h, p, k);
    assert PathTo(h, v, p + [k], k);
  }

  // ---- when encoding throws --------------------------------------------------------------------------------

  /** A function or symbol is the value itself or sits inside something reachable. */
  ghost predicate HoldsUncloneable(h: Heap, v: Value) {
    v == Uncloneable || exists r :: r in h && Reaches(h, v, r) && Uncloneable in h[r].kids
  }

  lemma HoldsThrough(h: Heap, q: nat, v: Value)
    requires q in h && v in h[q].kids && HoldsUncloneable(h, v)
    ensures HoldsUncloneable(h, Ref(q))
  {
    hide Reaches;
    ReachesSelf(h, q);
    if v != Uncloneable {
      var r :| r in h && Reaches(h, v, r) && Uncloneable in h[r].kids;
      ReachesThrough(h, q, v, r);
    }
  }

  lemma {:induction false} ThrowHasCause(h: Heap, v: Value, seen: map<nat, nat>)
    requires Walkable(h) && InHeap(h, v) && seen.Keys <= h.Keys && Walk(h, v, seen).Thrown?
    ensures HoldsUncloneable(h, v)
    decreases h.Keys - seen.Keys, 0
  {
    hide HoldsUncloneable;
    if v == Uncloneable {
      assert HoldsUncloneable(h, v) by { UncloneableHolds(h); }
    } else {
      var q := v.id;
      var next := seen[q := |seen|];
      assert q in h.Keys - seen.Keys && q !in h.Keys - next.Keys;
      var i := ThrowAllHasCause(h, h[q].kids, next);
      HoldsThrough(h, q, h[q].kids[i]);
    }
  }

  lemma UncloneableHolds(h: Heap)
    ensures HoldsUncloneable(h, Uncloneable)
  {
  }

  lemma {:induction false} ThrowAllHasCause(h: Heap, vs: seq<Value>, seen: map<nat, nat>) returns (i: nat)
    requires Walkable(h) && AllInHeap(h, vs) && seen.Keys <= h.Keys && WalkAll(h, vs, seen).Thrown?
    ensures i < |vs| && HoldsUncloneable(h, vs[i])
    decreases h.Keys - seen.Keys, |vs|
  {
    hide HoldsUncloneable;
    assert InHeap(h, vs[0]) && AllInHeap(h, vs[1..]);
    var first := Walk(h, vs[0], seen);
    if first.Thrown? {
      ThrowHasCause(h, vs[0], seen);
      i := 0;
    } else {
      i := ThrowAllHasCause(h, vs[1..], first.seen);
      i := i + 1;
    }
  }

  lemma {:induction false} WalkedIsCloneable(h: Heap, v: Value, seen: map<nat, nat>, r: nat)
    requires Walkable(h) && InHeap(h, v) && seen.Keys <= h.Keys && Walk(h, v, seen).Walked?
    ensures v != Uncloneable
    ensures r in Walk(h, v, seen).seen && r !in seen ==> Uncloneable !in h[r].kids
    decreases h.Keys - seen.Keys, 0
  {
    if v.Ref? && v.id !in seen {
      var next := seen[v.id := |seen|];
      assert v.id in h.Keys - seen.Keys && v.id !in h.Keys - next.Keys;
      WalkedAllCloneable(h, h[v.id].kids, next, r);
    }
  }

  lemma {:induction false} WalkedAllCloneable(h: Heap, vs: seq<Value>, seen: map<nat, nat>, r: nat)
    requires Walkable(h) && AllInHeap(h, vs) && seen.Keys <= h.Keys && WalkAll(h, vs, seen).Walked?
    ensures Uncloneable !in vs
    ensures r in WalkAll(h, vs, seen).seen && r !in seen ==> Uncloneable !in h[r].kids
    decreases h.Keys - seen.Keys, |vs|
  {
    if vs != [] {
      assert InHeap(h, vs[0]) && AllInHeap(h, vs[1..]);
      WalkedIsCloneable(h, vs[0], seen, r);
      WalkedAllCloneable(h, vs[1..], Walk(h, vs[0], seen).seen, r);
      assert vs == [vs[0]] + vs[1..];
    }
  }

  lemma SameUncloneables(h: Heap, v: Value)
    requires ValidHeap(h)
    ensures HoldsUncloneable(Flat(h), v) <==> HoldsUncloneable(h, v)
  {
    hide Reaches;
    if v != Uncloneable && HoldsUncloneable(Flat(h), v) {
      var r :| r in Flat(h) && Reaches(Flat(h), v, r) && Uncloneable in Flat(h)[r].kids;
      FlatReaches(h, v, r);
      assert ValidObject(h, h[r]);
    }
    if v != Uncloneable && HoldsUncloneable(h, v) {
      var r :| r in h && Reaches(h, v, r) && Uncloneable in h[r].kids;
      assert ValidObject(h, h[r]) && !h[r].shape.View?;
      ReachedIsSeen(h, v, r);
      if !Reaches(Flat(h), v, r) {
        var q :| Under(h, v, q, r);
        UnderReaches(h, v, q, r);
      }
    }
  }

  /** Encoding throws exactly when a function or a symbol can be reached. */
  lemma ThrowsIffUncloneable(h: Heap, v: Value)
    requires ValidHeap(h) && InHeap(h, v)
    ensures EncodeValue(h, v).Thrown? <==> HoldsUncloneable(h, v)
  {
    hide Walk, Reaches, Flat;
    var flat := Flat(h);
    SameUncloneables(h, v);
    if EncodeValue(h, v).Thrown? {
      ThrowHasCause(flat, v, map[]);
    } else {
      WalkedIsCloneable(flat, v, map[], 0);
      RoundTrip(map[], h, v);
      if HoldsUncloneable(flat, v) {
        var r :| r in flat && Reaches(flat, v, r) && Uncloneable in flat[r].kids;
        WalkedIsCloneable(flat, v, map[], r);
        assert false;
      }
    }
  }

  // ---- graphs that do not come back ------------------------------------------------------------------------

  /** Two views of one buffer, in an array. */
  const TWINS: Heap := map[
    0 := Node(ArrayOf, [Ref(1), Ref(2)], true),
    1 := Node(View("Uint8Array", 0, 2), [Ref(3)], true),
    2 := Node(View("Int8Array", 0, 2), [Ref(3)], true),
    3 := Node(Buffer([7, 8]), [], true)
  ]

  /** A view together with its buffer. */
  const BESIDE: Heap := map[
    0 := Node(ArrayOf, [Ref(1), Ref(2)], true),
    1 := Node(View("Uint8Array", 0, 2), [Ref(2)], true),
    2 := Node(Buffer([7, 8]), [], true)
  ]

  /** A view of part of a buffer. */
  const PART: Heap := map[
    0 := Node(View("Uint8Array", 1, 1), [Ref(1)], true),
    1 := Node(Buffer([7, 8]), [], true)
  ]

  lemma NotKept(env: Globals, h: Heap, v: Value, r: nat)
    requires ValidHeap(h) && InHeap(h, v) && v != Uncloneable && forall q | q in h :: Uncloneable !in h[q].kids
    requires r in h && Reaches(h, v, r) && !KeptObject(env, h, v, r)
    ensures EncodeValue(h, v).Walked?
    ensures var (x, nodes) := Decode(env, EncodeValue(h, v).out, 0); !Isomorphic(h, v, Laid(nodes), Moved(x))
  {
    hide Decode, EncodeValue, Reaches, Isomorphic, KeptObject, ValidHeap;
    ThrowsIffUncloneable(h, v);
    IsomorphicIffKept(env, h, v);
  }

  lemma SharedIsNotKept(env: Globals, h: Heap, v: Value, r: nat, q: nat, b: nat)
    requires ValidHeap(h) && r in h && h[r].shape.View? && h[r].kids == [Ref(b)]
    requires q in h && q != r && Reaches(h, v, q) && Ref(b) in h[q].kids
    ensures !KeptObject(env, h, v, r)
  {
    hide Reaches, Kept, Flat;
    assert !OwnBuffer(h, v, r, b);
  }

  lemma ValidExample(h: Heap)
    requires h == TWINS || h == BESIDE || h == PART
    ensures ValidHeap(h) && 0 in h && forall q | q in h :: Uncloneable !in h[q].kids
  {
    assert ValidObject(h, h[0]) && ValidObject(h, h[1]);
    assert h != PART ==> ValidObject(h, h[2]);
    assert h == TWINS ==> ValidObject(h, h[3]);
  }

  lemma ReachesOne(h: Heap, r: nat, q: nat)
    requires r in h && q in h && Ref(q) in h[r].kids
    ensures Reaches(h, Ref(r), q)
  {
    ReachesSelf(h, q);
    ReachesThrough(h, r, Ref(q), q);
  }

  /** In each the view that is looked at, and what else refers to its buffer. */
  lemma ExampleIsNotKept(env: Globals, h: Heap) returns (r: nat)
    requires (h == TWINS || h == BESIDE || h == PART) && ValidHeap(h)
    ensures r in h && Reaches(h, Ref(0), r) && !KeptObject(env, h, Ref(0), r)
  {
    hide Reaches, ValidHeap, Kept, Flat;
    ReachesSelf(h, 0);
    if h == PART {
      r := 0;
    } else {
      r := 1;
      assert Ref(1) in h[0].kids && Ref(2) in h[0].kids;
      ReachesOne(h, 0, 1);
      ReachesOne(h, 0, 2);
      if h == TWINS {
        SharedIsNotKept(env, h, Ref(0), 1, 2, 3);
      } else {
        SharedIsNotKept(env, h, Ref(0), 1, 0, 2);
      }
    }
  }

  /** Buffers that are shared come apart, and a part of a buffer comes back as a whole one. */
  lemma SharingIsLost(env: Globals, h: Heap)
    requires h == TWINS || h == BESIDE || h == PART
    ensures ValidHeap(h) && EncodeValue(h, Ref(0)).Walked?
    ensures var (x, nodes) := Decode(env, EncodeValue(h, Ref(0)).out, 0);
      !Isomorphic(h, Ref(0), Laid(nodes), Moved(x))
  {
    hide Decode, EncodeValue, Reaches, Isomorphic, KeptObject, ValidHeap, TWINS, BESIDE, PART;
    ValidExample(h);
    var r := ExampleIsNotKept(env, h);
    NotKept(env, h, Ref(0), r);
  }
}
