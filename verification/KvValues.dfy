/**
 * Deno KV values: the tagged encoding of an object graph as a tree, with back references for what was met before,
 * and the graph rebuilt from it.
 */
module KvValues {
  import opened Wrappers

  /** Finite numbers other than -0 by their bit pattern; 0 is +0. */
  datatype Number = Finite(pattern: int) | NegativeZero | NaN | Infinity | NegativeInfinity

  /** A JavaScript value: an object is a reference into the heap. */
  datatype Value =
    | Null
    | Undefined
    | Bool(b: bool)
    | Str(s: string)
    | Num(n: Number)
    | Big(i: int)
    | Uncloneable // a function or a symbol
    | Ref(id: nat)

  /**
   * What an object is, apart from the values inside it. An invalid Date has no time. A View has its buffer inside it;
   * Bytes is what the encoder makes of one. The errors of an AggregateError are part of its shape, since the encoder
   * does not go into them; an error without a stack has the one that its constructor gave it.
   */
  datatype Shape =
    | Date(time: Option<int>)
    | RegExp(source: string, flags: string)
    | Buffer(bytes: seq<int>)
    | View(kind: string, offset: nat, length: nat)
    | Bytes(kind: string, bytes: seq<int>)
    | Error(name: string, message: string, stack: Option<string>, errors: seq<Value>)
    | MapOf // kids are key, value, key, value, ...
    | SetOf
    | ArrayOf
    | Record(names: seq<string>)

  /**
   * An object. It is plain if it looks as the decoder would build it from its shape and contents: exactly the built-in
   * prototype that the shape and its name select, extensible, with the own properties that building it gives and no
   * others, symbol-keyed, accessor and non-enumerable ones included. So subclass instances, errors with a code, a cause
   * or a name of their own, containers with extra properties, arrays with holes (Undefined in the contents), regular
   * expressions with a lastIndex other than 0, resizable buffers and frozen objects are not plain.
   */
  datatype Node = Node(shape: Shape, kids: seq<Value>, plain: bool)

  type Heap = map<nat, Node>

  /** The JSON tree. `Tagged` stands for {$: ...} of an object, `BackRef` for {$: "ref"}. */
  datatype Json =
    | JNull
    | JBool(b: bool)
    | JStr(s: string)
    | JNum(pattern: int)
    | JUndefined
    | JSpecial(text: string) // {$: "num"}
    | JBig(i: int)
    | BackRef(number: nat)
    | Tagged(shape: Shape, kids: seq<Json>)

  const TYPED: set<string> := {
    "Int8Array", "Uint8Array", "Uint8ClampedArray", "Int16Array", "Uint16Array", "Int32Array", "Uint32Array",
    "Float32Array", "Float64Array", "BigInt64Array", "BigUint64Array"
  }

  /** A global class that derives from Error: what its first argument is, and the name its instances go by. */
  datatype ErrorClass = OfMessage(name: string) | OfErrors(name: string)

  type Globals = map<string, ErrorClass>

  /** Those of the engine. */
  const ENGINE: Globals := map[
    "EvalError" := OfMessage("EvalError"), "RangeError" := OfMessage("RangeError"),
    "ReferenceError" := OfMessage("ReferenceError"), "SyntaxError" := OfMessage("SyntaxError"),
    "TypeError" := OfMessage("TypeError"), "URIError" := OfMessage("URIError"),
    "InternalError" := OfMessage("InternalError"), "AggregateError" := OfErrors("AggregateError")
  ]

  // ---- heaps that JavaScript can hold ----------------------------------------------------------------------

  ghost predicate InHeap(h: Heap, v: Value) {
    v.Ref? ==> v.id in h
  }

  ghost predicate AllInHeap(h: Heap, vs: seq<Value>) {
    forall i | 0 <= i < |vs| :: InHeap(h, vs[i])
  }

  /** Map and Set compare keys without telling the zeros apart, and never store -0. */
  function KeyOf(v: Value): Value {
    if v == Num(NegativeZero) then Num(Finite(0)) else v
  }

  ghost predicate DistinctKeys(vs: seq<Value>, step: nat)
    requires step > 0
  {
    && (forall i | 0 <= i < |vs| && i % step == 0 :: vs[i] != Num(NegativeZero))
    && (forall i, j | 0 <= i < j < |vs| && i % step == 0 && j % step == 0 :: vs[i] != vs[j])
  }

  ghost predicate ValidNode(n: Node) {
    match n.shape
    case MapOf => |n.kids| % 2 == 0 && DistinctKeys(n.kids, 2)
    case SetOf => DistinctKeys(n.kids, 1)
    case ArrayOf => true
    case Record(names) => |names| == |n.kids|
    case View(_, _, _) => false
    case _ => n.kids == []
  }

  /** A heap as the encoder sees it, without views. */
  ghost predicate Walkable(h: Heap) {
    forall r | r in h :: ValidNode(h[r]) && AllInHeap(h, h[r].kids)
  }

  predicate ValidView(h: Heap, n: Node) {
    && n.shape.View? && |n.kids| == 1 && n.kids[0].Ref? && n.kids[0].id in h
    && h[n.kids[0].id].shape.Buffer? && n.shape.offset + n.shape.length <= |h[n.kids[0].id].shape.bytes|
  }

  ghost predicate ValidObject(h: Heap, n: Node) {
    || ValidView(h, n)
    || (ValidNode(n) && AllInHeap(h, n.kids) && !n.shape.Bytes? && (n.shape.Error? ==> n.shape.stack.Some?))
  }

  /** A heap that JavaScript can hold. */
  ghost predicate ValidHeap(h: Heap) {
    forall r | r in h :: ValidObject(h, h[r])
  }

  /** An object as the encoder sees it: of a view, the bytes that it covers. */
  function SeenAs(h: Heap, n: Node): Node
    requires n.shape.View? ==> ValidView(h, n)
  {
    match n.shape
    case View(kind, offset, length) =>
      Node(Bytes(kind, h[n.kids[0].id].shape.bytes[offset..offset + length]), [], n.plain)
    case _ => n
  }

  ghost function Flat(h: Heap): (f: Heap)
    requires ValidHeap(h)
    ensures f.Keys == h.Keys
    ensures forall r | r in h :: ValidObject(h, h[r]) && f[r] == SeenAs(h, h[r])
    ensures Walkable(f)
  {
    var f := map r | r in h :: (assert ValidObject(h, h[r]); SeenAs(h, h[r]));
    assert forall r | r in h :: ValidObject(h, h[r]) && f[r] == SeenAs(h, h[r]);
    f
  }

  // ---- encoding --------------------------------------------------------------------------------------------

  datatype Walked<+T> = Thrown | Walked(out: T, seen: map<nat, nat>)

  function EncodeNumber(n: Number): Json {
    match n
    case Finite(p) => JNum(p)
    case NegativeZero => JSpecial("-0")
    case NaN => JSpecial("NaN")
    case Infinity => JSpecial("Infinity")
    case NegativeInfinity => JSpecial("-Infinity")
  }

  /** A view of a class that is not listed is written as a Uint8Array; no other class is written at all. */
  function EncodeShape(s: Shape): Shape {
    match s
    case Bytes(kind, bytes) => Bytes(if kind in TYPED then kind else "Uint8Array", bytes)
    case Error(name, message, stack, _) => Error(name, message, stack, [])
    case _ => s
  }

  ghost predicate Submap(a: map<nat, nat>, b: map<nat, nat>) {
    forall r | r in a :: r in b && b[r] == a[r]
  }

  /** encodeValue's inner walk: an object not met before takes the next number, in the order of first visits. */
  function Walk(h: Heap, v: Value, seen: map<nat, nat>): (w: Walked<Json>)
    requires Walkable(h) && InHeap(h, v) && seen.Keys <= h.Keys
    ensures w.Walked? ==> Submap(seen, w.seen) && w.seen.Keys <= h.Keys
    decreases h.Keys - seen.Keys, 0
  {
    match v
    case Null => Walked(JNull, seen)
    case Bool(b) => Walked(JBool(b), seen)
    case Str(s) => Walked(JStr(s), seen)
    case Undefined => Walked(JUndefined, seen)
    case Num(n) => Walked(EncodeNumber(n), seen)
    case Big(i) => Walked(JBig(i), seen)
    case Uncloneable => Thrown
    case Ref(r) =>
      if r in seen then Walked(BackRef(seen[r]), seen) else
        assert r in h.Keys - seen.Keys && r !in h.Keys - seen[r := |seen|].Keys;
        match WalkAll(h, h[r].kids, seen[r := |seen|])
        case Thrown => Thrown
        case Walked(js, seen') => Walked(Tagged(EncodeShape(h[r].shape), js), seen')
  }

  function WalkAll(h: Heap, vs: seq<Value>, seen: map<nat, nat>): (w: Walked<seq<Json>>)
    requires Walkable(h) && AllInHeap(h, vs) && seen.Keys <= h.Keys
    ensures w.Walked? ==> Submap(seen, w.seen) && w.seen.Keys <= h.Keys && |w.out| == |vs|
    decreases h.Keys - seen.Keys, |vs|
  {
    if vs == [] then Walked([], seen) else
      assert InHeap(h, vs[0]) && AllInHeap(h, vs[1..]);
      match Walk(h, vs[0], seen)
      case Thrown => Thrown
      case Walked(j, seen1) =>
        match WalkAll(h, vs[1..], seen1)
        case Thrown => Thrown
        case Walked(js, seen2) => Walked([j] + js, seen2)
  }

  ghost function EncodeValue(h: Heap, v: Value): Walked<Json>
    requires ValidHeap(h) && InHeap(h, v)
  {
    Walk(Flat(h), v, map[])
  }

  // ---- decoding --------------------------------------------------------------------------------------------

  function DecodeNumber(text: string): Number {
    if text == "NaN" then NaN else if text == "Infinity" then Infinity else if text == "-Infinity" then NegativeInfinity
    else NegativeZero
  }

  /** What iterating a string gives. */
  function Characters(t: string): (vs: seq<Value>)
    ensures |vs| == |t|
  {
    seq(|t|, i requires 0 <= i < |t| => Str([t[i]]))
  }

  /** `new E(message)` with the global class of that name, or else Error; an empty stack is not put back. */
  function MakeError(env: Globals, name: string, message: string, stack: Option<string>): Shape {
    var kept := if stack == Some("") then None else stack;
    if name !in env then Error("Error", message, kept, []) else
      match env[name]
      case OfMessage(called) => Error(called, message, kept, [])
      case OfErrors(called) => Error(called, "", kept, Characters(message))
  }

  /** `new Date(null)` is the epoch. */
  function DecodeShape(env: Globals, s: Shape): Shape {
    match s
    case Date(None) => Date(Some(0))
    case Bytes(kind, bytes) => Bytes(if kind in TYPED then kind else "Uint8Array", bytes)
    case Error(name, message, stack, _) => MakeError(env, name, message, stack)
    case _ => s
  }

  /** Set.add */
  function SetAdd(elems: seq<Value>, v: Value): seq<Value> {
    if KeyOf(v) in elems then elems else elems + [KeyOf(v)]
  }

  /** Map.set on alternating keys and values. */
  function MapSet(entries: seq<Value>, k: Value, x: Value): (r: seq<Value>)
    requires |entries| % 2 == 0
    ensures |r| % 2 == 0
  {
    if entries == [] then [KeyOf(k), x]
    else if entries[0] == KeyOf(k) then [entries[0], x] + entries[2..]
    else entries[..2] + MapSet(entries[2..], k, x)
  }

  function SetOfAll(elems: seq<Value>, vs: seq<Value>): seq<Value>
    decreases |vs|
  {
    if vs == [] then elems else SetOfAll(SetAdd(elems, vs[0]), vs[1..])
  }

  function MapOfAll(entries: seq<Value>, vs: seq<Value>): seq<Value>
    requires |entries| % 2 == 0
    decreases |vs|
  {
    if |vs| < 2 then entries else MapOfAll(MapSet(entries, vs[0], vs[1]), vs[2..])
  }

  /** The container that adding decoded values one after another builds. */
  function Collect(shape: Shape, vs: seq<Value>): seq<Value> {
    match shape
    case MapOf => MapOfAll([], vs)
    case SetOf => SetOfAll([], vs)
    case _ => vs
  }

  /** decodeValue's walk when `n` objects exist already: the value, and the objects it creates, in order. */
  function Decode(env: Globals, j: Json, n: nat): (Value, seq<Node>)
    decreases j, 1
  {
    match j
    case JNull => (Null, [])
    case JBool(b) => (Bool(b), [])
    case JStr(s) => (Str(s), [])
    case JNum(p) => (Num(Finite(p)), [])
    case JUndefined => (Undefined, [])
    case JSpecial(text) => (Num(DecodeNumber(text)), [])
    case JBig(i) => (Big(i), [])
    case BackRef(k) => (Ref(k), [])
    case Tagged(shape, kids) =>
      var (vs, more) := DecodeAll(env, kids, n + 1);
      (Ref(n), [Node(DecodeShape(env, shape), Collect(shape, vs), true)] + more)
  }

  function DecodeAll(env: Globals, js: seq<Json>, n: nat): (r: (seq<Value>, seq<Node>))
    ensures |r.0| == |js|
    decreases js, 0
  {
    if js == [] then ([], []) else
      var (v, nodes) := Decode(env, js[0], n);
      var (vs, more) := DecodeAll(env, js[1..], n + |nodes|);
      ([v] + vs, nodes + more)
  }

  // ---- the numbers in `seen` and the order of pushes to `refs` coincide ------------------------------------

  ghost predicate IsGiven(seen: map<nat, nat>, i: int) {
    exists r :: r in seen && seen[r] == i
  }

  /** Numbers are given out once each, from 0 up. */
  ghost predicate Numbered(seen: map<nat, nat>) {
    && (forall r | r in seen :: seen[r] < |seen|)
    && (forall r, s | r in seen && s in seen && seen[r] == seen[s] :: r == s)
    && (forall i | 0 <= i < |seen| :: IsGiven(seen, i))
  }

  function Rename(f: map<nat, nat>, v: Value): Value {
    if v.Ref? && v.id in f then Ref(f[v.id]) else v
  }

  function RenameAll(f: map<nat, nat>, vs: seq<Value>): (r: seq<Value>)
    ensures |r| == |vs|
    ensures forall i | 0 <= i < |vs| :: r[i] == Rename(f, vs[i])
  {
    seq(|vs|, i requires 0 <= i < |vs| => Rename(f, vs[i]))
  }

  function Restored(env: Globals, s: Shape): Shape {
    DecodeShape(env, EncodeShape(s))
  }

  /** What coding leaves of an object, its contents aside: always a plain one. */
  function Remade(env: Globals, n: Node): Node {
    Node(Restored(env, n.shape), n.kids, true)
  }

  function Image(env: Globals, f: map<nat, nat>, n: Node): Node {
    Remade(env, n).(kids := RenameAll(f, n.kids))
  }

  ghost predicate Known(f: map<nat, nat>, v: Value) {
    v.Ref? ==> v.id in f
  }

  ghost predicate AllKnown(f: map<nat, nat>, vs: seq<Value>) {
    forall i | 0 <= i < |vs| :: Known(f, vs[i])
  }

  /** Object r, numbered by `after`, was created as its image at that position of `nodes`, which start at `base`. */
  ghost predicate IsImage(env: Globals, h: Heap, base: nat, after: map<nat, nat>, nodes: seq<Node>, r: nat)
    requires r in after
  {
    && base <= after[r] < base + |nodes|
    && r in h && AllKnown(after, h[r].kids)
    && nodes[after[r] - base] == Image(env, after, h[r])
  }

  /** `nodes`, from number |before| on, are the images of exactly the objects that `after` adds to `before`. */
  ghost predicate Images(env: Globals, h: Heap, before: map<nat, nat>, after: map<nat, nat>, nodes: seq<Node>) {
    && |after| == |before| + |nodes|
    && forall r | r in after && r !in before :: IsImage(env, h, |before|, after, nodes, r)
  }

  lemma NumberedStep(seen: map<nat, nat>, r: nat)
    requires Numbered(seen) && r !in seen
    ensures Numbered(seen[r := |seen|]) && |seen[r := |seen|]| == |seen| + 1
  {
    var next := seen[r := |seen|];
    assert next.Keys == seen.Keys + {r};
    forall i | 0 <= i < |next|
      ensures IsGiven(next, i)
    {
      if i < |seen| {
        assert IsGiven(seen, i);
        var s :| s in seen && seen[s] == i;
        assert s in next && next[s] == i;
      } else {
        assert r in next && next[r] == i;
      }
    }
  }

  lemma RenameStable(f: map<nat, nat>, g: map<nat, nat>, vs: seq<Value>)
    requires Submap(f, g) && AllKnown(f, vs)
    ensures AllKnown(g, vs) && RenameAll(g, vs) == RenameAll(f, vs)
  {
    forall i | 0 <= i < |vs|
      ensures Known(g, vs[i]) && Rename(g, vs[i]) == Rename(f, vs[i])
    {
      assert Known(f, vs[i]);
    }
  }

  lemma ImageStable(env: Globals, f: map<nat, nat>, g: map<nat, nat>, n: Node)
    requires Submap(f, g) && AllKnown(f, n.kids)
    ensures AllKnown(g, n.kids) && Image(env, g, n) == Image(env, f, n)
  {
    hide RenameAll;
    RenameStable(f, g, n.kids);
  }

  lemma ImageEarlier(env: Globals, h: Heap, base: nat, b: map<nat, nat>, c: map<nat, nat>, xs: seq<Node>, ys: seq<Node>,
      r: nat)
    requires Submap(b, c) && r in b && IsImage(env, h, base, b, xs, r)
    ensures r in c && IsImage(env, h, base, c, xs + ys, r)
  {
    hide AllKnown, Image;
    ImageStable(env, b, c, h[r]);
  }

  lemma ImageLater(env: Globals, h: Heap, base: nat, c: map<nat, nat>, xs: seq<Node>, ys: seq<Node>, r: nat)
    requires r in c && IsImage(env, h, base + |xs|, c, ys, r)
    ensures IsImage(env, h, base, c, xs + ys, r)
  {
    hide AllKnown, Image;
  }

  lemma ImagesCompose(env: Globals, h: Heap, a: map<nat, nat>, b: map<nat, nat>, c: map<nat, nat>, xs: seq<Node>,
      ys: seq<Node>)
    requires Submap(b, c) && Images(env, h, a, b, xs) && Images(env, h, b, c, ys)
    ensures Images(env, h, a, c, xs + ys)
  {
    hide IsImage, Submap;
    forall r | r in c && r !in a
      ensures IsImage(env, h, |a|, c, xs + ys, r)
    {
      if r in b {
        ImageEarlier(env, h, |a|, b, c, xs, ys, r);
      } else {
        ImageLater(env, h, |a|, c, xs, ys, r);
      }
    }
  }

  /** What decoding the walk's output comes to: the value renamed, and the images of the objects newly numbered. */
  ghost predicate Inverts(env: Globals, h: Heap, v: Value, seen: map<nat, nat>, j: Json, after: map<nat, nat>) {
    var (x, nodes) := Decode(env, j, |seen|);
    Numbered(after) && Known(after, v) && x == Rename(after, v) && Images(env, h, seen, after, nodes)
  }

  ghost predicate AllInvert(env: Globals, h: Heap, vs: seq<Value>, seen: map<nat, nat>, js: seq<Json>,
      after: map<nat, nat>) {
    var (xs, nodes) := DecodeAll(env, js, |seen|);
    Numbered(after) && AllKnown(after, vs) && xs == RenameAll(after, vs) && Images(env, h, seen, after, nodes)
  }

  lemma {:induction false} WalkInverts(env: Globals, h: Heap, v: Value, seen: map<nat, nat>)
    requires Walkable(h) && InHeap(h, v) && seen.Keys <= h.Keys && Numbered(seen)
    requires Walk(h, v, seen).Walked?
    ensures Inverts(env, h, v, seen, Walk(h, v, seen).out, Walk(h, v, seen).seen)
    decreases h.Keys - seen.Keys, 0
  {
    hide Numbered, AllKnown, AllInvert, RenameAll;
    if v.Ref? && v.id !in seen {
      var r := v.id;
      var next := seen[r := |seen|];
      NumberedStep(seen, r);
      assert r in h.Keys - seen.Keys && r !in h.Keys - next.Keys;
      WalkAllInverts(env, h, h[r].kids, next);
      var w := WalkAll(h, h[r].kids, next);
      ObjectInverts(env, h, r, seen, w.out, w.seen);
    }
  }

  lemma ObjectInverts(env: Globals, h: Heap, r: nat, seen: map<nat, nat>, js: seq<Json>, after: map<nat, nat>)
    requires Walkable(h) && r in h && r !in seen && |seen[r := |seen|]| == |seen| + 1
    requires Submap(seen[r := |seen|], after) && AllInvert(env, h, h[r].kids, seen[r := |seen|], js, after)
    ensures Inverts(env, h, Ref(r), seen, Tagged(EncodeShape(h[r].shape), js), after)
  {
    hide Numbered, AllKnown, RenameAll, Collect;
    var next := seen[r := |seen|];
    assert r in next && after[r] == next[r];
    var (vs, more) := DecodeAll(env, js, |seen| + 1);
    CollectKeeps(h[r], after);
    ImagesOfRoot(env, h, r, seen, after, more);
  }

  lemma {:induction false} WalkAllInverts(env: Globals, h: Heap, vs: seq<Value>, seen: map<nat, nat>)
    requires Walkable(h) && AllInHeap(h, vs) && seen.Keys <= h.Keys && Numbered(seen)
    requires WalkAll(h, vs, seen).Walked?
    ensures AllInvert(env, h, vs, seen, WalkAll(h, vs, seen).out, WalkAll(h, vs, seen).seen)
    decreases h.Keys - seen.Keys, |vs|
  {
    if vs != [] {
      hide Numbered;
      assert InHeap(h, vs[0]) && AllInHeap(h, vs[1..]);
      var first := Walk(h, vs[0], seen);
      WalkInverts(env, h, vs[0], seen);
      assert Numbered(first.seen);
      WalkAllInverts(env, h, vs[1..], first.seen);
      var rest := WalkAll(h, vs[1..], first.seen);
      ConsInverts(env, h, vs, seen, first.out, first.seen, rest.out, rest.seen);
    }
  }

  lemma ImagesLength(env: Globals, h: Heap, before: map<nat, nat>, after: map<nat, nat>, nodes: seq<Node>)
    requires Images(env, h, before, after, nodes)
    ensures |after| == |before| + |nodes|
  {
  }

  lemma ConsInverts(env: Globals, h: Heap, vs: seq<Value>, seen: map<nat, nat>, j: Json, mid: map<nat, nat>,
      js: seq<Json>, after: map<nat, nat>)
    requires vs != [] && Submap(seen, mid) && Submap(mid, after)
    requires Inverts(env, h, vs[0], seen, j, mid) && AllInvert(env, h, vs[1..], mid, js, after)
    ensures AllInvert(env, h, vs, seen, [j] + js, after)
  {
    hide Numbered, Decode, Images;
    var (x, nodes) := Decode(env, j, |seen|);
    var (xs, more) := DecodeAll(env, js, |mid|);
    assert |mid| == |seen| + |nodes| by { ImagesLength(env, h, seen, mid, nodes); }
    assert ([j] + js)[1..] == js;
    ImagesCompose(env, h, seen, mid, after, nodes, more);
    assert DecodeAll(env, [j] + js, |seen|) == ([x] + xs, nodes + more);
    forall i | 0 <= i < |vs|
      ensures Known(after, vs[i]) && ([x] + xs)[i] == Rename(after, vs[i])
    {
      if i > 0 {
        assert vs[i] == vs[1..][i - 1] && Known(after, vs[1..][i - 1]);
      }
    }
  }

  /** The object itself comes first, then the objects met inside it. */
  lemma ImagesOfRoot(env: Globals, h: Heap, r: nat, seen: map<nat, nat>, after: map<nat, nat>, more: seq<Node>)
    requires r in h && r !in seen && |seen[r := |seen|]| == |seen| + 1
    requires Submap(seen[r := |seen|], after) && Images(env, h, seen[r := |seen|], after, more)
    requires AllKnown(after, h[r].kids)
    ensures Images(env, h, seen, after, [Image(env, after, h[r])] + more)
  {
    hide AllKnown, Image;
    var next := seen[r := |seen|];
    assert r in next && after[r] == next[r];
    forall s | s in after && s !in seen
      ensures IsImage(env, h, |seen|, after, [Image(env, after, h[r])] + more, s)
    {
      if s != r {
        assert s !in next;
        assert IsImage(env, h, |next|, after, more, s);
      }
    }
  }

  // ---- containers fill up without collisions ---------------------------------------------------------------

  lemma RenameInjective(f: map<nat, nat>, v: Value, w: Value)
    requires Numbered(f) && Known(f, v) && Known(f, w) && v != w
    ensures Rename(f, v) != Rename(f, w)
  {
  }

  lemma DistinctKeysRenamed(f: map<nat, nat>, vs: seq<Value>, step: nat)
    requires step > 0 && Numbered(f) && AllKnown(f, vs) && DistinctKeys(vs, step)
    ensures DistinctKeys(RenameAll(f, vs), step)
  {
    forall i, j | 0 <= i < j < |vs| && i % step == 0 && j % step == 0
      ensures RenameAll(f, vs)[i] != RenameAll(f, vs)[j]
    {
      RenameInjective(f, vs[i], vs[j]);
    }
  }

  lemma {:induction false} SetOfDistinct(elems: seq<Value>, vs: seq<Value>)
    requires DistinctKeys(elems + vs, 1)
    ensures SetOfAll(elems, vs) == elems + vs
    decreases |vs|
  {
    if vs == [] {
      assert elems + vs == elems;
    } else {
      var all := elems + vs;
      assert all[|elems|] == vs[0] && |elems| % 1 == 0;
      forall i | 0 <= i < |elems|
        ensures elems[i] != vs[0]
      {
        assert i % 1 == 0 && all[i] == elems[i];
      }
      assert elems + [vs[0]] + vs[1..] == all;
      SetOfDistinct(elems + [vs[0]], vs[1..]);
    }
  }

  /** Whatever is added to a set, each value is in it once, the two zeros being one, as 0. */
  lemma {:induction false} SetHolds(elems: seq<Value>, vs: seq<Value>, v: Value)
    requires DistinctKeys(elems, 1)
    ensures DistinctKeys(SetOfAll(elems, vs), 1)
    ensures v in SetOfAll(elems, vs) <==>
      || v in elems
      || if v == Num(Finite(0)) then v in vs || Num(NegativeZero) in vs else v in vs && v != Num(NegativeZero)
    decreases |vs|
  {
    if vs != [] {
      assert vs == [vs[0]] + vs[1..];
      SetAddKeeps(elems, vs[0]);
      SetHolds(SetAdd(elems, vs[0]), vs[1..], v);
    }
  }

  lemma SetAddKeeps(elems: seq<Value>, v: Value)
    requires DistinctKeys(elems, 1)
    ensures DistinctKeys(SetAdd(elems, v), 1)
  {
    assert forall i: int :: i % 1 == 0;
    if KeyOf(v) !in elems {
      var r := elems + [KeyOf(v)];
      assert forall i | 0 <= i < |elems| :: elems[i] in elems;
      assert forall i, j | 0 <= i < j < |r| :: r[i] != r[j];
    }
  }

  /** Map.get on alternating keys and values */
  function MapGet(entries: seq<Value>, k: Value): Option<Value>
    requires |entries| % 2 == 0
  {
    if entries == [] then None
    else if entries[0] == KeyOf(k) then Some(entries[1])
    else MapGet(entries[2..], k)
  }

  /** A value that was set is found under its key, in place of an older one; what other keys hold stays. */
  lemma {:induction false} MapSetThenGet(entries: seq<Value>, k: Value, x: Value, other: Value)
    requires |entries| % 2 == 0
    ensures MapGet(MapSet(entries, k, x), k) == Some(x)
    ensures KeyOf(other) != KeyOf(k) ==> MapGet(MapSet(entries, k, x), other) == MapGet(entries, other)
    ensures |MapSet(entries, k, x)| == if MapGet(entries, k).Some? then |entries| else |entries| + 2
  {
    if entries == [] {
      assert [KeyOf(k), x][2..] == [];
    } else if entries[0] == KeyOf(k) {
      assert ([entries[0], x] + entries[2..])[2..] == entries[2..];
    } else {
      assert (entries[..2] + MapSet(entries[2..], k, x))[2..] == MapSet(entries[2..], k, x);
      MapSetThenGet(entries[2..], k, x, other);
    }
  }

  lemma {:induction false} MapSetNew(entries: seq<Value>, k: Value, x: Value)
    requires |entries| % 2 == 0 && k != Num(NegativeZero)
    requires forall i | 0 <= i < |entries| && i % 2 == 0 :: entries[i] != k
    ensures MapSet(entries, k, x) == entries + [k, x]
  {
    if entries != [] {
      var rest := entries[2..];
      assert entries[0] != k;
      forall i | 0 <= i < |rest| && i % 2 == 0
        ensures rest[i] != k
      {
        assert rest[i] == entries[i + 2];
      }
      MapSetNew(rest, k, x);
      assert entries == entries[..2] + rest;
    }
  }

  lemma {:induction false} MapOfDistinct(entries: seq<Value>, vs: seq<Value>)
    requires |entries| % 2 == 0 && |vs| % 2 == 0 && DistinctKeys(entries + vs, 2)
    ensures MapOfAll(entries, vs) == entries + vs
    decreases |vs|
  {
    if vs == [] {
      assert entries + vs == entries;
    } else {
      var all := entries + vs;
      assert all[|entries|] == vs[0];
      forall i | 0 <= i < |entries| && i % 2 == 0
        ensures entries[i] != vs[0]
      {
        assert all[i] == entries[i];
      }
      MapSetNew(entries, vs[0], vs[1]);
      assert entries + [vs[0], vs[1]] + vs[2..] == all;
      MapOfDistinct(entries + [vs[0], vs[1]], vs[2..]);
    }
  }

  lemma CollectKeeps(n: Node, f: map<nat, nat>)
    requires ValidNode(n) && Numbered(f) && AllKnown(f, n.kids)
    ensures Collect(EncodeShape(n.shape), RenameAll(f, n.kids)) == RenameAll(f, n.kids)
  {
    var vs := RenameAll(f, n.kids);
    match n.shape {
      case MapOf =>
        DistinctKeysRenamed(f, n.kids, 2);
        assert [] + vs == vs;
        MapOfDistinct([], vs);
      case SetOf =>
        DistinctKeysRenamed(f, n.kids, 1);
        assert [] + vs == vs;
        SetOfDistinct([], vs);
      case _ =>
    }
  }
}
