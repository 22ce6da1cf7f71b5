/**
 * The two recursive walks as the program runs them: one grows `seen`, the other grows `refs` and fills objects in
 * place.
 */
module KvValueCodec {
  import opened Wrappers
  import opened KvValues
  import opened KvValueTheorems

  // ---- one more element at the end -------------------------------------------------------------------------

  lemma {:induction false} WalkAllSnoc(h: Heap, vs: seq<Value>, v: Value, seen: map<nat, nat>)
    requires Walkable(h) && AllInHeap(h, vs) && InHeap(h, v) && AllInHeap(h, vs + [v]) && seen.Keys <= h.Keys
    requires WalkAll(h, vs, seen).Walked?
    ensures var w := WalkAll(h, vs, seen);
      WalkAll(h, vs + [v], seen) ==
      match Walk(h, v, w.seen) case Thrown => Thrown case Walked(j, seen') => Walked(w.out + [j], seen')
    decreases |vs|
  {
    hide Walk;
    if vs == [] {
      assert (vs + [v])[1..] == [];
      var last := Walk(h, v, seen);
      if last.Walked? {
        assert [last.out] + [] == [] + [last.out];
      }
    } else {
      assert InHeap(h, vs[0]) && AllInHeap(h, vs[1..]);
      assert (vs + [v])[1..] == vs[1..] + [v];
      assert AllInHeap(h, vs[1..] + [v]);
      var first := Walk(h, vs[0], seen);
      WalkAllSnoc(h, vs[1..], v, first.seen);
      var rest := WalkAll(h, vs[1..], first.seen);
      var last := Walk(h, v, rest.seen);
      if last.Walked? {
        assert [first.out] + (rest.out + [last.out]) == ([first.out] + rest.out) + [last.out];
      }
    }
  }

  lemma {:induction false} WalkAllThrows(h: Heap, vs: seq<Value>, i: nat, seen: map<nat, nat>)
    requires Walkable(h) && AllInHeap(h, vs) && i <= |vs| && AllInHeap(h, vs[..i]) && seen.Keys <= h.Keys
    requires WalkAll(h, vs[..i], seen).Thrown?
    ensures WalkAll(h, vs, seen).Thrown?
    decreases |vs|
  {
    hide Walk;
    if i > 0 {
      assert InHeap(h, vs[0]) && AllInHeap(h, vs[1..]);
      assert vs[..i][1..] == vs[1..][..i - 1] && AllInHeap(h, vs[1..][..i - 1]);
      var first := Walk(h, vs[0], seen);
      if first.Walked? {
        WalkAllThrows(h, vs[1..], i - 1, first.seen);
      }
    }
  }

  lemma {:induction false} DecodeAllSnoc(env: Globals, js: seq<Json>, j: Json, n: nat)
    ensures var (vs, nodes) := DecodeAll(env, js, n); var (v, more) := Decode(env, j, n + |nodes|);
      DecodeAll(env, js + [j], n) == (vs + [v], nodes + more)
    decreases |js|
  {
    hide Decode;
    if js == [] {
      assert (js + [j])[1..] == [];
      var (x, last) := Decode(env, j, n);
      assert [x] + [] == [] + [x] && last + [] == [] + last;
    } else {
      assert (js + [j])[1..] == js[1..] + [j];
      var (v, nodes) := Decode(env, js[0], n);
      DecodeAllSnoc(env, js[1..], j, n + |nodes|);
      var (vs, more) := DecodeAll(env, js[1..], n + |nodes|);
      var (x, last) := Decode(env, j, n + |nodes| + |more|);
      assert [v] + (vs + [x]) == ([v] + vs) + [x] && nodes + (more + last) == (nodes + more) + last;
    }
  }

  lemma DecodeAllPair(env: Globals, js: seq<Json>, j: Json, k: Json, n: nat)
    ensures var (vs, nodes) := DecodeAll(env, js, n); var (v, more) := Decode(env, j, n + |nodes|);
      var (x, last) := Decode(env, k, n + |nodes| + |more|);
      DecodeAll(env, js + [j, k], n) == (vs + [v, x], nodes + more + last)
  {
    hide Decode, DecodeAll;
    DecodeAllSnoc(env, js, j, n);
    DecodeAllSnoc(env, js + [j], k, n);
    assert js + [j] + [k] == js + [j, k];
    var (vs, nodes) := DecodeAll(env, js, n);
    var (v, more) := Decode(env, j, n + |nodes|);
    var (x, _) := Decode(env, k, n + |nodes| + |more|);
    assert vs + [v] + [x] == vs + [v, x];
  }

  lemma {:induction false} SetOfAllSnoc(elems: seq<Value>, vs: seq<Value>, v: Value)
    ensures SetOfAll(elems, vs + [v]) == SetAdd(SetOfAll(elems, vs), v)
    decreases |vs|
  {
    if vs == [] {
      assert (vs + [v])[1..] == [];
    } else {
      assert (vs + [v])[1..] == vs[1..] + [v];
      SetOfAllSnoc(SetAdd(elems, vs[0]), vs[1..], v);
    }
  }

  lemma {:induction false} MapOfAllSnoc(entries: seq<Value>, vs: seq<Value>, k: Value, x: Value)
    requires |entries| % 2 == 0 && |vs| % 2 == 0
    ensures |MapOfAll(entries, vs)| % 2 == 0
    ensures MapOfAll(entries, vs + [k, x]) == MapSet(MapOfAll(entries, vs), k, x)
    decreases |vs|
  {
    var all := vs + [k, x];
    if vs == [] {
      assert all[2..] == [];
    } else {
      assert all[2..] == vs[2..] + [k, x];
      MapOfAllSnoc(MapSet(entries, vs[0], vs[1]), vs[2..], k, x);
    }
  }

  /** push, add, or the next property. */
  function AddOne(shape: Shape, kids: seq<Value>, x: Value): seq<Value> {
    if shape.SetOf? then SetAdd(kids, x) else kids + [x]
  }

  lemma CollectSnoc(shape: Shape, vs: seq<Value>, x: Value)
    requires !shape.MapOf?
    ensures Collect(shape, vs + [x]) == AddOne(shape, Collect(shape, vs), x)
  {
    SetOfAllSnoc([], vs, x);
  }

  lemma NoneCollected(shape: Shape)
    ensures Collect(shape, []) == []
  {
  }

  // ---- encodeValue -----------------------------------------------------------------------------------------

  class Encoder {
    var seen: map<nat, nat>

    constructor ()
      ensures seen == map[]
    {
      seen := map[];
    }

    method WalkValue(h: Heap, v: Value) returns (r: Option<Json>)
      requires ValidHeap(h) && InHeap(h, v) && seen.Keys <= h.Keys
      modifies this
      ensures match Walk(Flat(h), v, old(seen))
              case Thrown => r.None?
              case Walked(j, after) => r == Some(j) && seen == after
      decreases h.Keys - seen.Keys, 0
    {
      match v {
        case Null => return Some(JNull);
        case Bool(b) => return Some(JBool(b));
        case Str(s) => return Some(JStr(s));
        case Undefined => return Some(JUndefined);
        case Num(n) => return Some(EncodeNumber(n));
        case Big(i) => return Some(JBig(i));
        case Uncloneable => return None;
        case Ref(id) =>
          if id in seen {
            return Some(BackRef(seen[id]));
          }
          assert ValidObject(h, h[id]);
          var node := SeenAs(h, h[id]);
          seen := seen[id := |seen|];
          assert id in h.Keys - old(seen).Keys && id !in h.Keys - seen.Keys;
          var kids := WalkValues(h, node.kids);
          if kids.None? {
            return None;
          }
          return Some(Tagged(EncodeShape(node.shape), kids.value));
      }
    }

    /** The loops over entries, elements and properties. */
    method WalkValues(h: Heap, vs: seq<Value>) returns (r: Option<seq<Json>>)
      requires ValidHeap(h) && AllInHeap(h, vs) && seen.Keys <= h.Keys
      modifies this
      ensures match WalkAll(Flat(h), vs, old(seen))
              case Thrown => r.None?
              case Walked(js, after) => r == Some(js) && seen == after
      decreases h.Keys - seen.Keys, 1
    {
      hide Walk, WalkAll, Flat, ValidHeap;
      ghost var flat := Flat(h);
      var js: seq<Json> := [];
      assert WalkAll(flat, vs[..0], seen) == Walked([], seen) by { NoneWalked(flat, seen); }
      for i := 0 to |vs|
        invariant AllInHeap(h, vs[..i]) && seen.Keys <= h.Keys && old(seen).Keys <= seen.Keys
        invariant WalkAll(flat, vs[..i], old(seen)) == Walked(js, seen)
      {
        assert InHeap(h, vs[i]) && AllInHeap(h, vs[..i + 1]);
        assert vs[..i + 1] == vs[..i] + [vs[i]];
        WalkAllSnoc(flat, vs[..i], vs[i], old(seen));
        ghost var before := seen;
        var j := WalkValue(h, vs[i]);
        if j.None? {
          WalkAllThrows(flat, vs, i + 1, old(seen));
          return None;
        }
        js := js + [j.value];
      }
      assert vs[..|vs|] == vs;
      r := Some(js);
    }
  }

  lemma NoneWalked(h: Heap, seen: map<nat, nat>)
    requires Walkable(h) && seen.Keys <= h.Keys
    ensures WalkAll(h, [], seen) == Walked([], seen)
  {
  }

  // ---- decodeValue -----------------------------------------------------------------------------------------

  /** Map entries come in pairs. */
  ghost predicate Paired(j: Json) {
    j.Tagged? ==> (j.shape.MapOf? ==> |j.kids| % 2 == 0) && forall k | k in j.kids :: Paired(k)
  }

  class Decoder {
    const env: Globals
    var refs: seq<Node>

    constructor (env: Globals)
      ensures this.env == env && refs == []
    {
      this.env := env;
      refs := [];
    }

    method WalkJson(j: Json) returns (v: Value)
      requires Paired(j)
      modifies this
      ensures v == Decode(env, j, |old(refs)|).0
      ensures refs == old(refs) + Decode(env, j, |old(refs)|).1
      decreases j, 1
    {
      hide DecodeAll, Collect, DecodeShape;
      match j {
        case JNull => return Null;
        case JBool(b) => return Bool(b);
        case JStr(s) => return Str(s);
        case JNum(p) => return Num(Finite(p));
        case JUndefined => return Undefined;
        case JSpecial(text) => return Num(DecodeNumber(text));
        case JBig(i) => return Big(i);
        case BackRef(k) => return Ref(k);
        case Tagged(shape, kids) =>
          v := Ref(|refs|);
          refs := refs + [Node(DecodeShape(env, shape), [], true)];
          if shape.MapOf? {
            FillMap(|refs| - 1, j);
          } else {
            Fill(|refs| - 1, j);
          }
      }
    }

    /** Object n is the last one, just pushed and empty: its contents are decoded and added one by one. */
    method Fill(n: nat, j: Json)
      requires j.Tagged? && !j.shape.MapOf? && Paired(j)
      requires |refs| == n + 1 && refs[n] == Node(DecodeShape(env, j.shape), [], true)
      modifies this
      ensures var (vs, more) := DecodeAll(env, j.kids, n + 1);
        refs == old(refs)[..n] + [Node(DecodeShape(env, j.shape), Collect(j.shape, vs), true)] + more
      decreases j, 0
    {
      hide DecodeAll, Decode, Collect, AddOne, DecodeShape;
      var kids := j.kids;
      ghost var base := refs[..n];
      assert DecodeAll(env, kids[..0], n + 1) == ([], []) && Collect(j.shape, []) == [] by {
        NoneDecoded(env, n + 1);
        NoneCollected(j.shape);
      }
      for i := 0 to |kids|
        invariant var (vs, more) := DecodeAll(env, kids[..i], n + 1);
          refs == base + [Node(DecodeShape(env, j.shape), Collect(j.shape, vs), true)] + more
      {
        assert kids[i] in kids;
        assert kids[..i + 1] == kids[..i] + [kids[i]];
        DecodeAllSnoc(env, kids[..i], kids[i], n + 1);
        ghost var (vs, more) := DecodeAll(env, kids[..i], n + 1);
        var x := WalkJson(kids[i]);
        CollectSnoc(j.shape, vs, x);
        refs := refs[n := refs[n].(kids := AddOne(j.shape, refs[n].kids, x))];
      }
      assert kids[..|kids|] == kids;
    }

    /** The same for a Map, an entry at a time. */
    method FillMap(n: nat, j: Json)
      requires j.Tagged? && j.shape.MapOf? && Paired(j)
      requires |refs| == n + 1 && refs[n] == Node(DecodeShape(env, j.shape), [], true)
      modifies this
      ensures var (vs, more) := DecodeAll(env, j.kids, n + 1);
        refs == old(refs)[..n] + [Node(DecodeShape(env, j.shape), Collect(j.shape, vs), true)] + more
      decreases j, 0
    {
      hide DecodeAll, Decode, MapOfAll, MapSet;
      var kids := j.kids;
      ghost var base := refs[..n];
      assert DecodeAll(env, kids[..0], n + 1) == ([], []) && MapOfAll([], []) == [] by {
        NoneDecoded(env, n + 1);
        NoneCollected(MapOf);
      }
      var i := 0;
      while i < |kids|
        invariant i <= |kids| && i % 2 == 0
        invariant var (vs, more) := DecodeAll(env, kids[..i], n + 1);
          refs == base + [Node(MapOf, MapOfAll([], vs), true)] + more
      {
        assert kids[i] in kids && kids[i + 1] in kids;
        assert kids[..i + 2] == kids[..i] + [kids[i], kids[i + 1]];
        DecodeAllPair(env, kids[..i], kids[i], kids[i + 1], n + 1);
        ghost var (vs, more) := DecodeAll(env, kids[..i], n + 1);
        var k := WalkJson(kids[i]);
        var x := WalkJson(kids[i + 1]);
        MapOfAllSnoc([], vs, k, x);
        refs := refs[n := refs[n].(kids := MapSet(refs[n].kids, k, x))];
        i := i + 2;
      }
      assert kids[..|kids|] == kids;
    }
  }

  lemma NoneDecoded(env: Globals, n: nat)
    ensures DecodeAll(env, [], n) == ([], [])
  {
  }

  lemma {:induction false} WalkPaired(h: Heap, v: Value, seen: map<nat, nat>)
    requires Walkable(h) && InHeap(h, v) && seen.Keys <= h.Keys && Walk(h, v, seen).Walked?
    ensures Paired(Walk(h, v, seen).out)
    decreases h.Keys - seen.Keys, 0
  {
    if v.Ref? && v.id !in seen {
      var next := seen[v.id := |seen|];
      assert v.id in h.Keys - seen.Keys && v.id !in h.Keys - next.Keys;
      assert ValidNode(h[v.id]);
      WalkAllPaired(h, h[v.id].kids, next);
    }
  }

  lemma {:induction false} WalkAllPaired(h: Heap, vs: seq<Value>, seen: map<nat, nat>)
    requires Walkable(h) && AllInHeap(h, vs) && seen.Keys <= h.Keys && WalkAll(h, vs, seen).Walked?
    ensures forall j | j in WalkAll(h, vs, seen).out :: Paired(j)
    decreases h.Keys - seen.Keys, |vs|
  {
    if vs != [] {
      assert InHeap(h, vs[0]) && AllInHeap(h, vs[1..]);
      WalkPaired(h, vs[0], seen);
      WalkAllPaired(h, vs[1..], Walk(h, vs[0], seen).seen);
    }
  }

  /** Storing a value and reading it back, by the two walks above. */
  method StoreAndLoad(env: Globals, h: Heap, v: Value) returns (r: Option<(Value, Heap)>)
    requires ValidHeap(h) && InHeap(h, v)
    ensures r.None? <==> HoldsUncloneable(h, v)
    ensures r.Some? ==> exists f, x, nodes ::
      Renamed(env, Flat(h), v, f, x, nodes) && r.value == (Moved(x), Laid(nodes))
    ensures r.Some? ==> (Isomorphic(h, v, r.value.1, r.value.0) <==> AllKept(env, h, v))
  {
    hide Walk, Decode, Renamed, HoldsUncloneable, Isomorphic, AllKept, Flat, Laid;
    ThrowsIffUncloneable(h, v);
    var encoder := new Encoder();
    var j := encoder.WalkValue(h, v);
    if j.None? {
      return None;
    }
    WalkPaired(Flat(h), v, map[]);
    var decoder := new Decoder(env);
    var x := decoder.WalkJson(j.value);
    RoundTrip(env, h, v);
    IsomorphicIffKept(env, h, v);
    assert [] + Decode(env, j.value, 0).1 == Decode(env, j.value, 0).1;
    assert Renamed(env, Flat(h), v, EncodeValue(h, v).seen, x, decoder.refs);
    r := Some((Moved(x), Laid(decoder.refs)));
  }
}
