/** The payload index: a flat sorted list of paths that answers for a directory tree. */
module SeaTree {
  import opened Wrappers
  import opened Bytes
  import opened Sequences

  type Path = seq<byte>

  const SLASH: byte := 47
  const PREFIX_MAX := 4096

  /** What fg_sea_load_index checks: each path after the previous one, in memcmp order with the shorter first. */
  predicate Sorted(paths: seq<Path>) {
    forall i, j | 0 <= i < j < |paths| :: Less(paths[i], paths[j])
  }

  method InOrder(paths: seq<Path>) returns (ok: bool)
    ensures ok <==> Sorted(paths)
  {
    for i := 0 to |paths|
      invariant Sorted(paths[..i])
    {
      if i > 0 && Compare(paths[i - 1], paths[i]) >= 0 {
        return false;
      }
      forall j | 0 <= j < i ensures Less(paths[j], paths[i]) {
        if j < i - 1 {
          assert paths[..i][j] == paths[j] && paths[..i][i - 1] == paths[i - 1];
          LessTransitive(paths[j], paths[i - 1], paths[i]);
        }
      }
    }
    assert paths[..|paths|] == paths;
    ok := true;
  }

  // ---- searching -------------------------------------------------------------------------------------------

  /** Where p belongs: everything before is smaller, nothing from there on is. */
  predicate Splits(paths: seq<Path>, p: Path, i: nat) {
    && i <= |paths|
    && (forall j | 0 <= j < i :: Less(paths[j], p))
    && (forall j | i <= j < |paths| :: !Less(paths[j], p))
  }

  method Lower(paths: seq<Path>, p: Path) returns (lo: nat)
    requires Sorted(paths)
    ensures Splits(paths, p, lo)
  {
    lo := 0;
    var hi := |paths|;
    while lo < hi
      invariant 0 <= lo <= hi <= |paths|
      invariant forall j | 0 <= j < lo :: Less(paths[j], p)
      invariant forall j | hi <= j < |paths| :: !Less(paths[j], p)
    {
      var mid := lo + (hi - lo) / 2;
      if Compare(paths[mid], p) < 0 {
        forall j | 0 <= j < mid ensures Less(paths[j], p) {
          LessTransitive(paths[j], paths[mid], p);
        }
        lo := mid + 1;
      } else {
        forall j | mid < j < |paths| ensures !Less(paths[j], p) {
          if Less(paths[j], p) { LessTransitive(paths[mid], paths[j], p); }
        }
        hi := mid;
      }
    }
  }

  method Find(paths: seq<Path>, p: Path) returns (r: Option<nat>)
    requires Sorted(paths)
    ensures r.Some? ==> r.value < |paths| && paths[r.value] == p
    ensures r.None? <==> p !in paths
  {
    var i := Lower(paths, p);
    if i < |paths| && paths[i] == p {
      return Some(i);
    }
    forall j | 0 <= j < |paths| ensures paths[j] != p {
      CompareEqual(paths[j], p);
      CompareEqual(p, paths[j]);
      if j >= i { AllAfter(paths, p, i, j); }
    }
    r := None;
  }

  lemma AllAfter(paths: seq<Path>, p: Path, i: nat, j: nat)
    requires Sorted(paths) && i <= j < |paths| && !Less(paths[i], p) && paths[i] != p
    ensures Less(p, paths[j])
  {
    CompareEqual(paths[i], p);
    CompareFlip(paths[i], p);
    if j > i { LessTransitive(p, paths[i], paths[j]); }
  }

  // ---- directories -----------------------------------------------------------------------------------------

  /** The prefix of everything inside a directory; the root is the empty path. */
  function Prefix(p: Path): Path { if p == [] then [] else p + [SLASH] }

  predicate Below(p: Path, e: Path) {
    Prefix(p) <= e && (p == [] || |e| > |Prefix(p)|)
  }

  /** A prefix of both ends of an interval is a prefix of everything in it. */
  lemma {:induction false} PrefixBetween(q: Path, a: Path, x: Path, b: Path)
    requires q <= a && q <= b && !Less(x, a) && !Less(b, x)
    ensures q <= x
  {
    if q != [] {
      CompareFlip(x, a);
      CompareFlip(b, x);
      assert a[0] == q[0] && b[0] == q[0];
      assert x != [] && x[0] == q[0];
      PrefixBetween(q[1..], a[1..], x[1..], b[1..]);
      assert q == [q[0]] + q[1..] && x == [x[0]] + x[1..];
    }
  }

  /** A prefix never comes after what it is a prefix of. */
  lemma {:induction false} PrefixFirst(q: Path, x: Path)
    requires q <= x
    ensures !Less(x, q) && (|q| < |x| ==> Less(q, x))
  {
    if q != [] {
      PrefixFirst(q[1..], x[1..]);
    }
  }

  /** The entries inside a directory are next to each other, from where its prefix belongs. */
  lemma BelowIsInterval(paths: seq<Path>, p: Path, i: nat, j: nat, k: nat)
    requires Sorted(paths) && p != [] && Splits(paths, Prefix(p), i) && i <= j <= k < |paths| && Prefix(p) <= paths[k]
    ensures Prefix(p) <= paths[j]
  {
    var q := Prefix(p);
    CompareFlip(paths[j], q);
    CompareEqual(paths[j], paths[k]);
    if j < k {
      CompareFlip(paths[j], paths[k]);
      PrefixBetween(q, q, paths[j], paths[k]);
    }
  }

  /**
   * Something lies below, and the prefix fits its buffer and is not itself an entry (no normalised path ends in a
   * slash).
   */
  predicate Listable(paths: seq<Path>, p: Path) {
    && (exists e | e in paths :: Below(p, e))
    && (p == [] || (|p| + 1 < PREFIX_MAX && Prefix(p) !in paths))
  }

  /** The example: in the index a/, a/b something lies below a, and a is not listable. */
  lemma PrefixEntryHides()
    ensures var paths: seq<Path> := [[97, 47], [97, 47, 98]];
      Sorted(paths) && (exists e | e in paths :: Below([97], e)) && !Listable(paths, [97])
  {
    var paths: seq<Path> := [[97, 47], [97, 47, 98]];
    var p: Path := [97];
    assert Prefix(p) == paths[0] && Prefix(p) <= paths[1];
    PrefixFirst(paths[0], paths[1]);
    assert paths[1] in paths && Below(p, paths[1]);
  }

  /** First entry inside a directory, or the number of entries when there is none. */
  method DirStart(paths: seq<Path>, p: Path) returns (i: nat)
    requires Sorted(paths)
    ensures i <= |paths| && (i < |paths| ==> Below(p, paths[i]) && forall j | 0 <= j < i :: !Below(p, paths[j]))
    ensures i < |paths| <==> Listable(paths, p)
  {
    if p == [] {
      assert forall e | e in paths :: Below(p, e);
      assert |paths| > 0 ==> paths[0] in paths;
      return 0;
    }
    if |p| + 1 >= PREFIX_MAX {
      return |paths|;
    }
    var q := p + [SLASH];
    i := Lower(paths, q);
    forall j | 0 <= j < i ensures !Below(p, paths[j]) && paths[j] != q {
      if q <= paths[j] { PrefixFirst(q, paths[j]); }
      CompareEqual(paths[j], q);
    }
    if i < |paths| && |paths[i]| > |q| && paths[i][..|q|] == q {
      assert Below(p, paths[i]) && paths[i] in paths;
      forall j | i <= j < |paths| ensures paths[j] != q {
        if j > i { PrefixFirst(q, paths[i]); CompareEqual(paths[j], q); CompareFlip(paths[i], paths[j]); }
      }
      return;
    }
    if e :| e in paths && Below(p, e) {
      var k :| 0 <= k < |paths| && paths[k] == e;
      BelowIsInterval(paths, p, i, i, k);
      assert paths[i] == q;
    }
    i := |paths|;
  }

  datatype Kind = File(index: nat) | Directory

  /** stat: a file if there is an entry, else a directory if there are entries below. */
  method Stat(paths: seq<Path>, p: Path) returns (r: Option<Kind>)
    requires Sorted(paths)
    ensures r.Some? && r.value.File? <==> p in paths
    ensures r.Some? && r.value.File? ==> r.value.index < |paths| && paths[r.value.index] == p
    ensures r == Some(Directory) <==> p !in paths && Listable(paths, p)
  {
    var found := Find(paths, p);
    if found.Some? {
      return Some(File(found.value));
    }
    var i := DirStart(paths, p);
    r := if i < |paths| then Some(Directory) else None;
  }

  // ---- listing ---------------------------------------------------------------------------------------------

  /** The first component of what follows the directory's prefix. */
  function NameOf(e: Path, skip: nat): (name: Path)
    requires skip <= |e|
    ensures |name| <= |e| - skip && name == e[skip..skip + |name|] && SLASH !in name
    ensures skip + |name| < |e| ==> e[skip + |name|] == SLASH
    decreases |e| - skip
  {
    if skip == |e| || e[skip] == SLASH then [] else [e[skip]] + NameOf(e, skip + 1)
  }

  /** The names of the entries inside p, in index order. */
  function NamesIn(paths: seq<Path>, p: Path): seq<Path> {
    if paths == [] then []
    else (if Below(p, paths[0]) then [NameOf(paths[0], |Prefix(p)|)] else []) + NamesIn(paths[1..], p)
  }

  /** Without immediate repetitions. */
  function Squash(names: seq<Path>): (r: seq<Path>)
    ensures names == [] <==> r == []
    ensures names != [] ==> r[|r| - 1] == names[|names| - 1]
  {
    if names == [] then []
    else
      var n := |names| - 1;
      var r := Squash(names[..n]);
      if n > 0 && names[n - 1] == names[n] then r else r + [names[n]]
  }

  lemma {:induction false} NamesAppend(paths: seq<Path>, e: Path, p: Path)
    ensures NamesIn(paths + [e], p) == NamesIn(paths, p) + (if Below(p, e) then [NameOf(e, |Prefix(p)|)] else [])
  {
    hide NameOf;
    if paths == [] {
      assert paths + [e] == [e];
      assert NamesIn([e][1..], p) == [];
    } else {
      assert (paths + [e])[1..] == paths[1..] + [e];
      NamesAppend(paths[1..], e, p);
    }
  }

  lemma {:induction false} NoNames(paths: seq<Path>, p: Path)
    requires forall j | 0 <= j < |paths| :: !Below(p, paths[j])
    ensures NamesIn(paths, p) == []
  {
    if paths != [] { NoNames(paths[1..], p); }
  }

  lemma {:induction false} NamesConcat(a: seq<Path>, b: seq<Path>, p: Path)
    ensures NamesIn(a + b, p) == NamesIn(a, p) + NamesIn(b, p)
  {
    if a == [] {
      assert a + b == b;
    } else {
      assert (a + b)[1..] == a[1..] + b;
      NamesConcat(a[1..], b, p);
      Regroup(if Below(p, a[0]) then [NameOf(a[0], |Prefix(p)|)] else [], NamesIn(a[1..], p), NamesIn(b, p));
    }
  }

  /** readdir: a repeated name is skipped when it is the previous one; the scan stops at the first entry outside. */
  method Readdir(paths: seq<Path>, p: Path) returns (r: Option<seq<Path>>)
    requires Sorted(paths)
    ensures r.Some? <==> Listable(paths, p)
    ensures r.Some? ==> r.value == Squash(NamesIn(paths, p))
  {
    var i := DirStart(paths, p);
    if i >= |paths| {
      return None;
    }
    NoNames(paths[..i], p);
    var out := NamesFrom(paths, p, i);
    r := Some(out);
  }

  method NamesFrom(paths: seq<Path>, p: Path, start: nat) returns (out: seq<Path>)
    requires Sorted(paths) && start < |paths| && Below(p, paths[start]) && NamesIn(paths[..start], p) == []
    ensures out == Squash(NamesIn(paths, p))
  {
    hide Sorted, NamesIn, Squash, NameOf;
    var skip := |Prefix(p)|;
    out := [];
    var last: Option<Path> := None;
    ghost var names: seq<Path> := [];
    var i := start;
    while i < |paths|
      invariant start <= i <= |paths|
      invariant names == NamesIn(paths[..i], p) && out == Squash(names)
      invariant last == if names == [] then None else Some(names[|names| - 1])
    {
      var e := paths[i];
      if skip > 0 && (|e| <= skip || !(Prefix(p) <= e)) {
        NothingAfter(paths, p, start, i);
        return;
      }
      assert Below(p, e);
      var name := NameOf(e, skip);
      NamesAppend(paths[..i], e, p);
      assert paths[..i + 1] == paths[..i] + [e];
      SquashAppend(names, name);
      names := names + [name];
      i := i + 1;
      if last == Some(name) { continue; }
      last := Some(name);
      out := out + [name];
    }
    assert paths[..i] == paths;
  }

  /** Between two entries of a directory there are only entries of it. */
  lemma NoGap(paths: seq<Path>, p: Path, start: nat, i: nat, j: nat)
    requires Sorted(paths) && start <= i <= j < |paths| && Below(p, paths[start]) && Below(p, paths[j])
    ensures Below(p, paths[i])
  {
    var q := Prefix(p);
    CompareEqual(paths[start], paths[start]);
    CompareEqual(paths[i], paths[i]);
    if start < i { CompareFlip(paths[start], paths[i]); }
    if i < j { CompareFlip(paths[i], paths[j]); }
    PrefixBetween(q, paths[start], paths[i], paths[j]);
    if p != [] && start < i {
      PrefixFirst(q, paths[start]);
      LessTransitive(q, paths[start], paths[i]);
      CompareEqual(q, paths[i]);
    }
  }

  lemma NothingAfter(paths: seq<Path>, p: Path, start: nat, i: nat)
    requires Sorted(paths) && start <= i < |paths| && Below(p, paths[start]) && !Below(p, paths[i])
    ensures NamesIn(paths, p) == NamesIn(paths[..i], p)
  {
    hide Sorted, Below, NamesIn;
    forall j | i <= j < |paths| ensures !Below(p, paths[j]) {
      if Below(p, paths[j]) { NoGap(paths, p, start, i, j); }
    }
    NamesConcat(paths[..i], paths[i..], p);
    NoNames(paths[i..], p);
    assert paths[..i] + paths[i..] == paths;
  }

  lemma SquashAppend(names: seq<Path>, name: Path)
    ensures Squash(names + [name]) ==
      if names != [] && names[|names| - 1] == name then Squash(names) else Squash(names) + [name]
  {
    assert (names + [name])[..|names|] == names;
  }

  /** An entry lies inside a directory if it is the directory's path, a slash and more; all lie in the root. */
  lemma BelowMeans(p: Path, e: Path)
    ensures p != [] ==> (Below(p, e) <==> exists rest :: rest != [] && e == p + [47] + rest)
    ensures Below([], e)
  {
    if p != [] && Below(p, e) {
      var rest := e[|p| + 1..];
      assert e == p + [47] + rest;
    }
  }

  /** A directory needs a path under 4095 bytes, an entry inside and none that is path and slash; the root any entry. */
  lemma ListableMeans(paths: seq<Path>, p: Path)
    ensures Listable(paths, []) <==> paths != []
    ensures p != [] ==>
      (Listable(paths, p) <==>
        |p| < 4095 && p + [47] !in paths && exists e, rest | e in paths :: e == p + [47] + rest && rest != [])
  {
    if paths != [] { assert paths[0] in paths && Below([], paths[0]); }
    forall e | e in paths { BelowMeans(p, e); }
  }
}
