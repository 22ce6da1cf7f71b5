/** The flat index is a directory tree: what listings contain, and when a name can appear twice. */
module SeaTreeTheorems {
  import opened Bytes
  import opened SeaTree

  /** e is the child c of p itself, or lies inside the directory c of p. */
  predicate Under(p: Path, c: Path, e: Path) {
    e == Prefix(p) + c || Prefix(p) + c + [SLASH] <= e
  }

  lemma {:induction false} NameRest(e: Path, skip: nat, c: Path)
    requires skip <= |e| && SLASH !in c
    ensures NameOf(e, skip) == c <==> e[skip..] == c || c + [SLASH] <= e[skip..]
    decreases |e| - skip
  {
    var rest := e[skip..];
    if skip < |e| && e[skip] != SLASH && c != [] {
      NameRest(e, skip + 1, c[1..]);
      assert rest == [e[skip]] + e[skip + 1..];
      assert c == [c[0]] + c[1..];
    }
  }

  lemma NameIs(e: Path, skip: nat, c: Path)
    requires skip <= |e| && SLASH !in c
    ensures NameOf(e, skip) == c <==> e == e[..skip] + c || e[..skip] + c + [SLASH] <= e
  {
    NameRest(e, skip, c);
    SamePrefix(e[..skip], e[skip..], c);
    SamePrefix(e[..skip], e[skip..], c + [SLASH]);
    assert e == e[..skip] + e[skip..];
    assert e[..skip] + c + [SLASH] == e[..skip] + (c + [SLASH]);
  }

  lemma SamePrefix(q: Path, rest: Path, c: Path)
    ensures rest == c <==> q + rest == q + c
    ensures c <= rest <==> q + c <= q + rest
  {
    if q + rest == q + c { assert rest == (q + rest)[|q|..] == (q + c)[|q|..] == c; }
    if q + c <= q + rest { assert c == (q + c)[|q|..] == (q + rest)[..|q| + |c|][|q|..] == rest[..|c|]; }
  }

  lemma UnderIsNamed(p: Path, c: Path, e: Path)
    requires Below(p, e) && SLASH !in c
    ensures Under(p, c, e) <==> NameOf(e, |Prefix(p)|) == c
  {
    assert e[..|Prefix(p)|] == Prefix(p);
    NameIs(e, |Prefix(p)|, c);
  }

  // ---- contents --------------------------------------------------------------------------------------------

  lemma {:induction false} NamesAre(paths: seq<Path>, p: Path, c: Path)
    ensures c in NamesIn(paths, p) <==> exists e | e in paths :: Below(p, e) && NameOf(e, |Prefix(p)|) == c
  {
    if paths != [] {
      NamesAre(paths[1..], p, c);
      assert forall e :: e in paths <==> e == paths[0] || e in paths[1..];
    }
  }

  lemma {:induction false} SquashKeeps(names: seq<Path>, c: Path)
    ensures c in Squash(names) <==> c in names
  {
    if names != [] {
      var n := |names| - 1;
      SquashKeeps(names[..n], c);
      assert names == names[..n] + [names[n]];
      if n > 0 && names[n - 1] == names[n] { assert names[n - 1] in names[..n]; }
    }
  }

  /** A listing names exactly the children: the files in the directory, and the directories that something is in. */
  lemma ListedIffChild(paths: seq<Path>, p: Path, c: Path)
    requires SLASH !in c
    ensures c in Squash(NamesIn(paths, p)) <==> exists e | e in paths :: Below(p, e) && Under(p, c, e)
  {
    hide Under;
    SquashKeeps(NamesIn(paths, p), c);
    NamesAre(paths, p, c);
    forall e | e in paths && Below(p, e) ensures Under(p, c, e) <==> NameOf(e, |Prefix(p)|) == c {
      UnderIsNamed(p, c, e);
    }
  }

  // ---- once each -------------------------------------------------------------------------------------------

  predicate Distinct(names: seq<Path>) {
    forall i, j | 0 <= i < j < |names| :: names[i] != names[j]
  }

  /** A name that comes back after another one. */
  predicate Returns(names: seq<Path>, i: int, j: int, k: int) {
    0 <= i < j < k < |names| && names[i] == names[k] && names[j] != names[i]
  }

  ghost predicate SomeReturns(names: seq<Path>) {
    exists i, j, k :: Returns(names, i, j, k)
  }

  lemma {:induction false} RepeatsReturn(names: seq<Path>)
    ensures Distinct(Squash(names)) <==> !SomeReturns(names)
    decreases |names|
  {
    if names != [] {
      var n := |names| - 1;
      var was, last := names[..n], names[n];
      RepeatsReturn(was);
      if SomeReturns(was) {
        var i, j, k :| Returns(was, i, j, k);
        assert Returns(names, i, j, k);
      }
      if n > 0 && was[n - 1] == last {
        LastRepeated(names);
      } else {
        LastFresh(names);
      }
    }
  }

  /** Repeating the last name brings nothing back that was not already. */
  lemma LastRepeated(names: seq<Path>)
    requires |names| >= 2 && names[|names| - 2] == names[|names| - 1]
    ensures SomeReturns(names) <==> SomeReturns(names[..|names| - 1])
  {
    var n := |names| - 1;
    var was := names[..n];
    if SomeReturns(names) {
      var i, j, k :| Returns(names, i, j, k);
      if k == n {
        assert j < n - 1;
        assert Returns(was, i, j, n - 1);
      } else {
        assert Returns(was, i, j, k);
      }
    }
    if SomeReturns(was) {
      var i, j, k :| Returns(was, i, j, k);
      assert Returns(names, i, j, k);
    }
  }

  lemma DistinctAppend(r: seq<Path>, last: Path)
    ensures Distinct(r + [last]) <==> Distinct(r) && last !in r
  {
    var s := r + [last];
    if Distinct(s) {
      forall i, j | 0 <= i < j < |r| ensures r[i] != r[j] {
        assert s[i] == r[i] && s[j] == r[j];
      }
      forall i | 0 <= i < |r| ensures r[i] != last {
        assert s[i] == r[i] && s[|r|] == last;
      }
    }
  }

  /** A last name that differs from the one before comes back exactly when it was there before. */
  lemma LastReturns(names: seq<Path>)
    requires names != [] && (|names| == 1 || names[|names| - 2] != names[|names| - 1])
    ensures var was := names[..|names| - 1]; SomeReturns(names) <==> SomeReturns(was) || names[|names| - 1] in was
  {
    var n := |names| - 1;
    var was, last := names[..n], names[n];
    if last in was {
      var i :| 0 <= i < n && was[i] == last;
      assert Returns(names, i, n - 1, n);
    }
    if SomeReturns(was) {
      var i, j, k :| Returns(was, i, j, k);
      assert Returns(names, i, j, k);
    }
    if SomeReturns(names) {
      var i, j, k :| Returns(names, i, j, k);
      if k < n { assert Returns(was, i, j, k); } else { assert was[i] == last; }
    }
  }

  lemma LastFresh(names: seq<Path>)
    requires names != [] && (|names| == 1 || names[|names| - 2] != names[|names| - 1])
    requires Distinct(Squash(names[..|names| - 1])) <==> !SomeReturns(names[..|names| - 1])
    ensures Distinct(Squash(names)) <==> !SomeReturns(names)
  {
    hide SomeReturns, Distinct;
    var was, last := names[..|names| - 1], names[|names| - 1];
    LastReturns(names);
    SquashKeeps(was, last);
    DistinctAppend(Squash(was), last);
  }

  /** The child c of p is a file and a directory, and an entry of p sorts between the two. */
  ghost predicate Clash(paths: seq<Path>, p: Path, c: Path) {
    exists e, f | e in paths && f in paths :: Splits3(paths, p, c, e, f)
  }

  predicate Splits3(paths: seq<Path>, p: Path, c: Path, e: Path, f: Path) {
    && SLASH !in c && Prefix(p) + c in paths && Below(p, Prefix(p) + c)
    && Below(p, e) && !Under(p, c, e) && Less(Prefix(p) + c, e) && Less(e, f) && Prefix(p) + c + [SLASH] <= f
  }

  /** The positions of a directory's entries, in order: name i is that of the i-th entry inside. */
  lemma {:induction false} NameAt(paths: seq<Path>, p: Path, i: nat) returns (k: nat)
    requires i < |NamesIn(paths, p)|
    ensures k < |paths| && Below(p, paths[k]) && NameOf(paths[k], |Prefix(p)|) == NamesIn(paths, p)[i]
    ensures i == |NamesIn(paths[..k], p)|
  {
    hide NameOf, Below;
    if Below(p, paths[0]) && i == 0 {
      k := 0;
    } else {
      var b := if Below(p, paths[0]) then 1 else 0;
      var k' := NameAt(paths[1..], p, i - b);
      k := k' + 1;
      assert paths[..k][1..] == paths[1..][..k'] && paths[..k][0] == paths[0];
    }
  }

  /** Earlier names come from earlier entries. */
  lemma NamesFollowEntries(paths: seq<Path>, p: Path, k: nat, l: nat)
    requires l <= k <= |paths|
    ensures |NamesIn(paths[..l], p)| <= |NamesIn(paths[..k], p)|
  {
    assert paths[..k] == paths[..l] + paths[l..k];
    NamesConcat(paths[..l], paths[l..k], p);
  }

  /** The entry at k, when it is inside, gives the name at the count of those before it. */
  lemma NameOfEntry(paths: seq<Path>, p: Path, k: nat)
    requires k < |paths| && Below(p, paths[k])
    ensures var i := |NamesIn(paths[..k], p)|;
      i < |NamesIn(paths, p)| && NamesIn(paths, p)[i] == NameOf(paths[k], |Prefix(p)|)
  {
    var a, b := paths[..k], paths[k + 1..];
    NamesConcat(a + [paths[k]], b, p);
    NamesAppend(a, paths[k], p);
    assert a + [paths[k]] + b == paths;
  }

  /** Of three entries with the names c, another one and c again, the first is the file c and the last is inside it. */
  lemma ReturnIsClash(paths: seq<Path>, p: Path, x: nat, y: nat, z: nat, c: Path)
    requires Sorted(paths) && x < y < z < |paths| && SLASH !in c
    requires Below(p, paths[x]) && Below(p, paths[y]) && Below(p, paths[z])
    requires Under(p, c, paths[x]) && !Under(p, c, paths[y]) && Under(p, c, paths[z])
    ensures Clash(paths, p, c)
  {
    var q := Prefix(p) + c;
    CompareFlip(paths[x], paths[y]);
    CompareFlip(paths[y], paths[z]);
    if q + [SLASH] <= paths[x] {
      EndInside(q, paths[x], paths[z]);
      CompareFlip(paths[x], paths[z]);
      PrefixBetween(q + [SLASH], paths[x], paths[y], paths[z]);
    } else {
      assert paths[x] == q;
      LessTransitive(paths[x], paths[y], paths[z]);
      CompareEqual(q, paths[z]);
      assert Splits3(paths, p, c, paths[y], paths[z]);
    }
  }

  /** What follows something inside q and is q or inside it, is inside it. */
  lemma EndInside(q: Path, a: Path, b: Path)
    requires q + [SLASH] <= a && (b == q || q + [SLASH] <= b) && (a == b || Less(a, b) || !Less(b, a))
    ensures q + [SLASH] <= b || Less(b, a)
  {
    if b == q {
      assert q <= a by { assert q + [SLASH] == a[..|q| + 1]; assert a[..|q|] == q; }
      PrefixFirst(q, a);
    }
  }

  lemma ClashReturns(paths: seq<Path>, p: Path, c: Path)
    requires Sorted(paths) && Clash(paths, p, c)
    ensures SomeReturns(NamesIn(paths, p))
  {
    var e, f :| e in paths && f in paths && Splits3(paths, p, c, e, f);
    var q := Prefix(p) + c;
    var x :| 0 <= x < |paths| && paths[x] == q;
    var y :| 0 <= y < |paths| && paths[y] == e;
    var z :| 0 <= z < |paths| && paths[z] == f;
    OrderOf(paths, x, y);
    OrderOf(paths, y, z);
    InsideIsBelow(p, c, f);
    NameOfEntry(paths, p, x);
    NameOfEntry(paths, p, y);
    NameOfEntry(paths, p, z);
    UnderIsNamed(p, c, q);
    UnderIsNamed(p, c, e);
    UnderIsNamed(p, c, f);
    NamesStrictly(paths, p, x, y);
    NamesStrictly(paths, p, y, z);
    assert Returns(NamesIn(paths, p), |NamesIn(paths[..x], p)|, |NamesIn(paths[..y], p)|, |NamesIn(paths[..z], p)|);
  }

  lemma InsideIsBelow(p: Path, c: Path, f: Path)
    requires Prefix(p) + c + [SLASH] <= f
    ensures Below(p, f) && Under(p, c, f)
  {
    assert f[..|Prefix(p)|] == (Prefix(p) + c + [SLASH])[..|Prefix(p)|] == Prefix(p);
  }

  lemma OrderOf(paths: seq<Path>, x: nat, y: nat)
    requires Sorted(paths) && x < |paths| && y < |paths| && Less(paths[x], paths[y])
    ensures x < y
  {
    CompareEqual(paths[x], paths[y]);
    CompareFlip(paths[x], paths[y]);
  }

  lemma NamesStrictly(paths: seq<Path>, p: Path, x: nat, y: nat)
    requires x < y <= |paths| && Below(p, paths[x])
    ensures |NamesIn(paths[..x], p)| < |NamesIn(paths[..y], p)|
  {
    NamesAppend(paths[..x], paths[x], p);
    assert paths[..x + 1] == paths[..x] + [paths[x]];
    NamesFollowEntries(paths, p, y, x + 1);
  }

  lemma ReturnsClash(paths: seq<Path>, p: Path)
    requires Sorted(paths) && SomeReturns(NamesIn(paths, p))
    ensures exists c :: Clash(paths, p, c)
  {
    hide Clash, Under;
    var names := NamesIn(paths, p);
    var i, j, k :| Returns(names, i, j, k);
    var x := NameAt(paths, p, i);
    var y := NameAt(paths, p, j);
    var z := NameAt(paths, p, k);
    if y <= x { NamesFollowEntries(paths, p, x, y); }
    if z <= y { NamesFollowEntries(paths, p, y, z); }
    var c := names[i];
    UnderIsNamed(p, c, paths[x]);
    UnderIsNamed(p, c, paths[y]);
    UnderIsNamed(p, c, paths[z]);
    ReturnIsClash(paths, p, x, y, z, c);
  }

  /**
   * A listing names each child once, exactly unless some child is both a file and a directory and another entry
   * sorts between the two, such as "a", "a-b", "a/c".
   */
  lemma ListedOnce(paths: seq<Path>, p: Path)
    requires Sorted(paths)
    ensures Distinct(Squash(NamesIn(paths, p))) <==> !exists c :: Clash(paths, p, c)
  {
    hide Clash, SomeReturns, Distinct;
    RepeatsReturn(NamesIn(paths, p));
    if SomeReturns(NamesIn(paths, p)) { ReturnsClash(paths, p); }
    if c :| Clash(paths, p, c) { ClashReturns(paths, p, c); }
  }

  /** In particular when no file is also a directory. */
  lemma TreesListOnce(paths: seq<Path>, p: Path)
    requires Sorted(paths) && forall e, f | e in paths && f in paths :: !(e + [SLASH] <= f)
    ensures Distinct(Squash(NamesIn(paths, p)))
  {
    hide Distinct;
    ListedOnce(paths, p);
    if c :| Clash(paths, p, c) { ClashIsBoth(paths, p, c); }
  }

  lemma ClashIsBoth(paths: seq<Path>, p: Path, c: Path)
    requires Clash(paths, p, c)
    ensures exists e, f | e in paths && f in paths :: e + [SLASH] <= f
  {
  }

  /** The example: the index a, a-b, a/c lists the root as a, a-b, a. */
  lemma ListedTwice()
    ensures var paths: seq<Path> := [[97], [97, 45, 98], [97, 47, 99]];
      Sorted(paths) && Squash(NamesIn(paths, [])) == [[97], [97, 45, 98], [97]]
  {
    hide NamesIn, Squash, NameOf, Less;
    var a: Path := [97];
    var b: Path := [97, 45, 98];
    var c: Path := [97, 47, 99];
    var none: seq<Path> := [];
    ExampleNames(a, b, c);
    NamesAppend(none, a, []);
    NamesAppend([a], b, []);
    NamesAppend([a, b], c, []);
    assert none + [a] == [a] && [a] + [b] == [a, b] && [a, b] + [c] == [a, b, c] && [a, b] + [a] == [a, b, a];
    NothingYet();
    NothingRepeats(a, b);
  }

  lemma NothingRepeats(a: Path, b: Path)
    requires a != b
    ensures Squash([a, b, a]) == [a, b, a]
  {
    hide Squash;
    var none: seq<Path> := [];
    SquashAppend(none, a);
    SquashAppend([a], b);
    SquashAppend([a, b], a);
    assert none + [a] == [a] && [a] + [b] == [a, b] && [a, b] + [a] == [a, b, a];
    NothingYet();
  }

  lemma NothingYet()
    ensures NamesIn([], []) == [] && Squash([]) == []
  {
  }

  lemma ExampleNames(a: Path, b: Path, c: Path)
    requires a == [97] && b == [97, 45, 98] && c == [97, 47, 99]
    ensures NameOf(a, 0) == a && NameOf(b, 0) == b && NameOf(c, 0) == a
    ensures Less(a, b) && Less(b, c) && Less(a, c)
  {
    assert NameOf(b, 3) == [] && NameOf(b, 2) == [98] && NameOf(b, 1) == [45, 98];
    assert NameOf(c, 1) == [] && NameOf(a, 1) == [];
    assert a[1..] == [] && b[1..] == [45, 98] && c[1..] == [47, 99];
  }
}
