/** Where an absolute path lies below the root of the payload, with "." and ".." resolved in one fixed buffer. */
module SeaPath {
  import opened Wrappers
  import opened Bytes

  const SLASH: byte := 47
  const BACKSLASH: byte := 92
  const DOT: byte := 46

  predicate IsSeparator(b: byte) { b == SLASH || b == BACKSLASH }

  // ---- the resolver on segments ----------------------------------------------------------------------------

  /** Splits at every separator, so neighbouring separators leave empty segments. */
  function Segments(s: seq<byte>): (r: seq<seq<byte>>)
    ensures |r| > 0
  {
    if s == [] then [[]]
    else
      var rest := Segments(s[1..]);
      if IsSeparator(s[0]) then [[]] + rest else [[s[0]] + rest[0]] + rest[1..]
  }

  function Join(stack: seq<seq<byte>>): seq<byte> {
    if stack == [] then []
    else if |stack| == 1 then stack[0]
    else Join(stack[..|stack| - 1]) + [SLASH] + stack[|stack| - 1]
  }

  /** One segment: kept out, popped for "..", or pushed while the joined path still fits. */
  function Step(stack: seq<seq<byte>>, seg: seq<byte>, cap: nat): Option<seq<seq<byte>>> {
    if seg == [] || seg == [DOT] then Some(stack)
    else if seg == [DOT, DOT] then (if stack == [] then None else Some(stack[..|stack| - 1]))
    else if |Join(stack)| + (if stack == [] then 0 else 1) + |seg| >= cap then None
    else Some(stack + [seg])
  }

  function Walk(segs: seq<seq<byte>>, stack: seq<seq<byte>>, cap: nat): Option<seq<seq<byte>>>
    decreases |segs|
  {
    if segs == [] then Some(stack)
    else
      var next := Step(stack, segs[0], cap);
      if next.None? then None else Walk(segs[1..], next.value, cap)
  }

  function Lower(b: byte): byte { if 65 <= b <= 90 then b + 32 else b }

  predicate SameByte(a: byte, b: byte, windows: bool) {
    if windows then Lower(if a == BACKSLASH then SLASH else a) == Lower(b) else a == b
  }

  /** The path is the root or continues it with a separator. */
  predicate InRoot(abs: seq<byte>, root: seq<byte>, windows: bool) {
    && |root| <= |abs|
    && (forall i | 0 <= i < |root| :: SameByte(abs[i], root[i], windows))
    && (|abs| > |root| ==> IsSeparator(abs[|root|]))
  }

  /** The segment stack of a path inside the root. */
  function Resolve(abs: seq<byte>, root: seq<byte>, windows: bool, cap: nat): Option<seq<seq<byte>>> {
    if InRoot(abs, root, windows) then Walk(Segments(abs[|root|..]), [], cap) else None
  }

  /** A segment that can be on the stack: not empty, not "." or "..", without separators. */
  predicate Proper(seg: seq<byte>) {
    seg != [] && seg != [DOT] && seg != [DOT, DOT] && forall i | 0 <= i < |seg| :: !IsSeparator(seg[i])
  }

  predicate AllProper(stack: seq<seq<byte>>) {
    forall i | 0 <= i < |stack| :: Proper(stack[i])
  }

  // ---- joining ---------------------------------------------------------------------------------------------

  lemma JoinPush(stack: seq<seq<byte>>, seg: seq<byte>)
    ensures Join(stack + [seg]) == if stack == [] then seg else Join(stack) + [SLASH] + seg
  {
    var s := stack + [seg];
    assert s[..|s| - 1] == stack;
  }

  lemma {:induction false} JoinNonempty(stack: seq<seq<byte>>)
    requires AllProper(stack)
    ensures Join(stack) == [] <==> stack == []
  {
    if |stack| == 1 { assert Proper(stack[0]); }
  }

  /** Without its last segment the joined path ends just before the last slash. */
  lemma JoinPop(stack: seq<seq<byte>>)
    requires AllProper(stack) && stack != []
    ensures var rest := Join(stack[..|stack| - 1]);
      && rest <= Join(stack) && |Join(stack)| == |rest| + (if |stack| == 1 then 0 else 1) + |stack[|stack| - 1]|
      && (|stack| > 1 ==> Join(stack)[|rest|] == SLASH)
      && forall i | |rest| + (if |stack| == 1 then 0 else 1) <= i < |Join(stack)| :: Join(stack)[i] != SLASH
  {
    var seg := stack[|stack| - 1];
    assert Proper(seg);
    assert stack[..|stack| - 1] + [seg] == stack;
    JoinPush(stack[..|stack| - 1], seg);
    var rest, all := Join(stack[..|stack| - 1]), Join(stack);
    var skip := |rest| + (if |stack| == 1 then 0 else 1);
    forall i | skip <= i < |all| ensures all[i] != SLASH {
      assert all[i] == seg[i - skip];
    }
  }

  // ---- walking ---------------------------------------------------------------------------------------------

  /** A leading separator changes nothing. */
  lemma WalkSeparator(s: seq<byte>, stack: seq<seq<byte>>, cap: nat)
    requires s != [] && IsSeparator(s[0])
    ensures Walk(Segments(s), stack, cap) == Walk(Segments(s[1..]), stack, cap)
  {
    assert Segments(s)[1..] == Segments(s[1..]);
  }

  lemma {:induction false} FirstSegment(s: seq<byte>, k: nat)
    requires k <= |s| && (forall i | 0 <= i < k :: !IsSeparator(s[i])) && (k < |s| ==> IsSeparator(s[k]))
    ensures Segments(s) == [s[..k]] + (if k < |s| then Segments(s[k + 1..]) else [])
    decreases k
  {
    if k > 0 {
      FirstSegment(s[1..], k - 1);
      assert s[1..][..k - 1] == s[1..k] && [s[0]] + s[1..k] == s[..k];
      if k < |s| { assert s[1..][k..] == s[k + 1..]; }
    }
  }

  /** Walking a path is taking its first segment, then walking what follows it. */
  lemma WalkSegment(s: seq<byte>, k: nat, stack: seq<seq<byte>>, cap: nat)
    requires k <= |s| && (forall i | 0 <= i < k :: !IsSeparator(s[i])) && (k < |s| ==> IsSeparator(s[k]))
    ensures Walk(Segments(s), stack, cap) ==
      var next := Step(stack, s[..k], cap);
      if next.None? then None else Walk(Segments(s[k..]), next.value, cap)
  {
    FirstSegment(s, k);
    var next := Step(stack, s[..k], cap);
    if k < |s| {
      assert Segments(s)[1..] == Segments(s[k + 1..]);
      assert s[k..][1..] == s[k + 1..];
      if next.Some? { WalkSeparator(s[k..], next.value, cap); }
    } else {
      assert s[k..] == [] && Segments(s)[1..] == [];
      if next.Some? { WalkNothing(next.value, cap); }
    }
  }

  lemma WalkNothing(stack: seq<seq<byte>>, cap: nat)
    ensures Walk(Segments([]), stack, cap) == Some(stack) == Walk([], stack, cap)
  {
    assert Segments([])[1..] == [];
  }

  // ---- the buffer ------------------------------------------------------------------------------------------

  /** Drops the last segment by running back over the buffer to the previous slash. */
  method Ascend(rel: array<byte>, n: nat, ghost stack: seq<seq<byte>>) returns (m: nat)
    requires AllProper(stack) && stack != [] && n <= rel.Length && rel[..n] == Join(stack)
    ensures m <= n && rel[..m] == Join(stack[..|stack| - 1])
  {
    JoinPop(stack);
    ghost var rest := Join(stack[..|stack| - 1]);
    ghost var skip := |rest| + if |stack| == 1 then 0 else 1;
    assert forall i | 0 <= i < n :: rel[i] == Join(stack)[i];
    m := n;
    while m > 0 && rel[m - 1] != SLASH
      invariant skip <= m <= n
    {
      m := m - 1;
    }
    if m > 0 { m := m - 1; }
  }

  method Append(rel: array<byte>, n: nat, seg: seq<byte>) returns (m: nat)
    requires n + (if n > 0 then 1 else 0) + |seg| <= rel.Length
    modifies rel
    ensures m == n + (if n > 0 then 1 else 0) + |seg|
    ensures rel[..m] == old(rel[..n]) + (if n > 0 then [SLASH] else []) + seg
  {
    ghost var was := rel[..n];
    m := n;
    if m > 0 {
      rel[m] := SLASH;
      m := m + 1;
    }
    ghost var front := was + if n > 0 then [SLASH] else [];
    assert rel[..m] == front;
    ghost var start := m;
    for k := 0 to |seg|
      invariant m == start + k && rel[..m] == front + seg[..k]
    {
      rel[m] := seg[k];
      m := m + 1;
      assert seg[..k + 1] == seg[..k] + [seg[k]];
    }
    assert seg[..|seg|] == seg;
  }

  /** One segment applied to the buffer: what Step says, with the buffer the joined stack again. */
  method Apply(rel: array<byte>, n: nat, seg: seq<byte>, ghost stack: seq<seq<byte>>) returns (ok: bool, m: nat)
    requires AllProper(stack) && n < rel.Length && rel[..n] == Join(stack)
    requires forall i | 0 <= i < |seg| :: !IsSeparator(seg[i])
    modifies rel
    ensures ok <==> Step(stack, seg, rel.Length).Some?
    ensures ok ==> var next := Step(stack, seg, rel.Length).value;
      AllProper(next) && m < rel.Length && rel[..m] == Join(next)
  {
    JoinNonempty(stack);
    if |seg| == 0 || (|seg| == 1 && seg[0] == DOT) {
      return true, n;
    }
    if |seg| == 2 && seg[0] == DOT && seg[1] == DOT {
      if n == 0 {
        return false, n;
      }
      m := Ascend(rel, n, stack);
      return true, m;
    }
    assert Proper(seg);
    if n + (if n > 0 then 1 else 0) + |seg| >= rel.Length {
      return false, n;
    }
    JoinPush(stack, seg);
    m := Append(rel, n, seg);
    ok := true;
  }

  method RootMatches(abs: seq<byte>, root: seq<byte>, windows: bool) returns (ok: bool)
    ensures ok <==> InRoot(abs, root, windows)
  {
    if |abs| < |root| {
      return false;
    }
    for i := 0 to |root|
      invariant forall j | 0 <= j < i :: SameByte(abs[j], root[j], windows)
    {
      var a, b := abs[i], root[i];
      if windows {
        if a == BACKSLASH { a := SLASH; }
        if 65 <= a <= 90 { a := a - 65 + 97; }
        if 65 <= b <= 90 { b := b - 65 + 97; }
      }
      if a != b {
        return false;
      }
    }
    ok := !(|abs| > |root| && abs[|root|] != SLASH && abs[|root|] != BACKSLASH);
  }

  /** Refines the segment-stack resolver: fails exactly when it does, and leaves the joined stack in the buffer. */
  method Relative(abs: seq<byte>, root: seq<byte>, windows: bool, rel: array<byte>) returns (ok: bool, n: nat)
    requires rel.Length > 0
    modifies rel
    ensures ok <==> Resolve(abs, root, windows, rel.Length).Some?
    ensures ok ==> n < rel.Length && rel[n] == 0 && rel[..n] == Join(Resolve(abs, root, windows, rel.Length).value)
  {
    hide Walk, Segments, Step, Join;
    n := 0;
    var inside := RootMatches(abs, root, windows);
    if !inside {
      return false, 0;
    }
    var i := |root|;
    ghost var stack: seq<seq<byte>> := [];
    ghost var cap := rel.Length;
    JoinOfNothing();
    while i < |abs|
      invariant |root| <= i <= |abs| && n < rel.Length && rel[..n] == Join(stack) && AllProper(stack)
      invariant Resolve(abs, root, windows, cap) == Walk(Segments(abs[i..]), stack, cap)
      decreases |abs| - i
    {
      ghost var entry := i;
      while i < |abs| && IsSeparator(abs[i])
        modifies {}
        invariant entry <= i <= |abs|
        invariant Resolve(abs, root, windows, cap) == Walk(Segments(abs[i..]), stack, cap)
      {
        WalkSeparator(abs[i..], stack, cap);
        assert abs[i..][1..] == abs[i + 1..];
        i := i + 1;
      }
      var start := i;
      while i < |abs| && !IsSeparator(abs[i])
        modifies {}
        invariant start <= i <= |abs|
        invariant forall j | start <= j < i :: !IsSeparator(abs[j])
      {
        i := i + 1;
      }
      var seg := abs[start..i];
      WalkSegment(abs[start..], i - start, stack, cap);
      assert abs[start..][..i - start] == seg && abs[start..][i - start..] == abs[i..];
      forall j | 0 <= j < |seg| ensures !IsSeparator(seg[j]) {
        assert seg[j] == abs[start + j];
      }
      ok, n := Apply(rel, n, seg, stack);
      if !ok {
        return false, n;
      }
      stack := Step(stack, seg, cap).value;
    }
    WalkNothing(stack, cap);
    assert abs[i..] == [];
    ghost var joined := rel[..n];
    rel[n] := 0;
    assert rel[..n] == joined;
    ok := true;
  }

  lemma JoinOfNothing()
    ensures Join([]) == []
  {
  }

  // ---- what comes out --------------------------------------------------------------------------------------

  lemma {:induction false} SegmentsClean(s: seq<byte>, i: nat, j: nat)
    requires i < |Segments(s)| && j < |Segments(s)[i]|
    ensures !IsSeparator(Segments(s)[i][j])
  {
    if s != [] {
      if IsSeparator(s[0]) {
        if i > 0 { SegmentsClean(s[1..], i - 1, j); }
      } else if i == 0 {
        if j > 0 { SegmentsClean(s[1..], 0, j - 1); }
      } else {
        SegmentsClean(s[1..], i, j);
      }
    }
  }

  lemma {:induction false} WalkIsProper(segs: seq<seq<byte>>, stack: seq<seq<byte>>, cap: nat)
    requires AllProper(stack) && Walk(segs, stack, cap).Some? && (stack == [] || |Join(stack)| < cap) && cap > 0
    requires forall i, j | 0 <= i < |segs| && 0 <= j < |segs[i]| :: !IsSeparator(segs[i][j])
    ensures AllProper(Walk(segs, stack, cap).value) && |Join(Walk(segs, stack, cap).value)| < cap
    decreases |segs|
  {
    if segs != [] {
      var next := Step(stack, segs[0], cap).value;
      if segs[0] == [DOT, DOT] {
        JoinPop(stack);
      } else if segs[0] != [] && segs[0] != [DOT] {
        assert Proper(segs[0]);
        JoinPush(stack, segs[0]);
      }
      WalkIsProper(segs[1..], next, cap);
    }
  }

  /** Whatever resolves has no empty, "." or ".." segment and no separator inside one, and its text fits the buffer. */
  lemma ResolvedIsProper(abs: seq<byte>, root: seq<byte>, windows: bool, cap: nat)
    requires Resolve(abs, root, windows, cap).Some? && cap > 0
    ensures var stack := Resolve(abs, root, windows, cap).value; AllProper(stack) && |Join(stack)| < cap
    ensures var stack := Resolve(abs, root, windows, cap).value;
      && (forall i | 0 <= i < |stack| :: stack[i] != [] && stack[i] != [46] && stack[i] != [46, 46])
      && (forall i, j | 0 <= i < |stack| && 0 <= j < |stack[i]| :: stack[i][j] != 47 && stack[i][j] != 92)
  {
    var segs := Segments(abs[|root|..]);
    forall i, j | 0 <= i < |segs| && 0 <= j < |segs[i]| ensures !IsSeparator(segs[i][j]) {
      SegmentsClean(abs[|root|..], i, j);
    }
    WalkIsProper(segs, [], cap);
  }

  /** The text determines the segments. */
  lemma {:induction false} SegmentsOfJoin(stack: seq<seq<byte>>)
    requires AllProper(stack) && stack != []
    ensures Segments(Join(stack)) == stack
    decreases |stack|
  {
    var n := |stack| - 1;
    var last := stack[n];
    assert Proper(last);
    FirstSegment(last, |last|);
    assert last[..|last|] == last;
    if n == 0 {
      assert stack == [last];
    } else {
      SegmentsOfJoin(stack[..n]);
      SegmentsConcat(Join(stack[..n]), last);
      assert stack[..n] + [last] == stack;
    }
  }

  lemma {:induction false} SegmentsConcat(a: seq<byte>, b: seq<byte>)
    ensures Segments(a + [SLASH] + b) == Segments(a) + Segments(b)
  {
    var s := a + [SLASH] + b;
    if a == [] {
      assert s[0] == SLASH && s[1..] == b;
    } else {
      assert s[0] == a[0] && s[1..] == a[1..] + [SLASH] + b;
      SegmentsConcat(a[1..], b);
    }
  }

  /** Proper segments whose text fits are simply pushed, one after the other. */
  lemma {:induction false} WalkPushes(stack: seq<seq<byte>>, k: nat, cap: nat)
    requires AllProper(stack) && |Join(stack)| < cap && k <= |stack|
    ensures Walk(stack[k..], stack[..k], cap) == Some(stack)
    decreases |stack| - k
  {
    if k == |stack| {
      assert stack[k..] == [] && stack[..k] == stack;
    } else {
      assert Proper(stack[k]);
      assert stack[..k] + [stack[k]] == stack[..k + 1];
      JoinPush(stack[..k], stack[k]);
      JoinFits(stack, k + 1);
      WalkPushes(stack, k + 1, cap);
      assert stack[k..][1..] == stack[k + 1..];
    }
  }

  lemma {:induction false} JoinFits(stack: seq<seq<byte>>, k: nat)
    requires k <= |stack|
    ensures |Join(stack[..k])| <= |Join(stack)|
    decreases |stack|
  {
    if k < |stack| {
      var n := |stack| - 1;
      assert stack == stack[..n] + [stack[n]];
      JoinPush(stack[..n], stack[n]);
      JoinFits(stack[..n], k);
      assert stack[..n][..k] == stack[..k];
    } else {
      assert stack[..k] == stack;
    }
  }

  /**
   * Resolving root + "/" + output gives the same output, so normalising is idempotent. On Windows that takes a root
   * without backslashes, which is what start-up makes of it: only the path has its backslashes folded.
   */
  lemma ResolveAgain(stack: seq<seq<byte>>, root: seq<byte>, windows: bool, cap: nat)
    requires AllProper(stack) && |Join(stack)| < cap
    ensures Resolve(root + [SLASH] + Join(stack), root, windows, cap) == Some(stack) <==>
      (windows ==> BACKSLASH !in root)
  {
    var abs := root + [SLASH] + Join(stack);
    if windows && BACKSLASH in root {
      var i :| 0 <= i < |root| && root[i] == BACKSLASH;
      assert !SameByte(abs[i], root[i], windows);
      return;
    }
    assert InRoot(abs, root, windows);
    var tail := abs[|root|..];
    assert tail == [SLASH] + Join(stack);
    WalkSeparator(tail, [], cap);
    assert tail[1..] == Join(stack);
    if stack == [] {
      WalkNothing([], cap);
    } else {
      SegmentsOfJoin(stack);
      WalkPushes(stack, 0, cap);
      assert stack[0..] == stack && stack[..0] == [];
    }
  }

  // ---- when it fails ---------------------------------------------------------------------------------------

  /** Some ".." comes when nothing is left to drop, counting from a depth. */
  predicate Climbs(segs: seq<seq<byte>>, depth: nat)
    decreases |segs|
  {
    segs != [] &&
    if segs[0] == [] || segs[0] == [DOT] then Climbs(segs[1..], depth)
    else if segs[0] == [DOT, DOT] then depth == 0 || Climbs(segs[1..], depth - 1)
    else Climbs(segs[1..], depth + 1)
  }

  function Total(segs: seq<seq<byte>>): nat {
    if segs == [] then 0 else |segs[0]| + 1 + Total(segs[1..])
  }

  lemma {:induction false} TotalOfSegments(s: seq<byte>)
    ensures Total(Segments(s)) == |s| + 1
  {
    if s != [] {
      var rest := Segments(s[1..]);
      TotalOfSegments(s[1..]);
      if IsSeparator(s[0]) {
        assert ([[]] + rest)[1..] == rest;
      } else {
        assert ([[s[0]] + rest[0]] + rest[1..])[1..] == rest[1..];
      }
    } else {
      assert Total([[]]) == 1 + Total([[]][1..]);
    }
  }

  /** How much of the buffer a stack takes, with the slash for the next segment. */
  function Taken(stack: seq<seq<byte>>): nat {
    if stack == [] then 0 else |Join(stack)| + 1
  }

  lemma StepFits(stack: seq<seq<byte>>, seg: seq<byte>, cap: nat)
    requires AllProper(stack) && Taken(stack) + |seg| + 1 <= cap
    requires forall j | 0 <= j < |seg| :: !IsSeparator(seg[j])
    ensures Step(stack, seg, cap).None? <==> seg == [DOT, DOT] && stack == []
    ensures var next := Step(stack, seg, cap);
      next.Some? ==>
        && AllProper(next.value) && Taken(next.value) <= Taken(stack) + |seg| + 1
        && |next.value|
          == if seg == [] || seg == [DOT] then |stack| else if seg == [DOT, DOT] then |stack| - 1 else |stack| + 1
  {
    if seg == [DOT, DOT] && stack != [] {
      JoinPop(stack);
    } else if seg != [] && seg != [DOT] && seg != [DOT, DOT] {
      assert Proper(seg);
      JoinPush(stack, seg);
    }
  }

  lemma {:induction false} WalkFails(segs: seq<seq<byte>>, stack: seq<seq<byte>>, cap: nat)
    requires AllProper(stack) && Taken(stack) + Total(segs) <= cap
    requires forall i, j | 0 <= i < |segs| && 0 <= j < |segs[i]| :: !IsSeparator(segs[i][j])
    ensures Walk(segs, stack, cap).None? <==> Climbs(segs, |stack|)
    decreases |segs|
  {
    if segs != [] {
      hide Step, AllProper, Taken;
      var next := Step(stack, segs[0], cap);
      StepFits(stack, segs[0], cap);
      if next.Some? { WalkFails(segs[1..], next.value, cap); }
    }
  }

  /** A path that fits the buffer is refused exactly when it is outside the root or climbs above it at some step. */
  lemma FailsIffOutside(abs: seq<byte>, root: seq<byte>, windows: bool, cap: nat)
    requires |abs| < |root| + cap
    ensures Resolve(abs, root, windows, cap).None? <==>
      !InRoot(abs, root, windows) || Climbs(Segments(abs[|root|..]), 0)
  {
    if InRoot(abs, root, windows) {
      var tail := abs[|root|..];
      TotalOfSegments(tail);
      forall i, j | 0 <= i < |Segments(tail)| && 0 <= j < |Segments(tail)[i]|
        ensures !IsSeparator(Segments(tail)[i][j])
      {
        SegmentsClean(tail, i, j);
      }
      WalkFails(Segments(tail), [], cap);
    }
  }

  // ---- how segments come about and what they do ------------------------------------------------------------

  /** A path without a slash or backslash is one segment; either of them ends one. */
  lemma SegmentsSplit(a: seq<byte>, c: byte, b: seq<byte>)
    requires forall i | 0 <= i < |a| :: a[i] != 47 && a[i] != 92
    ensures Segments(a) == [a]
    ensures c == 47 || c == 92 ==> Segments(a + [c] + b) == [a] + Segments(b)
  {
    FirstSegment(a, |a|);
    assert a[..|a|] == a;
    if c == 47 || c == 92 {
      var s := a + [c] + b;
      FirstSegment(s, |a|);
      assert s[..|a|] == a && s[|a| + 1..] == b;
    }
  }

  /** A byte of the path matches one of the root if equal, on Windows up to letter case and a backslash for a slash. */
  lemma SameByteMeans(a: byte, b: byte, windows: bool)
    ensures SameByte(a, b, windows) <==>
      || (a == b && !(windows && a == 92))
      || (windows && a == 92 && b == 47)
      || (windows && ((65 <= a <= 90 && b == a + 32) || (65 <= b <= 90 && a == b + 32)))
  {
  }

  /** Empty segments and single dots change nothing, wherever they come. */
  lemma {:induction false} NothingChanges(segs: seq<seq<byte>>, i: nat, stack: seq<seq<byte>>, cap: nat)
    requires i < |segs| && (segs[i] == [] || segs[i] == [46])
    ensures Walk(segs, stack, cap) == Walk(segs[..i] + segs[i + 1..], stack, cap)
    decreases i
  {
    if i > 0 {
      var next := Step(stack, segs[0], cap);
      assert (segs[..i] + segs[i + 1..])[1..] == segs[1..][..i - 1] + segs[1..][i..];
      if next.Some? { NothingChanges(segs[1..], i - 1, next.value, cap); }
    } else {
      assert segs[..0] + segs[1..] == segs[1..];
    }
  }

  /** Two dots undo the segment before them, wherever they come, if that segment fits where it is. */
  lemma {:induction false} DotsUndo(segs: seq<seq<byte>>, i: nat, stack: seq<seq<byte>>, cap: nat)
    requires i + 1 < |segs| && Proper(segs[i]) && segs[i + 1] == [46, 46]
    requires Walk(segs[..i + 1], stack, cap).Some?
    ensures Walk(segs, stack, cap) == Walk(segs[..i] + segs[i + 2..], stack, cap)
    decreases i
  {
    var next := Step(stack, segs[0], cap);
    assert segs[..i + 1][0] == segs[0] && segs[..i + 1][1..] == segs[1..][..i];
    if i > 0 {
      assert (segs[..i] + segs[i + 2..])[1..] == segs[1..][..i - 1] + segs[1..][i + 1..];
      DotsUndo(segs[1..], i - 1, next.value, cap);
    } else {
      assert segs[..0] + segs[2..] == segs[2..] && segs[1..][1..] == segs[2..];
      assert next == Some(stack + [segs[0]]);
      assert (stack + [segs[0]])[..|stack|] == stack;
    }
  }

  /** Two dots above the root fail. */
  lemma DotsFail(segs: seq<seq<byte>>, cap: nat)
    requires segs != [] && segs[0] == [46, 46]
    ensures Walk(segs, [], cap) == None
  {
  }

  /** Any other segment is kept, in order. */
  lemma {:induction false} OthersStay(segs: seq<seq<byte>>, stack: seq<seq<byte>>, cap: nat)
    requires (forall i | 0 <= i < |segs| :: segs[i] != [] && segs[i] != [46] && segs[i] != [46, 46])
    requires Walk(segs, stack, cap).Some?
    ensures Walk(segs, stack, cap) == Some(stack + segs)
    decreases |segs|
  {
    if segs == [] {
      assert stack + segs == stack;
    } else {
      OthersStay(segs[1..], stack + [segs[0]], cap);
      assert stack + [segs[0]] + segs[1..] == stack + segs;
    }
  }
}
