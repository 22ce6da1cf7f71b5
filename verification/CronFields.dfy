/** Five-field cron schedules: lists, ranges, steps and names. */
module CronFields {
  import opened Wrappers
  import opened Arithmetic
  import opened Cron

  datatype Names = NoNames | Months | Days

  const MONTH_NAMES := ["JAN", "FEB", "MAR", "APR", "MAY", "JUN", "JUL", "AUG", "SEP", "OCT", "NOV", "DEC"]
  const DAY_NAMES := ["SUN", "MON", "TUE", "WED", "THU", "FRI", "SAT"]

  /** The engine's Number (integers only; anything else is None) and toUpperCase. */
  datatype Engine = Engine(number: string -> Option<int>, upper: string -> string)

  /** String.prototype.split by one character: at least one piece. */
  function Split(s: string, c: char): (r: seq<string>)
    ensures |r| > 0
  {
    if s == "" then [""]
    else var rest := Split(s[1..], c);
      if s[0] == c then [""] + rest else [[s[0]] + rest[0]] + rest[1..]
  }

  function IndexOf(names: seq<string>, s: string): int {
    if names == [] then -1
    else if names[0] == s then 0
    else var i := IndexOf(names[1..], s); if i < 0 then -1 else i + 1
  }

  lemma {:induction false} IndexInRange(names: seq<string>, s: string)
    ensures -1 <= IndexOf(names, s) < |names|
  {
    if names != [] { IndexInRange(names[1..], s); }
  }

  function Named(names: Names, s: string): int {
    var key := if |s| > 3 then s[..3] else s;
    match names
    case NoNames => -1
    case Months => IndexOf(MONTH_NAMES, key)
    case Days => IndexOf(DAY_NAMES, key)
  }

  /** A field's limits: day of week also takes 7 for Sunday. */
  datatype Field = Field(lo: int, hi: int, names: Names, offset: int)

  const MINUTE := Field(0, 59, NoNames, 0)
  const HOUR := Field(0, 23, NoNames, 0)
  const DAY_OF_MONTH := Field(1, 31, NoNames, 0)
  const MONTH := Field(1, 12, Months, 1)
  const DAY_OF_WEEK := Field(0, 6, Days, 0)

  function Wrap(f: Field, n: int): int { if f.names.Days? && n == 7 then 0 else n }

  function ValueOf(e: Engine, f: Field, token: string): Option<int> {
    var named := Named(f.names, e.upper(token));
    var n := if named >= 0 then Some(named + f.offset) else e.number(token);
    if n.None? || n.value < f.lo || n.value > (if f.names.Days? then 7 else f.hi) then None else Some(Wrap(f, n.value))
  }

  /** start, start + step, ... up to end */
  datatype Piece = Piece(start: int, end: int, step: int)

  function PieceOf(e: Engine, f: Field, part: string): Option<Piece> {
    var halves := Split(part, '/');
    var range := halves[0];
    var stepped := |halves| > 1;
    var step := if stepped then e.number(halves[1]) else Some(1);
    if step.None? || step.value < 1 then None
    else if range == "*" || range == "?" then Some(Piece(f.lo, f.hi, step.value))
    else if '-' in range then
      var ends := Split(range, '-');
      var b := if |ends| > 1 then ends[1] else "";
      var start, end := ValueOf(e, f, ends[0]), ValueOf(e, f, b);
      if start.None? || end.None? then None
      else Some(Piece(start.value, if f.names.Days? && b == "7" then 7 else end.value, step.value))
    else
      var start := ValueOf(e, f, range);
      if start.None? then None
      else Some(Piece(start.value, if stepped then f.hi else start.value, step.value))
  }

  predicate InPiece(f: Field, piece: Piece, v: int)
    requires piece.step > 0
  {
    exists i | piece.start <= i <= piece.end :: (i - piece.start) % piece.step == 0 && v == Wrap(f, i)
  }

  /** v is in some of the parts, all of which are well formed. */
  predicate Allows(e: Engine, f: Field, parts: seq<string>, v: int) {
    exists i | 0 <= i < |parts| :: AllowedBy(e, f, parts[i], v)
  }

  predicate AllowedBy(e: Engine, f: Field, part: string, v: int) {
    PieceOf(e, f, part).Some? && InPiece(f, PieceOf(e, f, part).value, v)
  }

  lemma PieceSteps(e: Engine, f: Field, part: string)
    requires PieceOf(e, f, part).Some?
    ensures PieceOf(e, f, part).value.step > 0
  {
  }

  /** The values of one piece, added to a set. */
  method AddPiece(f: Field, piece: Piece, was: set<int>) returns (result: set<int>)
    requires piece.step > 0
    ensures forall v :: v in result <==> v in was || InPiece(f, piece, v)
  {
    hide Below;
    result := was;
    var i := piece.start;
    ghost var n := 0;
    NothingBelow(f, piece);
    while i <= piece.end
      invariant n >= 0 && i == piece.start + n * piece.step
      invariant forall v :: v in result <==> v in was || Below(f, piece, i, v)
      decreases piece.end - i
    {
      result := result + {Wrap(f, i)};
      forall v ensures Below(f, piece, i + piece.step, v) <==> Below(f, piece, i, v) || v == Wrap(f, i) {
        NextBelow(f, piece, n, i, v);
      }
      i := i + piece.step;
      n := n + 1;
      assert i == piece.start + n * piece.step;
    }
    forall v ensures Below(f, piece, i, v) <==> InPiece(f, piece, v) {
      AllBelow(f, piece, i, v);
    }
  }

  predicate Below(f: Field, piece: Piece, limit: int, v: int)
    requires piece.step > 0
  {
    exists i | piece.start <= i < limit && i <= piece.end :: (i - piece.start) % piece.step == 0 && v == Wrap(f, i)
  }

  lemma NothingBelow(f: Field, piece: Piece)
    requires piece.step > 0
    ensures forall v :: !Below(f, piece, piece.start, v)
  {
  }

  lemma AllBelow(f: Field, piece: Piece, limit: int, v: int)
    requires piece.step > 0 && limit > piece.end
    ensures Below(f, piece, limit, v) <==> InPiece(f, piece, v)
  {
    if InPiece(f, piece, v) {
      var i :| piece.start <= i <= piece.end && (i - piece.start) % piece.step == 0 && v == Wrap(f, i);
      assert i < limit;
    }
  }

  lemma NextBelow(f: Field, piece: Piece, n: int, i: int, v: int)
    requires piece.step > 0 && n >= 0 && i == piece.start + n * piece.step && i <= piece.end
    ensures Below(f, piece, i + piece.step, v) <==> Below(f, piece, i, v) || v == Wrap(f, i)
  {
    Monotone(piece.step, 0, n);
    if Below(f, piece, i + piece.step, v) {
      var j :| piece.start <= j < i + piece.step && j <= piece.end && (j - piece.start) % piece.step == 0 &&
        v == Wrap(f, j);
      if j >= i {
        StepsApart(piece.step, j - piece.start, n);
      }
    }
    if Below(f, piece, i, v) {
      var j :| piece.start <= j < i && j <= piece.end && (j - piece.start) % piece.step == 0 && v == Wrap(f, j);
      assert j < i + piece.step;
    }
    if v == Wrap(f, i) {
      DivisionIs(i - piece.start, piece.step, n, 0);
      assert i < i + piece.step;
    }
  }

  lemma StepsApart(step: int, x: int, n: int)
    requires step > 0 && x % step == 0 && n * step <= x < n * step + step
    ensures x == n * step
  {
    DivisionIs(x, step, n, x - n * step);
  }

  predicate Malformed(e: Engine, f: Field, text: string) {
    exists i | 0 <= i < |Split(text, ',')| :: PieceOf(e, f, Split(text, ',')[i]).None?
  }

  /** The values a field allows: exactly those of its comma-separated parts; one bad part makes the whole field bad. */
  method FieldSet(e: Engine, f: Field, text: string) returns (r: Result<set<int>, string>)
    ensures r.Err? <==> Malformed(e, f, text)
    ensures r.Ok? ==> forall v :: v in r.value <==> Allows(e, f, Split(text, ','), v)
  {
    hide PieceOf, Split, InPiece;
    var parts := Split(text, ',');
    var result: set<int> := {};
    for k := 0 to |parts|
      invariant forall i | 0 <= i < k :: PieceOf(e, f, parts[i]).Some?
      invariant forall v :: v in result <==> exists i | 0 <= i < k :: AllowedBy(e, f, parts[i], v)
    {
      var piece := PieceOf(e, f, parts[k]);
      if piece.None? {
        assert PieceOf(e, f, Split(text, ',')[k]).None?;
        return Err("Invalid cron schedule");
      }
      PieceSteps(e, f, parts[k]);
      ghost var was := result;
      result := AddPiece(f, piece.value, result);
      forall v ensures v in result <==> exists i | 0 <= i < k + 1 :: AllowedBy(e, f, parts[i], v) {
        OneMore(e, f, parts, k, v);
        assert AllowedBy(e, f, parts[k], v) <==> InPiece(f, piece.value, v);
      }
    }
    r := Ok(result);
  }

  lemma OneMore(e: Engine, f: Field, parts: seq<string>, k: nat, v: int)
    requires k < |parts|
    ensures (exists i | 0 <= i < k + 1 :: AllowedBy(e, f, parts[i], v))
      <==> (exists i | 0 <= i < k :: AllowedBy(e, f, parts[i], v)) || AllowedBy(e, f, parts[k], v)
  {
    hide AllowedBy;
    if AllowedBy(e, f, parts[k], v) {
      assert exists i | 0 <= i < k + 1 :: AllowedBy(e, f, parts[i], v);
    }
  }

  predicate Proper(f: Field) {
    f == MINUTE || f == HOUR || f == DAY_OF_MONTH || f == MONTH || f == DAY_OF_WEEK
  }

  /** Whatever a field allows is within its limits: Sunday is 0, never 7. */
  lemma AllowedInRange(e: Engine, f: Field, part: string, v: int)
    requires Proper(f) && AllowedBy(e, f, part, v)
    ensures f.lo <= v <= f.hi
  {
    hide Split;
    var piece := PieceOf(e, f, part).value;
    var i :| piece.start <= i <= piece.end && (i - piece.start) % piece.step == 0 && v == Wrap(f, i);
  }

  lemma RangeByName(e: Engine, a: string, b: string)
    requires '-' !in a + b && '/' !in a + b && b != "7"
    requires ValueOf(e, DAY_OF_WEEK, a).Some? && ValueOf(e, DAY_OF_WEEK, b) == Some(0)
    requires a + "-" + b != "*" && a + "-" + b != "?"
    ensures PieceOf(e, DAY_OF_WEEK, a + "-" + b) == Some(Piece(ValueOf(e, DAY_OF_WEEK, a).value, 0, 1))
  {
    hide ValueOf;
    var range := a + "-" + b;
    Unsplit(range, '/');
    SplitOnce(a, b, '-');
    assert range[|a|] == '-';
  }

  /**
   * A range of weekdays that ends on Sunday reaches Sunday only when it is written with the digit 7; written by
   * name, the end is 0 and a range such as FRI-SUN allows nothing at all.
   */
  lemma SundayByName(e: Engine, a: string, b: string, v: int)
    requires '-' !in a + b && '/' !in a + b && b != "7"
    requires ValueOf(e, DAY_OF_WEEK, a).Some? && ValueOf(e, DAY_OF_WEEK, b) == Some(0)
    requires a + "-" + b != "*" && a + "-" + b != "?"
    ensures AllowedBy(e, DAY_OF_WEEK, a + "-" + b, v) <==> v == 0 && ValueOf(e, DAY_OF_WEEK, a) == Some(0)
  {
    hide ValueOf;
    var start := ValueOf(e, DAY_OF_WEEK, a).value;
    StartsAtLeastZero(e, a);
    RangeByName(e, a, b);
    if start == 0 {
      assert Wrap(DAY_OF_WEEK, 0) == 0;
    }
  }

  /** The example: FRI-SUN. */
  lemma FridayToSundayIsEmpty(e: Engine, v: int)
    requires e.upper("FRI") == "FRI" && e.upper("SUN") == "SUN"
    ensures PieceOf(e, DAY_OF_WEEK, "FRI-SUN").Some? && !AllowedBy(e, DAY_OF_WEEK, "FRI-SUN", v)
  {
    var a, b := "FRI", "SUN";
    assert Named(Days, a) == 5 && Named(Days, b) == 0;
    assert ValueOf(e, DAY_OF_WEEK, a) == Some(5) && ValueOf(e, DAY_OF_WEEK, b) == Some(0);
    assert a + "-" + b == "FRI-SUN";
    RangeByName(e, a, b);
    SundayByName(e, a, b, v);
  }

  lemma StartsAtLeastZero(e: Engine, a: string)
    requires ValueOf(e, DAY_OF_WEEK, a).Some?
    ensures 0 <= ValueOf(e, DAY_OF_WEEK, a).value <= 6
  {
    hide Named;
  }

  lemma {:induction false} Unsplit(s: string, c: char)
    requires c !in s
    ensures Split(s, c) == [s]
  {
    if s != "" {
      Unsplit(s[1..], c);
      assert s[0] != c;
      assert [s[0]] + s[1..] == s;
    }
  }

  lemma {:induction false} SplitOnce(a: string, b: string, c: char)
    requires c !in a && c !in b
    ensures Split(a + [c] + b, c) == [a, b]
  {
    var s := a + [c] + b;
    if a == "" {
      assert s[1..] == b;
      Unsplit(b, c);
    } else {
      assert s[1..] == a[1..] + [c] + b;
      SplitOnce(a[1..], b, c);
      assert s[0] == a[0] != c;
      assert [a[0]] + a[1..] == a;
    }
  }

  // ---- the whole schedule ----------------------------------------------------------------------------------

  function Open(text: string): bool { text == "*" || text == "?" }

  ghost predicate Says(e: Engine, f: Field, text: string, values: set<int>) {
    && !Malformed(e, f, text)
    && (forall v :: v in values <==> Allows(e, f, Split(text, ','), v))
  }

  ghost predicate ReadsAs(e: Engine, fields: seq<string>, p: Schedule) {
    && |fields| == 5
    && (p.anyDay <==> fields[2] == "*" || fields[2] == "?") && (p.anyWeekday <==> fields[4] == "*" || fields[4] == "?")
    && Says(e, MINUTE, fields[0], p.minute) && Says(e, HOUR, fields[1], p.hour)
    && Says(e, DAY_OF_MONTH, fields[2], p.dayOfMonth) && Says(e, MONTH, fields[3], p.month)
    && Says(e, DAY_OF_WEEK, fields[4], p.dayOfWeek)
  }

  /** The string form, already split at white space. */
  method ParseSchedule(e: Engine, fields: seq<string>) returns (r: Result<Schedule, string>)
    ensures r.Ok? ==> ReadsAs(e, fields, r.value)
    ensures r.Err? ==>
      || |fields| != 5
      || exists i | 0 <= i < 5 :: Malformed(e, [MINUTE, HOUR, DAY_OF_MONTH, MONTH, DAY_OF_WEEK][i], fields[i])
  {
    hide PieceOf, Split, Allows;
    if |fields| != 5 {
      return Err("Invalid cron schedule: expected 5 fields");
    }
    ghost var all := [MINUTE, HOUR, DAY_OF_MONTH, MONTH, DAY_OF_WEEK];
    var minute := FieldSet(e, MINUTE, fields[0]);
    if minute.Err? { assert all[0] == MINUTE; return Err(minute.error); }
    var hour := FieldSet(e, HOUR, fields[1]);
    if hour.Err? { assert all[1] == HOUR; return Err(hour.error); }
    var dayOfMonth := FieldSet(e, DAY_OF_MONTH, fields[2]);
    if dayOfMonth.Err? { assert all[2] == DAY_OF_MONTH; return Err(dayOfMonth.error); }
    var month := FieldSet(e, MONTH, fields[3]);
    if month.Err? { assert all[3] == MONTH; return Err(month.error); }
    var dayOfWeek := FieldSet(e, DAY_OF_WEEK, fields[4]);
    if dayOfWeek.Err? { assert all[4] == DAY_OF_WEEK; return Err(dayOfWeek.error); }
    r := Ok(Schedule(minute.value, hour.value, dayOfMonth.value, month.value, dayOfWeek.value,
      Open(fields[2]), Open(fields[4])));
  }

  /** For a parsed schedule, non-empty sets and a real date are all it takes to fire. */
  lemma ParsedFiresIff(e: Engine, fields: seq<string>, p: Schedule)
    requires ReadsAs(e, fields, p)
    ensures Fires(p) <==> p.minute != {} && p.hour != {} && exists m | m in p.month :: 1 <= m <= 12 && SomeDay(p, m)
  {
    hide SomeDay, PieceOf, Split, Fires;
    FiresIff(p);
    InLimits(e, MINUTE, fields[0], p.minute);
    InLimits(e, HOUR, fields[1], p.hour);
    InLimits(e, MONTH, fields[3], p.month);
    Inhabited(p.minute, 60);
    Inhabited(p.hour, 24);
    assert (exists m | m in p.month :: 1 <= m <= 12 && SomeDay(p, m)) <==>
      (exists m | 1 <= m <= 12 :: m in p.month && SomeDay(p, m));
  }

  lemma Inhabited(s: set<int>, n: int)
    requires forall v | v in s :: 0 <= v < n
    ensures s != {} <==> exists k | 0 <= k < n :: k in s
  {
    if forall k | 0 <= k < n :: k !in s {
      assert s == {};
    }
  }

  lemma InLimits(e: Engine, f: Field, text: string, values: set<int>)
    requires Proper(f) && Says(e, f, text, values)
    ensures forall v :: v in values ==> f.lo <= v <= f.hi
  {
    hide PieceOf, Split, AllowedBy;
    forall v | v in values ensures f.lo <= v <= f.hi {
      var i :| 0 <= i < |Split(text, ',')| && AllowedBy(e, f, Split(text, ',')[i], v);
      AllowedInRange(e, f, Split(text, ',')[i], v);
    }
  }

  // ---- what the parts of a field stand for -----------------------------------------------------------------

  /** A name or number by itself: no list, range or step. */
  predicate Token(t: string) {
    '-' !in t && '/' !in t && t != "*" && t != "?"
  }

  /** A star, or a question mark, allows every value of the field. */
  lemma StarAllowsAll(e: Engine, f: Field, v: int)
    requires Proper(f)
    ensures AllowedBy(e, f, "*", v) <==> f.lo <= v <= f.hi
    ensures AllowedBy(e, f, "?", v) <==> f.lo <= v <= f.hi
  {
    Unsplit("*", '/');
    Unsplit("?", '/');
    var piece := Piece(f.lo, f.hi, 1);
    assert PieceOf(e, f, "*") == PieceOf(e, f, "?") == Some(piece);
    PieceWithoutSunday(f, piece, v);
    if f.lo <= v <= f.hi { assert v - f.lo == 1 * (v - f.lo); }
  }

  /** A star with a step: the lowest value, and every n-th after it. */
  lemma StarSteps(e: Engine, f: Field, b: string, n: int, v: int)
    requires Proper(f) && '/' !in b && e.number(b) == Some(n) && n >= 1
    ensures AllowedBy(e, f, "*/" + b, v) <==> v <= f.hi && exists k: nat :: v == f.lo + n * k
  {
    SplitOnce("*", b, '/');
    assert "*" + "/" + b == "*/" + b;
    PieceWithoutSunday(f, Piece(f.lo, f.hi, n), v);
  }

  /** A value by itself is that value. */
  lemma ValueAlone(e: Engine, f: Field, a: string, s: int, v: int)
    requires Proper(f) && Token(a) && ValueOf(e, f, a) == Some(s)
    ensures AllowedBy(e, f, a, v) <==> v == s
  {
    Unsplit(a, '/');
    ValueInLimits(e, f, a);
    PieceWithoutSunday(f, Piece(s, s, 1), v);
    if v == s { assert v == s + 1 * 0; }
  }

  /** A value with a step: the value, and every n-th after it, up to the limit of the field. */
  lemma ValueSteps(e: Engine, f: Field, a: string, s: int, b: string, n: int, v: int)
    requires Proper(f) && Token(a) && ValueOf(e, f, a) == Some(s)
    requires '/' !in b && e.number(b) == Some(n) && n >= 1
    ensures AllowedBy(e, f, a + "/" + b, v) <==> v <= f.hi && exists k: nat :: v == s + n * k
  {
    SplitOnce(a, b, '/');
    ValueInLimits(e, f, a);
    PieceWithoutSunday(f, Piece(s, f.hi, n), v);
  }

  /** A range allows what lies between its ends; only a weekday range that ends with the digit 7 goes beyond them. */
  lemma RangeAllows(e: Engine, f: Field, a: string, s: int, b: string, t: int, v: int)
    requires Proper(f) && Token(a) && Token(b) && a + "-" + b != "*" && a + "-" + b != "?"
    requires ValueOf(e, f, a) == Some(s) && ValueOf(e, f, b) == Some(t)
    ensures AllowedBy(e, f, a + "-" + b, v) <==>
      if f == DAY_OF_WEEK && b == "7" then s <= v <= 6 || v == 0 else s <= v <= t
  {
    hide ValueOf;
    var range := a + "-" + b;
    Unsplit(range, '/');
    SplitOnce(a, b, '-');
    assert range[|a|] == '-';
    ValueInLimits(e, f, a);
    ValueInLimits(e, f, b);
    if f == DAY_OF_WEEK && b == "7" {
      var piece := Piece(s, 7, 1);
      assert PieceOf(e, f, range) == Some(piece);
      if s <= v <= 6 { assert v - s == 1 * (v - s) && v == Wrap(f, v); }
      if v == 0 { assert Wrap(f, 7) == 0 && (7 - s) % 1 == 0; }
    } else {
      var piece := Piece(s, t, 1);
      assert PieceOf(e, f, range) == Some(piece);
      PieceWithoutSunday(f, piece, v);
      if s <= v <= t { assert v == s + 1 * (v - s); }
    }
  }

  /** A range with a step: its first value, and every n-th after it, up to its end. */
  lemma RangeSteps(e: Engine, f: Field, a: string, s: int, b: string, t: int, c: string, n: int, v: int)
    requires Proper(f) && Token(a) && Token(b) && a + "-" + b != "*" && a + "-" + b != "?"
    requires ValueOf(e, f, a) == Some(s) && ValueOf(e, f, b) == Some(t)
    requires '/' !in c && e.number(c) == Some(n) && n >= 1
    ensures AllowedBy(e, f, a + "-" + b + "/" + c, v) <==>
      if f == DAY_OF_WEEK && b == "7"
      then (v <= 6 && exists k: nat :: v == s + n * k) || (v == 0 && exists k: nat :: 7 == s + n * k)
      else v <= t && exists k: nat :: v == s + n * k
  {
    hide ValueOf, InPiece;
    var range := a + "-" + b;
    SplitOnce(range, c, '/');
    SplitOnce(a, b, '-');
    assert range[|a|] == '-';
    ValueInLimits(e, f, a);
    ValueInLimits(e, f, b);
    if f == DAY_OF_WEEK && b == "7" {
      assert PieceOf(e, f, range + "/" + c) == Some(Piece(s, 7, n));
      UpToSunday(s, n, v);
      PieceWithoutSunday(f, Piece(s, 6, n), v);
    } else {
      assert PieceOf(e, f, range + "/" + c) == Some(Piece(s, t, n));
      PieceWithoutSunday(f, Piece(s, t, n), v);
    }
  }

  lemma UpToSunday(s: int, n: int, v: int)
    requires 0 <= s <= 6 && n > 0
    ensures InPiece(DAY_OF_WEEK, Piece(s, 7, n), v) <==>
      InPiece(DAY_OF_WEEK, Piece(s, 6, n), v) || (v == 0 && exists k: nat :: 7 == s + n * k)
  {
    var f := DAY_OF_WEEK;
    if k: nat :| 7 == s + n * k { DivisionIs(7 - s, n, k, 0); }
    if (7 - s) % n == 0 {
      var k := WholeSteps(7 - s, n);
      assert 7 == s + n * k;
    }
    assert InPiece(f, Piece(s, 7, n), v) <==> InPiece(f, Piece(s, 6, n), v) || ((7 - s) % n == 0 && v == Wrap(f, 7));
  }

  /** A step that is no positive integer, or an end out of the field's limits, makes the part malformed. */
  lemma Refused(e: Engine, f: Field, a: string, b: string)
    requires '/' !in a && '/' !in b
    ensures e.number(b).None? || e.number(b).value < 1 ==> PieceOf(e, f, a + "/" + b).None?
    ensures Token(a) && ValueOf(e, f, a).None? ==> PieceOf(e, f, a).None? && PieceOf(e, f, a + "/" + b).None?
    ensures Token(a) && Token(b) && (ValueOf(e, f, a).None? || ValueOf(e, f, b).None?) ==>
      PieceOf(e, f, a + "-" + b).None? || a + "-" + b == "*" || a + "-" + b == "?"
  {
    hide ValueOf;
    SplitOnce(a, b, '/');
    Unsplit(a, '/');
    if Token(a) && Token(b) {
      Unsplit(a + "-" + b, '/');
      SplitOnce(a, b, '-');
      assert (a + "-" + b)[|a|] == '-';
    }
  }

  lemma ValueInLimits(e: Engine, f: Field, a: string)
    requires Proper(f) && ValueOf(e, f, a).Some?
    ensures f.lo <= ValueOf(e, f, a).value <= f.hi
  {
    hide Named;
  }

  /** A piece that does not reach 7 is an arithmetic progression. */
  lemma PieceWithoutSunday(f: Field, piece: Piece, v: int)
    requires Proper(f) && piece.step > 0 && (f == DAY_OF_WEEK ==> piece.end < 7)
    ensures InPiece(f, piece, v) <==> v <= piece.end && exists k: nat :: v == piece.start + piece.step * k
  {
    hide InPiece;
    if InPiece(f, piece, v) {
      var k := StepsTo(f, piece, v);
    }
    if k: nat :| v == piece.start + piece.step * k && v <= piece.end {
      StepIsIn(f, piece, v, k);
    }
  }

  lemma StepsTo(f: Field, piece: Piece, v: int) returns (k: nat)
    requires Proper(f) && piece.step > 0 && (f == DAY_OF_WEEK ==> piece.end < 7) && InPiece(f, piece, v)
    ensures v == piece.start + piece.step * k && v <= piece.end
  {
    hide Proper;
    var i :| piece.start <= i <= piece.end && (i - piece.start) % piece.step == 0 && v == Wrap(f, i);
    NotWrapped(f, i, piece.end);
    k := WholeSteps(i - piece.start, piece.step);
  }

  lemma StepIsIn(f: Field, piece: Piece, v: int, k: nat)
    requires Proper(f) && piece.step > 0 && (f == DAY_OF_WEEK ==> piece.end < 7)
    requires v == piece.start + piece.step * k && v <= piece.end
    ensures InPiece(f, piece, v)
  {
    hide Proper, Wrap;
    Monotone(piece.step, 0, k);
    DivisionIs(v - piece.start, piece.step, k, 0);
    NotWrapped(f, v, piece.end);
  }

  lemma NotWrapped(f: Field, i: int, end: int)
    requires Proper(f) && i <= end && (f == DAY_OF_WEEK ==> end < 7)
    ensures Wrap(f, i) == i
  {
  }

  lemma WholeSteps(d: int, step: int) returns (k: nat)
    requires d >= 0 && step > 0 && d % step == 0
    ensures d == step * k
  {
    k := d / step;
  }

  /** What the names mean: the months from 1, the weekdays from Sunday, which is 0. */
  lemma NamesMean(e: Engine, t: string)
    ensures var names := ["JAN", "FEB", "MAR", "APR", "MAY", "JUN", "JUL", "AUG", "SEP", "OCT", "NOV", "DEC"];
      forall i | 0 <= i < 12 && e.upper(t) == names[i] :: ValueOf(e, MONTH, t) == Some(i + 1)
    ensures var names := ["SUN", "MON", "TUE", "WED", "THU", "FRI", "SAT"];
      forall i | 0 <= i < 7 && e.upper(t) == names[i] :: ValueOf(e, DAY_OF_WEEK, t) == Some(i)
  {
    hide IndexOf;
    forall i | 0 <= i < 12 && e.upper(t) == MONTH_NAMES[i] ensures ValueOf(e, MONTH, t) == Some(i + 1) {
      NameFound(MONTH_NAMES, i);
    }
    forall i | 0 <= i < 7 && e.upper(t) == DAY_NAMES[i] ensures ValueOf(e, DAY_OF_WEEK, t) == Some(i) {
      NameFound(DAY_NAMES, i);
    }
  }

  lemma {:induction false} NameFound(names: seq<string>, i: nat)
    requires i < |names| && forall j, k | 0 <= j < k < |names| :: names[j] != names[k]
    ensures IndexOf(names, names[i]) == i
  {
    if i > 0 { NameFound(names[1..], i - 1); }
  }

  /** Only the first three letters of a name count. */
  lemma LongNames(e: Engine, t: string, u: string)
    requires |e.upper(t)| > 3 && e.upper(u) == e.upper(t)[..3]
    requires Named(Months, e.upper(u)) >= 0 || Named(Days, e.upper(u)) >= 0
    ensures Named(Months, e.upper(u)) >= 0 ==> ValueOf(e, MONTH, t) == ValueOf(e, MONTH, u)
    ensures Named(Days, e.upper(u)) >= 0 ==> ValueOf(e, DAY_OF_WEEK, t) == ValueOf(e, DAY_OF_WEEK, u)
  {
    assert e.upper(u)[..3] == e.upper(u);
  }

  /** Anything else is a number of the field's range; of the weekday 7 is Sunday too. */
  lemma NumbersMean(e: Engine, f: Field, t: string, n: int)
    requires Proper(f) && Named(f.names, e.upper(t)) < 0 && e.number(t) == Some(n)
    ensures ValueOf(e, f, t) ==
      if f == DAY_OF_WEEK && n == 7 then Some(0) else if f.lo <= n <= f.hi then Some(n) else None
  {
  }
}
