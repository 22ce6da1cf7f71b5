/** The next minute on which a cron schedule fires: a search that jumps over months, days and hours. */
module Cron {
  import opened Wrappers
  import opened Arithmetic
  import opened Calendar

  /** The values each field allows, and whether the two day fields were left open. */
  datatype Schedule = Schedule(
    minute: set<int>, hour: set<int>, dayOfMonth: set<int>, month: set<int>, dayOfWeek: set<int>,
    anyDay: bool, anyWeekday: bool)

  // ---- what a schedule means, minute by minute -------------------------------------------------------------

  predicate MonthOk(p: Schedule, day: int) { MonthOf(day) % 12 + 1 in p.month }

  /** With both day fields given, either may match; an open one never decides against the other. */
  predicate DayOk(p: Schedule, day: int) {
    var dom, dow := DateOf(day) in p.dayOfMonth, WeekdayOf(day) in p.dayOfWeek;
    if p.anyDay && p.anyWeekday then true
    else if p.anyDay then dow
    else if p.anyWeekday then dom
    else dom || dow
  }

  function HourOf(t: int): int { t % 1440 / 60 }

  /** t counts minutes from the epoch. */
  predicate Matches(p: Schedule, t: int) {
    MonthOk(p, t / 1440) && DayOk(p, t / 1440) && HourOf(t) in p.hour && t % 60 in p.minute
  }

  // ---- dates -----------------------------------------------------------------------------------------------

  const MS_PER_DAY := 86400000

  /** A date object: milliseconds from the epoch, read and rewritten in UTC. */
  class UtcDate {
    var ms: int

    constructor (ms: int)
      ensures this.ms == ms
    {
      this.ms := ms;
    }

    function Day(): int reads this { ms / MS_PER_DAY }
    function GetUTCMonth(): int reads this { MonthOf(Day()) % 12 }
    function GetUTCFullYear(): int reads this { MonthOf(Day()) / 12 }
    function GetUTCDate(): int reads this { DateOf(Day()) }
    function GetUTCDay(): int reads this { WeekdayOf(Day()) }
    function GetUTCHours(): int reads this { ms / 3600000 % 24 }
    function GetUTCMinutes(): int reads this { ms / 60000 % 60 }

    method SetUTCSeconds(s: int, milli: int)
      modifies this
      ensures ms == old(ms) / 60000 * 60000 + s * 1000 + milli
    {
      ms := ms / 60000 * 60000 + s * 1000 + milli;
    }

    method SetUTCMinutes(m: int)
      modifies this
      ensures ms == old(ms) / 3600000 * 3600000 + m * 60000 + old(ms) % 60000
    {
      ms := ms / 3600000 * 3600000 + m * 60000 + ms % 60000;
    }

    method SetUTCHours(h: int, m: int, s: int, milli: int)
      modifies this
      ensures ms == old(Day()) * MS_PER_DAY + h * 3600000 + m * 60000 + s * 1000 + milli
    {
      ms := Day() * MS_PER_DAY + h * 3600000 + m * 60000 + s * 1000 + milli;
    }

    /** MakeDay(year, month, d), the time of day kept. */
    method SetUTCDate(d: int)
      modifies this
      ensures ms == (MonthStart(MonthOf(old(Day()))) + d - 1) * MS_PER_DAY + old(ms) % MS_PER_DAY
    {
      hide MonthStart, MonthOf;
      SplitMonth(MonthOf(Day()));
      ms := (MonthStart(12 * GetUTCFullYear() + GetUTCMonth()) + d - 1) * MS_PER_DAY + ms % MS_PER_DAY;
    }

    method SetUTCMonth(m: int, d: int)
      modifies this
      ensures ms == (MonthStart(12 * old(GetUTCFullYear()) + m) + d - 1) * MS_PER_DAY + old(ms) % MS_PER_DAY
    {
      ms := (MonthStart(12 * GetUTCFullYear() + m) + d - 1) * MS_PER_DAY + ms % MS_PER_DAY;
    }
  }

  lemma InMinutes(ms: int, t: int)
    requires ms == 60000 * t
    ensures ms / MS_PER_DAY == t / 1440 && ms / 3600000 % 24 == HourOf(t) && ms / 60000 % 60 == t % 60
    ensures ms / 3600000 * 3600000 == 60000 * (t / 60 * 60) && ms % 60000 == 0
  {
    ScaledDivision(t, 1440, 60000);
    ScaledDivision(t, 60, 60000);
    ScaledDivision(t, 1, 60000);
    HourTwice(t);
  }

  lemma ScaledDivision(t: int, k: int, c: int)
    requires k > 0 && c > 0
    ensures (c * t) / (c * k) == t / k && (c * t) % (c * k) == c * (t % k)
  {
    var q, r := t / k, t % k;
    assert t == k * q + r;
    assert c * t == (c * k) * q + c * r by { assert c * (k * q) == (c * k) * q; }
    Monotone(c, 0, r);
    Monotone(c, r, k - 1);
    assert c * (k - 1) == c * k - c;
    DivisionIs(c * t, c * k, q, c * r);
  }

  lemma HourTwice(t: int)
    ensures t / 60 % 24 == HourOf(t) && 0 <= HourOf(t) < 24
    ensures t == 1440 * (t / 1440) + 60 * HourOf(t) + t % 60
  {
    var d, r := t / 1440, t % 1440;
    assert t == 1440 * d + r;
    DivisionIs(t, 60, 24 * d + r / 60, r % 60);
    DivisionIs(t / 60, 24, d, r / 60);
  }

  // ---- the jumps -------------------------------------------------------------------------------------------

  /** No minute before the first of the next month matches a month that is not in the schedule. */
  lemma SkipMonth(p: Schedule, t: int, u: int)
    requires !MonthOk(p, t / 1440) && t <= u < 1440 * MonthStart(MonthOf(t / 1440) + 1)
    ensures !Matches(p, u)
  {
    hide MonthStart;
    assert t / 1440 <= u / 1440 < MonthStart(MonthOf(t / 1440) + 1);
    MonthIs(u / 1440, MonthOf(t / 1440));
  }

  lemma SkipDay(p: Schedule, t: int, u: int)
    requires !(MonthOk(p, t / 1440) && DayOk(p, t / 1440)) && t <= u < 1440 * (t / 1440 + 1)
    ensures !Matches(p, u)
  {
    hide MonthOk, DayOk;
    assert u / 1440 == t / 1440;
  }

  lemma SkipHour(p: Schedule, t: int, u: int)
    requires HourOf(t) !in p.hour && t <= u < 60 * (t / 60 + 1)
    ensures !Matches(p, u)
  {
    hide MonthOk, DayOk;
    assert u / 60 == t / 60;
    HourTwice(t);
    HourTwice(u);
  }

  // ---- how long the search takes ---------------------------------------------------------------------------

  const GUARD := 3162240

  /** What is known of a day or an hour that the search entered at its start, when it is past that start. */
  predicate Entered(p: Schedule, t: int, day: bool, hour: bool) {
    && (day ==> hour)
    && (hour && t % 60 > 0 ==>
          && MonthOk(p, t / 1440) && DayOk(p, t / 1440) && HourOf(t) in p.hour
          && forall k | 0 <= k < t % 60 :: k !in p.minute)
    && (day && t % 1440 > 0 ==>
          MonthOk(p, t / 1440) && DayOk(p, t / 1440) && forall h | 0 <= h < HourOf(t) :: h !in p.hour)
  }

  /** A bound on the turns left before the search reaches a day. */
  function Turns(t: int, target: int, day: bool, hour: bool): int {
    (target - t / 1440) + (24 - HourOf(t)) + (if day then 0 else 24) + (60 - t % 60) + (if hour then 0 else 60)
  }

  /** Jumping to the start of a later day uses up a turn. */
  lemma JumpDay(p: Schedule, t: int, target: int, day: bool, hour: bool, d: int)
    requires Entered(p, t, day, hour) && !(MonthOk(p, t / 1440) && DayOk(p, t / 1440)) && d > t / 1440
    ensures Entered(p, 1440 * d, true, true) && Turns(1440 * d, target, true, true) < Turns(t, target, day, hour)
  {
    hide MonthOk, DayOk;
    HourTwice(t);
    DivisionIs(1440 * d, 1440, d, 0);
    DivisionIs(1440 * d, 60, 24 * d, 0);
  }

  lemma JumpHour(p: Schedule, t: int, target: int, day: bool, hour: bool)
    requires Entered(p, t, day, hour) && MonthOk(p, t / 1440) && DayOk(p, t / 1440) && HourOf(t) !in p.hour
    requires exists h | 0 <= h < 24 :: h in p.hour
    ensures var d := day || HourOf(t) == 23; var next := 60 * (t / 60 + 1);
      Entered(p, next, d, true) && Turns(next, target, d, true) < Turns(t, target, day, hour)
  {
    hide MonthOk, DayOk;
    var next := 60 * (t / 60 + 1);
    HourTwice(t);
    DivisionIs(next, 60, t / 60 + 1, 0);
    if HourOf(t) < 23 {
      DivisionIs(next, 1440, t / 1440, 60 * (HourOf(t) + 1));
    } else {
      DivisionIs(next, 1440, t / 1440 + 1, 0);
    }
  }

  lemma JumpMinute(p: Schedule, t: int, target: int, day: bool, hour: bool)
    requires Entered(p, t, day, hour) && MonthOk(p, t / 1440) && DayOk(p, t / 1440) && HourOf(t) in p.hour
    requires t % 60 !in p.minute
    requires exists k | 0 <= k < 60 :: k in p.minute
    ensures var h := hour || t % 60 == 59; var d := day || (t % 60 == 59 && HourOf(t) == 23);
      Entered(p, t + 1, d, h) && Turns(t + 1, target, d, h) < Turns(t, target, day, hour)
  {
    hide MonthOk, DayOk;
    HourTwice(t);
    if t % 60 < 59 {
      DivisionIs(t + 1, 60, t / 60, t % 60 + 1);
      DivisionIs(t + 1, 1440, t / 1440, t % 1440 + 1);
      HourTwice(t + 1);
    } else if HourOf(t) < 23 {
      DivisionIs(t + 1, 60, t / 60 + 1, 0);
      DivisionIs(t + 1, 1440, t / 1440, 60 * (HourOf(t) + 1));
    } else {
      DivisionIs(t + 1, 60, t / 60 + 1, 0);
      DivisionIs(t + 1, 1440, t / 1440 + 1, 0);
    }
  }

  // ---- when it fires at all --------------------------------------------------------------------------------

  ghost predicate Fires(p: Schedule) {
    exists t :: Matches(p, t)
  }

  const MINUTES_OF_400_YEARS := 1440 * DAYS_OF_400_YEARS

  lemma MatchesRepeat(p: Schedule, t: int, k: int)
    requires Matches(p, t)
    ensures Matches(p, t + k * MINUTES_OF_400_YEARS)
  {
    hide MonthOf, DateOf, WeekdayOf, HourOf, MonthStart;
    LaterDays(k, t);
    DaysLater(t, k * DAYS_OF_400_YEARS);
    DaysRepeatAlways(t / 1440, k);
  }

  lemma LaterDays(k: int, t: int)
    ensures t + k * MINUTES_OF_400_YEARS == t + 1440 * (k * DAYS_OF_400_YEARS)
  {
  }

  /** d days later the time of day is the same. */
  lemma DaysLater(t: int, d: int)
    ensures var u := t + 1440 * d;
      u / 1440 == t / 1440 + d && HourOf(u) == HourOf(t) && u % 60 == t % 60
  {
    ShiftedDivision(t, 1440, d);
    ShiftedDivision(t, 60, 24 * d);
  }

  /** A schedule that ever matches does so within 400 years after any minute. */
  lemma FiresSoon(p: Schedule, t0: int) returns (t: int)
    requires Fires(p)
    ensures t0 <= t < t0 + MINUTES_OF_400_YEARS && Matches(p, t)
  {
    hide Matches;
    var u :| Matches(p, u);
    var n := MINUTES_OF_400_YEARS;
    var k := (t0 - u + n - 1) / n;
    RoundUp(t0 - u, n);
    MatchesRepeat(p, u, k);
    t := u + k * n;
  }

  lemma RoundUp(x: int, n: int)
    requires n > 0
    ensures x <= (x + n - 1) / n * n < x + n
  {
    var q, r := (x + n - 1) / n, (x + n - 1) % n;
    assert x + n - 1 == n * q + r;
  }

  /** Some day of a month, in a leap year if need be, meets the day fields. */
  predicate SomeDay(p: Schedule, month: int)
    requires 1 <= month <= 12
  {
    var dom := exists d | 1 <= d <= DaysIn(month - 1, true) :: d in p.dayOfMonth;
    var dow := exists w | 0 <= w < 7 :: w in p.dayOfWeek;
    if p.anyDay && p.anyWeekday then true
    else if p.anyDay then dow
    else if p.anyWeekday then dom
    else dom || dow
  }

  predicate CanFire(p: Schedule) {
    && (exists h | 0 <= h < 24 :: h in p.hour)
    && (exists k | 0 <= k < 60 :: k in p.minute)
    && (exists month | 1 <= month <= 12 :: month in p.month && SomeDay(p, month))
  }

  /** A schedule fires at some time exactly when its fields name a real hour, minute, month and day of that month. */
  lemma FiresIff(p: Schedule)
    ensures Fires(p) <==> CanFire(p)
  {
    hide Matches, CanFire;
    if Fires(p) {
      var t :| Matches(p, t);
      MatchCanFire(p, t);
    }
    if CanFire(p) {
      var t := Construct(p);
    }
  }

  lemma MatchCanFire(p: Schedule, t: int)
    requires Matches(p, t)
    ensures CanFire(p)
  {
    hide MonthStart;
    var day := t / 1440;
    var n := MonthOf(day);
    HourTwice(t);
    DateInRange(day);
    MonthLength(n);
    assert HourOf(t) in p.hour && t % 60 in p.minute;
    assert n % 12 + 1 in p.month;
    var d, w := DateOf(day), WeekdayOf(day);
    assert d in p.dayOfMonth ==> exists d | 1 <= d <= DaysIn(n % 12, true) :: d in p.dayOfMonth;
    assert w in p.dayOfWeek ==> exists w | 0 <= w < 7 :: w in p.dayOfWeek;
    assert SomeDay(p, n % 12 + 1);
  }

  lemma Construct(p: Schedule) returns (t: int)
    requires CanFire(p)
    ensures Matches(p, t)
  {
    hide Matches, SomeDay;
    var h :| 0 <= h < 24 && h in p.hour;
    var k :| 0 <= k < 60 && k in p.minute;
    var month :| 1 <= month <= 12 && month in p.month && SomeDay(p, month);
    var day := ConstructDay(p, month);
    t := 1440 * day + 60 * h + k;
    TimeOfDay(day, h, k);
    MatchesBy(p, t);
  }

  lemma MatchesBy(p: Schedule, t: int)
    requires MonthOk(p, t / 1440) && DayOk(p, t / 1440) && HourOf(t) in p.hour && t % 60 in p.minute
    ensures Matches(p, t)
  {
  }

  lemma TimeOfDay(day: int, h: int, k: int)
    requires 0 <= h < 24 && 0 <= k < 60
    ensures var t := 1440 * day + 60 * h + k; t / 1440 == day && HourOf(t) == h && t % 60 == k
  {
    var t := 1440 * day + 60 * h + k;
    DivisionIs(t, 1440, day, 60 * h + k);
    DivisionIs(t, 60, 24 * day + h, k);
    DivisionIs(60 * h + k, 60, h, k);
  }

  lemma ConstructDay(p: Schedule, month: int) returns (day: int)
    requires 1 <= month <= 12 && month in p.month && SomeDay(p, month)
    ensures MonthOk(p, day) && DayOk(p, day)
  {
    hide MonthStart, MonthOf;
    var n := 24000 + month - 1;
    var first := MonthStart(n);
    MonthLength(n);
    assert n % 12 == month - 1 && n / 12 == 2000;
    if d :| 1 <= d <= DaysIn(month - 1, true) && d in p.dayOfMonth && !(p.anyDay && !p.anyWeekday) {
      day := first + d - 1;
      MonthIs(day, n);
    } else if w :| 0 <= w < 7 && w in p.dayOfWeek && !(p.anyWeekday && !p.anyDay) {
      day := first + (w - WeekdayOf(first)) % 7;
      WeekdayAfter(first, w);
      MonthIs(day, n);
    } else {
      day := first;
      MonthIs(day, n);
    }
  }

  lemma WeekdayAfter(first: int, w: int)
    requires 0 <= w < 7
    ensures WeekdayOf(first + (w - WeekdayOf(first)) % 7) == w
  {
    var a := WeekdayOf(first);
    var o := (w - a) % 7;
    if w >= a { assert o == w - a; } else { assert o == w - a + 7; }
  }

  // ---- the search ------------------------------------------------------------------------------------------

  /** setUTCMonth(month + 1, 1) at midnight: the first of the next month. */
  method NextMonth(date: UtcDate, ghost t: int)
    requires date.ms == 60000 * t
    modifies date
    ensures date.ms == 60000 * (1440 * MonthStart(MonthOf(t / 1440) + 1))
  {
    hide MonthStart, MonthOf;
    InMinutes(date.ms, t);
    ghost var n := MonthOf(t / 1440);
    SplitMonth(n);
    date.SetUTCMonth(date.GetUTCMonth() + 1, 1);
    DayOfMs(MonthStart(n + 1), date.ms % MS_PER_DAY, date.ms);
    date.SetUTCHours(0, 0, 0, 0);
  }

  lemma SplitMonth(n: int)
    ensures 12 * (n / 12) + n % 12 == n
  {
  }

  lemma DayOfMs(d: int, rest: int, ms: int)
    requires ms == d * MS_PER_DAY + rest && 0 <= rest < MS_PER_DAY
    ensures ms / MS_PER_DAY == d
  {
    DivisionIs(ms, MS_PER_DAY, d, rest);
  }

  method NextDay(date: UtcDate, ghost t: int)
    requires date.ms == 60000 * t
    modifies date
    ensures date.ms == 60000 * (1440 * (t / 1440 + 1))
  {
    hide MonthStart, MonthOf;
    InMinutes(date.ms, t);
    ghost var n := MonthOf(t / 1440);
    SplitMonth(n);
    ghost var was := date.ms;
    date.SetUTCDate(date.GetUTCDate() + 1);
    ghost var d, rest := t / 1440 + 1, was % MS_PER_DAY;
    assert date.ms == d * MS_PER_DAY + rest;
    DayOfMs(d, rest, date.ms);
    date.SetUTCHours(0, 0, 0, 0);
  }

  method NextHour(date: UtcDate, ghost t: int)
    requires date.ms == 60000 * t
    modifies date
    ensures date.ms == 60000 * (60 * (t / 60 + 1))
  {
    InMinutes(date.ms, t);
    HourTwice(t);
    HoursUpTo(t);
    date.SetUTCHours(date.GetUTCHours() + 1, 0, 0, 0);
  }

  lemma HoursUpTo(t: int)
    ensures t / 60 == 24 * (t / 1440) + HourOf(t)
  {
  }

  method NextMinute(date: UtcDate, ghost t: int)
    requires date.ms == 60000 * t
    modifies date
    ensures date.ms == 60000 * (t + 1)
  {
    InMinutes(date.ms, t);
    date.SetUTCMinutes(date.GetUTCMinutes() + 1);
  }

  lemma FirstMinute(from: int)
    ensures var s := from / 60000 * 60000;
      s / 3600000 * 3600000 + (s / 60000 % 60 + 1) * 60000 + s % 60000 == 60000 * (from / 60000 + 1)
  {
    var s := from / 60000 * 60000;
    InMinutes(s, from / 60000);
  }

  /** t is the first minute strictly after `from` that matches. */
  ghost predicate FirstAfter(p: Schedule, from: int, t: int) {
    && Matches(p, t) && from < 60000 * t
    && forall u :: from < 60000 * u && u < t ==> !Matches(p, u)
  }

  /** Nothing from t0 up to t matches. */
  ghost predicate NoneBetween(p: Schedule, t0: int, t: int) {
    forall u | t0 <= u < t :: !Matches(p, u)
  }

  lemma FirstFound(p: Schedule, from: int, t: int)
    requires Matches(p, t) && t > from / 60000 && NoneBetween(p, from / 60000 + 1, t)
    ensures FirstAfter(p, from, t)
  {
    hide Matches;
  }

  lemma FirstIs(p: Schedule, from: int, t: int)
    requires FirstAfter(p, from, t)
    ensures from < 60000 * t && Matches(p, t) && forall u :: from < 60000 * u < 60000 * t ==> !Matches(p, u)
  {
    hide Matches;
  }

  lemma NoneBeforeMatch(p: Schedule, t0: int, t: int, m: int)
    requires NoneBetween(p, t0, t) && Matches(p, m) && t0 <= m
    ensures t <= m
  {
    hide Matches;
  }

  lemma MatchHasTimes(p: Schedule, m: int)
    requires Matches(p, m)
    ensures exists h | 0 <= h < 24 :: h in p.hour
    ensures exists k | 0 <= k < 60 :: k in p.minute
  {
    HourTwice(m);
    assert m % 60 in p.minute && HourOf(m) in p.hour;
  }

  lemma TurnsPositive(t: int, m: int, day: bool, hour: bool)
    requires t <= m
    ensures Turns(t, m / 1440, day, hour) > 0
  {
    HourTwice(t);
  }

  lemma FirstTurns(p: Schedule, t0: int, m: int)
    requires t0 <= m < t0 + MINUTES_OF_400_YEARS
    ensures Entered(p, t0, false, false) && Turns(t0, m / 1440, false, false) < GUARD
  {
    HourTwice(t0);
  }

  /** The date of the next run in milliseconds; it fails exactly for a schedule that never fires at all. */
  method NextRun(p: Schedule, from: int) returns (r: Result<int, string>)
    ensures r.Ok? ==> r.value % 60000 == 0 && from < r.value && Matches(p, r.value / 60000)
    ensures r.Ok? ==> forall u :: from < 60000 * u < r.value ==> !Matches(p, u)
    ensures r.Err? <==> !Fires(p)
  {
    hide Matches, MonthOk, DayOk, HourOf, MonthOf, DateOf, WeekdayOf, MonthStart, Entered, Turns, NoneBetween,
      FirstAfter;
    var date := new UtcDate(from);
    date.SetUTCSeconds(0, 0);
    date.SetUTCMinutes(date.GetUTCMinutes() + 1);
    FirstMinute(from);
    ghost var t0 := from / 60000 + 1;
    ghost var t, m, day, hour := t0, t0, false, false;
    if Fires(p) {
      m := FiresSoon(p, t0);
      FirstTurns(p, t0, m);
    }
    NothingBetween(p, t0);
    var guard := 0;
    while guard < GUARD
      invariant 0 <= guard <= GUARD && date.ms == 60000 * t && t0 <= t
      invariant NoneBetween(p, t0, t)
      invariant Fires(p) ==> Matches(p, m) && t0 <= m
      invariant Fires(p) ==> Entered(p, t, day, hour) && guard + Turns(t, m / 1440, day, hour) < GUARD
      decreases GUARD - guard
    {
      InMinutes(date.ms, t);
      guard := guard + 1;
      if date.GetUTCMonth() + 1 !in p.month {
        JumpedMonth(p, t0, t, m, day, hour);
        NextMonth(date, t);
        t, day, hour := 1440 * MonthStart(MonthOf(t / 1440) + 1), true, true;
        continue;
      }
      var dom := date.GetUTCDate() in p.dayOfMonth;
      var dow := date.GetUTCDay() in p.dayOfWeek;
      var dayOk := if p.anyDay && p.anyWeekday then true
                   else if p.anyDay then dow else if p.anyWeekday then dom else dom || dow;
      ChecksAre(p, t);
      if !dayOk {
        JumpedDay(p, t0, t, m, day, hour);
        NextDay(date, t);
        t, day, hour := 1440 * (t / 1440 + 1), true, true;
        continue;
      }
      if date.GetUTCHours() !in p.hour {
        JumpedHour(p, t0, t, m, day, hour);
        NextHour(date, t);
        t, day, hour := 60 * (t / 60 + 1), day || HourOf(t) == 23, true;
        continue;
      }
      if date.GetUTCMinutes() !in p.minute {
        JumpedMinute(p, t0, t, m, day, hour);
        NextMinute(date, t);
        t, day, hour := t + 1, day || (t % 60 == 59 && HourOf(t) == 23), hour || t % 60 == 59;
        continue;
      }
      FirstFound(p, from, t);
      Found(p, t);
      DivisionIs(date.ms, 60000, t, 0);
      FirstIs(p, from, t);
      return Ok(date.ms);
    }
    if Fires(p) {
      NoneBeforeMatch(p, t0, t, m);
      TurnsPositive(t, m, day, hour);
    }
    return Err("Invalid cron schedule: it never fires");
  }

  lemma NothingBetween(p: Schedule, t0: int)
    ensures NoneBetween(p, t0, t0)
  {
  }

  lemma ChecksAre(p: Schedule, t: int)
    ensures MonthOk(p, t / 1440) <==> MonthOf(t / 1440) % 12 + 1 in p.month
    ensures DayOk(p, t / 1440) <==>
      var dom, dow := DateOf(t / 1440) in p.dayOfMonth, WeekdayOf(t / 1440) in p.dayOfWeek;
      if p.anyDay && p.anyWeekday then true else if p.anyDay then dow else if p.anyWeekday then dom else dom || dow
    ensures Matches(p, t) <==> MonthOk(p, t / 1440) && DayOk(p, t / 1440) && HourOf(t) in p.hour && t % 60 in p.minute
  {
  }

  lemma Found(p: Schedule, t: int)
    requires Matches(p, t)
    ensures Fires(p)
  {
  }

  lemma JumpedMonth(p: Schedule, t0: int, t: int, m: int, day: bool, hour: bool)
    requires NoneBetween(p, t0, t) && t0 <= t && !(MonthOf(t / 1440) % 12 + 1 in p.month)
    ensures var next := 1440 * MonthStart(MonthOf(t / 1440) + 1);
      next > t && NoneBetween(p, t0, next)
      && (Entered(p, t, day, hour) ==>
            Entered(p, next, true, true) && Turns(next, m / 1440, true, true) < Turns(t, m / 1440, day, hour))
  {
    hide MonthStart, Matches, Entered, Turns, HourOf;
    var next := 1440 * MonthStart(MonthOf(t / 1440) + 1);
    forall u | t0 <= u < next ensures !Matches(p, u) {
      if u >= t { SkipMonth(p, t, u); }
    }
    if Entered(p, t, day, hour) {
      JumpDay(p, t, m / 1440, day, hour, MonthStart(MonthOf(t / 1440) + 1));
    }
  }

  lemma JumpedDay(p: Schedule, t0: int, t: int, m: int, day: bool, hour: bool)
    requires NoneBetween(p, t0, t) && t0 <= t && !DayOk(p, t / 1440)
    ensures var next := 1440 * (t / 1440 + 1);
      next > t && NoneBetween(p, t0, next)
      && (Entered(p, t, day, hour) ==>
            Entered(p, next, true, true) && Turns(next, m / 1440, true, true) < Turns(t, m / 1440, day, hour))
  {
    hide MonthStart, Matches, Entered, Turns, HourOf, MonthOk, DayOk;
    var next := 1440 * (t / 1440 + 1);
    forall u | t0 <= u < next ensures !Matches(p, u) {
      if u >= t { SkipDay(p, t, u); }
    }
    if Entered(p, t, day, hour) {
      JumpDay(p, t, m / 1440, day, hour, t / 1440 + 1);
    }
  }

  lemma JumpedHour(p: Schedule, t0: int, t: int, m: int, day: bool, hour: bool)
    requires NoneBetween(p, t0, t) && t0 <= t && MonthOk(p, t / 1440) && DayOk(p, t / 1440) && HourOf(t) !in p.hour
    ensures var next := 60 * (t / 60 + 1); var d := day || HourOf(t) == 23;
      next > t && NoneBetween(p, t0, next)
      && (Entered(p, t, day, hour) && Matches(p, m) ==>
            Entered(p, next, d, true) && Turns(next, m / 1440, d, true) < Turns(t, m / 1440, day, hour))
  {
    hide MonthStart, Matches, Entered, Turns, HourOf, MonthOk, DayOk;
    var next := 60 * (t / 60 + 1);
    forall u | t0 <= u < next ensures !Matches(p, u) {
      if u >= t { SkipHour(p, t, u); }
    }
    if Entered(p, t, day, hour) && Matches(p, m) {
      MatchHasTimes(p, m);
      JumpHour(p, t, m / 1440, day, hour);
    }
  }

  lemma JumpedMinute(p: Schedule, t0: int, t: int, m: int, day: bool, hour: bool)
    requires NoneBetween(p, t0, t) && t0 <= t && MonthOk(p, t / 1440) && DayOk(p, t / 1440) && HourOf(t) in p.hour
    requires t % 60 !in p.minute
    ensures var d, h := day || (t % 60 == 59 && HourOf(t) == 23), hour || t % 60 == 59;
      NoneBetween(p, t0, t + 1)
      && (Entered(p, t, day, hour) && Matches(p, m) ==>
            Entered(p, t + 1, d, h) && Turns(t + 1, m / 1440, d, h) < Turns(t, m / 1440, day, hour))
  {
    hide MonthStart, Entered, Turns, HourOf, MonthOk, DayOk;
    if Entered(p, t, day, hour) && Matches(p, m) {
      MatchHasTimes(p, m);
      JumpMinute(p, t, m / 1440, day, hour);
    }
  }

  // ---- what a minute has to meet ---------------------------------------------------------------------------

  /** Hour h and minute k of a day match if the month, the day, h and k are allowed. */
  lemma MatchesAt(p: Schedule, day: int, h: int, k: int)
    requires 0 <= h < 24 && 0 <= k < 60
    ensures Matches(p, 1440 * day + 60 * h + k) <==>
      MonthOf(day) % 12 + 1 in p.month && DayOk(p, day) && h in p.hour && k in p.minute
  {
    TimeOfDay(day, h, k);
  }

  /** The day rule: two given day fields are alternatives, one alone decides, none lets every day through. */
  lemma DayRule(p: Schedule, day: int)
    ensures !p.anyDay && !p.anyWeekday ==>
      (DayOk(p, day) <==> DateOf(day) in p.dayOfMonth || WeekdayOf(day) in p.dayOfWeek)
    ensures !p.anyDay && p.anyWeekday ==> (DayOk(p, day) <==> DateOf(day) in p.dayOfMonth)
    ensures p.anyDay && !p.anyWeekday ==> (DayOk(p, day) <==> WeekdayOf(day) in p.dayOfWeek)
    ensures p.anyDay && p.anyWeekday ==> DayOk(p, day)
  {
  }

  /** The example: "0 0 * * MON" from the start of 1970 is Monday, January 5th. */
  lemma FirstMonday(p: Schedule)
    requires p.minute == {0} && p.hour == {0} && 1 in p.month && p.dayOfWeek == {1} && p.anyDay && !p.anyWeekday
    ensures Matches(p, 1440 * 4) && forall u | 0 <= u < 1440 * 4 :: !Matches(p, u)
  {
    hide MonthOf, DateOf, WeekdayOf, HourOf, MonthStart;
    EpochMonth();
    MonthIs(4, MONTHS_OF_1970);
    MatchesAt(p, 4, 0, 0);
    NextWeekdays();
    forall u | 0 <= u < 1440 * 4 ensures !Matches(p, u) {
      assert 0 <= u / 1440 < 4;
    }
  }

  lemma NextWeekdays()
    ensures WeekdayOf(0) == 4 && WeekdayOf(1) == 5 && WeekdayOf(2) == 6 && WeekdayOf(3) == 0 && WeekdayOf(4) == 1
  {
    EpochIs();
    NextDate(0);
    NextDate(1);
    NextDate(2);
    NextDate(3);
  }
}
