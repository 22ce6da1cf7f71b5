/**
 * The Gregorian calendar of ECMAScript dates (section 21.4.1 of ECMA-262), counted in days and months from year zero.
 */
module Calendar {
  import opened Arithmetic

  const MONTHS_OF_1970 := 23640
  const DAYS_OF_400_YEARS := 146097

  predicate IsLeap(y: int) { y % 4 == 0 && (y % 100 != 0 || y % 400 == 0) }

  /** The day number of January 1st of a year; January 1st 1970 is day 0. */
  function DayFromYear(y: int): int {
    365 * (y - 1970) + (y - 1969) / 4 - (y - 1901) / 100 + (y - 1601) / 400
  }

  /** Days of a year before month m, counted from 0. */
  function DaysBefore(m: int, leap: bool): int
    requires 0 <= m < 12
  {
    var feb := if leap then 29 else 28;
    if m == 0 then 0 else if m == 1 then 31 else
      31 + feb + (if m == 2 then 0 else if m == 3 then 31 else if m == 4 then 61 else if m == 5 then 92
                  else if m == 6 then 122 else if m == 7 then 153 else if m == 8 then 184 else if m == 9 then 214
                  else if m == 10 then 245 else 275)
  }

  /** The day number of the first of month n, where n counts months from January of year 0. */
  function MonthStart(n: int): int {
    DayFromYear(n / 12) + DaysBefore(n % 12, IsLeap(n / 12))
  }

  function LengthOf(n: int): int { MonthStart(n + 1) - MonthStart(n) }

  lemma NextDivision(x: int, k: int)
    requires k > 0
    ensures (x + 1) / k - x / k == if (x + 1) % k == 0 then 1 else 0
  {
    var q, r := x / k, x % k;
    assert x == k * q + r;
    if r == k - 1 {
      assert x + 1 == k * (q + 1);
      DivisionIs(x + 1, k, q + 1, 0);
    } else {
      DivisionIs(x + 1, k, q, r + 1);
    }
  }

  lemma YearLength(y: int)
    ensures DayFromYear(y + 1) - DayFromYear(y) == if IsLeap(y) then 366 else 365
  {
    Multiples(y, 4, 1968);
    Multiples(y, 100, 1900);
    Multiples(y, 400, 1600);
    FourHundreds(y);
  }

  /** Divisions count a year more exactly when the year is a multiple. */
  lemma Multiples(y: int, k: int, base: int)
    requires (k == 4 && base == 1968) || (k == 100 && base == 1900) || (k == 400 && base == 1600)
    ensures (y + 1 - base - 1) / k - (y - base - 1) / k == if y % k == 0 then 1 else 0
  {
    NextDivision(y - base - 1, k);
    assert (y - base) % k == 0 <==> y % k == 0;
  }

  lemma FourHundreds(y: int)
    ensures y % 400 == 0 ==> y % 100 == 0
    ensures y % 100 == 0 ==> y % 4 == 0
  {
  }

  /** Months are 28 to 31 days long; only February depends on the year. */
  lemma MonthLength(n: int)
    ensures 28 <= LengthOf(n) <= 31
    ensures LengthOf(n) == DaysIn(n % 12, IsLeap(n / 12))
  {
    hide DayFromYear, IsLeap;
    var y, m := n / 12, n % 12;
    assert n == 12 * y + m;
    if m < 11 {
      DivisionIs(n + 1, 12, y, m + 1);
    } else {
      DivisionIs(n + 1, 12, y + 1, 0);
      YearLength(y);
    }
  }

  function DaysIn(m: int, leap: bool): int
    requires 0 <= m < 12
  {
    if m == 1 then (if leap then 29 else 28)
    else if m == 3 || m == 5 || m == 8 || m == 10 then 30 else 31
  }

  lemma {:induction false} MonthsApart(m: int, n: int)
    requires m <= n
    ensures MonthStart(m) + 28 * (n - m) <= MonthStart(n)
    decreases n - m
  {
    hide MonthStart;
    if m < n {
      MonthLength(m);
      MonthsApart(m + 1, n);
    }
  }

  lemma EpochMonth()
    ensures MonthStart(MONTHS_OF_1970) == 0 && MonthStart(MONTHS_OF_1970 + 1) == 31
  {
    DivisionIs(MONTHS_OF_1970, 12, 1970, 0);
    DivisionIs(MONTHS_OF_1970 + 1, 12, 1970, 1);
  }

  /** The month that a day is in. */
  function MonthOf(day: int): (n: int)
    ensures MonthStart(n) <= day < MonthStart(n + 1)
  {
    hide MonthStart;
    EpochMonth();
    if day >= 0 then Forward(day, MONTHS_OF_1970) else Backward(day, MONTHS_OF_1970)
  }

  function Forward(day: int, n: int): (r: int)
    requires MonthStart(n) <= day
    ensures MonthStart(r) <= day < MonthStart(r + 1)
    decreases day - MonthStart(n)
  {
    hide MonthStart;
    MonthLength(n);
    if day < MonthStart(n + 1) then n else Forward(day, n + 1)
  }

  function Backward(day: int, n: int): (r: int)
    requires day < MonthStart(n + 1)
    ensures MonthStart(r) <= day < MonthStart(r + 1)
    decreases MonthStart(n + 1) - day
  {
    hide MonthStart;
    MonthLength(n);
    if MonthStart(n) <= day then n else Backward(day, n - 1)
  }

  lemma MonthIs(day: int, n: int)
    requires MonthStart(n) <= day < MonthStart(n + 1)
    ensures MonthOf(day) == n
  {
    hide MonthStart;
    var m := MonthOf(day);
    if m < n { MonthsApart(m + 1, n); }
    if n < m { MonthsApart(n + 1, m); }
  }

  function DateOf(day: int): int { day - MonthStart(MonthOf(day)) + 1 }

  /** Day 0 was a Thursday. */
  function WeekdayOf(day: int): int { (day + 4) % 7 }

  lemma DateInRange(day: int)
    ensures 1 <= DateOf(day) <= LengthOf(MonthOf(day)) <= 31
  {
    MonthLength(MonthOf(day));
  }

  // ---- the calendar repeats every 400 years ----------------------------------------------------------------

  lemma YearsRepeat(y: int)
    ensures DayFromYear(y + 400) == DayFromYear(y) + DAYS_OF_400_YEARS && IsLeap(y + 400) == IsLeap(y)
  {
    ShiftedDivision(y - 1969, 4, 100);
    ShiftedDivision(y - 1901, 100, 4);
    ShiftedDivision(y - 1601, 400, 1);
    ShiftedDivision(y, 4, 100);
    ShiftedDivision(y, 100, 4);
    ShiftedDivision(y, 400, 1);
  }

  lemma ShiftedDivision(x: int, k: int, q: int)
    requires k > 0
    ensures (x + k * q) / k == x / k + q && (x + k * q) % k == x % k
  {
    DivisionIs(x + k * q, k, x / k + q, x % k);
  }

  lemma MonthsRepeat(n: int)
    ensures MonthStart(n + 4800) == MonthStart(n) + DAYS_OF_400_YEARS && (n + 4800) % 12 == n % 12
  {
    ShiftedDivision(n, 12, 400);
    YearsRepeat(n / 12);
  }

  lemma DaysRepeat(day: int)
    ensures var later := day + DAYS_OF_400_YEARS;
      MonthOf(later) == MonthOf(day) + 4800 && DateOf(later) == DateOf(day) && WeekdayOf(later) == WeekdayOf(day)
  {
    hide MonthStart;
    var n := MonthOf(day);
    MonthsRepeat(n);
    MonthsRepeat(n + 1);
    MonthIs(day + DAYS_OF_400_YEARS, n + 4800);
    ShiftedDivision(day + 4, 7, 20871);
  }

  /** Same month of the year, day of the month and day of the week. */
  predicate SameDates(day: int, other: int) {
    MonthOf(other) % 12 == MonthOf(day) % 12 && DateOf(other) == DateOf(day) && WeekdayOf(other) == WeekdayOf(day)
  }

  lemma SameDatesLater(day: int)
    ensures SameDates(day, day + DAYS_OF_400_YEARS)
  {
    hide MonthOf, DateOf, WeekdayOf;
    DaysRepeat(day);
    ShiftedDivision(MonthOf(day), 12, 400);
  }

  lemma {:induction false} DaysRepeatOften(day: int, k: nat)
    ensures SameDates(day, day + k * DAYS_OF_400_YEARS)
    decreases k
  {
    hide MonthOf, DateOf, WeekdayOf, MonthStart;
    if k > 0 {
      SameDatesLater(day);
      DaysRepeatOften(day + DAYS_OF_400_YEARS, k - 1);
    }
  }

  lemma DaysRepeatAlways(day: int, k: int)
    ensures SameDates(day, day + k * DAYS_OF_400_YEARS)
  {
    hide MonthOf, DateOf, WeekdayOf, MonthStart;
    if k >= 0 {
      DaysRepeatOften(day, k);
    } else {
      var other := day + k * DAYS_OF_400_YEARS;
      DaysRepeatOften(other, -k);
      assert other + (-k) * DAYS_OF_400_YEARS == day;
    }
  }

  // ---- the calendar, day by day ----------------------------------------------------------------------------

  /** Day 0 is Thursday, January 1st 1970. */
  lemma EpochIs()
    ensures MonthOf(0) == 12 * 1970 && DateOf(0) == 1 && WeekdayOf(0) == 4
  {
    hide MonthStart;
    EpochMonth();
    MonthIs(0, MONTHS_OF_1970);
  }

  /** January, March, ... have 31 days, April, June, ... 30, February 28 or 29. */
  lemma MonthLengths(n: int)
    ensures var y, m := n / 12, n % 12 + 1;
      LengthOf(n) == if m == 2 then (if y % 4 == 0 && (y % 100 != 0 || y % 400 == 0) then 29 else 28)
                     else if m in {4, 6, 9, 11} then 30 else 31
  {
    hide MonthStart, LengthOf;
    MonthLength(n);
  }

  /** The next day: one later in the month, or the first of the next one; and one later in the week. */
  lemma NextDate(day: int)
    ensures 0 <= WeekdayOf(day) <= 6
    ensures WeekdayOf(day + 1) == if WeekdayOf(day) == 6 then 0 else WeekdayOf(day) + 1
    ensures if DateOf(day) < LengthOf(MonthOf(day))
            then MonthOf(day + 1) == MonthOf(day) && DateOf(day + 1) == DateOf(day) + 1
            else MonthOf(day + 1) == MonthOf(day) + 1 && DateOf(day + 1) == 1
  {
    hide MonthStart, MonthOf;
    var n := MonthOf(day);
    MonthLength(n + 1);
    MonthIs(day + 1, if DateOf(day) < LengthOf(n) then n else n + 1);
  }
}
