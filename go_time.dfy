/*
 * The part of Go's `time` package that the bot relies on, in the local zone and to the
 * second: calendar dates of the proleptic Gregorian calendar (`Time.Date()`), weekdays
 * (`int(Time.Weekday())`, Sunday = 0), `time.Date(y, m, d, h, 0, 0, 0, loc)` and
 * `Time.AddDate(0, 0, n)`, which normalises a day count across month and year ends.
 *
 * A day is represented by its number: day 0 is 1 January 1970, day -1 is 31 December 1969.
 */
module GoTime {

  /** A calendar date as returned by `Time.Date()`: year, month 1..12, day of month. */
  datatype Date = Date(year: int, month: int, day: int)

  /** An instant in the local zone: the number of its day and its time of day. */
  datatype Instant = Instant(day: int, hour: int, minute: int, second: int)

  // int(time.Weekday) values
  const Sunday := 0
  const Monday := 1
  const Tuesday := 2
  const Wednesday := 3
  const Thursday := 4
  const Friday := 5
  const Saturday := 6

  predicate IsLeapYear(y: int) {
    y % 4 == 0 && (y % 100 != 0 || y % 400 == 0)
  }

  function DaysInYear(y: int): int {
    if IsLeapYear(y) then 366 else 365
  }

  function DaysInMonth(y: int, m: int): int
    requires 1 <= m <= 12
  {
    if m == 2 then (if IsLeapYear(y) then 29 else 28)
    else if m == 4 || m == 6 || m == 9 || m == 11 then 30
    else 31
  }

  predicate ValidDate(d: Date) {
    1 <= d.month <= 12 && 1 <= d.day <= DaysInMonth(d.year, d.month)
  }

  predicate ValidInstant(t: Instant) {
    0 <= t.hour < 24 && 0 <= t.minute < 60 && 0 <= t.second < 60
  }

  /** The number of days of year `y` before the first of month `m`; month 13 stands for the end of the year. */
  function DaysBeforeMonth(y: int, m: int): int
    requires 1 <= m <= 13
  {
    var leapDay := if m > 2 && IsLeapYear(y) then 1 else 0;
    leapDay +
      if m == 1 then 0 else if m == 2 then 31 else if m == 3 then 59
      else if m == 4 then 90 else if m == 5 then 120 else if m == 6 then 151
      else if m == 7 then 181 else if m == 8 then 212 else if m == 9 then 243
      else if m == 10 then 273 else if m == 11 then 304 else if m == 12 then 334
      else 365
  }

  lemma DaysBeforeNextMonth(y: int, m: int)
    requires 1 <= m <= 12
    ensures DaysBeforeMonth(y, m + 1) == DaysBeforeMonth(y, m) + DaysInMonth(y, m)
  {
  }

  lemma DaysBeforeMonthMonotone(y: int, a: int, b: int)
    requires 1 <= a <= b <= 13
    ensures DaysBeforeMonth(y, a) <= DaysBeforeMonth(y, b)
  {
  }

  /** The number of leap years from year 1 through year `n` (counted negatively for `n < 0`). */
  function LeapYearsThrough(n: int): int {
    n / 4 - n / 100 + n / 400
  }

  /** The number of the day 1 January of year `y`. */
  function YearStart(y: int): int {
    365 * (y - 1970) + LeapYearsThrough(y - 1) - LeapYearsThrough(1969)
  }

  /** Going from `n - 1` to `n`, a count `n / k` grows exactly when `k` divides `n`. */
  lemma MultipleStep(n: int)
    ensures n / 4 - (n - 1) / 4 == if n % 4 == 0 then 1 else 0
    ensures n / 100 - (n - 1) / 100 == if n % 100 == 0 then 1 else 0
    ensures n / 400 - (n - 1) / 400 == if n % 400 == 0 then 1 else 0
  {
  }

  lemma YearStartStep(y: int)
    ensures YearStart(y + 1) == YearStart(y) + DaysInYear(y)
  {
    MultipleStep(y);
    assert y % 100 == 0 ==> y % 4 == 0;
    assert y % 400 == 0 ==> y % 100 == 0;
  }

  /** Years follow each other without overlap: every later year starts after year `a` ends. */
  lemma {:induction false} YearStartMonotone(a: int, b: int)
    requires a < b
    ensures YearStart(a) + DaysInYear(a) <= YearStart(b)
    decreases b - a
  {
    YearStartStep(a);
    if a + 1 < b {
      YearStartMonotone(a + 1, b);
      YearStartStep(a + 1);
    }
  }

  /** The number of the day of a date (the inverse of `DateOfDay`). */
  function DaysSinceEpoch(d: Date): int
    requires ValidDate(d)
  {
    YearStart(d.year) + DaysBeforeMonth(d.year, d.month) + d.day - 1
  }

  /** The year holding day `z`, searching upwards from year `y`. */
  function YearUp(z: int, y: int): (r: int)
    requires YearStart(y) <= z
    ensures YearStart(r) <= z < YearStart(r) + DaysInYear(r)
    decreases z - YearStart(y)
  {
    if z < YearStart(y) + DaysInYear(y) then y
    else
      YearStartStep(y);
      YearUp(z, y + 1)
  }

  /** The year holding day `z`, searching downwards from year `y`. */
  function YearDown(z: int, y: int): (r: int)
    requires z < YearStart(y) + DaysInYear(y)
    ensures YearStart(r) <= z < YearStart(r) + DaysInYear(r)
    decreases YearStart(y) + DaysInYear(y) - z
  {
    if YearStart(y) <= z then y
    else
      YearStartStep(y - 1);
      YearDown(z, y - 1)
  }

  /** The month of year `y` that holds day `dayOfYear` (counted from 0), searching from month `m`. */
  function MonthFrom(y: int, dayOfYear: int, m: int): (r: int)
    requires 1 <= m <= 12
    requires DaysBeforeMonth(y, m) <= dayOfYear < DaysInYear(y)
    ensures m <= r <= 12
    ensures DaysBeforeMonth(y, r) <= dayOfYear < DaysBeforeMonth(y, r + 1)
    decreases 12 - m
  {
    if dayOfYear < DaysBeforeMonth(y, m + 1) then m
    else MonthFrom(y, dayOfYear, m + 1)
  }

  /** The year holding day `z`. */
  function YearOf(z: int): (y: int)
    ensures YearStart(y) <= z < YearStart(y) + DaysInYear(y)
  {
    if z >= 0 then YearUp(z, 1970)
    else
      YearStartStep(1969);
      YearDown(z, 1969)
  }

  /** `Time.Date()` for an instant on day `z`. */
  function DateOfDay(z: int): (d: Date)
    ensures ValidDate(d) && DaysSinceEpoch(d) == z
  {
    var y := YearOf(z);
    var m := MonthFrom(y, z - YearStart(y), 1);
    DaysBeforeNextMonth(y, m);
    Date(y, m, z - YearStart(y) - DaysBeforeMonth(y, m) + 1)
  }

  /** Distinct valid dates have distinct day numbers. */
  lemma DaysSinceEpochInjective(a: Date, b: Date)
    requires ValidDate(a) && ValidDate(b)
    requires DaysSinceEpoch(a) == DaysSinceEpoch(b)
    ensures a == b
  {
    DaysBeforeNextMonth(a.year, a.month);
    DaysBeforeNextMonth(b.year, b.month);
    DaysBeforeMonthMonotone(a.year, a.month + 1, 13);
    DaysBeforeMonthMonotone(b.year, b.month + 1, 13);
    if a.year < b.year {
      YearStartMonotone(a.year, b.year);
    } else if b.year < a.year {
      YearStartMonotone(b.year, a.year);
    }
    assert a.year == b.year;
    if a.month < b.month {
      DaysBeforeMonthMonotone(a.year, a.month + 1, b.month);
    } else if b.month < a.month {
      DaysBeforeMonthMonotone(a.year, b.month + 1, a.month);
    }
  }

  /** `DateOfDay` and `DaysSinceEpoch` are inverse bijections between day numbers and valid dates. */
  lemma DateOfDaysSinceEpoch(d: Date)
    requires ValidDate(d)
    ensures DateOfDay(DaysSinceEpoch(d)) == d
  {
    DaysSinceEpochInjective(DateOfDay(DaysSinceEpoch(d)), d);
  }

  /** Day 0 is 1 January 1970, a Thursday. */
  lemma EpochIsThursday()
    ensures DaysSinceEpoch(Date(1970, 1, 1)) == 0
    ensures WeekdayOf(0) == Thursday
  {
  }

  /** 5 March 2024 is day 19787, a Tuesday. */
  lemma MarchFifth2024IsTuesday()
    ensures ValidDate(Date(2024, 3, 5)) && DaysSinceEpoch(Date(2024, 3, 5)) == 19787
    ensures WeekdayOf(19787) == Tuesday
  {
  }

  /** 2000 is a leap year (divisible by 400): 29 February 2000 exists and is day 11016. */
  lemma LeapDay2000()
    ensures ValidDate(Date(2000, 2, 29)) && DaysSinceEpoch(Date(2000, 2, 29)) == 11016
  {
  }

  /** 1900 is not a leap year (divisible by 100 but not 400): it has no 29 February. */
  lemma NoLeapDay1900()
    ensures !ValidDate(Date(1900, 2, 29))
    ensures DaysSinceEpoch(Date(1900, 3, 1)) == -25508
    ensures DaysSinceEpoch(Date(1900, 1, 1)) == -25567 && WeekdayOf(-25567) == Monday
  {
  }

  /** The date after `d`, rolling over to the next month and the next year. */
  function NextDate(d: Date): (r: Date)
    requires ValidDate(d)
    ensures ValidDate(r) && DaysSinceEpoch(r) == DaysSinceEpoch(d) + 1
  {
    if d.day < DaysInMonth(d.year, d.month) then Date(d.year, d.month, d.day + 1)
    else if d.month < 12 then
      DaysBeforeNextMonth(d.year, d.month);
      Date(d.year, d.month + 1, 1)
    else
      YearStartStep(d.year);
      Date(d.year + 1, 1, 1)
  }

  /**
   * The date `n` days after `d`, one day at a time: a valid date exactly `n` days later, so
   * with `DateOfDaysSinceEpoch` it is the date of day `DaysSinceEpoch(d) + n`.
   */
  function NextDates(d: Date, n: nat): (r: Date)
    requires ValidDate(d)
    ensures ValidDate(r) && DaysSinceEpoch(r) == DaysSinceEpoch(d) + n
    decreases n
  {
    if n == 0 then d else NextDates(NextDate(d), n - 1)
  }

  /** The calendar date of the day after day `z` is the next date of day `z`'s date. */
  lemma DateOfNextDay(z: int)
    ensures DateOfDay(z + 1) == NextDate(DateOfDay(z))
  {
    var next := NextDate(DateOfDay(z));
    assert DaysSinceEpoch(next) == z + 1;
    DateOfDaysSinceEpoch(next);
  }

  /** `int(Time.Weekday())` of an instant on day `z`. */
  function WeekdayOf(z: int): (w: int)
    ensures 0 <= w < 7
  {
    (z + Thursday) % 7
  }

  lemma WeekdayShift(z: int, n: int)
    ensures WeekdayOf(z + n) == (WeekdayOf(z) + n) % 7
  {
  }

  /** `time.Date(y, m, d, hour, 0, 0, 0, loc)`. */
  function ClockAt(d: Date, hour: int): (t: Instant)
    requires ValidDate(d)
    ensures DateOfDay(t.day) == d
    ensures t.hour == hour && t.minute == 0 && t.second == 0
  {
    DateOfDaysSinceEpoch(d);
    Instant(DaysSinceEpoch(d), hour, 0, 0)
  }

  /**
   * `time.Date(t.Year(), t.Month(), t.Day(), hour, 0, 0, 0, t.Location())`: `hour` o'clock on
   * the day of `t`. Rebuilding the instant from `t`'s calendar date lands on `t`'s own day.
   */
  function AtClock(t: Instant, hour: int): (r: Instant)
    ensures r.day == t.day
    ensures ValidInstant(r) <==> 0 <= hour < 24
    ensures ValidInstant(t) ==> (Before(t, r) <==> t.hour < hour)
  {
    Instant(t.day, hour, 0, 0)
  }

  lemma AtClockRebuildsDate(t: Instant, hour: int)
    ensures AtClock(t, hour) == ClockAt(DateOfDay(t.day), hour)
  {
  }

  /** `Time.AddDate(0, 0, n)`: the same time of day, `n` days later. */
  function AddDays(t: Instant, n: int): (r: Instant)
    ensures r.hour == t.hour && r.minute == t.minute && r.second == t.second
    ensures r.day - t.day == n
    ensures WeekdayOf(r.day) == (WeekdayOf(t.day) + n) % 7
  {
    WeekdayShift(t.day, n);
    Instant(t.day + n, t.hour, t.minute, t.second)
  }

  /** `a.Before(b)`. */
  predicate Before(a: Instant, b: Instant) {
    a.day < b.day
    || (a.day == b.day && a.hour < b.hour)
    || (a.day == b.day && a.hour == b.hour && a.minute < b.minute)
    || (a.day == b.day && a.hour == b.hour && a.minute == b.minute && a.second < b.second)
  }

  /** The second an instant stands for, counted from midnight at the start of day 0. */
  function SecondOfEpoch(t: Instant): int {
    ((t.day * 24 + t.hour) * 60 + t.minute) * 60 + t.second
  }

  /** With a digit `lo` below `base`, a two-place number compares by its high place first. */
  lemma PlaceValueOrder(hi: int, lo: int, hi': int, lo': int, base: int)
    requires 0 <= lo < base && 0 <= lo' < base
    ensures hi * base + lo < hi' * base + lo' <==> hi < hi' || (hi == hi' && lo < lo')
  {
    if hi < hi' {
      MultiplyAtLeastOne(hi' - hi, base);
      assert hi' * base - hi * base == (hi' - hi) * base;
    } else if hi' < hi {
      MultiplyAtLeastOne(hi - hi', base);
      assert hi * base - hi' * base == (hi - hi') * base;
    }
  }

  lemma MultiplyAtLeastOne(k: int, base: int)
    requires k >= 1 && base >= 0
    ensures k * base >= base
  {
    assert k * base == (k - 1) * base + base;
  }

  /** On valid instants `Before` is the order of the seconds they stand for, as Go compares instants. */
  lemma BeforeIsEarlierSecond(a: Instant, b: Instant)
    requires ValidInstant(a) && ValidInstant(b)
    ensures Before(a, b) <==> SecondOfEpoch(a) < SecondOfEpoch(b)
  {
    var ha, hb := a.day * 24 + a.hour, b.day * 24 + b.hour;
    var ma, mb := ha * 60 + a.minute, hb * 60 + b.minute;
    PlaceValueOrder(a.day, a.hour, b.day, b.hour, 24);
    PlaceValueOrder(ha, a.minute, hb, b.minute, 60);
    PlaceValueOrder(ma, a.second, mb, b.second, 60);
    assert ha == hb <==> a.day == b.day && a.hour == b.hour by {
      PlaceValueOrder(a.day, a.hour, b.day, b.hour, 24);
      PlaceValueOrder(b.day, b.hour, a.day, a.hour, 24);
    }
    assert ma == mb <==> ha == hb && a.minute == b.minute by {
      PlaceValueOrder(ha, a.minute, hb, b.minute, 60);
      PlaceValueOrder(hb, b.minute, ha, a.minute, 60);
    }
  }

  /** `Before` is a strict total order on instants. */
  lemma BeforeIsStrictTotalOrder(a: Instant, b: Instant, c: Instant)
    ensures !Before(a, a)
    ensures Before(a, b) ==> !Before(b, a)
    ensures Before(a, b) && Before(b, c) ==> Before(a, c)
    ensures a == b || Before(a, b) || Before(b, a)
  {
  }
}
