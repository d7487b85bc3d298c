/**
 * The proleptic Gregorian calendar on a timeline of whole seconds since
 * 1970-01-01T00:00:00 (naive, no time zone), which is how a parsed
 * timestamp column stores its values.  It gives the hour of day
 * (`.dt.hour`) and the weekday with Monday = 0 (`.dt.weekday`).
 */
module Calendar {

  const SecondsPerMinute: int := 60
  const SecondsPerHour: int := 3600
  const SecondsPerDay: int := 86400

  /** 1970-01-01 was a Thursday: index 3 when Monday is 0. */
  const EpochWeekday: int := 3

  predicate IsLeapYear(y: int) {
    y % 4 == 0 && (y % 100 != 0 || y % 400 == 0)
  }

  function DaysInMonth(y: int, m: int): (n: int)
    requires 1 <= m <= 12
    ensures 28 <= n <= 31
    ensures m == 2 ==> (n == 29 <==> IsLeapYear(y))
  {
    if m == 2 then (if IsLeapYear(y) then 29 else 28)
    else if m == 4 || m == 6 || m == 9 || m == 11 then 30
    else 31
  }

  predicate ValidDate(y: int, m: int, d: int) {
    1 <= m <= 12 && 1 <= d <= DaysInMonth(y, m)
  }

  /** Days of year `y` that lie in the months before month `m` (cumulative month lengths). */
  function DaysBeforeMonth(y: int, m: int): int
    requires 1 <= m <= 12
  {
    [0, 31, 59, 90, 120, 151, 181, 212, 243, 273, 304, 334][m - 1]
      + (if m > 2 && IsLeapYear(y) then 1 else 0)
  }

  /** Number of leap years among 1..n (the closed form also counts backwards for n < 0). */
  function LeapYearsThrough(n: int): int {
    n / 4 - n / 100 + n / 400
  }

  /** Day number of January 1st of year `y`. */
  function DaysBeforeYear(y: int): int {
    365 * (y - 1970) + LeapYearsThrough(y - 1) - LeapYearsThrough(1969)
  }

  /** Day number of a date, counted from 1970-01-01 = day 0. */
  function DaysFromCivil(y: int, m: int, d: int): int
    requires 1 <= m <= 12
  {
    DaysBeforeYear(y) + DaysBeforeMonth(y, m) + d - 1
  }

  /** The calendar date that follows a valid date. */
  function NextDate(y: int, m: int, d: int): (r: (int, int, int))
    requires ValidDate(y, m, d)
    ensures ValidDate(r.0, r.1, r.2)
  {
    if d < DaysInMonth(y, m) then (y, m, d + 1)
    else if m < 12 then (y, m + 1, 1)
    else (y + 1, 1, 1)
  }

  lemma LeapYearsStep(n: int)
    ensures LeapYearsThrough(n) - LeapYearsThrough(n - 1) == if IsLeapYear(n) then 1 else 0
  {
    DivStep(n, 4);
    DivStep(n, 100);
    DivStep(n, 400);
  }

  /** Floor division by `k` steps up by one exactly at multiples of `k`. */
  lemma DivStep(n: int, k: int)
    requires k == 4 || k == 100 || k == 400
    ensures n / k - (n - 1) / k == if n % k == 0 then 1 else 0
  {
    var q, r := (n - 1) / k, (n - 1) % k;
    if k == 4 {
      if r == 3 { assert n == 4 * (q + 1); } else { assert n == 4 * q + (r + 1); }
    } else if k == 100 {
      if r == 99 { assert n == 100 * (q + 1); } else { assert n == 100 * q + (r + 1); }
    } else {
      if r == 399 { assert n == 400 * (q + 1); } else { assert n == 400 * q + (r + 1); }
    }
  }

  /**
   * Successive calendar dates have successive day numbers.  Together with
   * EpochIsDayZero this pins DaysFromCivil down as the day count of the
   * calendar.
   */
  lemma NextDateIsNextDay(y: int, m: int, d: int)
    requires ValidDate(y, m, d)
    ensures var n := NextDate(y, m, d); DaysFromCivil(n.0, n.1, n.2) == DaysFromCivil(y, m, d) + 1
  {
    if d == DaysInMonth(y, m) && m == 12 {
      YearStep(y);
    }
  }

  lemma YearStep(y: int)
    ensures DaysFromCivil(y + 1, 1, 1) == DaysFromCivil(y, 12, 31) + 1
  {
    LeapYearsStep(y);
  }

  /** January 1st moves forward by the length of the year before it. */
  lemma DaysBeforeYearStep(y: int)
    ensures DaysBeforeYear(y + 1) == DaysBeforeYear(y) + 365 + (if IsLeapYear(y) then 1 else 0)
  {
    LeapYearsStep(y);
  }

  /** Later years start on later days. */
  lemma {:induction false} DaysBeforeYearMonotone(a: int, b: int)
    requires a <= b
    ensures DaysBeforeYear(a) <= DaysBeforeYear(b)
    decreases b - a
  {
    if a < b {
      DaysBeforeYearStep(a);
      DaysBeforeYearMonotone(a + 1, b);
    }
  }

  /** A valid date lies within its own year: between its January 1st and the next. */
  lemma DateWithinYear(y: int, m: int, d: int)
    requires ValidDate(y, m, d)
    ensures DaysBeforeYear(y) <= DaysFromCivil(y, m, d) < DaysBeforeYear(y + 1)
  {
    DaysBeforeYearStep(y);
  }

  /** Within one year, a later month starts after every day of an earlier month. */
  lemma MonthsOrdered(y: int, m1: int, d1: int, m2: int)
    requires ValidDate(y, m1, d1) && 1 <= m2 <= 12 && m1 < m2
    ensures DaysBeforeMonth(y, m1) + d1 - 1 < DaysBeforeMonth(y, m2)
  {
  }

  /** Different valid dates have different day numbers. */
  lemma DaysFromCivilInjective(y1: int, m1: int, d1: int, y2: int, m2: int, d2: int)
    requires ValidDate(y1, m1, d1) && ValidDate(y2, m2, d2)
    requires DaysFromCivil(y1, m1, d1) == DaysFromCivil(y2, m2, d2)
    ensures y1 == y2 && m1 == m2 && d1 == d2
  {
    DateWithinYear(y1, m1, d1);
    DateWithinYear(y2, m2, d2);
    if y1 < y2 {
      DaysBeforeYearMonotone(y1 + 1, y2);
    } else if y2 < y1 {
      DaysBeforeYearMonotone(y2 + 1, y1);
    } else if m1 < m2 {
      MonthsOrdered(y1, m1, d1, m2);
    } else if m2 < m1 {
      MonthsOrdered(y1, m2, d2, m1);
    }
  }

  /** Different valid dates and times of day are different instants. */
  lemma InstantInjective(y1: int, m1: int, d1: int, hh1: int, mm1: int, ss1: int,
                         y2: int, m2: int, d2: int, hh2: int, mm2: int, ss2: int)
    requires ValidDate(y1, m1, d1) && 0 <= hh1 <= 23 && 0 <= mm1 <= 59 && 0 <= ss1 <= 59
    requires ValidDate(y2, m2, d2) && 0 <= hh2 <= 23 && 0 <= mm2 <= 59 && 0 <= ss2 <= 59
    requires Instant(y1, m1, d1, hh1, mm1, ss1) == Instant(y2, m2, d2, hh2, mm2, ss2)
    ensures y1 == y2 && m1 == m2 && d1 == d2 && hh1 == hh2 && mm1 == mm2 && ss1 == ss2
  {
    InstantFields(y1, m1, d1, hh1, mm1, ss1);
    InstantFields(y2, m2, d2, hh2, mm2, ss2);
    DaysFromCivilInjective(y1, m1, d1, y2, m2, d2);
    var rest1 := mm1 * SecondsPerMinute + ss1;
    var rest2 := mm2 * SecondsPerMinute + ss2;
    assert rest1 == rest2;
  }

  lemma EpochIsDayZero()
    ensures DaysFromCivil(1970, 1, 1) == 0
  {
  }

  /** Hour of day of a point on the timeline. */
  function HourOf(t: int): (h: int)
    ensures 0 <= h <= 23
  {
    (t % SecondsPerDay) / SecondsPerHour
  }

  /** Day number of a point on the timeline (floor division: correct before 1970 too). */
  function DayOf(t: int): int {
    t / SecondsPerDay
  }

  /** Weekday of a point on the timeline, Monday = 0 .. Sunday = 6. */
  function WeekdayOf(t: int): (w: int)
    ensures 0 <= w <= 6
  {
    (DayOf(t) + EpochWeekday) % 7
  }

  /** Seconds since the epoch of a valid date and time of day. */
  function Instant(y: int, m: int, d: int, hh: int, mm: int, ss: int): int
    requires 1 <= m <= 12
  {
    DaysFromCivil(y, m, d) * SecondsPerDay + hh * SecondsPerHour + mm * SecondsPerMinute + ss
  }

  /** The hour, day and weekday read back from an instant are those it was built from. */
  lemma InstantFields(y: int, m: int, d: int, hh: int, mm: int, ss: int)
    requires 1 <= m <= 12
    requires 0 <= hh <= 23 && 0 <= mm <= 59 && 0 <= ss <= 59
    ensures HourOf(Instant(y, m, d, hh, mm, ss)) == hh
    ensures DayOf(Instant(y, m, d, hh, mm, ss)) == DaysFromCivil(y, m, d)
    ensures WeekdayOf(Instant(y, m, d, hh, mm, ss)) == (DaysFromCivil(y, m, d) + EpochWeekday) % 7
  {
    var days := DaysFromCivil(y, m, d);
    var secs := hh * SecondsPerHour + mm * SecondsPerMinute + ss;
    assert Instant(y, m, d, hh, mm, ss) == days * SecondsPerDay + secs;
    assert (days * SecondsPerDay + secs) / SecondsPerDay == days;
    assert (days * SecondsPerDay + secs) % SecondsPerDay == secs;
    assert secs / SecondsPerHour == hh;
  }

  /** One day later is one weekday later, cyclically. */
  lemma WeekdayNextDay(t: int)
    ensures WeekdayOf(t + SecondsPerDay) == (WeekdayOf(t) + 1) % 7
  {
    assert (t + SecondsPerDay) / SecondsPerDay == t / SecondsPerDay + 1;
  }
}
