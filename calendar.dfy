/**
  Civil time in one fixed zone without daylight saving, on the proleptic
  Gregorian calendar, with the field conventions of Go's time package:
  months 1-12, days 1-31, weekdays 0 (Sunday) to 6 (Saturday), and the zero
  time January 1 of year 1, 00:00:00.

  Two measures of a DateTime are used:
  - SortKey, a mixed-radix key over (year, month, day, hour, minute, second).
    It orders valid date-times lexicographically and needs only linear
    arithmetic; it is not a count of seconds, since every month gets 31 slots.
  - AbsSeconds / AbsNanos, the number of seconds (nanoseconds) elapsed since
    the zero time, used where the source adds a duration.
  SortKeyIsChronological proves that both measures order valid date-times alike.
*/
module Calendar {

  const NanosPerSecond: int := 1_000_000_000
  const SecondsPerDay: int := 86400

  datatype DateTime = DateTime(year: int, month: int, day: int,
                               hour: int, minute: int, second: int, nano: int)

  /** Go's zero time.Time. */
  const Zero: DateTime := DateTime(1, 1, 1, 0, 0, 0, 0)

  predicate IsLeapYear(y: int) {
    y % 4 == 0 && (y % 100 != 0 || y % 400 == 0)
  }

  function YearLength(y: int): int {
    if IsLeapYear(y) then 366 else 365
  }

  function DaysIn(y: int, m: int): (n: int)
    requires 1 <= m <= 12
    ensures 28 <= n <= 31
  {
    if m == 2 then (if IsLeapYear(y) then 29 else 28)
    else if m == 4 || m == 6 || m == 9 || m == 11 then 30
    else 31
  }

  predicate Valid(t: DateTime) {
    && 1 <= t.month <= 12
    && 1 <= t.day <= DaysIn(t.year, t.month)
    && 0 <= t.hour < 24
    && 0 <= t.minute < 60
    && 0 <= t.second < 60
    && 0 <= t.nano < NanosPerSecond
  }

  // ---------------------------------------------------------------------------
  // Ordering

  function DayKey(t: DateTime): int {
    (t.year * 12 + t.month - 1) * 31 + t.day - 1
  }

  function SortKey(t: DateTime): int {
    DayKey(t) * SecondsPerDay + t.hour * 3600 + t.minute * 60 + t.second
  }

  /** `a` is strictly earlier than `b`. */
  predicate Before(a: DateTime, b: DateTime) {
    SortKey(a) < SortKey(b) || (SortKey(a) == SortKey(b) && a.nano < b.nano)
  }

  /** The key of a valid date-time determines all of its fields but the nanoseconds. */
  lemma SortKeyInjective(a: DateTime, b: DateTime)
    requires Valid(a) && Valid(b) && SortKey(a) == SortKey(b)
    ensures a.year == b.year && a.month == b.month && a.day == b.day
    ensures a.hour == b.hour && a.minute == b.minute && a.second == b.second
  {
    SameDayKey(a, b);
  }

  lemma SameDayKey(a: DateTime, b: DateTime)
    requires Valid(a) && Valid(b)
    requires DayKey(a) * SecondsPerDay <= SortKey(b) < DayKey(a) * SecondsPerDay + SecondsPerDay
    ensures a.year == b.year && a.month == b.month && a.day == b.day
  {
    assert DayKey(b) == DayKey(a);
    assert b.year * 12 + b.month == a.year * 12 + a.month;
  }

  // ---------------------------------------------------------------------------
  // Steps used by the next-activation search. Each one starts the next unit.

  function StartOfNextMonth(t: DateTime): (r: DateTime)
    requires Valid(t)
  {
    if t.month == 12 then DateTime(t.year + 1, 1, 1, 0, 0, 0, 0)
    else DateTime(t.year, t.month + 1, 1, 0, 0, 0, 0)
  }

  function StartOfNextDay(t: DateTime): (r: DateTime)
    requires Valid(t)
  {
    if t.day < DaysIn(t.year, t.month) then DateTime(t.year, t.month, t.day + 1, 0, 0, 0, 0)
    else StartOfNextMonth(t)
  }

  function StartOfNextHour(t: DateTime): (r: DateTime)
    requires Valid(t)
  {
    if t.hour < 23 then DateTime(t.year, t.month, t.day, t.hour + 1, 0, 0, 0)
    else StartOfNextDay(t)
  }

  function StartOfNextMinute(t: DateTime): (r: DateTime)
    requires Valid(t)
  {
    if t.minute < 59 then DateTime(t.year, t.month, t.day, t.hour, t.minute + 1, 0, 0)
    else StartOfNextHour(t)
  }

  /** The next whole second strictly after `t`. */
  function StartOfNextSecond(t: DateTime): (r: DateTime)
    requires Valid(t)
  {
    if t.second < 59 then DateTime(t.year, t.month, t.day, t.hour, t.minute, t.second + 1, 0)
    else StartOfNextMinute(t)
  }

  /** Every step lands on a valid whole second strictly after its argument. */
  lemma StepsAdvance(t: DateTime)
    requires Valid(t)
    ensures Valid(StartOfNextMonth(t)) && StartOfNextMonth(t).nano == 0
    ensures Valid(StartOfNextDay(t)) && StartOfNextDay(t).nano == 0
    ensures Valid(StartOfNextHour(t)) && StartOfNextHour(t).nano == 0
    ensures Valid(StartOfNextMinute(t)) && StartOfNextMinute(t).nano == 0
    ensures Valid(StartOfNextSecond(t)) && StartOfNextSecond(t).nano == 0
    ensures SortKey(t) < SortKey(StartOfNextSecond(t)) <= SortKey(StartOfNextMinute(t))
    ensures SortKey(StartOfNextMinute(t)) <= SortKey(StartOfNextHour(t))
    ensures SortKey(StartOfNextHour(t)) <= SortKey(StartOfNextDay(t))
    ensures SortKey(StartOfNextDay(t)) <= SortKey(StartOfNextMonth(t))
  {
  }

  /** The instants skipped by a month step all lie in the month of `t`. */
  lemma SkipMonth(t: DateTime, u: DateTime)
    requires Valid(t) && Valid(u)
    requires SortKey(t) <= SortKey(u) < SortKey(StartOfNextMonth(t))
    ensures u.year == t.year && u.month == t.month
  {
    var a, b := t.year * 12 + t.month - 1, u.year * 12 + u.month - 1;
    assert SortKey(StartOfNextMonth(t)) == (a + 1) * 31 * SecondsPerDay;
    assert a * 31 * SecondsPerDay <= SortKey(t);
    assert b * 31 * SecondsPerDay <= SortKey(u) < (b + 1) * 31 * SecondsPerDay;
    assert a == b;
  }

  /** The instants skipped by a day step all lie on the date of `t`. */
  lemma SkipDay(t: DateTime, u: DateTime)
    requires Valid(t) && Valid(u)
    requires SortKey(t) <= SortKey(u) < SortKey(StartOfNextDay(t))
    ensures u.year == t.year && u.month == t.month && u.day == t.day
  {
    if t.day == DaysIn(t.year, t.month) {
      SkipMonth(t, u);
    }
    SameDayKey(t, u);
  }

  /** The instants skipped by an hour step all lie in the hour of `t`. */
  lemma SkipHour(t: DateTime, u: DateTime)
    requires Valid(t) && Valid(u)
    requires SortKey(t) <= SortKey(u) < SortKey(StartOfNextHour(t))
    ensures u.year == t.year && u.month == t.month && u.day == t.day && u.hour == t.hour
  {
    StepsAdvance(t);
    SkipDay(t, u);
  }

  /** The instants skipped by a minute step all lie in the minute of `t`. */
  lemma SkipMinute(t: DateTime, u: DateTime)
    requires Valid(t) && Valid(u)
    requires SortKey(t) <= SortKey(u) < SortKey(StartOfNextMinute(t))
    ensures u.year == t.year && u.month == t.month && u.day == t.day
    ensures u.hour == t.hour && u.minute == t.minute
  {
    StepsAdvance(t);
    SkipHour(t, u);
  }

  /** The instants skipped by a second step all lie in the second of `t`. */
  lemma SkipSecond(t: DateTime, u: DateTime)
    requires Valid(t) && Valid(u)
    requires SortKey(t) <= SortKey(u) < SortKey(StartOfNextSecond(t))
    ensures u.year == t.year && u.month == t.month && u.day == t.day
    ensures u.hour == t.hour && u.minute == t.minute && u.second == t.second
  {
    StepsAdvance(t);
    SkipMinute(t, u);
  }

  // ---------------------------------------------------------------------------
  // Day numbers, weekdays and elapsed time

  function DaysBeforeYear(y: int): int {
    var p := y - 1;
    365 * p + p / 4 - p / 100 + p / 400
  }

  function DaysBeforeMonth(y: int, m: int): int
    requires 1 <= m <= 12
  {
    [0, 31, 59, 90, 120, 151, 181, 212, 243, 273, 304, 334][m - 1]
      + (if m > 2 && IsLeapYear(y) then 1 else 0)
  }

  /** Days elapsed from the zero time's date to the date of `t`. */
  function DayNumber(t: DateTime): int
    requires 1 <= t.month <= 12
  {
    DaysBeforeYear(t.year) + DaysBeforeMonth(t.year, t.month) + t.day - 1
  }

  /** Day of the week as Go numbers it; January 1 of year 1 was a Monday. */
  function Weekday(t: DateTime): (w: int)
    requires 1 <= t.month <= 12
    ensures 0 <= w < 7
  {
    (DayNumber(t) + 1) % 7
  }

  function AbsSeconds(t: DateTime): int
    requires 1 <= t.month <= 12
  {
    DayNumber(t) * SecondsPerDay + t.hour * 3600 + t.minute * 60 + t.second
  }

  function AbsNanos(t: DateTime): int
    requires 1 <= t.month <= 12
  {
    AbsSeconds(t) * NanosPerSecond + t.nano
  }

  lemma YearStep(y: int)
    ensures DaysBeforeYear(y + 1) == DaysBeforeYear(y) + YearLength(y)
  {
    assert y / 4 - (y - 1) / 4 == (if y % 4 == 0 then 1 else 0);
    assert y / 100 - (y - 1) / 100 == (if y % 100 == 0 then 1 else 0);
    assert y / 400 - (y - 1) / 400 == (if y % 400 == 0 then 1 else 0);
  }

  lemma MonthStep(y: int, m: int)
    requires 1 <= m <= 12
    ensures m < 12 ==> DaysBeforeMonth(y, m + 1) == DaysBeforeMonth(y, m) + DaysIn(y, m)
    ensures m == 12 ==> DaysBeforeMonth(y, m) + DaysIn(y, m) == YearLength(y)
  {
  }

  /** A day step moves the day number by exactly one. */
  lemma DayNumberOfNextDay(t: DateTime)
    requires Valid(t)
    ensures DayNumber(StartOfNextDay(t)) == DayNumber(t) + 1
  {
    MonthStep(t.year, t.month);
    if t.day == DaysIn(t.year, t.month) && t.month == 12 {
      YearStep(t.year);
    }
  }

  function StartOfPreviousDay(t: DateTime): (r: DateTime)
    requires Valid(t)
  {
    if t.day > 1 then DateTime(t.year, t.month, t.day - 1, 0, 0, 0, 0)
    else if t.month > 1 then DateTime(t.year, t.month - 1, DaysIn(t.year, t.month - 1), 0, 0, 0, 0)
    else DateTime(t.year - 1, 12, 31, 0, 0, 0, 0)
  }

  lemma DayNumberOfPreviousDay(t: DateTime)
    requires Valid(t)
    ensures Valid(StartOfPreviousDay(t))
    ensures DayNumber(StartOfPreviousDay(t)) == DayNumber(t) - 1
  {
    if t.day == 1 {
      if t.month > 1 {
        MonthStep(t.year, t.month - 1);
      } else {
        MonthStep(t.year - 1, 12);
        YearStep(t.year - 1);
      }
    }
  }

  /** The day of the week advances by one, cyclically, from each day to the next. */
  lemma {:induction false} WeekdayOfNextDay(t: DateTime)
    requires Valid(t)
    ensures Weekday(StartOfNextDay(t)) == (Weekday(t) + 1) % 7
  {
    DayNumberOfNextDay(t);
    WeekdayStep(DayNumber(t) + 1);
  }

  lemma WeekdayStep(n: int)
    ensures (n + 1) % 7 == (n % 7 + 1) % 7
  {
    var q := n / 7;
    assert n == 7 * q + n % 7;
    if n % 7 == 6 {
      assert n + 1 == 7 * (q + 1);
    } else {
      assert n + 1 == 7 * q + (n % 7 + 1);
    }
  }

  /** The date `n` days after (before, for negative `n`) the date of `t`, at midnight. */
  function AddDays(t: DateTime, n: int): (r: DateTime)
    requires Valid(t)
    ensures Valid(r) && r.hour == 0 && r.minute == 0 && r.second == 0 && r.nano == 0
    ensures DayNumber(r) == DayNumber(t) + n
    decreases if n < 0 then -n else n
  {
    if n == 0 then DateTime(t.year, t.month, t.day, 0, 0, 0, 0)
    else if n > 0 then
      DayNumberOfNextDay(t);
      StepsAdvance(t);
      AddDays(StartOfNextDay(t), n - 1)
    else
      DayNumberOfPreviousDay(t);
      AddDays(StartOfPreviousDay(t), n + 1)
  }

  /** Go's Time.Add in a fixed zone: the instant `d` nanoseconds after `t`. */
  function AddDuration(t: DateTime, d: int): (r: DateTime)
    requires Valid(t)
    ensures Valid(r)
    ensures AbsNanos(r) == AbsNanos(t) + d
  {
    var total := t.nano + d;
    var secs := total / NanosPerSecond;
    var sod := t.hour * 3600 + t.minute * 60 + t.second + secs;
    var date := AddDays(t, sod / SecondsPerDay);
    var rem := sod % SecondsPerDay;
    DateTime(date.year, date.month, date.day, rem / 3600, rem % 3600 / 60, rem % 60,
             total % NanosPerSecond)
  }

  // ---------------------------------------------------------------------------
  // The sort key orders valid date-times as elapsed time does.

  lemma {:induction false} DaysBeforeYearMonotone(y1: int, y2: int)
    requires y1 < y2
    ensures DaysBeforeYear(y1) + YearLength(y1) <= DaysBeforeYear(y2)
    decreases y2 - y1
  {
    YearStep(y1);
    if y1 + 1 < y2 {
      DaysBeforeYearMonotone(y1 + 1, y2);
    }
  }

  lemma {:induction false} DaysBeforeMonthMonotone(y: int, m1: int, m2: int)
    requires 1 <= m1 < m2 <= 12
    ensures DaysBeforeMonth(y, m1) + DaysIn(y, m1) <= DaysBeforeMonth(y, m2)
    decreases m2 - m1
  {
    MonthStep(y, m1);
    if m1 + 1 < m2 {
      DaysBeforeMonthMonotone(y, m1 + 1, m2);
    }
  }

  lemma DayNumberWithinYear(t: DateTime)
    requires Valid(t)
    ensures DaysBeforeYear(t.year) <= DayNumber(t) < DaysBeforeYear(t.year) + YearLength(t.year)
  {
    if t.month < 12 {
      DaysBeforeMonthMonotone(t.year, t.month, 12);
    }
    MonthStep(t.year, 12);
  }

  lemma DayNumberMonotone(a: DateTime, b: DateTime)
    requires Valid(a) && Valid(b) && DayKey(a) < DayKey(b)
    ensures DayNumber(a) < DayNumber(b)
  {
    if a.year < b.year {
      DayNumberWithinYear(a);
      DayNumberWithinYear(b);
      DaysBeforeYearMonotone(a.year, b.year);
    } else {
      assert a.year == b.year;
      if a.month < b.month {
        DaysBeforeMonthMonotone(a.year, a.month, b.month);
      }
    }
  }

  /** Comparing sort keys is comparing elapsed seconds. */
  lemma SortKeyIsChronological(a: DateTime, b: DateTime)
    requires Valid(a) && Valid(b)
    ensures SortKey(a) < SortKey(b) <==> AbsSeconds(a) < AbsSeconds(b)
    ensures SortKey(a) == SortKey(b) <==> AbsSeconds(a) == AbsSeconds(b)
  {
    if DayKey(a) < DayKey(b) {
      DayNumberMonotone(a, b);
    } else if DayKey(b) < DayKey(a) {
      DayNumberMonotone(b, a);
    } else {
      SameDayKey(a, b);
    }
  }
}
