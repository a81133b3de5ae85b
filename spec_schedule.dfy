/**
  The cron-field schedule of internal/parser/spec.go: six 64-bit membership
  sets, the asymmetric day-of-month / day-of-week rule, and the search for the
  next activation time.
*/
module CronSpec {
  import opened Calendar

  /** Range of acceptable values of a field, plus its name table. */
  datatype Bounds = Bounds(min: int, max: int, names: map<string, int>)

  const SecondBounds: Bounds := Bounds(0, 59, map[])
  const MinuteBounds: Bounds := Bounds(0, 59, map[])
  const HourBounds: Bounds := Bounds(0, 23, map[])
  const DomBounds: Bounds := Bounds(1, 31, map[])
  const MonthBounds: Bounds := Bounds(1, 12, map[
    "jan" := 1, "feb" := 2, "mar" := 3, "apr" := 4, "may" := 5, "jun" := 6,
    "jul" := 7, "aug" := 8, "sep" := 9, "oct" := 10, "nov" := 11, "dec" := 12])
  const DowBounds: Bounds := Bounds(0, 6, map[
    "sun" := 0, "mon" := 1, "tue" := 2, "wed" := 3, "thu" := 4, "fri" := 5, "sat" := 6])

  /** Top bit of a field: the field was written with a `*`. */
  const StarBit: bv64 := 1 << 63

  datatype SpecSchedule = SpecSchedule(second: bv64, minute: bv64, hour: bv64,
                                       dom: bv64, month: bv64, dow: bv64)

  /** Bit `i` of a field is set. */
  predicate Has(bits: bv64, i: int)
    requires 0 <= i < 64
  {
    bits & (1 << i) != 0
  }

  predicate IsStar(bits: bv64) {
    bits & StarBit != 0
  }

  /** Every name maps inside its field's range, and no range reaches the star bit. */
  lemma BoundsAreConsistent()
    ensures forall b :: b in [SecondBounds, MinuteBounds, HourBounds, DomBounds, MonthBounds, DowBounds] ==>
      0 <= b.min <= b.max < 63 && forall n :: n in b.names ==> b.min <= b.names[n] <= b.max
  {
  }

  /** Every field of a valid date-time lies inside the bounds of its field. */
  lemma CalendarFitsBounds(t: DateTime)
    requires Valid(t)
    ensures SecondBounds.min <= t.second <= SecondBounds.max
    ensures MinuteBounds.min <= t.minute <= MinuteBounds.max
    ensures HourBounds.min <= t.hour <= HourBounds.max
    ensures DomBounds.min <= t.day <= DomBounds.max
    ensures MonthBounds.min <= t.month <= MonthBounds.max
    ensures DowBounds.min <= Weekday(t) <= DowBounds.max
  {
  }

  // ---------------------------------------------------------------------------
  // Matching

  /** The day rule: OR when both day fields are restricted, AND when either is a `*`. */
  predicate DayMatches(s: SpecSchedule, t: DateTime)
    requires Valid(t)
  {
    var domMatch := Has(s.dom, t.day);
    var dowMatch := Has(s.dow, Weekday(t));
    if IsStar(s.dom) || IsStar(s.dow) then domMatch && dowMatch else domMatch || dowMatch
  }

  /** A day-of-week written as `*` (all weekdays) leaves the day of month alone in charge. */
  lemma StarWeekdayDefersToDayOfMonth(s: SpecSchedule, t: DateTime)
    requires Valid(t) && IsStar(s.dow)
    requires forall i :: DowBounds.min <= i <= DowBounds.max ==> Has(s.dow, i)
    ensures DayMatches(s, t) <==> Has(s.dom, t.day)
  {
  }

  /** A day-of-month written as `*` (all days) leaves the day of week alone in charge. */
  lemma StarDayOfMonthDefersToWeekday(s: SpecSchedule, t: DateTime)
    requires Valid(t) && IsStar(s.dom)
    requires forall i :: DomBounds.min <= i <= DomBounds.max ==> Has(s.dom, i)
    ensures DayMatches(s, t) <==> Has(s.dow, Weekday(t))
  {
  }

  /**
    The day rule of the crontab utility (POSIX.1-2017, crontab, INPUT FILES):
    when both day fields are restricted a date matches if either field matches
    it; when one of them is `*` (all its values), the other field alone decides.
  */
  lemma PosixDayRule(s: SpecSchedule, t: DateTime)
    requires Valid(t)
    requires IsStar(s.dom) ==> forall i :: DomBounds.min <= i <= DomBounds.max ==> Has(s.dom, i)
    requires IsStar(s.dow) ==> forall i :: DowBounds.min <= i <= DowBounds.max ==> Has(s.dow, i)
    ensures DayMatches(s, t) <==>
      if IsStar(s.dom) then Has(s.dow, Weekday(t))
      else if IsStar(s.dow) then Has(s.dom, t.day)
      else Has(s.dom, t.day) || Has(s.dow, Weekday(t))
  {
    if IsStar(s.dom) {
      StarDayOfMonthDefersToWeekday(s, t);
    } else if IsStar(s.dow) {
      StarWeekdayDefersToDayOfMonth(s, t);
    }
  }

  /** Whether a day matches depends on its date only. */
  lemma DayMatchesOnDate(s: SpecSchedule, a: DateTime, b: DateTime)
    requires Valid(a) && Valid(b)
    requires a.year == b.year && a.month == b.month && a.day == b.day
    ensures DayMatches(s, a) == DayMatches(s, b)
  {
    assert DayNumber(a) == DayNumber(b);
  }

  /** `t` is an activation second of the schedule (nanoseconds aside). */
  predicate Matches(s: SpecSchedule, t: DateTime)
    requires Valid(t)
  {
    Has(s.month, t.month) && DayMatches(s, t) && Has(s.hour, t.hour)
    && Has(s.minute, t.minute) && Has(s.second, t.second)
  }

  /** No activation second lies in [from, to). */
  ghost predicate NoMatchIn(s: SpecSchedule, from: DateTime, to: DateTime) {
    forall u :: Valid(u) && SortKey(from) <= SortKey(u) < SortKey(to) ==> !Matches(s, u)
  }

  /** `r` is the earliest activation second in [from, to). */
  ghost predicate IsFirstMatch(s: SpecSchedule, from: DateTime, to: DateTime, r: DateTime) {
    && Valid(r) && r.nano == 0 && Matches(s, r)
    && SortKey(from) <= SortKey(r) < SortKey(to)
    && NoMatchIn(s, from, r)
  }

  /** Two earliest matches of one window are the same instant. */
  lemma FirstMatchIsUnique(s: SpecSchedule, from: DateTime, to: DateTime, r1: DateTime, r2: DateTime)
    requires IsFirstMatch(s, from, to, r1) && IsFirstMatch(s, from, to, r2)
    ensures r1 == r2
  {
    assert !(SortKey(r1) < SortKey(r2)) by {
      if SortKey(r1) < SortKey(r2) {
        NoMatchAt(s, from, r2, r1);
      }
    }
    assert !(SortKey(r2) < SortKey(r1)) by {
      if SortKey(r2) < SortKey(r1) {
        NoMatchAt(s, from, r1, r2);
      }
    }
    SortKeyInjective(r1, r2);
  }

  /** A window free of matches excludes each of its instants. */
  lemma NoMatchAt(s: SpecSchedule, from: DateTime, to: DateTime, u: DateTime)
    requires NoMatchIn(s, from, to) && Valid(u) && SortKey(from) <= SortKey(u) < SortKey(to)
    ensures !Matches(s, u)
  {
  }

  /** The search starts at the next whole second strictly after `t`. */
  function SearchStart(t: DateTime): DateTime
    requires Valid(t)
  {
    StartOfNextSecond(t)
  }

  /** The search starts at a valid whole second strictly after `t`. */
  lemma SearchStartAdvances(t: DateTime)
    requires Valid(t)
    ensures Valid(SearchStart(t)) && SearchStart(t).nano == 0
    ensures SortKey(t) < SortKey(SearchStart(t))
  {
    StepsAdvance(t);
  }

  /** The search gives up at January 1 of the start year + 4. */
  function Horizon(t: DateTime): DateTime
    requires Valid(t)
  {
    DateTime(SearchStart(t).year + 4, 1, 1, 0, 0, 0, 0)
  }

  // ---------------------------------------------------------------------------
  // Each step of the search passes over non-matching seconds only, lands on a
  // valid whole second further on, and keeps the coarser fields unless it wraps.

  lemma MonthStepKeepsNoMatch(s: SpecSchedule, from: DateTime, t: DateTime)
    requires Valid(t) && NoMatchIn(s, from, t) && SortKey(from) <= SortKey(t)
    requires !Has(s.month, t.month)
    ensures var r := StartOfNextMonth(t);
      Valid(r) && r.nano == 0 && SortKey(t) < SortKey(r) && r.year <= t.year + 1
      && NoMatchIn(s, from, r)
  {
    StepsAdvance(t);
    forall u | Valid(u) && SortKey(t) <= SortKey(u) < SortKey(StartOfNextMonth(t))
      ensures !Matches(s, u)
    {
      SkipMonth(t, u);
    }
  }

  lemma DayStepKeepsNoMatch(s: SpecSchedule, from: DateTime, t: DateTime)
    requires Valid(t) && NoMatchIn(s, from, t) && SortKey(from) <= SortKey(t)
    requires !DayMatches(s, t)
    ensures var r := StartOfNextDay(t);
      Valid(r) && r.nano == 0 && SortKey(t) < SortKey(r) && r.year <= t.year + 1
      && (r.day != 1 ==> r.year == t.year && r.month == t.month)
      && NoMatchIn(s, from, r)
  {
    StepsAdvance(t);
    forall u | Valid(u) && SortKey(t) <= SortKey(u) < SortKey(StartOfNextDay(t))
      ensures !Matches(s, u)
    {
      SkipDay(t, u);
      DayMatchesOnDate(s, t, u);
    }
  }

  lemma HourStepKeepsNoMatch(s: SpecSchedule, from: DateTime, t: DateTime)
    requires Valid(t) && NoMatchIn(s, from, t) && SortKey(from) <= SortKey(t)
    requires !Has(s.hour, t.hour)
    ensures var r := StartOfNextHour(t);
      Valid(r) && r.nano == 0 && SortKey(t) < SortKey(r) && r.year <= t.year + 1
      && (r.hour != 0 ==> r.year == t.year && r.month == t.month && r.day == t.day
                          && DayMatches(s, r) == DayMatches(s, t))
      && NoMatchIn(s, from, r)
  {
    StepsAdvance(t);
    forall u | Valid(u) && SortKey(t) <= SortKey(u) < SortKey(StartOfNextHour(t))
      ensures !Matches(s, u)
    {
      SkipHour(t, u);
    }
    if StartOfNextHour(t).hour != 0 {
      DayMatchesOnDate(s, t, StartOfNextHour(t));
    }
  }

  lemma MinuteStepKeepsNoMatch(s: SpecSchedule, from: DateTime, t: DateTime)
    requires Valid(t) && NoMatchIn(s, from, t) && SortKey(from) <= SortKey(t)
    requires !Has(s.minute, t.minute)
    ensures var r := StartOfNextMinute(t);
      Valid(r) && r.nano == 0 && SortKey(t) < SortKey(r) && r.year <= t.year + 1
      && (r.minute != 0 ==> r.year == t.year && r.month == t.month && r.day == t.day
                            && r.hour == t.hour && DayMatches(s, r) == DayMatches(s, t))
      && NoMatchIn(s, from, r)
  {
    StepsAdvance(t);
    forall u | Valid(u) && SortKey(t) <= SortKey(u) < SortKey(StartOfNextMinute(t))
      ensures !Matches(s, u)
    {
      SkipMinute(t, u);
    }
    if StartOfNextMinute(t).minute != 0 {
      DayMatchesOnDate(s, t, StartOfNextMinute(t));
    }
  }

  lemma SecondStepKeepsNoMatch(s: SpecSchedule, from: DateTime, t: DateTime)
    requires Valid(t) && NoMatchIn(s, from, t) && SortKey(from) <= SortKey(t)
    requires !Has(s.second, t.second)
    ensures var r := StartOfNextSecond(t);
      Valid(r) && r.nano == 0 && SortKey(t) < SortKey(r) && r.year <= t.year + 1
      && (r.second != 0 ==> r.year == t.year && r.month == t.month && r.day == t.day
                            && r.hour == t.hour && r.minute == t.minute
                            && DayMatches(s, r) == DayMatches(s, t))
      && NoMatchIn(s, from, r)
  {
    StepsAdvance(t);
    forall u | Valid(u) && SortKey(t) <= SortKey(u) < SortKey(StartOfNextSecond(t))
      ensures !Matches(s, u)
    {
      SkipSecond(t, u);
    }
    if StartOfNextSecond(t).second != 0 {
      DayMatchesOnDate(s, t, StartOfNextSecond(t));
    }
  }

  // ---------------------------------------------------------------------------
  // The search

  /** Narrowing the window keeps it free of matches. */
  lemma NoMatchInPrefix(s: SpecSchedule, from: DateTime, to: DateTime, to': DateTime)
    requires NoMatchIn(s, from, to) && SortKey(to') <= SortKey(to)
    ensures NoMatchIn(s, from, to')
  {
  }

  /**
    The month loop of SpecSchedule.Next: skip whole months until the month
    matches. `exhausted` reports that the search crossed into year `yearLimit`.
  */
  method SeekMonth(s: SpecSchedule, ghost start: DateTime, t: DateTime, yearLimit: int)
    returns (t': DateTime, exhausted: bool)
    requires Valid(t) && t.nano == 0 && t.year < yearLimit
    requires SortKey(start) <= SortKey(t) && NoMatchIn(s, start, t)
    ensures Valid(t') && t'.nano == 0 && SortKey(t) <= SortKey(t')
    ensures NoMatchIn(s, start, t')
    ensures exhausted ==> t'.year >= yearLimit
    ensures !exhausted ==> t'.year < yearLimit && Has(s.month, t'.month)
  {
    t' := t;
    while !Has(s.month, t'.month)
      invariant Valid(t') && t'.nano == 0 && t'.year < yearLimit
      invariant SortKey(t) <= SortKey(t') && NoMatchIn(s, start, t')
      decreases yearLimit * 12 - (t'.year * 12 + t'.month)
    {
      MonthStepKeepsNoMatch(s, start, t');
      t' := StartOfNextMonth(t');
      if t'.year >= yearLimit {
        return t', true;
      }
    }
    return t', false;
  }

  /**
    The day loop: skip whole days until the day rule matches. `wrapped`
    reports a step into a new month, after which the search starts over.
  */
  method SeekDay(s: SpecSchedule, ghost start: DateTime, t: DateTime, yearLimit: int)
    returns (t': DateTime, wrapped: bool)
    requires Valid(t) && t.nano == 0 && t.year < yearLimit
    requires SortKey(start) <= SortKey(t) && NoMatchIn(s, start, t)
    requires Has(s.month, t.month)
    ensures Valid(t') && t'.nano == 0 && SortKey(t) <= SortKey(t')
    ensures NoMatchIn(s, start, t')
    ensures wrapped ==> SortKey(t) < SortKey(t')
    ensures !wrapped ==> t'.year == t.year && t'.month == t.month && DayMatches(s, t')
  {
    t' := t;
    while !DayMatches(s, t')
      invariant Valid(t') && t'.nano == 0 && t'.year == t.year && t'.month == t.month
      invariant SortKey(t) <= SortKey(t') && NoMatchIn(s, start, t')
      decreases 31 - t'.day
    {
      DayStepKeepsNoMatch(s, start, t');
      t' := StartOfNextDay(t');
      if t'.day == 1 {
        return t', true;
      }
      // The source re-checks the horizon here; without a wrap the year is unchanged.
      assert t'.year < yearLimit;
    }
    return t', false;
  }

  /** The hour loop: skip whole hours until the hour matches; `wrapped` on a new day. */
  method SeekHour(s: SpecSchedule, ghost start: DateTime, t: DateTime, yearLimit: int)
    returns (t': DateTime, wrapped: bool)
    requires Valid(t) && t.nano == 0 && t.year < yearLimit
    requires SortKey(start) <= SortKey(t) && NoMatchIn(s, start, t)
    requires Has(s.month, t.month) && DayMatches(s, t)
    ensures Valid(t') && t'.nano == 0 && SortKey(t) <= SortKey(t')
    ensures NoMatchIn(s, start, t')
    ensures wrapped ==> SortKey(t) < SortKey(t')
    ensures !wrapped ==> t'.year == t.year && Has(s.month, t'.month) && DayMatches(s, t')
                         && Has(s.hour, t'.hour)
  {
    t' := t;
    while !Has(s.hour, t'.hour)
      invariant Valid(t') && t'.nano == 0 && t'.year == t.year
      invariant t'.month == t.month && t'.day == t.day && DayMatches(s, t')
      invariant SortKey(t) <= SortKey(t') && NoMatchIn(s, start, t')
      decreases 24 - t'.hour
    {
      HourStepKeepsNoMatch(s, start, t');
      t' := StartOfNextHour(t');
      if t'.hour == 0 {
        return t', true;
      }
      assert t'.year < yearLimit;
    }
    return t', false;
  }

  /** The minute loop: skip whole minutes until the minute matches; `wrapped` on a new hour. */
  method SeekMinute(s: SpecSchedule, ghost start: DateTime, t: DateTime, yearLimit: int)
    returns (t': DateTime, wrapped: bool)
    requires Valid(t) && t.nano == 0 && t.year < yearLimit
    requires SortKey(start) <= SortKey(t) && NoMatchIn(s, start, t)
    requires Has(s.month, t.month) && DayMatches(s, t) && Has(s.hour, t.hour)
    ensures Valid(t') && t'.nano == 0 && SortKey(t) <= SortKey(t')
    ensures NoMatchIn(s, start, t')
    ensures wrapped ==> SortKey(t) < SortKey(t')
    ensures !wrapped ==> t'.year == t.year && Has(s.month, t'.month) && DayMatches(s, t')
                         && Has(s.hour, t'.hour) && Has(s.minute, t'.minute)
  {
    t' := t;
    while !Has(s.minute, t'.minute)
      invariant Valid(t') && t'.nano == 0 && t'.year == t.year
      invariant t'.month == t.month && t'.day == t.day && t'.hour == t.hour && DayMatches(s, t')
      invariant SortKey(t) <= SortKey(t') && NoMatchIn(s, start, t')
      decreases 60 - t'.minute
    {
      MinuteStepKeepsNoMatch(s, start, t');
      t' := StartOfNextMinute(t');
      if t'.minute == 0 {
        return t', true;
      }
      assert t'.year < yearLimit;
    }
    return t', false;
  }

  /** The second loop: skip seconds until the second matches; `wrapped` on a new minute. */
  method SeekSecond(s: SpecSchedule, ghost start: DateTime, t: DateTime, yearLimit: int)
    returns (t': DateTime, wrapped: bool)
    requires Valid(t) && t.nano == 0 && t.year < yearLimit
    requires SortKey(start) <= SortKey(t) && NoMatchIn(s, start, t)
    requires Has(s.month, t.month) && DayMatches(s, t) && Has(s.hour, t.hour)
    requires Has(s.minute, t.minute)
    ensures Valid(t') && t'.nano == 0 && SortKey(t) <= SortKey(t')
    ensures NoMatchIn(s, start, t')
    ensures wrapped ==> SortKey(t) < SortKey(t')
    ensures !wrapped ==> t'.year == t.year && Matches(s, t')
  {
    t' := t;
    while !Has(s.second, t'.second)
      invariant Valid(t') && t'.nano == 0 && t'.year == t.year && t'.month == t.month
      invariant t'.day == t.day && t'.hour == t.hour && t'.minute == t.minute
      invariant DayMatches(s, t')
      invariant SortKey(t) <= SortKey(t') && NoMatchIn(s, start, t')
      decreases 60 - t'.second
    {
      SecondStepKeepsNoMatch(s, start, t');
      t' := StartOfNextSecond(t');
      if t'.second == 0 {
        return t', true;
      }
      assert t'.year < yearLimit;
    }
    return t', false;
  }

  /** How one pass over the fields ended. */
  datatype PassOutcome = Found | Wrapped | Exhausted

  /** The month and day loops of one pass. */
  method SeekDate(s: SpecSchedule, ghost start: DateTime, t: DateTime, yearLimit: int)
    returns (t': DateTime, outcome: PassOutcome)
    requires Valid(t) && t.nano == 0 && t.year < yearLimit
    requires SortKey(start) <= SortKey(t) && NoMatchIn(s, start, t)
    ensures Valid(t') && t'.nano == 0 && SortKey(t) <= SortKey(t')
    ensures NoMatchIn(s, start, t')
    ensures outcome == Exhausted ==> t'.year >= yearLimit
    ensures outcome == Wrapped ==> SortKey(t) < SortKey(t')
    ensures outcome == Found ==> t'.year < yearLimit && Has(s.month, t'.month) && DayMatches(s, t')
  {
    var exhausted, wrapped;
    t', exhausted := SeekMonth(s, start, t, yearLimit);
    if exhausted {
      return t', Exhausted;
    }
    t', wrapped := SeekDay(s, start, t', yearLimit);
    return t', if wrapped then Wrapped else Found;
  }

  /** The hour, minute and second loops of one pass, on a matching date. */
  method SeekTime(s: SpecSchedule, ghost start: DateTime, t: DateTime, yearLimit: int)
    returns (t': DateTime, wrapped: bool)
    requires Valid(t) && t.nano == 0 && t.year < yearLimit
    requires SortKey(start) <= SortKey(t) && NoMatchIn(s, start, t)
    requires Has(s.month, t.month) && DayMatches(s, t)
    ensures Valid(t') && t'.nano == 0 && SortKey(t) <= SortKey(t')
    ensures NoMatchIn(s, start, t')
    ensures wrapped ==> SortKey(t) < SortKey(t')
    ensures !wrapped ==> t'.year < yearLimit && Matches(s, t')
  {
    t', wrapped := SeekHour(s, start, t, yearLimit);
    if wrapped {
      return;
    }
    t', wrapped := SeekMinute(s, start, t', yearLimit);
    if wrapped {
      return;
    }
    t', wrapped := SeekSecond(s, start, t', yearLimit);
  }

  /**
    One pass of SpecSchedule.Next from the `WRAP` label: the five field loops
    in turn. `Wrapped` is the source's `goto WRAP`.
  */
  method SeekPass(s: SpecSchedule, ghost start: DateTime, t: DateTime, yearLimit: int)
    returns (t': DateTime, outcome: PassOutcome)
    requires Valid(t) && t.nano == 0 && t.year < yearLimit
    requires SortKey(start) <= SortKey(t) && NoMatchIn(s, start, t)
    ensures Valid(t') && t'.nano == 0 && SortKey(t) <= SortKey(t')
    ensures NoMatchIn(s, start, t')
    ensures outcome == Exhausted ==> t'.year >= yearLimit
    ensures outcome == Wrapped ==> SortKey(t) < SortKey(t')
    ensures outcome == Found ==> t'.year < yearLimit && Matches(s, t')
  {
    t', outcome := SeekDate(s, start, t, yearLimit);
    if outcome == Found {
      var wrapped;
      t', wrapped := SeekTime(s, start, t', yearLimit);
      if wrapped {
        outcome := Wrapped;
      }
    }
  }

  /**
    SpecSchedule.Next: the next activation second strictly after `t0`, or the
    zero time when there is none before January 1 of the start year + 4.
  */
  method Next(s: SpecSchedule, t0: DateTime) returns (r: DateTime)
    requires Valid(t0)
    ensures Valid(r) && r.nano == 0
    ensures r == Zero || Before(t0, r)
    ensures IsFirstMatch(s, SearchStart(t0), Horizon(t0), r)
         || (r == Zero && NoMatchIn(s, SearchStart(t0), Horizon(t0)))
  {
    SearchStartAdvances(t0);
    var t := SearchStart(t0);
    ghost var start := t;
    var yearLimit := t.year + 4;
    ghost var horizon := DateTime(yearLimit, 1, 1, 0, 0, 0, 0);

    while t.year < yearLimit
      invariant Valid(t) && t.nano == 0
      invariant SortKey(start) <= SortKey(t)
      invariant NoMatchIn(s, start, t)
      decreases SortKey(horizon) - SortKey(t)
    {
      var outcome;
      t, outcome := SeekPass(s, start, t, yearLimit);
      if outcome == Found {
        return t;
      } else if outcome == Exhausted {
        break;
      }
    }

    NoMatchInPrefix(s, start, t, horizon);
    return Zero;
  }

  // ---------------------------------------------------------------------------
  // What Next's contract pins down

  /** A known activation second bounds the result of Next from above. */
  lemma NextIsAtOrBefore(s: SpecSchedule, from: DateTime, to: DateTime, r: DateTime, u: DateTime)
    requires IsFirstMatch(s, from, to, r) || (r == Zero && NoMatchIn(s, from, to))
    requires Valid(u) && Matches(s, u) && SortKey(from) <= SortKey(u) < SortKey(to)
    ensures IsFirstMatch(s, from, to, r) && SortKey(r) <= SortKey(u)
  {
    if !IsFirstMatch(s, from, to, r) {
      NoMatchAt(s, from, to, u);
    } else if SortKey(u) < SortKey(r) {
      NoMatchAt(s, from, r, u);
    }
  }

  // `*/5 * * * * *`: a field written with a step carries no star bit.
  const EveryFiveSeconds: SpecSchedule :=
    SpecSchedule(0x0084210842108421, 0x8FFFFFFFFFFFFFFF, 0x8000000000FFFFFF,
                 0x80000000FFFFFFFE, 0x8000000000001FFE, 0x800000000000007F)

  // 00:00:05 on January 1, 2024 is an activation second of `*/5 * * * * *`
  // inside the search window that starts at 00:00:03.
  lemma EveryFiveSecondsMatches(t0: DateTime, u: DateTime)
    requires t0 == DateTime(2024, 1, 1, 0, 0, 2, 0) && u == DateTime(2024, 1, 1, 0, 0, 5, 0)
    ensures Valid(t0) && Valid(u) && Matches(EveryFiveSeconds, u)
    ensures SortKey(SearchStart(t0)) <= SortKey(u) < SortKey(Horizon(t0))
  {
  }

  // Between seconds 3 and 5 of a minute, `*/5 * * * * *` matches only second 5.
  lemma EveryFiveSecondsOnlyFifth(r: DateTime)
    requires Valid(r) && Matches(EveryFiveSeconds, r) && 3 <= r.second <= 5
    ensures r.second == 5
  {
  }

  // From 00:00:02 the next activation of `*/5 * * * * *` is 00:00:05.
  method EveryFiveSecondsExample() returns (r: DateTime)
    ensures r == DateTime(2024, 1, 1, 0, 0, 5, 0)
  {
    var t0 := DateTime(2024, 1, 1, 0, 0, 2, 0);
    var u := DateTime(2024, 1, 1, 0, 0, 5, 0);
    EveryFiveSecondsMatches(t0, u);
    r := Next(EveryFiveSeconds, t0);
    NextIsAtOrBefore(EveryFiveSeconds, SearchStart(t0), Horizon(t0), r, u);
    SameDayKey(u, r);
    EveryFiveSecondsOnlyFifth(r);
  }

  /** `0 0 0 1 1 *`: midnight on January 1. */
  const Yearly: SpecSchedule := SpecSchedule(0x1, 0x1, 0x1, 0x2, 0x2, 0x800000000000007F)

  /** The start of 2025 is an activation second of `0 0 0 1 1 *` inside the search window from mid-2024. */
  lemma YearlyMatches(t0: DateTime, u: DateTime)
    requires t0 == DateTime(2024, 6, 15, 12, 0, 0, 0) && u == DateTime(2025, 1, 1, 0, 0, 0, 0)
    ensures Valid(t0) && Valid(u) && Matches(Yearly, u)
    ensures SortKey(SearchStart(t0)) <= SortKey(u) < SortKey(Horizon(t0))
  {
  }

  /** Only midnight on January 1 matches `0 0 0 1 1 *`. */
  lemma YearlyOnlyNewYear(r: DateTime)
    requires Valid(r) && Matches(Yearly, r)
    ensures r.month == 1 && r.day == 1 && r.hour == 0 && r.minute == 0 && r.second == 0
  {
  }

  /** In mid-2024 the next activation of `0 0 0 1 1 *` is the start of 2025. */
  method YearlyExample() returns (r: DateTime)
    ensures r == DateTime(2025, 1, 1, 0, 0, 0, 0)
  {
    var t0 := DateTime(2024, 6, 15, 12, 0, 0, 0);
    var u := DateTime(2025, 1, 1, 0, 0, 0, 0);
    YearlyMatches(t0, u);
    r := Next(Yearly, t0);
    NextIsAtOrBefore(Yearly, SearchStart(t0), Horizon(t0), r, u);
    YearlyOnlyNewYear(r);
  }

  /** `0 0 0 30 2 *`: February 30, a date that does not exist. */
  const FebruaryThirtieth: SpecSchedule := SpecSchedule(0x1, 0x1, 0x1, 0x40000000, 0x4, 0x800000000000007F)

  /** A schedule naming an impossible date never fires: Next returns the zero time. */
  method FebruaryThirtiethExample(t0: DateTime) returns (r: DateTime)
    requires Valid(t0)
    ensures r == Zero
  {
    r := Next(FebruaryThirtieth, t0);
  }
}
