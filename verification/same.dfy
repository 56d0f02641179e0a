/**
  `isSame`: whether two instants fall in the same UTC unit. Every unit but
  `week` compares a prefix of the calendar fields; `week` compares the Sunday
  that starts each instant's week, computed through Date.UTC.
*/
module SameUnit {
  import opened Civil
  import opened Units
  import opened JsMath
  import opened Boundaries
  import opened WeekNumbers

  /** `Date.UTC` of the instant's calendar date, less its weekday in days. */
  function WeekStart(t: Instant): int {
    DateUTC(YearFromTime(t), MonthFromTime(t), DateFromTime(t), 0, 0, 0, 0) - WeekDay(t) * MsPerDay
  }

  /** The seven units `isSame` handles. */
  predicate Comparable(unit: Unit) {
    unit.Year? || unit.Month? || unit.Week? || unit.Day? || unit.Hour? || unit.Minute? || unit.Second?
  }

  /** `isSame(left, right, unit)`; any other unit gives false. */
  function IsSame(a: Instant, b: Instant, unit: Unit): (r: bool)
    ensures !Comparable(unit) ==> !r
  {
    match unit
    case Year => YearFromTime(a) == YearFromTime(b)
    case Month => YearFromTime(a) == YearFromTime(b) && MonthFromTime(a) == MonthFromTime(b)
    case Week => WeekStart(a) == WeekStart(b)
    case Day =>
      YearFromTime(a) == YearFromTime(b) && MonthFromTime(a) == MonthFromTime(b) && DateFromTime(a) == DateFromTime(b)
    case Hour =>
      YearFromTime(a) == YearFromTime(b) && MonthFromTime(a) == MonthFromTime(b) && DateFromTime(a) == DateFromTime(b)
      && HourFromTime(a) == HourFromTime(b)
    case Minute =>
      YearFromTime(a) == YearFromTime(b) && MonthFromTime(a) == MonthFromTime(b) && DateFromTime(a) == DateFromTime(b)
      && HourFromTime(a) == HourFromTime(b) && MinFromTime(a) == MinFromTime(b)
    case Second =>
      YearFromTime(a) == YearFromTime(b) && MonthFromTime(a) == MonthFromTime(b) && DateFromTime(a) == DateFromTime(b)
      && HourFromTime(a) == HourFromTime(b) && MinFromTime(a) == MinFromTime(b) && SecFromTime(a) == SecFromTime(b)
    case _ => false
  }

  /** For each of its units `isSame` is an equivalence: reflexive, symmetric and transitive. */
  lemma IsSameEquivalence(a: Instant, b: Instant, c: Instant, unit: Unit)
    requires Comparable(unit)
    ensures IsSame(a, a, unit)
    ensures IsSame(a, b, unit) ==> IsSame(b, a, unit)
    ensures IsSame(a, b, unit) && IsSame(b, c, unit) ==> IsSame(a, c, unit)
  {
  }

  /** Same second, then same minute, hour, day, month and year. */
  lemma IsSameNests(a: Instant, b: Instant)
    ensures IsSame(a, b, Second) ==> IsSame(a, b, Minute)
    ensures IsSame(a, b, Minute) ==> IsSame(a, b, Hour)
    ensures IsSame(a, b, Hour) ==> IsSame(a, b, Day)
    ensures IsSame(a, b, Day) ==> IsSame(a, b, Month)
    ensures IsSame(a, b, Month) ==> IsSame(a, b, Year)
  {
  }

  /** Two instants are on the same UTC day exactly when their day numbers agree. */
  lemma SameDayIsSameDayNumber(a: Instant, b: Instant)
    ensures IsSame(a, b, Day) <==> DayNumber(a) == DayNumber(b)
  {
    DateOfDay(a);
    DateOfDay(b);
  }

  /** `isSame(a, b, 'day')` holds exactly when both instants have the same start of day. */
  lemma SameDayIsSameStartOfDay(a: Instant, b: Instant)
    ensures IsSame(a, b, Day) <==> StartOf(a, Day) == StartOf(b, Day)
  {
    SameDayIsSameDayNumber(a, b);
  }

  /** The hour, minute and second numbers since the epoch are built from the day number and the clock fields. */
  lemma ClockIndexes(t: Instant)
    ensures t / MsPerHour == 24 * DayNumber(t) + HourFromTime(t)
    ensures t / MsPerMinute == 60 * (t / MsPerHour) + MinFromTime(t)
    ensures t / MsPerSecond == 60 * (t / MsPerMinute) + SecFromTime(t)
  {
    NestedDiv(t, MsPerHour, 24);
    NestedDiv(t, MsPerMinute, 60);
    NestedDiv(t, MsPerSecond, 60);
  }

  /** Dividing by `d` and then by `k` is dividing by `d * k`. */
  lemma NestedDiv(x: int, d: int, k: int)
    requires d > 0 && k > 0
    ensures x / (d * k) == (x / d) / k
    ensures x / d == k * (x / (d * k)) + (x / d) % k
  {
    var q, r := x / d, x % d;
    var q2, r2 := q / k, q % k;
    assert x == (q2 * k + r2) * d + r;
    assert x == q2 * (d * k) + (r2 * d + r);
    assert 0 <= r2 * d + r < d * k by {
      assert r2 * d <= (k - 1) * d;
    }
    DivOf(x, d * k, q2, r2 * d + r);
  }

  /** Same hour, minute or second exactly when the instants share that unit's number since the epoch. */
  lemma SameClockUnitIsSameIndex(a: Instant, b: Instant)
    ensures IsSame(a, b, Hour) <==> a / MsPerHour == b / MsPerHour
    ensures IsSame(a, b, Minute) <==> a / MsPerMinute == b / MsPerMinute
    ensures IsSame(a, b, Second) <==> a / MsPerSecond == b / MsPerSecond
  {
    SameDayIsSameDayNumber(a, b);
    ClockIndexes(a);
    ClockIndexes(b);
    TimeOfDayParts(a);
    TimeOfDayParts(b);
  }

  /** In years outside 0..99 the week start is the Sunday before, as an instant. */
  lemma WeekStartPlain(t: Instant)
    requires PlainYear(YearFromTime(t))
    ensures WeekStart(t) == (7 * WeekIndex(DayNumber(t)) - 4) * MsPerDay
  {
    DateOfDay(t);
  }

  /** Outside years 0..99, same week means same Sunday-started week index. */
  lemma SameWeekIsSameWeekIndex(a: Instant, b: Instant)
    requires PlainYear(YearFromTime(a)) && PlainYear(YearFromTime(b))
    ensures IsSame(a, b, Week) <==> WeekIndex(DayNumber(a)) == WeekIndex(DayNumber(b))
  {
    WeekStartPlain(a);
    WeekStartPlain(b);
  }

  /** The same day is always in the same week, even in years 0..99. */
  lemma SameDaySameWeek(a: Instant, b: Instant)
    requires IsSame(a, b, Day)
    ensures IsSame(a, b, Week)
  {
    SameDayIsSameDayNumber(a, b);
  }

  lemma January2024()
    ensures MakeDay(2024, 0, 8) == 19730 && MakeDay(2024, 0, 13) == 19735 && MakeDay(2024, 0, 14) == 19736
  {
    assert DayFromYear(2024) == 19723;
    MakeDayInYear(2024, 0, 8);
    MakeDayInYear(2024, 0, 13);
    MakeDayInYear(2024, 0, 14);
  }

  lemma JanuaryWeeks(d: int)
    ensures d == 19730 ==> WeekIndex(d) == 2819
    ensures d == 19735 ==> WeekIndex(d) == 2819
    ensures d == 19736 ==> WeekIndex(d) == 2820
  {
  }

  /** Monday 2024-01-08 and Saturday 01-13 share a week; Sunday 01-14 starts the next. */
  lemma WeeksStartOnSunday(mon: Instant, sat: Instant, sun: Instant)
    requires ToFields(mon) == Fields(2024, 0, 8, 9, 0, 0, 0)
    requires ToFields(sat) == Fields(2024, 0, 13, 18, 0, 0, 0)
    requires ToFields(sun) == Fields(2024, 0, 14, 0, 0, 0, 0)
    ensures IsSame(mon, sat, Week) && !IsSame(sat, sun, Week)
  {
    January2024();
    DateOfDay(mon);
    DateOfDay(sat);
    DateOfDay(sun);
    JanuaryWeeks(DayNumber(mon));
    JanuaryWeeks(DayNumber(sat));
    JanuaryWeeks(DayNumber(sun));
    SameWeekIsSameWeekIndex(mon, sat);
    SameWeekIsSameWeekIndex(sat, sun);
  }
}
