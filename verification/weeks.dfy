/**
  `weekOfYear`: the number of the Sunday-to-Saturday week of the UTC year an
  instant falls in, counting the partial week holding January 1 as week 1.
  The start of the year comes from Date.UTC, so for years 0 to 99 it is the
  start of year 1900 + y and the count runs far outside 1..54.
*/
module WeekNumbers {
  import opened Civil

  /** `Math.ceil(n / 7)` on an integer `n`. */
  function Ceil7(n: int): (r: int)
    ensures 7 * (r - 1) < n <= 7 * r
  {
    -((-n) / 7)
  }

  /** `Date.UTC(year, 0, 1)` for the UTC year of `t`. */
  function YearStart(t: Instant): Instant {
    DateUTC(YearFromTime(t), 0, 1, 0, 0, 0, 0)
  }

  /** `Math.floor((t - startOfYear) / 86400000) + 1`. */
  function DayOfYear(t: Instant): int {
    (t - YearStart(t)) / MsPerDay + 1
  }

  /** `weekOfYear(date)`. */
  function WeekOfYear(t: Instant): int {
    Ceil7(DayOfYear(t) + WeekDay(YearStart(t)))
  }

  /** Sunday-started weeks counted from the epoch: the index moves on exactly when a Sunday begins. */
  function WeekIndex(day: int): int {
    (day + 4) / 7
  }

  /** In years outside 0..99 January 1 is the start of the year and the day of the year counts from 1. */
  lemma YearStartPlain(t: Instant)
    requires PlainYear(YearFromTime(t))
    ensures YearStart(t) == DayFromYear(YearFromTime(t)) * MsPerDay
    ensures DayOfYear(t) == DayNumber(t) - DayFromYear(YearFromTime(t)) + 1
    ensures 1 <= DayOfYear(t) <= DaysInYear(YearFromTime(t))
  {
    var y := YearFromTime(t);
    MakeDayInYear(y, 0, 1);
    DayWithinYearRange(t);
    DaysBeforeMonthStep(y, 11);
    var k := DayNumber(t) - DayFromYear(y);
    assert t - YearStart(t) == k * MsPerDay + TimeWithinDay(t);
  }

  /** The week number is the epoch week index of the instant less that of January 1, plus one. */
  lemma WeekOfYearIsIndexDifference(t: Instant)
    requires PlainYear(YearFromTime(t))
    ensures WeekOfYear(t) == WeekIndex(DayNumber(t)) - WeekIndex(DayFromYear(YearFromTime(t))) + 1
  {
    var d0 := DayFromYear(YearFromTime(t));
    YearStartPlain(t);
    assert DayNumber(YearStart(t)) == d0;
    var q0, s0 := (d0 + 4) / 7, (d0 + 4) % 7;
    var m := DayNumber(t) + 4 - 7 * q0;
    assert DayOfYear(t) + WeekDay(YearStart(t)) == m + 1;
    CeilSuccessor(m);
    ShiftDiv7(DayNumber(t) + 4, q0);
  }

  /** `ceil((m + 1) / 7)` is `floor(m / 7) + 1`. */
  lemma CeilSuccessor(m: int)
    ensures Ceil7(m + 1) == m / 7 + 1
  {
  }

  /** Taking `k` whole weeks off shifts the quotient by `k`. */
  lemma ShiftDiv7(x: int, k: int)
    ensures (x - 7 * k) / 7 == x / 7 - k
  {
  }

  /** The week number lies in 1..54 in every year outside 0..99. */
  lemma WeekOfYearRange(t: Instant)
    requires PlainYear(YearFromTime(t))
    ensures 1 <= WeekOfYear(t) <= 54
  {
    var d, d0 := DayNumber(t), DayFromYear(YearFromTime(t));
    WeekOfYearIsIndexDifference(t);
    YearStartPlain(t);
    ShiftDiv7(d + 4, (d0 + 4) / 7);
  }

  /** January 1 is in week 1. */
  lemma NewYearIsWeekOne(t: Instant)
    requires PlainYear(YearFromTime(t)) && DayNumber(t) == DayFromYear(YearFromTime(t))
    ensures WeekOfYear(t) == 1
  {
    WeekOfYearIsIndexDifference(t);
  }

  /** From one day to the next in the same year, the week number rises by one exactly when the new day is a Sunday. */
  lemma WeekOfYearNextDay(t: Instant, u: Instant)
    requires u == t + MsPerDay && YearFromTime(u) == YearFromTime(t) && PlainYear(YearFromTime(t))
    ensures WeekOfYear(u) == WeekOfYear(t) + (if WeekDay(u) == 0 then 1 else 0)
  {
    assert DayNumber(u) == DayNumber(t) + 1;
    WeekOfYearIsIndexDifference(t);
    WeekOfYearIsIndexDifference(u);
  }

  /** Days of one Sunday-to-Saturday week in the same year share a week number. */
  lemma SameWeekSameNumber(a: Instant, b: Instant)
    requires YearFromTime(a) == YearFromTime(b) && PlainYear(YearFromTime(a))
    requires WeekIndex(DayNumber(a)) == WeekIndex(DayNumber(b))
    ensures WeekOfYear(a) == WeekOfYear(b)
  {
    WeekOfYearIsIndexDifference(a);
    WeekOfYearIsIndexDifference(b);
  }

  /** Within a year the week number never goes down. */
  lemma WeekOfYearMonotone(a: Instant, b: Instant)
    requires YearFromTime(a) == YearFromTime(b) && PlainYear(YearFromTime(a)) && a <= b
    ensures WeekOfYear(a) <= WeekOfYear(b)
  {
    WeekOfYearIsIndexDifference(a);
    WeekOfYearIsIndexDifference(b);
    assert DayNumber(a) <= DayNumber(b);
  }

  /** In years 0..99 Date.UTC puts January 1 in year 1900 + y, after the instant, and the week number is negative. */
  lemma EarlyYearsWeekNegative(t: Instant)
    requires 0 <= YearFromTime(t) <= 99
    ensures WeekOfYear(t) < 0
  {
    var day, y := DayNumber(t), YearFromTime(t);
    var u, next := 1900 + y, y + 1;
    var start := DayFromYear(u);
    assert day < DayFromYear(next);
    assert YearStart(t) == start * MsPerDay by {
      MakeDayInYear(u, 0, 1);
    }
    assert DayFromYear(next) + 13 < start by {
      DayFromYearNearMean(u);
      DayFromYearNearMean(next);
    }
    var gap, within := start - day, TimeWithinDay(t);
    assert t - YearStart(t) == -gap * MsPerDay + within;
    assert DayOfYear(t) == -gap + 1;
  }

  /** Week indexes of the day numbers the examples meet, and of the January 1sts of 2000 and 2024. */
  lemma WeekTable(d: int)
    ensures d == 10957 ==> WeekIndex(d) == 1565
    ensures d == 11322 ==> WeekIndex(d) == 1618
    ensures d == 19723 ==> WeekIndex(d) == 2818
    ensures d == 19730 ==> WeekIndex(d) == 2819
    ensures d == 20088 ==> WeekIndex(d) == 2870
  {
  }

  lemma DayNumbers2000()
    ensures DayFromYear(2000) == 10957 && MakeDay(2000, 11, 31) == 11322
  {
    assert DayFromYear(2000) == 10957;
    MakeDayInYear(2000, 11, 31);
  }

  lemma DayNumbers2024()
    ensures DayFromYear(2024) == 19723 && MakeDay(2024, 0, 8) == 19730 && MakeDay(2024, 11, 31) == 20088
  {
    assert DayFromYear(2024) == 19723;
    MakeDayInYear(2024, 0, 8);
    MakeDayInYear(2024, 11, 31);
  }

  /** A week number from the day numbers of the instant and of its January 1. */
  lemma WeekOfYearFromDays(t: Instant, f: Fields, d: int, d0: int)
    requires ToFields(t) == f && PlainYear(f.year)
    requires MakeDay(f.year, f.month, f.date) == d && DayFromYear(f.year) == d0
    ensures WeekOfYear(t) == WeekIndex(d) - WeekIndex(d0) + 1
  {
    DateOfDay(t);
    WeekOfYearIsIndexDifference(t);
  }

  /** December 31 of 2000, a leap year that began on a Saturday, is in week 54, outside the documented 1..53. */
  lemma LeapSaturdayYearHasWeek54(t: Instant)
    requires ToFields(t) == Fields(2000, 11, 31, 0, 0, 0, 0)
    ensures WeekOfYear(t) == 54
  {
    DayNumbers2000();
    WeekOfYearFromDays(t, ToFields(t), 11322, 10957);
    WeekTable(11322);
    WeekTable(10957);
  }

  /** 2024-01-08 is in week 2 and 2024-12-31 in week 53. */
  lemma WeekOfYear2024(a: Instant, b: Instant)
    requires ToFields(a) == Fields(2024, 0, 8, 0, 0, 0, 0) && ToFields(b) == Fields(2024, 11, 31, 0, 0, 0, 0)
    ensures WeekOfYear(a) == 2 && WeekOfYear(b) == 53
  {
    DayNumbers2024();
    WeekOfYearFromDays(a, ToFields(a), 19730, 19723);
    WeekOfYearFromDays(b, ToFields(b), 20088, 19723);
    WeekTable(19730);
    WeekTable(19723);
    WeekTable(20088);
  }
}
