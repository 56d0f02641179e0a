/**
  `startOf`, `endOf`, `daysInMonth` and `isLeapYear`. The two boundary
  functions copy the instant and call UTC setters on the copy; a unit other
  than the six they list matches no case and leaves the copy as it is.
*/
module Boundaries {
  import opened Civil
  import opened JsMath
  import opened Units

  /** `startOf(date, unit)`. */
  function StartOf(t: Instant, unit: Unit): Instant {
    if unit == Year then SetUTCHours(SetUTCMonth(t, 0, 1), 0, 0, 0, 0)
    else if unit == Month then SetUTCHours(SetUTCDate(t, 1), 0, 0, 0, 0)
    else if unit == Day then SetUTCHours(t, 0, 0, 0, 0)
    else if unit == Hour then SetUTCMinutes(t, 0, 0, 0)
    else if unit == Minute then SetUTCSeconds(t, 0, 0)
    else if unit == Second then SetUTCMilliseconds(t, 0)
    else t
  }

  /** `daysInMonth(date)`: the day of month of `Date.UTC(year, month + 1, 0)`. */
  function DaysInMonthOf(t: Instant): int {
    LastDay(YearFromTime(t), MonthFromTime(t))
  }

  /** `endOf(date, unit)`. */
  function EndOf(t: Instant, unit: Unit): Instant {
    if unit == Year then SetUTCHours(SetUTCMonth(t, 11, 31), 23, 59, 59, 999)
    else if unit == Month then SetUTCHours(SetUTCDate(t, DaysInMonthOf(t)), 23, 59, 59, 999)
    else if unit == Day then SetUTCHours(t, 23, 59, 59, 999)
    else if unit == Hour then SetUTCMinutes(t, 59, 59, 999)
    else if unit == Minute then SetUTCSeconds(t, 59, 999)
    else if unit == Second then SetUTCMilliseconds(t, 999)
    else t
  }

  /** The leap-year test of `isLeapYear`, with JavaScript's `%`. */
  predicate LeapRule(year: int) {
    (JsRem(year, 4) == 0 && JsRem(year, 100) != 0) || JsRem(year, 400) == 0
  }

  /** `isLeapYear(date)`. */
  predicate IsLeapYearOf(t: Instant) {
    LeapRule(YearFromTime(t))
  }

  // ---------------------------------------------------------------------------
  // Reference meaning: fields kept, fields reset

  /** The fields of the start of `unit`: coarser fields kept, finer ones at their least value. */
  function Truncate(f: Fields, unit: Unit): Fields {
    if unit == Year then Fields(f.year, 0, 1, 0, 0, 0, 0)
    else if unit == Month then f.(date := 1, hours := 0, minutes := 0, seconds := 0, ms := 0)
    else if unit == Day then f.(hours := 0, minutes := 0, seconds := 0, ms := 0)
    else if unit == Hour then f.(minutes := 0, seconds := 0, ms := 0)
    else if unit == Minute then f.(seconds := 0, ms := 0)
    else if unit == Second then f.(ms := 0)
    else f
  }

  /**
    The fields of the end of `unit`: coarser fields kept, finer ones at their
    greatest value. The last day of the month is the one Date.UTC finds, in the
    year it reads.
  */
  function Ceiling(f: Fields, unit: Unit): Fields {
    if unit == Year then Fields(f.year, 11, 31, 23, 59, 59, 999)
    else if unit == Month then f.(date := DaysInMonth(UtcYear(f.year), f.month), hours := 23, minutes := 59, seconds := 59, ms := 999)
    else if unit == Day then f.(hours := 23, minutes := 59, seconds := 59, ms := 999)
    else if unit == Hour then f.(minutes := 59, seconds := 59, ms := 999)
    else if unit == Minute then f.(seconds := 59, ms := 999)
    else if unit == Second then f.(ms := 999)
    else f
  }

  /** The length in milliseconds of the `unit` holding fields `f`; 1 for an unknown unit. */
  function UnitSpan(f: Fields, unit: Unit): int {
    if unit == Year then DaysInYear(f.year) * MsPerDay
    else if unit == Month then DaysInMonth(f.year, f.month) * MsPerDay
    else if unit == Day then MsPerDay
    else if unit == Hour then MsPerHour
    else if unit == Minute then MsPerMinute
    else if unit == Second then MsPerSecond
    else 1
  }

  /** The one month whose last day Date.UTC gets wrong: February of year 0, read as February 1900. */
  predicate IsYearZeroFebruary(f: Fields) { f.year == 0 && f.month == 1 }

  // ---------------------------------------------------------------------------
  // daysInMonth and isLeapYear

  /** The month length Date.UTC reports is that of the year it reads: the real one except in February of year 0. */
  lemma DaysInMonthOfIsLength(t: Instant)
    ensures 28 <= DaysInMonthOf(t) <= 31
    ensures DaysInMonthOf(t) == DaysInMonth(UtcYear(YearFromTime(t)), MonthFromTime(t))
    ensures !IsYearZeroFebruary(ToFields(t)) ==> DaysInMonthOf(t) == DaysInMonth(YearFromTime(t), MonthFromTime(t))
  {
    DateOfDay(t);
    LastDayUtc(YearFromTime(t), MonthFromTime(t));
    UtcYearLeap(YearFromTime(t));
  }

  /** February has 29 days exactly in leap years; the thirty-day months are April, June, September and November. */
  lemma DaysInMonthByMonth(t: Instant)
    requires !IsYearZeroFebruary(ToFields(t))
    ensures MonthFromTime(t) == 1 ==> (DaysInMonthOf(t) == 29 <==> IsLeapYearOf(t))
    ensures MonthFromTime(t) == 1 ==> (DaysInMonthOf(t) == 28 <==> !IsLeapYearOf(t))
    ensures MonthFromTime(t) in {3, 5, 8, 10} ==> DaysInMonthOf(t) == 30
    ensures MonthFromTime(t) in {0, 2, 4, 6, 7, 9, 11} ==> DaysInMonthOf(t) == 31
  {
    DaysInMonthOfIsLength(t);
    LeapRuleIsGregorian(YearFromTime(t));
  }

  /** In February of year 0 (a leap year) `daysInMonth` reports 28. */
  lemma DaysInMonthYearZero(t: Instant)
    requires IsYearZeroFebruary(ToFields(t))
    ensures DaysInMonthOf(t) == 28 && IsLeapYearOf(t)
  {
    DaysInMonthOfIsLength(t);
    LeapRuleIsGregorian(0);
  }

  /** The library's rule with JavaScript's `%` is the Gregorian rule. */
  lemma LeapRuleIsGregorian(year: int)
    ensures LeapRule(year) == IsLeapYear(year)
  {
    JsRemZero(year, 4);
    JsRemZero(year, 100);
    JsRemZero(year, 400);
  }

  /** The rule repeats every 400 years; a leap year is a multiple of 4; a century is leap only if a multiple of 400. */
  lemma LeapRuleShape(year: int)
    ensures LeapRule(year + 400) == LeapRule(year)
    ensures LeapRule(year) ==> year % 4 == 0
    ensures year % 100 == 0 && year % 400 != 0 ==> !LeapRule(year)
  {
    LeapRuleIsGregorian(year);
    LeapRuleIsGregorian(year + 400);
    ShiftMod(year, 100, 4);
    ShiftMod(year, 4, 100);
    ShiftMod(year, 1, 400);
  }

  lemma LeapRuleExamples()
    ensures LeapRule(2000) && LeapRule(2024) && LeapRule(2400) && LeapRule(1996) && LeapRule(2020)
    ensures !LeapRule(1900) && !LeapRule(2100) && !LeapRule(2023) && !LeapRule(2019) && !LeapRule(1997)
  {
  }

  // ---------------------------------------------------------------------------
  // startOf and endOf

  /** `startOf` keeps the fields coarser than the unit and resets the finer ones. */
  lemma StartOfFields(t: Instant, unit: Unit)
    ensures ToFields(StartOf(t, unit)) == Truncate(ToFields(t), unit)
    ensures StartOf(t, unit) == FromFields(Truncate(ToFields(t), unit))
  {
    ToFieldsValid(t);
    if unit == Year {
      SetUTCMonthFields(t, 0, 1);
      SetUTCHoursFields(SetUTCMonth(t, 0, 1), 0, 0, 0, 0);
    } else if unit == Month {
      SetUTCDateFields(t, 1);
      SetUTCHoursFields(SetUTCDate(t, 1), 0, 0, 0, 0);
    } else if unit == Day {
      SetUTCHoursFields(t, 0, 0, 0, 0);
    } else if unit == Hour {
      SetUTCMinutesFields(t, 0, 0, 0);
    } else if unit == Minute {
      SetUTCSecondsFields(t, 0, 0);
    } else if unit == Second {
      SetUTCMillisecondsFields(t, 0);
    }
    ToFieldsValid(StartOf(t, unit));
  }

  /** `endOf` keeps the fields coarser than the unit and sets the finer ones to their greatest value. */
  lemma EndOfFields(t: Instant, unit: Unit)
    ensures ToFields(EndOf(t, unit)) == Ceiling(ToFields(t), unit)
    ensures EndOf(t, unit) == FromFields(Ceiling(ToFields(t), unit))
  {
    ToFieldsValid(t);
    if unit == Year {
      SetUTCMonthFields(t, 11, 31);
      SetUTCHoursFields(SetUTCMonth(t, 11, 31), 23, 59, 59, 999);
    } else if unit == Month {
      DaysInMonthOfIsLength(t);
      UtcYearLeap(YearFromTime(t));
      SetUTCDateFields(t, DaysInMonthOf(t));
      SetUTCHoursFields(SetUTCDate(t, DaysInMonthOf(t)), 23, 59, 59, 999);
    } else if unit == Day {
      SetUTCHoursFields(t, 23, 59, 59, 999);
    } else if unit == Hour {
      SetUTCMinutesFields(t, 59, 59, 999);
    } else if unit == Minute {
      SetUTCSecondsFields(t, 59, 999);
    } else if unit == Second {
      SetUTCMillisecondsFields(t, 999);
    }
    ToFieldsValid(EndOf(t, unit));
  }

  /** Valid fields lie within the span of their unit, measured from its start. */
  lemma FieldsWithinSpan(f: Fields, unit: Unit)
    requires f.Valid()
    ensures 0 <= FromFields(f) - FromFields(Truncate(f, unit)) < UnitSpan(f, unit)
  {
    if unit == Year {
      YearSpan(f);
    } else if unit == Month {
      MonthSpan(f);
    } else {
      ClockSpan(f, unit);
    }
  }

  /** The last millisecond of the unit is its span after the start, less one. */
  lemma CeilingIsSpanEnd(f: Fields, unit: Unit)
    requires f.Valid() && (unit == Month ==> !IsYearZeroFebruary(f))
    ensures FromFields(Ceiling(f, unit)) == FromFields(Truncate(f, unit)) + UnitSpan(f, unit) - 1
  {
    if unit == Year {
      YearSpan(f);
    } else if unit == Month {
      MonthSpan(f);
    } else {
      ClockSpan(f, unit);
    }
  }

  lemma YearSpan(f: Fields)
    requires f.Valid()
    ensures 0 <= FromFields(f) - FromFields(Truncate(f, Year)) < UnitSpan(f, Year)
    ensures FromFields(Ceiling(f, Year)) == FromFields(Truncate(f, Year)) + UnitSpan(f, Year) - 1
  {
    var leap := IsLeapYear(f.year);
    MakeDayInYear(f.year, f.month, f.date);
    MakeDayInYear(f.year, 0, 1);
    MakeDayInYear(f.year, 11, 31);
    DaysBeforeMonthStep(f.year, f.month);
    if f.month < 11 { DaysBeforeMonthMonotone(f.month + 1, 12, leap); }
  }

  lemma MonthSpan(f: Fields)
    requires f.Valid()
    ensures 0 <= FromFields(f) - FromFields(Truncate(f, Month)) < UnitSpan(f, Month)
    ensures !IsYearZeroFebruary(f) ==> FromFields(Ceiling(f, Month)) == FromFields(Truncate(f, Month)) + UnitSpan(f, Month) - 1
  {
    MakeDayInYear(f.year, f.month, f.date);
    MakeDayInYear(f.year, f.month, 1);
    UtcYearLeap(f.year);
    MakeDayInYear(f.year, f.month, DaysInMonth(UtcYear(f.year), f.month));
  }

  lemma ClockSpan(f: Fields, unit: Unit)
    requires f.Valid() && unit != Year && unit != Month
    ensures 0 <= FromFields(f) - FromFields(Truncate(f, unit)) < UnitSpan(f, unit)
    ensures FromFields(Ceiling(f, unit)) == FromFields(Truncate(f, unit)) + UnitSpan(f, unit) - 1
  {
  }

  /** The start of a unit is at or before the instant, by less than the unit's length. */
  lemma StartOfBelow(t: Instant, unit: Unit)
    ensures StartOf(t, unit) <= t < StartOf(t, unit) + UnitSpan(ToFields(t), unit)
  {
    ToFieldsValid(t);
    StartOfFields(t, unit);
    FieldsWithinSpan(ToFields(t), unit);
  }

  /** The end of a unit is its start plus its length less one millisecond (February of year 0 aside). */
  lemma EndOfIsStartPlusSpan(t: Instant, unit: Unit)
    requires unit == Month ==> !IsYearZeroFebruary(ToFields(t))
    ensures EndOf(t, unit) == StartOf(t, unit) + UnitSpan(ToFields(t), unit) - 1
  {
    ToFieldsValid(t);
    StartOfFields(t, unit);
    EndOfFields(t, unit);
    CeilingIsSpanEnd(ToFields(t), unit);
  }

  /** The end of a unit is at or after the instant (February of year 0 aside). */
  lemma EndOfAbove(t: Instant, unit: Unit)
    requires unit == Month ==> !IsYearZeroFebruary(ToFields(t))
    ensures t <= EndOf(t, unit)
  {
    StartOfBelow(t, unit);
    EndOfIsStartPlusSpan(t, unit);
  }

  /** On February 29 of year 0, `endOf(date, 'month')` lands before the date itself. */
  lemma EndOfMonthYearZero(t: Instant)
    requires ToFields(t) == Fields(0, 1, 29, 0, 0, 0, 0)
    ensures ToFields(EndOf(t, Month)) == Fields(0, 1, 28, 23, 59, 59, 999)
    ensures EndOf(t, Month) < t
  {
    var f, g := Fields(0, 1, 29, 0, 0, 0, 0), Fields(0, 1, 28, 23, 59, 59, 999);
    YearZeroFebruary();
    EndOfFields(t, Month);
    ToFieldsValid(t);
    EarlierDate(g, f);
  }

  /**
    `endOf(date, 'month')` as evidently intended: the last day is the real
    length of the month the instant is in, so February of year 0 ends on the
    29th. Every other unit is `endOf` unchanged.
  */
  function CorrectedEndOf(t: Instant, unit: Unit): Instant {
    if unit == Month then SetUTCHours(SetUTCDate(t, DaysInMonth(YearFromTime(t), MonthFromTime(t))), 23, 59, 59, 999)
    else EndOf(t, unit)
  }

  /** The corrected end of a month keeps year and month and sets the real last day and the last millisecond. */
  lemma CorrectedEndOfMonthFields(t: Instant)
    ensures ToFields(CorrectedEndOf(t, Month)) == ToFields(t).(date := DaysInMonth(YearFromTime(t), MonthFromTime(t)), hours := 23, minutes := 59, seconds := 59, ms := 999)
  {
    var d := DaysInMonth(YearFromTime(t), MonthFromTime(t));
    ToFieldsValid(t);
    SetUTCDateFields(t, d);
    SetUTCHoursFields(SetUTCDate(t, d), 23, 59, 59, 999);
  }

  /** The real last millisecond of a month is the month's span after its first, less one. */
  lemma MonthEndSpan(f: Fields)
    requires f.Valid()
    ensures FromFields(f.(date := DaysInMonth(f.year, f.month), hours := 23, minutes := 59, seconds := 59, ms := 999)) == FromFields(Truncate(f, Month)) + UnitSpan(f, Month) - 1
  {
    MakeDayInYear(f.year, f.month, 1);
    MakeDayInYear(f.year, f.month, DaysInMonth(f.year, f.month));
  }

  /** For every instant and unit, February of year 0 included, the corrected end is the start plus the span less one, and not before the instant. */
  lemma CorrectedEndOfIsStartPlusSpan(t: Instant, unit: Unit)
    ensures CorrectedEndOf(t, unit) == StartOf(t, unit) + UnitSpan(ToFields(t), unit) - 1
    ensures t <= CorrectedEndOf(t, unit)
  {
    StartOfBelow(t, unit);
    if unit == Month {
      var f := ToFields(t);
      var e := CorrectedEndOf(t, Month);
      ToFieldsValid(t);
      CorrectedEndOfMonthFields(t);
      ToFieldsValid(e);
      StartOfFields(t, Month);
      MonthEndSpan(f);
    } else {
      EndOfIsStartPlusSpan(t, unit);
    }
  }

  /** The correction changes nothing outside February of year 0. */
  lemma CorrectedEndOfAgrees(t: Instant, unit: Unit)
    requires unit == Month ==> !IsYearZeroFebruary(ToFields(t))
    ensures CorrectedEndOf(t, unit) == EndOf(t, unit)
  {
    DaysInMonthOfIsLength(t);
  }

  lemma YearZeroFebruary()
    ensures Ceiling(Fields(0, 1, 29, 0, 0, 0, 0), Month) == Fields(0, 1, 28, 23, 59, 59, 999)
    ensures Fields(0, 1, 28, 23, 59, 59, 999).Valid()
  {
  }

  /** An earlier date in the same month is an earlier instant, whatever the clock. */
  lemma EarlierDate(f: Fields, g: Fields)
    requires f.Valid() && g.Valid() && f.year == g.year && f.month == g.month && f.date < g.date
    ensures FromFields(f) < FromFields(g)
  {
    MakeDayInYear(f.year, f.month, f.date);
    MakeDayInYear(g.year, g.month, g.date);
    MakeDateOrder(MakeDay(f.year, f.month, f.date), MakeTime(f.hours, f.minutes, f.seconds, f.ms),
                  MakeDay(g.year, g.month, g.date), MakeTime(g.hours, g.minutes, g.seconds, g.ms));
  }

  lemma TruncateIdempotent(f: Fields, unit: Unit)
    ensures Truncate(Truncate(f, unit), unit) == Truncate(f, unit)
  {
  }

  lemma CeilingIdempotent(f: Fields, unit: Unit)
    ensures Ceiling(Ceiling(f, unit), unit) == Ceiling(f, unit)
  {
  }

  /** An instant already at the start of its unit is left where it is. */
  lemma StartOfFixed(s: Instant, unit: Unit, f: Fields)
    requires ToFields(s) == Truncate(f, unit)
    ensures StartOf(s, unit) == s
  {
    TruncateIdempotent(f, unit);
    StartOfFields(s, unit);
    ToFieldsValid(s);
  }

  /** An instant already at the end of its unit is left where it is. */
  lemma EndOfFixed(s: Instant, unit: Unit, f: Fields)
    requires ToFields(s) == Ceiling(f, unit)
    ensures EndOf(s, unit) == s
  {
    CeilingIdempotent(f, unit);
    EndOfFields(s, unit);
    ToFieldsValid(s);
  }

  lemma StartOfIdempotent(t: Instant, unit: Unit)
    ensures StartOf(StartOf(t, unit), unit) == StartOf(t, unit)
  {
    StartOfFields(t, unit);
    StartOfFixed(StartOf(t, unit), unit, ToFields(t));
  }

  lemma EndOfIdempotent(t: Instant, unit: Unit)
    ensures EndOf(EndOf(t, unit), unit) == EndOf(t, unit)
  {
    EndOfFields(t, unit);
    EndOfFixed(EndOf(t, unit), unit, ToFields(t));
  }

  /** Reading the start of a unit off known fields. */
  lemma StartOfFromFields(t: Instant, unit: Unit, f: Fields, g: Fields)
    requires ToFields(t) == f && Truncate(f, unit) == g
    ensures ToFields(StartOf(t, unit)) == g
  {
    StartOfFields(t, unit);
  }

  /** Reading the end of a unit off known fields. */
  lemma EndOfFromFields(t: Instant, unit: Unit, f: Fields, g: Fields)
    requires ToFields(t) == f && Ceiling(f, unit) == g
    ensures ToFields(EndOf(t, unit)) == g
  {
    EndOfFields(t, unit);
  }

  lemma TruncateExample()
    ensures var f := Fields(2024, 5, 15, 14, 35, 22, 500);
      && Truncate(f, Year) == Fields(2024, 0, 1, 0, 0, 0, 0)
      && Truncate(f, Month) == Fields(2024, 5, 1, 0, 0, 0, 0)
      && Truncate(f, Day) == Fields(2024, 5, 15, 0, 0, 0, 0)
      && Truncate(f, Hour) == Fields(2024, 5, 15, 14, 0, 0, 0)
      && Truncate(f, Minute) == Fields(2024, 5, 15, 14, 35, 0, 0)
      && Truncate(f, Second) == Fields(2024, 5, 15, 14, 35, 22, 0)
  {
  }

  /** 2024-06-15T14:35:22.500Z truncated to each unit. */
  lemma StartOfExamples(t: Instant)
    requires ToFields(t) == Fields(2024, 5, 15, 14, 35, 22, 500)
    ensures ToFields(StartOf(t, Year)) == Fields(2024, 0, 1, 0, 0, 0, 0)
    ensures ToFields(StartOf(t, Month)) == Fields(2024, 5, 1, 0, 0, 0, 0)
    ensures ToFields(StartOf(t, Day)) == Fields(2024, 5, 15, 0, 0, 0, 0)
    ensures ToFields(StartOf(t, Hour)) == Fields(2024, 5, 15, 14, 0, 0, 0)
    ensures ToFields(StartOf(t, Minute)) == Fields(2024, 5, 15, 14, 35, 0, 0)
    ensures ToFields(StartOf(t, Second)) == Fields(2024, 5, 15, 14, 35, 22, 0)
  {
    var f := Fields(2024, 5, 15, 14, 35, 22, 500);
    var y, mo, d := Fields(2024, 0, 1, 0, 0, 0, 0), Fields(2024, 5, 1, 0, 0, 0, 0), Fields(2024, 5, 15, 0, 0, 0, 0);
    var h, mi, se := Fields(2024, 5, 15, 14, 0, 0, 0), Fields(2024, 5, 15, 14, 35, 0, 0), Fields(2024, 5, 15, 14, 35, 22, 0);
    TruncateExample();
    StartOfFromFields(t, Year, f, y);
    StartOfFromFields(t, Month, f, mo);
    StartOfFromFields(t, Day, f, d);
    StartOfFromFields(t, Hour, f, h);
    StartOfFromFields(t, Minute, f, mi);
    StartOfFromFields(t, Second, f, se);
  }

  lemma CeilingFebruary()
    ensures Ceiling(Fields(2024, 1, 10, 8, 0, 0, 0), Month) == Fields(2024, 1, 29, 23, 59, 59, 999)
    ensures Ceiling(Fields(2023, 1, 10, 8, 0, 0, 0), Month) == Fields(2023, 1, 28, 23, 59, 59, 999)
  {
  }

  /** The end of February 2024 is the 29th, of February 2023 the 28th. */
  lemma EndOfFebruary(t: Instant, u: Instant)
    requires ToFields(t) == Fields(2024, 1, 10, 8, 0, 0, 0) && ToFields(u) == Fields(2023, 1, 10, 8, 0, 0, 0)
    ensures ToFields(EndOf(t, Month)) == Fields(2024, 1, 29, 23, 59, 59, 999)
    ensures ToFields(EndOf(u, Month)) == Fields(2023, 1, 28, 23, 59, 59, 999)
  {
    CeilingFebruary();
    EndOfFromFields(t, Month, Fields(2024, 1, 10, 8, 0, 0, 0), Fields(2024, 1, 29, 23, 59, 59, 999));
    EndOfFromFields(u, Month, Fields(2023, 1, 10, 8, 0, 0, 0), Fields(2023, 1, 28, 23, 59, 59, 999));
  }
}
