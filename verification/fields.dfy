/**
  `getUnit`, `setUnit` and `getQuarter`: reading one UTC field of an instant,
  replacing one through the matching UTC setter, and the quarter of the month.
*/
module FieldQueries {
  import opened Wrappers
  import opened Civil
  import opened Units

  // ---------------------------------------------------------------------------
  // getUnit

  /** The units `getUnit` knows: `date` is the day of the month, `day` the weekday. */
  predicate Readable(unit: Unit) {
    unit.Year? || unit.Month? || unit.Date? || unit.Day? || unit.Hour? || unit.Minute? || unit.Second?
  }

  /** `getUnit(date, unit)`; any other unit throws. */
  function GetUnit(t: Instant, unit: Unit): (r: Result<int>)
    ensures r.Ok? <==> Readable(unit)
    ensures r.Err? ==> r.message == "Unsupported unit: " + Name(unit)
  {
    match unit
    case Year => Ok(YearFromTime(t))
    case Month => Ok(MonthFromTime(t))
    case Date => Ok(DateFromTime(t))
    case Day => Ok(WeekDay(t))
    case Hour => Ok(HourFromTime(t))
    case Minute => Ok(MinFromTime(t))
    case Second => Ok(SecFromTime(t))
    case _ => Err("Unsupported unit: " + Name(unit))
  }

  /** Every field `getUnit` reads lies in its calendar range. */
  lemma GetUnitRanges(t: Instant)
    ensures 0 <= GetUnit(t, Month).value < 12
    ensures 1 <= GetUnit(t, Date).value <= DaysInMonth(GetUnit(t, Year).value, GetUnit(t, Month).value)
    ensures 0 <= GetUnit(t, Day).value < 7
    ensures 0 <= GetUnit(t, Hour).value < 24
    ensures 0 <= GetUnit(t, Minute).value < 60 && 0 <= GetUnit(t, Second).value < 60
  {
    DateOfDay(t);
  }

  /** The weekday `getUnit(date, 'day')` reports moves on by one, modulo 7, for each day added. */
  lemma WeekdayAdvances(t: Instant)
    ensures GetUnit(t + MsPerDay, Day).value == (GetUnit(t, Day).value + 1) % 7
  {
    WeekDayNextDay(t);
  }

  /** Weekdays of the day numbers the examples below meet (2024-03-01, -03-15, -03-31 and -06-20). */
  lemma WeekdayTable(d: int)
    ensures d == 19783 ==> (d + 4) % 7 == 5
    ensures d == 19797 ==> (d + 4) % 7 == 5
    ensures d == 19813 ==> (d + 4) % 7 == 0
    ensures d == 19894 ==> (d + 4) % 7 == 4
  {
  }

  lemma March2024()
    ensures MakeDay(2024, 2, 1) == 19783 && MakeDay(2024, 2, 15) == 19797 && MakeDay(2024, 2, 31) == 19813
  {
    assert DayFromYear(2024) == 19723;
    assert 2 / 12 == 0 && 2 % 12 == 2;
  }

  /** 2024-03-15T12:34:56Z read field by field, and the unsupported `week`. */
  lemma GetUnitExample(t: Instant)
    requires ToFields(t) == Fields(2024, 2, 15, 12, 34, 56, 0)
    ensures GetUnit(t, Year) == Ok(2024) && GetUnit(t, Month) == Ok(2) && GetUnit(t, Date) == Ok(15)
    ensures GetUnit(t, Day) == Ok(5)
    ensures GetUnit(t, Hour) == Ok(12) && GetUnit(t, Minute) == Ok(34) && GetUnit(t, Second) == Ok(56)
    ensures GetUnit(t, Week) == Err("Unsupported unit: week")
  {
    DateOfDay(t);
    March2024();
    WeekdayTable(DayNumber(t));
  }

  /** 2024-03-01 is a Friday (5) and 2024-03-31 a Sunday (0). */
  lemma GetWeekdayExamples(a: Instant, b: Instant)
    requires ToFields(a) == Fields(2024, 2, 1, 0, 0, 0, 0) && ToFields(b) == Fields(2024, 2, 31, 0, 0, 0, 0)
    ensures GetUnit(a, Day) == Ok(5) && GetUnit(b, Day) == Ok(0)
  {
    DateOfDay(a);
    DateOfDay(b);
    March2024();
    WeekdayTable(DayNumber(a));
    WeekdayTable(DayNumber(b));
  }

  // ---------------------------------------------------------------------------
  // setUnit

  /**
    `setUnit(date, unit, value)`. Each case calls one setter with one argument,
    so the setter keeps the other fields of its group; `month` keeps the day of
    the month. A unit outside the list matches no case and the copy comes back
    unchanged.
  */
  function SetUnit(t: Instant, unit: Unit, value: int): Instant {
    match unit
    case Year => SetUTCFullYear(t, value)
    case Month => SetUTCMonth(t, value, DateFromTime(t))
    case Day => SetUTCDate(t, value)
    case Hour => SetUTCHours(t, value, MinFromTime(t), SecFromTime(t), MsFromTime(t))
    case Minute => SetUTCMinutes(t, value, SecFromTime(t), MsFromTime(t))
    case Second => SetUTCSeconds(t, value, MsFromTime(t))
    case Millisecond => SetUTCMilliseconds(t, value)
    case _ => t
  }

  /** The field `setUnit` writes, with every other field as it was. */
  function Replace(f: Fields, unit: Unit, value: int): Fields {
    match unit
    case Year => f.(year := value)
    case Month => f.(month := value)
    case Day => f.(date := value)
    case Hour => f.(hours := value)
    case Minute => f.(minutes := value)
    case Second => f.(seconds := value)
    case Millisecond => f.(ms := value)
    case _ => f
  }

  /** The value is in range for the unit and the day of the month still fits after the change. */
  predicate Fits(f: Fields, unit: Unit, value: int) {
    match unit
    case Year => f.date <= DaysInMonth(value, f.month)
    case Month => 0 <= value < 12 && f.date <= DaysInMonth(f.year, value)
    case Day => 1 <= value <= DaysInMonth(f.year, f.month)
    case Hour => 0 <= value < 24
    case Minute => 0 <= value < 60
    case Second => 0 <= value < 60
    case Millisecond => 0 <= value < 1000
    case _ => true
  }

  /** A value that fits changes only the field it names. */
  lemma SetUnitFields(t: Instant, unit: Unit, value: int)
    requires Fits(ToFields(t), unit, value)
    ensures ToFields(SetUnit(t, unit, value)) == Replace(ToFields(t), unit, value)
  {
    ToFieldsValid(t);
    match unit
    case Year => SetUTCFullYearFields(t, value);
    case Month => SetUTCMonthFields(t, value, DateFromTime(t));
    case Day => SetUTCDateFields(t, value);
    case Hour => SetUTCHoursFields(t, value, MinFromTime(t), SecFromTime(t), MsFromTime(t));
    case Minute => SetUTCMinutesFields(t, value, SecFromTime(t), MsFromTime(t));
    case Second => SetUTCSecondsFields(t, value, MsFromTime(t));
    case Millisecond => SetUTCMillisecondsFields(t, value);
    case _ =>
  }

  /** The unit `getUnit` reads back what `setUnit` wrote: `setUnit`'s `day` is `getUnit`'s `date`. */
  function ReadBack(unit: Unit): Unit {
    if unit.Day? then Date else unit
  }

  /** Reading the unit back after setting it to a value that fits gives the value. */
  lemma SetThenGet(t: Instant, unit: Unit, value: int)
    requires unit.Year? || unit.Month? || unit.Day? || unit.Hour? || unit.Minute? || unit.Second?
    requires Fits(ToFields(t), unit, value)
    ensures GetUnit(SetUnit(t, unit, value), ReadBack(unit)) == Ok(value)
  {
    SetUnitFields(t, unit, value);
  }

  /** Setting a month the day does not fit in carries the excess days into the next month. */
  lemma MonthRollsOver(t: Instant, value: int)
    requires 0 <= value < 12 && DateFromTime(t) > DaysInMonth(YearFromTime(t), value)
    ensures value < 11
    ensures ToFields(SetUnit(t, Month, value))
         == ToFields(t).(month := value + 1, date := DateFromTime(t) - DaysInMonth(YearFromTime(t), value))
  {
    var y, d := YearFromTime(t), DateFromTime(t);
    ToFieldsValid(t);
    var g := ToFields(t).(month := value + 1, date := d - DaysInMonth(y, value));
    MakeDayInYear(y, value, d);
    MakeDayInYear(y, value + 1, g.date);
    DaysBeforeMonthStep(y, value);
    NewDateFields(t, g, SetUnit(t, Month, value));
  }

  /** Setting a field of an instant with known fields. */
  lemma SetUnitFromFields(t: Instant, unit: Unit, value: int, f: Fields, g: Fields)
    requires ToFields(t) == f && Fits(f, unit, value) && Replace(f, unit, value) == g
    ensures ToFields(SetUnit(t, unit, value)) == g
  {
    SetUnitFields(t, unit, value);
  }

  lemma June15Facts()
    ensures var f := Fields(2024, 5, 15, 14, 30, 45, 0);
      && Fits(f, Year, 2025) && Replace(f, Year, 2025) == Fields(2025, 5, 15, 14, 30, 45, 0)
      && Fits(f, Month, 0) && Replace(f, Month, 0) == Fields(2024, 0, 15, 14, 30, 45, 0)
      && Fits(f, Day, 20) && Replace(f, Day, 20) == Fields(2024, 5, 20, 14, 30, 45, 0)
      && Fits(f, Hour, 10) && Replace(f, Hour, 10) == Fields(2024, 5, 15, 10, 30, 45, 0)
  {
  }

  lemma June2024()
    ensures MakeDay(2024, 5, 20) == 19894
  {
    assert DayFromYear(2024) == 19723;
    assert 5 / 12 == 0 && 5 % 12 == 5;
  }

  /** From 2024-06-15T14:30:45Z: year 2025, month 0, day 20 and hour 10. */
  lemma SetUnitExamples(t: Instant)
    requires ToFields(t) == Fields(2024, 5, 15, 14, 30, 45, 0)
    ensures ToFields(SetUnit(t, Year, 2025)) == Fields(2025, 5, 15, 14, 30, 45, 0)
    ensures ToFields(SetUnit(t, Month, 0)) == Fields(2024, 0, 15, 14, 30, 45, 0)
    ensures ToFields(SetUnit(t, Day, 20)) == Fields(2024, 5, 20, 14, 30, 45, 0)
    ensures ToFields(SetUnit(t, Hour, 10)) == Fields(2024, 5, 15, 10, 30, 45, 0)
  {
    var f := Fields(2024, 5, 15, 14, 30, 45, 0);
    June15Facts();
    SetUnitFromFields(t, Year, 2025, f, Fields(2025, 5, 15, 14, 30, 45, 0));
    SetUnitFromFields(t, Month, 0, f, Fields(2024, 0, 15, 14, 30, 45, 0));
    SetUnitFromFields(t, Day, 20, f, Fields(2024, 5, 20, 14, 30, 45, 0));
    SetUnitFromFields(t, Hour, 10, f, Fields(2024, 5, 15, 10, 30, 45, 0));
  }

  /** `setUnit(date, 'day', 20)` sets the day of the month; `getUnit` then reads weekday 4 (a Thursday) for `day`. */
  lemma SetDayIsNotGetDay(t: Instant, u: Instant)
    requires ToFields(t) == Fields(2024, 5, 15, 14, 30, 45, 0) && u == SetUnit(t, Day, 20)
    ensures GetUnit(u, Date) == Ok(20) && GetUnit(u, Day) == Ok(4)
  {
    June15Facts();
    SetUnitFromFields(t, Day, 20, Fields(2024, 5, 15, 14, 30, 45, 0), Fields(2024, 5, 20, 14, 30, 45, 0));
    DateOfDay(u);
    June2024();
    WeekdayTable(DayNumber(u));
  }

  /** 2024-01-31 with the month set to February becomes 2024-03-02. */
  lemma MonthRolloverExample(t: Instant)
    requires ToFields(t) == Fields(2024, 0, 31, 0, 0, 0, 0)
    ensures ToFields(SetUnit(t, Month, 1)) == Fields(2024, 2, 2, 0, 0, 0, 0)
  {
    MonthRollsOver(t, 1);
  }

  // ---------------------------------------------------------------------------
  // getQuarter

  /** `getQuarter(date)`: `floor(month / 3) + 1`. */
  function GetQuarter(t: Instant): (q: int)
    ensures 1 <= q <= 4
    ensures 3 * (q - 1) <= MonthFromTime(t) < 3 * q
  {
    MonthFromTime(t) / 3 + 1
  }

  /** January to March is quarter 1, April to June 2, July to September 3, October to December 4. */
  lemma QuarterByMonth(t: Instant)
    ensures GetQuarter(t) == 1 <==> MonthFromTime(t) in {0, 1, 2}
    ensures GetQuarter(t) == 2 <==> MonthFromTime(t) in {3, 4, 5}
    ensures GetQuarter(t) == 3 <==> MonthFromTime(t) in {6, 7, 8}
    ensures GetQuarter(t) == 4 <==> MonthFromTime(t) in {9, 10, 11}
  {
  }

  /** A later month never has an earlier quarter; the quarter depends on the month alone. */
  lemma QuarterMonotone(a: Instant, b: Instant)
    requires MonthFromTime(a) <= MonthFromTime(b)
    ensures GetQuarter(a) <= GetQuarter(b)
    ensures MonthFromTime(a) == MonthFromTime(b) ==> GetQuarter(a) == GetQuarter(b)
  {
  }
}
