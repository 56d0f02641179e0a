/**
  The UTC civil layer every operation of the library stands on: the proleptic
  Gregorian calendar as ECMAScript defines it for `Date` (section 21.4.1 of
  ECMA-262). An instant is an integer count of milliseconds since
  1970-01-01T00:00:00Z. Months are 0-based (0 = January) as in `getUTCMonth`.
  Dafny's `/` and `%` with a positive divisor are floor division and a
  non-negative remainder, which is what the standard's `floor` and `modulo` mean.
*/
module Civil {

  type Instant = int

  const MsPerSecond: int := 1000
  const MsPerMinute: int := 60000
  const MsPerHour: int := 3600000
  const MsPerDay: int := 86400000

  // ---------------------------------------------------------------------------
  // Years

  /** Gregorian leap-year rule. */
  predicate IsLeapYear(y: int) {
    (y % 4 == 0 && y % 100 != 0) || y % 400 == 0
  }

  function DaysInYear(y: int): int {
    if IsLeapYear(y) then 366 else 365
  }

  /** Day number of January 1 of year `y` (ECMA-262 DayFromYear). */
  function DayFromYear(y: int): int {
    365 * (y - 1970) + (y - 1969) / 4 - (y - 1901) / 100 + (y - 1601) / 400
  }

  lemma DayFromYearStep(y: int)
    ensures DayFromYear(y + 1) == DayFromYear(y) + DaysInYear(y)
  {
    assert (y - 1968) / 4 == (y - 1969) / 4 + (if y % 4 == 0 then 1 else 0);
    assert (y - 1900) / 100 == (y - 1901) / 100 + (if y % 100 == 0 then 1 else 0);
    assert (y - 1600) / 400 == (y - 1601) / 400 + (if y % 400 == 0 then 1 else 0);
  }

  lemma {:induction false} DayFromYearMonotone(a: int, b: int)
    requires a <= b
    ensures DayFromYear(a) + 365 * (b - a) <= DayFromYear(b)
    decreases b - a
  {
    if a < b {
      DayFromYearMonotone(a, b - 1);
      DayFromYearStep(b - 1);
    }
  }

  /** DayFromYear stays within two days of the mean Gregorian year length, 146097 / 400 days. */
  lemma DayFromYearNearMean(y: int)
    ensures 146097 * (y - 1970) - 800 < 400 * DayFromYear(y) < 146097 * (y - 1970) + 800
  {
    var k := y - 1970;
    assert 4 * ((y - 1969) / 4) <= k + 1 < 4 * ((y - 1969) / 4) + 4;
    assert 100 * ((y - 1901) / 100) <= k + 69 < 100 * ((y - 1901) / 100) + 100;
    assert 400 * ((y - 1601) / 400) <= k + 369 < 400 * ((y - 1601) / 400) + 400;
  }

  /** The estimate from the mean year length is off by at most one year. */
  lemma YearEstimateClose(day: int)
    ensures var e := 1970 + day * 400 / 146097;
      DayFromYear(e - 1) <= day < DayFromYear(e + 2)
  {
    var q := day * 400 / 146097;
    assert 146097 * q <= 400 * day < 146097 * q + 146097;
    DayFromYearNearMean(1970 + q - 1);
    DayFromYearNearMean(1970 + q + 2);
  }

  /** The year containing day number `day`: the y with DayFromYear(y) <= day < DayFromYear(y + 1). */
  function YearFromDay(day: int): (y: int)
    ensures DayFromYear(y) <= day < DayFromYear(y + 1)
  {
    var e := 1970 + day * 400 / 146097;
    YearEstimateClose(day);
    if DayFromYear(e + 1) <= day then e + 1
    else if DayFromYear(e) <= day then e
    else e - 1
  }

  lemma YearFromDayUnique(day: int, y: int)
    requires DayFromYear(y) <= day < DayFromYear(y + 1)
    ensures YearFromDay(day) == y
  {
    var r := YearFromDay(day);
    if r < y {
      DayFromYearMonotone(r + 1, y);
    } else if r > y {
      DayFromYearMonotone(y + 1, r);
    }
  }

  // ---------------------------------------------------------------------------
  // Months

  /** Days of a common year before the first of each 0-based month; entry 12 is the year length. */
  const CumulativeDays: seq<int> := [0, 31, 59, 90, 120, 151, 181, 212, 243, 273, 304, 334, 365]

  /** Days of the year before the first of 0-based month `m` (m = 12 gives the year length). */
  function DaysBeforeMonth(m: int, leap: bool): int
    requires 0 <= m <= 12
  {
    CumulativeDays[m] + (if leap && m >= 2 then 1 else 0)
  }

  /** Length of 0-based month `m` of year `y`. */
  function DaysInMonth(y: int, m: int): int {
    if m == 1 then (if IsLeapYear(y) then 29 else 28)
    else if m == 3 || m == 5 || m == 8 || m == 10 then 30
    else 31
  }

  lemma DaysBeforeMonthStep(y: int, m: int)
    requires 0 <= m < 12
    ensures DaysBeforeMonth(m + 1, IsLeapYear(y)) == DaysBeforeMonth(m, IsLeapYear(y)) + DaysInMonth(y, m)
    ensures DaysBeforeMonth(12, IsLeapYear(y)) == DaysInYear(y)
  {
  }

  lemma DaysBeforeMonthMonotone(a: int, b: int, leap: bool)
    requires 0 <= a < b <= 12
    ensures DaysBeforeMonth(a, leap) < DaysBeforeMonth(b, leap)
  {
  }

  /** The 0-based month holding day `doy` (0-based) of a year. */
  function MonthInYear(doy: int, leap: bool): (m: int)
    requires 0 <= doy < DaysBeforeMonth(12, leap)
    ensures 0 <= m < 12
    ensures DaysBeforeMonth(m, leap) <= doy < DaysBeforeMonth(m + 1, leap)
  {
    if doy < DaysBeforeMonth(1, leap) then 0
    else if doy < DaysBeforeMonth(2, leap) then 1
    else if doy < DaysBeforeMonth(3, leap) then 2
    else if doy < DaysBeforeMonth(4, leap) then 3
    else if doy < DaysBeforeMonth(5, leap) then 4
    else if doy < DaysBeforeMonth(6, leap) then 5
    else if doy < DaysBeforeMonth(7, leap) then 6
    else if doy < DaysBeforeMonth(8, leap) then 7
    else if doy < DaysBeforeMonth(9, leap) then 8
    else if doy < DaysBeforeMonth(10, leap) then 9
    else if doy < DaysBeforeMonth(11, leap) then 10
    else 11
  }

  lemma MonthInYearUnique(doy: int, leap: bool, m: int)
    requires 0 <= m < 12
    requires DaysBeforeMonth(m, leap) <= doy < DaysBeforeMonth(m + 1, leap)
    ensures 0 <= doy < DaysBeforeMonth(12, leap)
    ensures MonthInYear(doy, leap) == m
  {
    var r := MonthInYear(doy, leap);
    if r < m {
      DaysBeforeMonthMonotone(r + 1, m, leap);
    } else if r > m {
      DaysBeforeMonthMonotone(m + 1, r, leap);
    }
  }

  // ---------------------------------------------------------------------------
  // Splitting an instant (ECMA-262 Day, TimeWithinDay, YearFromTime, ...)

  /** ECMA-262 `Day(t)`: the number of whole days since the epoch. */
  function DayNumber(t: Instant): int { t / MsPerDay }
  function TimeWithinDay(t: Instant): int { t % MsPerDay }

  function YearFromTime(t: Instant): int { YearFromDay(DayNumber(t)) }
  function DayWithinYear(t: Instant): int { DayNumber(t) - DayFromYear(YearFromTime(t)) }
  predicate InLeapYear(t: Instant) { IsLeapYear(YearFromTime(t)) }

  lemma DayWithinYearRange(t: Instant)
    ensures 0 <= DayWithinYear(t) < DaysBeforeMonth(12, InLeapYear(t))
  {
    DayFromYearStep(YearFromTime(t));
  }

  function MonthFromTime(t: Instant): int {
    DayWithinYearRange(t);
    MonthInYear(DayWithinYear(t), InLeapYear(t))
  }

  function DateFromTime(t: Instant): int {
    DayWithinYearRange(t);
    DayWithinYear(t) - DaysBeforeMonth(MonthFromTime(t), InLeapYear(t)) + 1
  }

  /** Day of the week, 0 = Sunday (1970-01-01 was a Thursday). */
  function WeekDay(t: Instant): int { (DayNumber(t) + 4) % 7 }

  function HourFromTime(t: Instant): int { (t / MsPerHour) % 24 }
  function MinFromTime(t: Instant): int { (t / MsPerMinute) % 60 }
  function SecFromTime(t: Instant): int { (t / MsPerSecond) % 60 }
  function MsFromTime(t: Instant): int { t % MsPerSecond }

  // ---------------------------------------------------------------------------
  // Building an instant (ECMA-262 MakeTime, MakeDay, MakeDate)

  function MakeTime(hour: int, min: int, sec: int, ms: int): int {
    hour * MsPerHour + min * MsPerMinute + sec * MsPerSecond + ms
  }

  /** Day number of day `date` of month `month` of `year`; the month carries into the year and the day overflows freely. */
  function MakeDay(year: int, month: int, date: int): int {
    var ym := year + month / 12;
    var mn := month % 12;
    DayFromYear(ym) + DaysBeforeMonth(mn, IsLeapYear(ym)) + date - 1
  }

  function MakeDate(day: int, time: int): Instant {
    day * MsPerDay + time
  }

  /** Years 0..99 passed to Date.UTC denote 1900..1999. */
  predicate PlainYear(y: int) { !(0 <= y <= 99) }

  function UtcYear(y: int): int { if 0 <= y <= 99 then 1900 + y else y }

  /** `Date.UTC(year, month, date, hours, minutes, seconds, ms)` (ECMA-262 section 21.4.3.4); omitted arguments are passed as 0, or 1 for the date. */
  function DateUTC(year: int, month: int, date: int, h: int, min: int, sec: int, ms: int): Instant {
    MakeDate(MakeDay(UtcYear(year), month, date), MakeTime(h, min, sec, ms))
  }

  // ---------------------------------------------------------------------------
  // Calendar fields

  datatype Fields = Fields(year: int, month: int, date: int, hours: int, minutes: int, seconds: int, ms: int)
  {
    predicate Valid() {
      && 0 <= month < 12
      && 1 <= date <= DaysInMonth(year, month)
      && 0 <= hours < 24 && 0 <= minutes < 60 && 0 <= seconds < 60 && 0 <= ms < 1000
    }
  }

  function ToFields(t: Instant): Fields {
    Fields(YearFromTime(t), MonthFromTime(t), DateFromTime(t),
           HourFromTime(t), MinFromTime(t), SecFromTime(t), MsFromTime(t))
  }

  function FromFields(f: Fields): Instant {
    MakeDate(MakeDay(f.year, f.month, f.date), MakeTime(f.hours, f.minutes, f.seconds, f.ms))
  }

  /** The time-of-day fields put back together give the time within the day. */
  lemma TimeOfDayParts(t: Instant)
    ensures 0 <= HourFromTime(t) < 24 && 0 <= MinFromTime(t) < 60
    ensures 0 <= SecFromTime(t) < 60 && 0 <= MsFromTime(t) < 1000
    ensures MakeTime(HourFromTime(t), MinFromTime(t), SecFromTime(t), MsFromTime(t)) == TimeWithinDay(t)
  {
    var s := t / 1000;
    assert t / 60000 == s / 60;
    assert t / 3600000 == s / 3600;
    assert t / 86400000 == s / 86400;
    assert s / 3600 == (s / 60) / 60;
    assert s / 86400 == (s / 3600) / 24;
  }

  /** A valid month index is left alone by MakeDay's normalisation. */
  lemma MakeDayInYear(year: int, month: int, date: int)
    requires 0 <= month < 12
    ensures MakeDay(year, month, date) == DayFromYear(year) + DaysBeforeMonth(month, IsLeapYear(year)) + date - 1
  {
    assert month / 12 == 0 && month % 12 == month;
  }

  lemma DateOfDay(t: Instant)
    ensures 0 <= MonthFromTime(t) < 12
    ensures 1 <= DateFromTime(t) <= DaysInMonth(YearFromTime(t), MonthFromTime(t))
    ensures MakeDay(YearFromTime(t), MonthFromTime(t), DateFromTime(t)) == DayNumber(t)
  {
    var y, m, d := YearFromTime(t), MonthFromTime(t), DateFromTime(t);
    var leap := IsLeapYear(y);
    DayWithinYearRange(t);
    assert DaysBeforeMonth(m, leap) <= DayWithinYear(t) < DaysBeforeMonth(m + 1, leap);
    DaysBeforeMonthStep(y, m);
    MakeDayInYear(y, m, d);
  }

  /** Every instant splits into valid fields that rebuild it. */
  lemma ToFieldsValid(t: Instant)
    ensures ToFields(t).Valid()
    ensures FromFields(ToFields(t)) == t
  {
    DateOfDay(t);
    TimeOfDayParts(t);
    assert t == DayNumber(t) * MsPerDay + TimeWithinDay(t);
  }

  lemma SplitMakeDate(day: int, time: int)
    requires 0 <= time < MsPerDay
    ensures DayNumber(MakeDate(day, time)) == day
    ensures TimeWithinDay(MakeDate(day, time)) == time
  {
  }

  /** The calendar date of a day number built from a valid date is that date. */
  lemma CalendarDateRoundTrip(t: Instant, year: int, month: int, date: int)
    requires 0 <= month < 12 && 1 <= date <= DaysInMonth(year, month)
    requires DayNumber(t) == MakeDay(year, month, date)
    ensures YearFromTime(t) == year && MonthFromTime(t) == month && DateFromTime(t) == date
  {
    var leap := IsLeapYear(year);
    MakeDayInYear(year, month, date);
    DaysBeforeMonthStep(year, month);
    DayFromYearStep(year);
    if month < 11 { DaysBeforeMonthMonotone(month + 1, 12, leap); }
    YearFromDayUnique(DayNumber(t), year);
    MonthInYearUnique(DayNumber(t) - DayFromYear(year), leap, month);
  }

  lemma ClockRoundTrip(t: Instant, h: int, mi: int, s: int, ms: int)
    requires 0 <= h < 24 && 0 <= mi < 60 && 0 <= s < 60 && 0 <= ms < 1000
    requires TimeWithinDay(t) == MakeTime(h, mi, s, ms)
    ensures HourFromTime(t) == h && MinFromTime(t) == mi && SecFromTime(t) == s && MsFromTime(t) == ms
  {
    TimeOfDayParts(t);
    TimeFieldsUnique(HourFromTime(t), MinFromTime(t), SecFromTime(t), MsFromTime(t), h, mi, s, ms);
  }

  /** Valid fields survive a round trip through an instant. */
  lemma FromFieldsRoundTrip(f: Fields)
    requires f.Valid()
    ensures ToFields(FromFields(f)) == f
  {
    var t := FromFields(f);
    SplitMakeDate(MakeDay(f.year, f.month, f.date), MakeTime(f.hours, f.minutes, f.seconds, f.ms));
    CalendarDateRoundTrip(t, f.year, f.month, f.date);
    ClockRoundTrip(t, f.hours, f.minutes, f.seconds, f.ms);
  }

  lemma TimeFieldsUnique(h: int, mi: int, s: int, ms: int, h': int, mi': int, s': int, ms': int)
    requires 0 <= h && 0 <= mi < 60 && 0 <= s < 60 && 0 <= ms < 1000
    requires 0 <= h' && 0 <= mi' < 60 && 0 <= s' < 60 && 0 <= ms' < 1000
    requires MakeTime(h, mi, s, ms) == MakeTime(h', mi', s', ms')
    ensures h == h' && mi == mi' && s == s' && ms == ms'
  {
  }

  /** Instants are equal exactly when their fields are. */
  lemma FieldsInjective(a: Instant, b: Instant)
    requires ToFields(a) == ToFields(b)
    ensures a == b
  {
    ToFieldsValid(a);
    ToFieldsValid(b);
  }

  // ---------------------------------------------------------------------------
  // Month starts along an absolute month index 12 * year + month

  function MonthStart(i: int): int {
    DayFromYear(i / 12) + DaysBeforeMonth(i % 12, IsLeapYear(i / 12))
  }

  /** MakeDay normalises any month number through the absolute month index. */
  lemma MakeDayMonthIndex(year: int, month: int, date: int, i: int)
    requires i == 12 * year + month
    ensures MakeDay(year, month, date) == MonthStart(i) + date - 1
  {
    assert i / 12 == year + month / 12;
    assert i % 12 == month % 12;
  }

  lemma MonthStartStep(i: int, y: int, m: int)
    requires 0 <= m < 12 && i == 12 * y + m
    ensures MonthStart(i + 1) == MonthStart(i) + DaysInMonth(y, m)
  {
    assert i / 12 == y && i % 12 == m;
    DaysBeforeMonthStep(y, m);
    if m == 11 {
      assert (i + 1) / 12 == y + 1 && (i + 1) % 12 == 0;
      DayFromYearStep(y);
    } else {
      assert (i + 1) / 12 == y && (i + 1) % 12 == m + 1;
    }
  }

  lemma {:induction false} MonthStartMonotone(i: int, j: int)
    requires i <= j
    ensures MonthStart(i) <= MonthStart(j)
    decreases j - i
  {
    if i < j {
      MonthStartMonotone(i, j - 1);
      MonthStartStep(j - 1, (j - 1) / 12, (j - 1) % 12);
    }
  }

  /** No month is shorter than 28 days, so month starts grow at least that fast. */
  lemma {:induction false} MonthStartGrowth(i: int, j: int)
    requires i <= j
    ensures MonthStart(i) + 28 * (j - i) <= MonthStart(j)
    decreases j - i
  {
    if i < j {
      MonthStartGrowth(i, j - 1);
      MonthStartStep(j - 1, (j - 1) / 12, (j - 1) % 12);
    }
  }

  /** Day 0 of a month is the last day of the previous month. */
  lemma DayZeroIsLastOfPrevious(year: int, month: int)
    requires 0 <= month < 12
    ensures MakeDay(year, month + 1, 0) == MakeDay(year, month, DaysInMonth(year, month))
  {
    var i := 12 * year + month;
    var dim := DaysInMonth(year, month);
    MakeDayMonthIndex(year, month + 1, 0, i + 1);
    MakeDayMonthIndex(year, month, dim, i);
    MonthStartStep(i, year, month);
  }

  lemma MakeDateOrder(d1: int, t1: int, d2: int, t2: int)
    requires d1 < d2 && 0 <= t1 < MsPerDay && 0 <= t2 < MsPerDay
    ensures MakeDate(d1, t1) < MakeDate(d2, t2)
  {
  }

  /** A month starts after every day of an earlier month. */
  lemma MonthStartAfter(i: int, j: int, y: int, m: int)
    requires 0 <= m < 12 && i == 12 * y + m && i < j
    ensures MonthStart(i) + DaysInMonth(y, m) <= MonthStart(j)
  {
    MonthStartStep(i, y, m);
    MonthStartMonotone(i + 1, j);
  }

  /** Day `d1` of a month of `len` days starting at `s` comes before day `d2` of a month starting at or after `s + len`. */
  lemma DayOrder(a: int, b: int, s: int, u: int, d1: int, d2: int, len: int)
    requires a == s + d1 - 1 && b == u + d2 - 1
    requires s + len <= u && d1 <= len && 1 <= d2
    ensures a < b
  {
  }

  /** Fields in a later month give a later instant. */
  lemma LaterMonthIsLater(f: Fields, g: Fields)
    requires f.Valid() && g.Valid()
    requires 12 * f.year + f.month < 12 * g.year + g.month
    ensures FromFields(f) < FromFields(g)
  {
    var i, j := 12 * f.year + f.month, 12 * g.year + g.month;
    MakeDayMonthIndex(f.year, f.month, f.date, i);
    MakeDayMonthIndex(g.year, g.month, g.date, j);
    MonthStartAfter(i, j, f.year, f.month);
    DayOrder(MakeDay(f.year, f.month, f.date), MakeDay(g.year, g.month, g.date), MonthStart(i), MonthStart(j),
             f.date, g.date, DaysInMonth(f.year, f.month));
    MakeDateOrder(MakeDay(f.year, f.month, f.date), MakeTime(f.hours, f.minutes, f.seconds, f.ms),
                  MakeDay(g.year, g.month, g.date), MakeTime(g.hours, g.minutes, g.seconds, g.ms));
  }

  /** Date.UTC of a day in month index `i`, at a non-negative time of day, is no earlier than that month's start (years 0..99 only move later). */
  lemma DateUTCAboveMonthStart(year: int, month: int, date: int, h: int, min: int, sec: int, ms: int, i: int)
    requires 0 <= month < 12 && 1 <= date && 0 <= h && 0 <= min && 0 <= sec && 0 <= ms
    requires i == 12 * year + month
    ensures MonthStart(i) * MsPerDay <= DateUTC(year, month, date, h, min, sec, ms)
  {
    var j := 12 * UtcYear(year) + month;
    MakeDayMonthIndex(UtcYear(year), month, date, j);
    MonthStartMonotone(i, j);
    MakeTimeNonNegative(h, min, sec, ms);
  }

  lemma MakeTimeNonNegative(h: int, min: int, sec: int, ms: int)
    requires 0 <= h && 0 <= min && 0 <= sec && 0 <= ms
    ensures 0 <= MakeTime(h, min, sec, ms)
  {
  }

  /** An instant is no earlier than the start of its own month, `i` being its month index. */
  lemma InstantAboveMonthStart(t: Instant, i: int)
    requires i == 12 * ToFields(t).year + ToFields(t).month
    ensures MonthStart(i) * MsPerDay <= t
  {
    ToFieldsValid(t);
    MakeTimeNonNegative(ToFields(t).hours, ToFields(t).minutes, ToFields(t).seconds, ToFields(t).ms);
    MakeDayMonthIndex(ToFields(t).year, ToFields(t).month, ToFields(t).date, i);
  }

  /** An instant comes before the start of every later month, `i` being its own month index. */
  lemma InstantBelowLaterMonth(t: Instant, i: int, j: int)
    requires i == 12 * ToFields(t).year + ToFields(t).month && i < j
    ensures t < MonthStart(j) * MsPerDay
  {
    ToFieldsValid(t);
    MakeDayMonthIndex(ToFields(t).year, ToFields(t).month, ToFields(t).date, i);
    MonthStartAfter(i, j, ToFields(t).year, ToFields(t).month);
  }

  /** The length of a month is read back from `Date.UTC(y, m + 1, 0)`. */
  lemma DaysInMonthRollover(year: int, month: int)
    requires PlainYear(year) && 0 <= month < 12
    ensures DateFromTime(DateUTC(year, month + 1, 0, 0, 0, 0, 0)) == DaysInMonth(year, month)
    ensures ToFields(DateUTC(year, month + 1, 0, 0, 0, 0, 0)) == Fields(year, month, DaysInMonth(year, month), 0, 0, 0, 0)
  {
    DayZeroIsLastOfPrevious(year, month);
    FromFieldsRoundTrip(Fields(year, month, DaysInMonth(year, month), 0, 0, 0, 0));
  }

  /** The day of month of `Date.UTC(year, month + 1, 0)`: the library's way to find a month's length. */
  function LastDay(year: int, month: int): int {
    DateFromTime(DateUTC(year, month + 1, 0, 0, 0, 0, 0))
  }

  /** Outside the years Date.UTC reinterprets, day 0 of the next month is the month's length. */
  lemma LastDayIsLength(year: int, month: int)
    requires PlainYear(year) && 0 <= month < 12
    ensures LastDay(year, month) == DaysInMonth(year, month)
  {
    DaysInMonthRollover(year, month);
  }

  /** Day 0 of the next month is a real day of some month. */
  lemma LastDayPositive(year: int, month: int)
    ensures 1 <= LastDay(year, month)
  {
    DateOfDay(DateUTC(year, month + 1, 0, 0, 0, 0, 0));
  }

  /** Date.UTC reads years 0..99 as 1900..1999 only once: the year it uses is already plain. */
  lemma UtcYearPlain(y: int)
    ensures PlainYear(UtcYear(y)) && UtcYear(UtcYear(y)) == UtcYear(y)
  {
  }

  /** In every year, day 0 of the next month is the last day of the month in the year Date.UTC uses. */
  lemma LastDayUtc(year: int, month: int)
    requires 0 <= month < 12
    ensures LastDay(year, month) == DaysInMonth(UtcYear(year), month)
  {
    UtcYearPlain(year);
    LastDayIsLength(UtcYear(year), month);
  }

  /** Years 1..99 and 1901..1999 agree on leap years; year 0 is leap and 1900 is not. */
  lemma UtcYearLeap(y: int)
    ensures y != 0 ==> IsLeapYear(UtcYear(y)) == IsLeapYear(y)
    ensures IsLeapYear(0) && !IsLeapYear(UtcYear(0))
  {
  }

  /** Date.UTC on valid fields of a plain year builds exactly the instant with those fields. */
  lemma DateUTCFields(f: Fields)
    requires f.Valid() && PlainYear(f.year)
    ensures DateUTC(f.year, f.month, f.date, f.hours, f.minutes, f.seconds, f.ms) == FromFields(f)
    ensures ToFields(DateUTC(f.year, f.month, f.date, f.hours, f.minutes, f.seconds, f.ms)) == f
  {
    FromFieldsRoundTrip(f);
  }

  /** Days of the week advance by one per day. */
  lemma WeekDayNextDay(t: Instant)
    ensures WeekDay(t + MsPerDay) == (WeekDay(t) + 1) % 7
  {
    assert DayNumber(t + MsPerDay) == DayNumber(t) + 1;
  }

  // ---------------------------------------------------------------------------
  // The setUTC* methods of Date.prototype (ECMA-262 section 21.4.4); an
  // omitted argument is passed as the instant's current field value.

  function SetUTCFullYear(t: Instant, year: int): Instant {
    MakeDate(MakeDay(year, MonthFromTime(t), DateFromTime(t)), TimeWithinDay(t))
  }

  function SetUTCMonth(t: Instant, month: int, date: int): Instant {
    MakeDate(MakeDay(YearFromTime(t), month, date), TimeWithinDay(t))
  }

  function SetUTCDate(t: Instant, date: int): Instant {
    MakeDate(MakeDay(YearFromTime(t), MonthFromTime(t), date), TimeWithinDay(t))
  }

  function SetUTCHours(t: Instant, h: int, min: int, sec: int, ms: int): Instant {
    MakeDate(DayNumber(t), MakeTime(h, min, sec, ms))
  }

  function SetUTCMinutes(t: Instant, min: int, sec: int, ms: int): Instant {
    MakeDate(DayNumber(t), MakeTime(HourFromTime(t), min, sec, ms))
  }

  function SetUTCSeconds(t: Instant, sec: int, ms: int): Instant {
    MakeDate(DayNumber(t), MakeTime(HourFromTime(t), MinFromTime(t), sec, ms))
  }

  function SetUTCMilliseconds(t: Instant, ms: int): Instant {
    MakeDate(DayNumber(t), MakeTime(HourFromTime(t), MinFromTime(t), SecFromTime(t), ms))
  }

  /** setUTCHours with in-range arguments replaces the clock fields and keeps the date. */
  lemma SetUTCHoursFields(t: Instant, h: int, min: int, sec: int, ms: int)
    requires 0 <= h < 24 && 0 <= min < 60 && 0 <= sec < 60 && 0 <= ms < 1000
    ensures ToFields(SetUTCHours(t, h, min, sec, ms)) == ToFields(t).(hours := h, minutes := min, seconds := sec, ms := ms)
  {
    ToFieldsValid(t);
    DateOfDay(t);
    FromFieldsRoundTrip(ToFields(t).(hours := h, minutes := min, seconds := sec, ms := ms));
  }

  lemma SetUTCMinutesFields(t: Instant, min: int, sec: int, ms: int)
    requires 0 <= min < 60 && 0 <= sec < 60 && 0 <= ms < 1000
    ensures ToFields(SetUTCMinutes(t, min, sec, ms)) == ToFields(t).(minutes := min, seconds := sec, ms := ms)
  {
    TimeOfDayParts(t);
    SetUTCHoursFields(t, HourFromTime(t), min, sec, ms);
  }

  lemma SetUTCSecondsFields(t: Instant, sec: int, ms: int)
    requires 0 <= sec < 60 && 0 <= ms < 1000
    ensures ToFields(SetUTCSeconds(t, sec, ms)) == ToFields(t).(seconds := sec, ms := ms)
  {
    TimeOfDayParts(t);
    SetUTCHoursFields(t, HourFromTime(t), MinFromTime(t), sec, ms);
  }

  lemma SetUTCMillisecondsFields(t: Instant, ms: int)
    requires 0 <= ms < 1000
    ensures ToFields(SetUTCMilliseconds(t, ms)) == ToFields(t).(ms := ms)
  {
    TimeOfDayParts(t);
    SetUTCHoursFields(t, HourFromTime(t), MinFromTime(t), SecFromTime(t), ms);
  }

  /** Changing the calendar date of an instant to `g`'s, keeping its clock. */
  lemma NewDateFields(t: Instant, g: Fields, u: Instant)
    requires g.Valid() && g.hours == ToFields(t).hours && g.minutes == ToFields(t).minutes
    requires g.seconds == ToFields(t).seconds && g.ms == ToFields(t).ms
    requires u == MakeDate(MakeDay(g.year, g.month, g.date), TimeWithinDay(t))
    ensures ToFields(u) == g
  {
    TimeOfDayParts(t);
    FromFieldsRoundTrip(g);
  }

  /** setUTCDate with a day of the current month replaces the day and keeps everything else. */
  lemma SetUTCDateFields(t: Instant, date: int)
    requires 1 <= date <= DaysInMonth(YearFromTime(t), MonthFromTime(t))
    ensures ToFields(SetUTCDate(t, date)) == ToFields(t).(date := date)
  {
    ToFieldsValid(t);
    NewDateFields(t, ToFields(t).(date := date), SetUTCDate(t, date));
  }

  /** setUTCMonth with a month index and a day that fits it replaces both and keeps everything else. */
  lemma SetUTCMonthFields(t: Instant, month: int, date: int)
    requires 0 <= month < 12 && 1 <= date <= DaysInMonth(YearFromTime(t), month)
    ensures ToFields(SetUTCMonth(t, month, date)) == ToFields(t).(month := month, date := date)
  {
    ToFieldsValid(t);
    NewDateFields(t, ToFields(t).(month := month, date := date), SetUTCMonth(t, month, date));
  }

  /** setUTCFullYear with a year in which the day still exists replaces the year only. */
  lemma SetUTCFullYearFields(t: Instant, year: int)
    requires DateFromTime(t) <= DaysInMonth(year, MonthFromTime(t))
    ensures ToFields(SetUTCFullYear(t, year)) == ToFields(t).(year := year)
  {
    ToFieldsValid(t);
    NewDateFields(t, ToFields(t).(year := year), SetUTCFullYear(t, year));
  }
}
