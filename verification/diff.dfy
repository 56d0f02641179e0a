/**
  `dateDiff(left, right, unit)` and its copy `difference`. Years and months
  are counted on the calendar: the field gap, less one when `right` moved
  forward by that gap with Date.UTC passes `left`. Weeks, days, hours,
  minutes and seconds are the floor of the millisecond gap over the unit.

  The calendar branches are written over the UTC fields of the two dates
  (`l` for `left`, `r` for `right`), which is what the getters return; the
  instant-level statements pass `ToFields(left)` and `ToFields(right)`.
*/
module Differences {
  import opened Wrappers
  import opened JsMath
  import opened Civil

  /**
    The plural unit names `dateDiff` takes; `Other(name)` stands for every
    other string, so its `name` is never one of the seven plural names.
  */
  datatype PluralUnit = Years | Months | Weeks | Days | Hours | Minutes | Seconds | Other(name: string)

  /** Milliseconds in each fixed-length unit; 0 for the calendar units and for names the function rejects. */
  function UnitMs(unit: PluralUnit): int {
    match unit
    case Weeks => 604800000
    case Days => 86400000
    case Hours => 3600000
    case Minutes => 60000
    case Seconds => 1000
    case _ => 0
  }

  // ---------------------------------------------------------------------------
  // Years

  /** The fields `r` moved by `n` years with Date.UTC, keeping month, day of month and clock. */
  function ShiftYears(r: Fields, n: int): Instant {
    DateUTC(r.year + n, r.month, r.date, r.hours, r.minutes, r.seconds, r.ms)
  }

  /** The `'years'` branch: the year gap, one less when `r` moved by the gap lands after `left`. */
  function YearsOf(left: Instant, l: Fields, r: Fields): (n: int)
    ensures n == l.year - r.year || n == l.year - r.year - 1
  {
    var gap := l.year - r.year;
    if ShiftYears(r, gap) > left then gap - 1 else gap
  }

  // ---------------------------------------------------------------------------
  // Months

  /** Twelve times the year gap plus the month gap. */
  function MonthSpan(l: Fields, r: Fields): int {
    12 * (l.year - r.year) + (l.month - r.month)
  }

  /**
    The date the `'months'` branch compares with `left`: the year moves by
    `floor(total / 12)` and the month becomes `(month + total % 12 + 12) % 12`
    with JavaScript's `%` inside; the sum is positive, so the outer `%` is the
    Euclidean one. A month that wraps past December does not carry into the year.
  */
  function ShiftMonthsAsWritten(r: Fields, total: int): Instant {
    DateUTC(r.year + total / 12, (r.month + JsRem(total, 12) + 12) % 12, r.date, r.hours, r.minutes, r.seconds, r.ms)
  }

  /** The `'months'` branch as written. */
  function MonthsOf(left: Instant, l: Fields, r: Fields): (n: int)
    ensures n == MonthSpan(l, r) || n == MonthSpan(l, r) - 1
  {
    var total := MonthSpan(l, r);
    if ShiftMonthsAsWritten(r, total) > left then total - 1 else total
  }

  // ---------------------------------------------------------------------------
  // dateDiff and difference

  /** `dateDiff(left, right, unit)`; an unknown unit throws `Unsupported unit: <unit>`. */
  function DateDiff(left: Instant, right: Instant, unit: PluralUnit): (r: Result<int>)
    ensures r.Err? <==> unit.Other?
    ensures r.Err? ==> r.message == "Unsupported unit: " + unit.name
    ensures unit == Years ==> (r.Ok? &&
      (r.value == ToFields(left).year - ToFields(right).year || r.value == ToFields(left).year - ToFields(right).year - 1))
    ensures unit == Months ==> (r.Ok? &&
      (r.value == MonthSpan(ToFields(left), ToFields(right)) || r.value == MonthSpan(ToFields(left), ToFields(right)) - 1))
  {
    var delta := left - right;
    match unit
    case Years => Ok(YearsOf(left, ToFields(left), ToFields(right)))
    case Months => Ok(MonthsOf(left, ToFields(left), ToFields(right)))
    case Weeks => Ok(delta / 604800000)
    case Days => Ok(delta / 86400000)
    case Hours => Ok(delta / 3600000)
    case Minutes => Ok(delta / 60000)
    case Seconds => Ok(delta / 1000)
    case Other(name) => Err("Unsupported unit: " + name)
  }

  /** `difference(left, right, unit)`, whose source repeats the body of `dateDiff` line for line. */
  function Difference(left: Instant, right: Instant, unit: PluralUnit): (r: Result<int>)
    ensures r.Err? <==> unit.Other?
    ensures r.Err? ==> r.message == "Unsupported unit: " + unit.name
    ensures unit == Years ==> (r.Ok? &&
      (r.value == ToFields(left).year - ToFields(right).year || r.value == ToFields(left).year - ToFields(right).year - 1))
    ensures unit == Months ==> (r.Ok? &&
      (r.value == MonthSpan(ToFields(left), ToFields(right)) || r.value == MonthSpan(ToFields(left), ToFields(right)) - 1))
    ensures UnitMs(unit) > 0 ==> r.Ok? && UnitMs(unit) * r.value <= left - right < UnitMs(unit) * (r.value + 1)
  {
    DateDiff(left, right, unit)
  }

  // ---------------------------------------------------------------------------
  // Calendar fields as day numbers along the month index

  /** Valid fields are their day of month counted from the start of their month `i`, plus the clock. */
  lemma FieldsAsMonthStart(g: Fields, i: int, k: int)
    requires g.Valid() && i == 12 * g.year + g.month && k == i + 1
    ensures g.date <= 31 && 0 <= MakeTime(g.hours, g.minutes, g.seconds, g.ms) < MsPerDay
    ensures FromFields(g) == MakeDate(MonthStart(i) + g.date - 1, MakeTime(g.hours, g.minutes, g.seconds, g.ms))
    ensures MonthStart(i) + g.date - 1 < MonthStart(k)
  {
    MakeDayMonthIndex(g.year, g.month, g.date, i);
    MonthStartStep(i, g.year, g.month);
  }

  /** Date.UTC with the day of month and clock of `f`, in year `y` and month `m`, is a day of month index `i`. */
  lemma ShiftAsMonthStart(f: Fields, y: int, m: int, i: int)
    requires i == 12 * UtcYear(y) + m
    ensures DateUTC(y, m, f.date, f.hours, f.minutes, f.seconds, f.ms)
      == MakeDate(MonthStart(i) + f.date - 1, MakeTime(f.hours, f.minutes, f.seconds, f.ms))
  {
    MakeDayMonthIndex(UtcYear(y), m, f.date, i);
  }

  /** `r` moved by `n` years is Date.UTC on its fields with the year moved. */
  lemma ShiftYearsIs(r: Fields, n: int, y: int)
    requires y == r.year + n
    ensures ShiftYears(r, n) == DateUTC(y, r.month, r.date, r.hours, r.minutes, r.seconds, r.ms)
  {
  }

  /** `r` moved by `n` months is Date.UTC on its fields with the month moved. */
  lemma ShiftMonthsIs(r: Fields, n: int, m: int)
    requires m == r.month + n
    ensures ShiftMonths(r, n) == DateUTC(r.year, m, r.date, r.hours, r.minutes, r.seconds, r.ms)
  {
  }

  /** Earlier day numbers make earlier instants, whatever the times within the days. */
  lemma DayDecides(d1: int, t1: int, d2: int, t2: int)
    requires 0 <= t1 < MsPerDay && 0 <= t2 < MsPerDay
    ensures d1 < d2 ==> MakeDate(d1, t1) < MakeDate(d2, t2)
  {
    if d1 < d2 {
      MakeDateOrder(d1, t1, d2, t2);
    }
  }

  /** A day up to 31 of a month before December, or of December, ends before the next January 1. */
  lemma DayBeforeNextYear(i: int, j: int, y: int, m: int, d: int)
    requires 0 <= m < 12 && 1 <= d <= 31 && i == 12 * y + m && j == 12 * y + 12
    ensures MonthStart(i) + d - 1 < MonthStart(j)
  {
    if m == 11 {
      MonthStartStep(i, y, m);
    } else {
      MonthStartGrowth(i, i + 2);
      MonthStartMonotone(i + 2, j);
    }
  }

  /** The fields `f` moved into the year before that of `g`, a year Date.UTC leaves alone, come before `g`. */
  lemma FieldsShiftBelowYear(f: Fields, g: Fields, y: int)
    requires f.Valid() && g.Valid() && y == g.year - 1 && PlainYear(y)
    ensures DateUTC(y, f.month, f.date, f.hours, f.minutes, f.seconds, f.ms) < FromFields(g)
  {
    var a, e, b := 12 * y + f.month, 12 * y + 12, 12 * g.year + g.month;
    var i, k, next := 12 * f.year + f.month, 12 * f.year + f.month + 1, b + 1;
    var tf, tg := MakeTime(f.hours, f.minutes, f.seconds, f.ms), MakeTime(g.hours, g.minutes, g.seconds, g.ms);
    FieldsAsMonthStart(f, i, k);
    FieldsAsMonthStart(g, b, next);
    ShiftAsMonthStart(f, y, f.month, a);
    DayBeforeNextYear(a, e, y, f.month, f.date);
    MonthStartMonotone(e, b);
    var df, dg := MonthStart(a) + f.date - 1, MonthStart(b) + g.date - 1;
    DayDecides(df, tf, dg, tg);
  }

  /** The fields `f` moved into the year after that of `g` come after `g`. */
  lemma FieldsShiftAboveYear(f: Fields, g: Fields, y: int)
    requires f.Valid() && g.Valid() && y == g.year + 1
    ensures FromFields(g) < DateUTC(y, f.month, f.date, f.hours, f.minutes, f.seconds, f.ms)
  {
    var a, b := 12 * UtcYear(y) + f.month, 12 * g.year + g.month;
    var i, k, next := 12 * f.year + f.month, 12 * f.year + f.month + 1, b + 1;
    var tf, tg := MakeTime(f.hours, f.minutes, f.seconds, f.ms), MakeTime(g.hours, g.minutes, g.seconds, g.ms);
    FieldsAsMonthStart(f, i, k);
    FieldsAsMonthStart(g, b, next);
    ShiftAsMonthStart(f, y, f.month, a);
    MonthStartMonotone(next, a);
    var df, dg := MonthStart(a) + f.date - 1, MonthStart(b) + g.date - 1;
    DayDecides(dg, tg, df, tf);
  }

  /** The fields `f` moved into the month after that of `g`, from a plain year, come after `g`. */
  lemma FieldsShiftAboveMonth(f: Fields, g: Fields, m: int)
    requires f.Valid() && g.Valid() && PlainYear(f.year) && 12 * f.year + m == 12 * g.year + g.month + 1
    ensures FromFields(g) < DateUTC(f.year, m, f.date, f.hours, f.minutes, f.seconds, f.ms)
  {
    var b := 12 * g.year + g.month;
    var i, k, next := 12 * f.year + f.month, 12 * f.year + f.month + 1, b + 1;
    var tf, tg := MakeTime(f.hours, f.minutes, f.seconds, f.ms), MakeTime(g.hours, g.minutes, g.seconds, g.ms);
    FieldsAsMonthStart(f, i, k);
    FieldsAsMonthStart(g, b, next);
    ShiftAsMonthStart(f, f.year, m, next);
    var df, dg := MonthStart(next) + f.date - 1, MonthStart(b) + g.date - 1;
    DayDecides(dg, tg, df, tf);
  }

  /** The fields `f`, on a day up to 28, moved into the month before that of `g`, from a plain year, come before `g`. */
  lemma FieldsShiftBelowMonth(f: Fields, g: Fields, m: int)
    requires f.Valid() && g.Valid() && PlainYear(f.year) && f.date <= 28
    requires 12 * f.year + m == 12 * g.year + g.month - 1
    ensures DateUTC(f.year, m, f.date, f.hours, f.minutes, f.seconds, f.ms) < FromFields(g)
  {
    var b := 12 * g.year + g.month;
    var i, k, next, prev := 12 * f.year + f.month, 12 * f.year + f.month + 1, b + 1, b - 1;
    var tf, tg := MakeTime(f.hours, f.minutes, f.seconds, f.ms), MakeTime(g.hours, g.minutes, g.seconds, g.ms);
    FieldsAsMonthStart(f, i, k);
    FieldsAsMonthStart(g, b, next);
    ShiftAsMonthStart(f, f.year, m, prev);
    MonthStartGrowth(prev, b);
    var df, dg := MonthStart(prev) + f.date - 1, MonthStart(b) + g.date - 1;
    DayDecides(df, tf, dg, tg);
  }

  // ---------------------------------------------------------------------------
  // Years are whole years

  /** The `'years'` and `'months'` branches are computed on the UTC fields of the two instants. */
  lemma CalendarBranches(left: Instant, right: Instant)
    ensures DateDiff(left, right, Years) == Ok(YearsOf(left, ToFields(left), ToFields(right)))
    ensures DateDiff(left, right, Months) == Ok(MonthsOf(left, ToFields(left), ToFields(right)))
  {
  }

  /** The two outcomes of the `'years'` comparison. */
  lemma YearsOfCases(left: Instant, l: Fields, r: Fields, gap: int)
    requires gap == l.year - r.year
    ensures ShiftYears(r, gap) > left ==> YearsOf(left, l, r) == gap - 1
    ensures ShiftYears(r, gap) <= left ==> YearsOf(left, l, r) == gap
  {
  }

  lemma ShiftYearsCongruent(r: Fields, a: int, b: int)
    requires a == b
    ensures ShiftYears(r, a) == ShiftYears(r, b)
  {
  }

  /** `r` moved into the year before that of `l`, a year Date.UTC leaves alone, comes before `l`. */
  lemma YearBefore(left: Instant, l: Fields, r: Fields, k: int)
    requires l.Valid() && r.Valid() && left == FromFields(l) && PlainYear(l.year - 1) && r.year + k == l.year - 1
    ensures ShiftYears(r, k) < left
  {
    var y := r.year + k;
    ShiftYearsIs(r, k, y);
    FieldsShiftBelowYear(r, l, y);
  }

  /** `r` moved into the year after that of `l` comes after `l`. */
  lemma YearAfter(left: Instant, l: Fields, r: Fields, k: int)
    requires l.Valid() && r.Valid() && left == FromFields(l) && r.year + k == l.year + 1
    ensures left < ShiftYears(r, k)
  {
    var y := r.year + k;
    ShiftYearsIs(r, k, y);
    FieldsShiftAboveYear(r, l, y);
  }

  /**
    On fields: the `'years'` result `n` is the number of whole years, `r`
    moved by `n` years being at or before `left` and moved by `next = n + 1`
    years after it.
  */
  lemma YearsOfBracket(left: Instant, l: Fields, r: Fields, n: int, next: int)
    requires l.Valid() && r.Valid() && left == FromFields(l) && PlainYear(l.year - 1)
    requires n == YearsOf(left, l, r) && next == n + 1
    ensures ShiftYears(r, n) <= left < ShiftYears(r, next)
  {
    var gap := l.year - r.year;
    YearsOfCases(left, l, r, gap);
    if ShiftYears(r, gap) > left {
      ShiftYearsCongruent(r, next, gap);
      YearBefore(left, l, r, n);
    } else {
      ShiftYearsCongruent(r, n, gap);
      YearAfter(left, l, r, next);
    }
  }

  /**
    `dateDiff(left, right, 'years')` counts the whole years from `right` to
    `left`: `right` moved by the result is at or before `left`, and moved by
    one year more it is after. The year before `left`'s must be one Date.UTC
    leaves alone.
  */
  lemma YearsAreWholeYears(left: Instant, right: Instant, n: int)
    requires PlainYear(ToFields(left).year - 1) && DateDiff(left, right, Years) == Ok(n)
    ensures ShiftYears(ToFields(right), n) <= left < ShiftYears(ToFields(right), n + 1)
  {
    var l, r := ToFields(left), ToFields(right);
    var next := n + 1;
    ToFieldsValid(left);
    ToFieldsValid(right);
    CalendarBranches(left, right);
    YearsOfBracket(left, l, r, n, next);
  }

  // ---------------------------------------------------------------------------
  // Months: the lost carry

  /** The fields `r` moved by `n` months with Date.UTC, the month number carrying into the year. */
  function ShiftMonths(r: Fields, n: int): Instant {
    DateUTC(r.year, r.month + n, r.date, r.hours, r.minutes, r.seconds, r.ms)
  }

  /** The `'months'` branch with the adjusted date built by `ShiftMonths`, so that the year carries. */
  function MonthsElapsedOf(left: Instant, l: Fields, r: Fields): (n: int)
    ensures n == MonthSpan(l, r) || n == MonthSpan(l, r) - 1
  {
    var total := MonthSpan(l, r);
    if ShiftMonths(r, total) > left then total - 1 else total
  }

  /** The corrected month count of `left` after `right`. */
  function MonthsElapsed(left: Instant, right: Instant): int {
    MonthsElapsedOf(left, ToFields(left), ToFields(right))
  }

  lemma ShiftMonthsCongruent(r: Fields, a: int, b: int)
    requires a == b
    ensures ShiftMonths(r, a) == ShiftMonths(r, b)
  {
  }

  /** Corrected count on fields: `r` moved by `next`, one month more than the result, is after `left`. */
  lemma MonthsElapsedNeverOver(left: Instant, l: Fields, r: Fields, n: int, next: int)
    requires l.Valid() && r.Valid() && left == FromFields(l) && PlainYear(r.year)
    requires n == MonthsElapsedOf(left, l, r) && next == n + 1
    ensures left < ShiftMonths(r, next)
  {
    var total := MonthSpan(l, r);
    if ShiftMonths(r, total) <= left {
      var m := r.month + next;
      ShiftMonthsIs(r, next, m);
      FieldsShiftAboveMonth(r, l, m);
    } else {
      ShiftMonthsCongruent(r, next, total);
    }
  }

  /** Corrected count on fields: for days of month up to 28, which never roll over, `r` moved by the result is at or before `left`. */
  lemma MonthsElapsedReached(left: Instant, l: Fields, r: Fields, n: int)
    requires l.Valid() && r.Valid() && left == FromFields(l) && PlainYear(r.year) && r.date <= 28
    requires n == MonthsElapsedOf(left, l, r)
    ensures ShiftMonths(r, n) <= left
  {
    var total := MonthSpan(l, r);
    if ShiftMonths(r, total) > left {
      var m := r.month + n;
      ShiftMonthsIs(r, n, m);
      FieldsShiftBelowMonth(r, l, m);
    } else {
      ShiftMonthsCongruent(r, n, total);
    }
  }

  /**
    The corrected count `n` of `left` after `right` brackets `left`: `right`
    moved by `n` months is at or before it (for days of month up to 28), and
    moved by `n + 1` months is after it.
  */
  lemma MonthsElapsedBrackets(left: Instant, right: Instant, n: int)
    requires PlainYear(ToFields(right).year) && MonthsElapsed(left, right) == n
    ensures ToFields(right).date <= 28 ==> ShiftMonths(ToFields(right), n) <= left
    ensures left < ShiftMonths(ToFields(right), n + 1)
  {
    var l, r := ToFields(left), ToFields(right);
    var next := n + 1;
    ToFieldsValid(left);
    ToFieldsValid(right);
    MonthsElapsedNeverOver(left, l, r, n, next);
    if r.date <= 28 {
      MonthsElapsedReached(left, l, r, n);
    }
  }

  /** The adjusted date as written, for a `total` whose month lands in the year `total / 12` years on. */
  lemma ShiftMonthsAsWrittenIs(r: Fields, total: int, y: int, m: int)
    requires y == r.year + total / 12 && m == (r.month + JsRem(total, 12) + 12) % 12
    ensures ShiftMonthsAsWritten(r, total) == DateUTC(y, m, r.date, r.hours, r.minutes, r.seconds, r.ms)
  {
  }

  /** Where the month does not wrap past December, the adjusted date as written is the carried one. */
  lemma ShiftsAgreeWithoutWrap(r: Fields, total: int)
    requires 0 <= r.month < 12 && r.year >= 100 && total >= 0 && r.month + total % 12 < 12
    ensures ShiftMonthsAsWritten(r, total) == ShiftMonths(r, total)
  {
    var i := 12 * r.year + r.month;
    var y, m, k, j := r.year + total / 12, r.month + total % 12, r.month + total, i + total;
    assert JsRem(total, 12) == total % 12;
    assert (r.month + JsRem(total, 12) + 12) % 12 == m by { ModBy(m + 12, 1, m, 12); }
    ShiftMonthsAsWrittenIs(r, total, y, m);
    ShiftMonthsIs(r, total, k);
    ShiftAsMonthStart(r, y, m, j);
    ShiftAsMonthStart(r, r.year, k, j);
  }

  /** Where the month does not wrap past December, the branch as written agrees with the corrected one. */
  lemma MonthsAgreeWithoutWrap(left: Instant, l: Fields, r: Fields)
    requires 0 <= r.month < 12 && r.year >= 100 && MonthSpan(l, r) >= 0
    requires r.month + MonthSpan(l, r) % 12 < 12
    ensures MonthsOf(left, l, r) == MonthsElapsedOf(left, l, r)
  {
    var total := MonthSpan(l, r);
    ShiftsAgreeWithoutWrap(r, total);
  }

  /** Date.UTC on the fields of a valid date in a year it leaves alone is that date. */
  lemma PlainDateUTC(f: Fields)
    requires PlainYear(f.year)
    ensures DateUTC(f.year, f.month, f.date, f.hours, f.minutes, f.seconds, f.ms) == FromFields(f)
  {
  }

  /** As written, 2024-11-15 moved by two months lands on 2024-01-15. */
  lemma November15AsWritten(r: Fields, total: int)
    requires r == Fields(2024, 10, 15, 0, 0, 0, 0) && total == 2
    ensures ShiftMonthsAsWritten(r, total) == FromFields(Fields(2024, 0, 15, 0, 0, 0, 0))
  {
    assert JsRem(total, 12) == 2;
    ShiftMonthsAsWrittenIs(r, total, 2024, 0);
    PlainDateUTC(Fields(2024, 0, 15, 0, 0, 0, 0));
  }

  /** With the carry, 2024-11-15 moved by two months is 2025-01-15. */
  lemma November15Carried(r: Fields, total: int)
    requires r == Fields(2024, 10, 15, 0, 0, 0, 0) && total == 2
    ensures ShiftMonths(r, total) == FromFields(Fields(2025, 0, 15, 0, 0, 0, 0))
  {
    var i := 12 * 2025;
    ShiftMonthsIs(r, total, 12);
    ShiftAsMonthStart(r, 2024, 12, i);
    MakeDayMonthIndex(2025, 0, 15, i);
  }

  /** Two instants on the same month and clock: the later day of month is the later instant. */
  lemma LaterDayIsLater(f: Fields, g: Fields)
    requires f.year == g.year && f.month == g.month && f.date < g.date
    requires f.hours == g.hours && f.minutes == g.minutes && f.seconds == g.seconds && f.ms == g.ms
    ensures FromFields(f) < FromFields(g)
  {
  }

  /**
    As written: from 2024-11-15 to 2025-01-10 the `'months'` branch gives 2,
    though 2024-11-15 moved by two months (2025-01-15) is after 2025-01-10.
  */
  lemma MonthsCarryLost(left: Instant, l: Fields, r: Fields)
    requires r == Fields(2024, 10, 15, 0, 0, 0, 0) && l == Fields(2025, 0, 10, 0, 0, 0, 0)
    requires left == FromFields(l)
    ensures MonthsOf(left, l, r) == 2
    ensures ShiftMonths(r, 2) > left
  {
    var total, two := MonthSpan(l, r), 2;
    November15AsWritten(r, total);
    November15Carried(r, two);
    January10Between(l);
  }

  /** 2025-01-10 falls between 2024-01-15 and 2025-01-15. */
  lemma January10Between(l: Fields)
    requires l == Fields(2025, 0, 10, 0, 0, 0, 0)
    ensures FromFields(Fields(2024, 0, 15, 0, 0, 0, 0)) < FromFields(l) < FromFields(Fields(2025, 0, 15, 0, 0, 0, 0))
  {
    LaterMonthIsLater(Fields(2024, 0, 15, 0, 0, 0, 0), l);
    LaterDayIsLater(l, Fields(2025, 0, 15, 0, 0, 0, 0));
  }

  /** Corrected: from 2024-11-15 to 2025-01-10 one month has elapsed. */
  lemma MonthsCarryKept(left: Instant, l: Fields, r: Fields)
    requires r == Fields(2024, 10, 15, 0, 0, 0, 0) && l == Fields(2025, 0, 10, 0, 0, 0, 0)
    requires left == FromFields(l)
    ensures MonthsElapsedOf(left, l, r) == 1
  {
    var total := MonthSpan(l, r);
    November15Carried(r, total);
    January10Between(l);
  }

  // ---------------------------------------------------------------------------
  // Fixed units

  /** A fixed unit counts the whole units in the gap, rounding toward negative infinity. */
  lemma FixedUnitIsFloor(left: Instant, right: Instant, unit: PluralUnit)
    requires UnitMs(unit) > 0
    ensures var n := DateDiff(left, right, unit).value;
      n * UnitMs(unit) <= left - right < (n + 1) * UnitMs(unit)
  {
    var k, d := UnitMs(unit), left - right;
    assert d == (d / k) * k + d % k;
  }

  /** A gap of whole units gives opposite counts both ways; any other gap gives counts summing to -1. */
  lemma FixedUnitsAntisymmetric(a: Instant, b: Instant, unit: PluralUnit)
    requires UnitMs(unit) > 0
    ensures (a - b) % UnitMs(unit) == 0 ==> DateDiff(a, b, unit).value == -DateDiff(b, a, unit).value
    ensures (a - b) % UnitMs(unit) != 0 ==> DateDiff(a, b, unit).value + DateDiff(b, a, unit).value == -1
  {
    var k := UnitMs(unit);
    var q, r := (a - b) / k, (a - b) % k;
    if r == 0 {
      DivOf(b - a, k, -q, 0);
    } else {
      DivOf(b - a, k, -q - 1, k - r);
    }
  }

  // ---------------------------------------------------------------------------
  // Same instant

  /** Valid fields in a year Date.UTC leaves alone are 0 years and 0 months from themselves. */
  lemma SameFieldsAreZero(t: Instant, f: Fields)
    requires f.Valid() && t == FromFields(f) && PlainYear(f.year)
    ensures YearsOf(t, f, f) == 0 && MonthsOf(t, f, f) == 0
  {
    var zero, total := 0, MonthSpan(f, f);
    YearsOfCases(t, f, f, zero);
    ShiftYearsIs(f, zero, f.year);
    PlainDateUTC(f);
    assert JsRem(total, 12) == 0;
    assert f.month == (f.month + JsRem(total, 12) + 12) % 12 by { ModBy(f.month + 12, 1, f.month, 12); }
    ShiftMonthsAsWrittenIs(f, total, f.year, f.month);
  }

  /** Identical instants are 0 apart in every unit, in years Date.UTC leaves alone. */
  lemma SameInstantIsZero(t: Instant, unit: PluralUnit)
    requires !unit.Other? && PlainYear(ToFields(t).year)
    ensures DateDiff(t, t, unit) == Ok(0)
  {
    ToFieldsValid(t);
    SameFieldsAreZero(t, ToFields(t));
  }

  /** In the years 0 to 99 valid fields are -1 years from themselves: Date.UTC moves the copy to 1900 to 1999. */
  lemma EarlyFieldsOneYearBehind(t: Instant, f: Fields)
    requires f.Valid() && t == FromFields(f) && 0 <= f.year <= 99
    ensures YearsOf(t, f, f) == -1
  {
    var i, j := 12 * f.year + f.month, 12 * UtcYear(f.year) + f.month;
    FieldsAsMonthStart(f, i, i + 1);
    ShiftAsMonthStart(f, f.year, f.month, j);
    MonthStartMonotone(i + 1, j);
    DayDecides(MonthStart(i) + f.date - 1, MakeTime(f.hours, f.minutes, f.seconds, f.ms),
               MonthStart(j) + f.date - 1, MakeTime(f.hours, f.minutes, f.seconds, f.ms));
  }

  /** In the years 0 to 99 an instant is -1 years from itself. */
  lemma EarlyYearIsOneYearBehindItself(t: Instant)
    requires 0 <= ToFields(t).year <= 99
    ensures DateDiff(t, t, Years) == Ok(-1)
  {
    ToFieldsValid(t);
    EarlyFieldsOneYearBehind(t, ToFields(t));
  }

  // ---------------------------------------------------------------------------
  // Examples

  /** 2025-01-15 is 0 years after 2024-06-15: 2024-06-15 moved by a year is 2025-06-15. */
  lemma YearAheadNotReached(a: Instant, fa: Fields, fb: Fields)
    requires fa == Fields(2025, 0, 15, 0, 0, 0, 0) && fb == Fields(2024, 5, 15, 0, 0, 0, 0)
    requires a == FromFields(fa)
    ensures YearsOf(a, fa, fb) == 0
  {
    var g := Fields(2025, 5, 15, 0, 0, 0, 0);
    YearsOfCases(a, fa, fb, 1);
    ShiftYearsIs(fb, 1, 2025);
    PlainDateUTC(g);
    LaterMonthIsLater(fa, g);
  }

  /** 2024-06-15 is -1 years after 2025-01-15: 2025-01-15 moved back a year is 2024-01-15. */
  lemma YearBackPassed(b: Instant, fa: Fields, fb: Fields)
    requires fa == Fields(2025, 0, 15, 0, 0, 0, 0) && fb == Fields(2024, 5, 15, 0, 0, 0, 0)
    requires b == FromFields(fb)
    ensures YearsOf(b, fb, fa) == -1
  {
    var g := Fields(2024, 0, 15, 0, 0, 0, 0);
    YearsOfCases(b, fb, fa, -1);
    ShiftYearsIs(fa, -1, 2024);
    PlainDateUTC(g);
    LaterMonthIsLater(g, fb);
  }

  /** The `'years'` count is not antisymmetric: 0 one way, -1 the other. */
  lemma YearsNotAntisymmetric(a: Instant, b: Instant)
    requires a == FromFields(Fields(2025, 0, 15, 0, 0, 0, 0)) && b == FromFields(Fields(2024, 5, 15, 0, 0, 0, 0))
    ensures DateDiff(a, b, Years) == Ok(0)
    ensures DateDiff(b, a, Years) == Ok(-1)
  {
    var fa, fb := Fields(2025, 0, 15, 0, 0, 0, 0), Fields(2024, 5, 15, 0, 0, 0, 0);
    FromFieldsRoundTrip(fa);
    FromFieldsRoundTrip(fb);
    CalendarBranches(a, b);
    CalendarBranches(b, a);
    YearAheadNotReached(a, fa, fb);
    YearBackPassed(b, fa, fb);
  }

  /** 2024-02-29 to 2025-02-28 is 0 years: Feb 29 moved to 2025 is March 1. */
  lemma LeapDayToNextYear(a: Instant, fa: Fields, fb: Fields)
    requires fb == Fields(2024, 1, 29, 0, 0, 0, 0) && fa == Fields(2025, 1, 28, 0, 0, 0, 0)
    requires a == FromFields(fa)
    ensures YearsOf(a, fa, fb) == 0
  {
    var i := 12 * 2025 + 1;
    YearsOfCases(a, fa, fb, 1);
    ShiftYearsIs(fb, 1, 2025);
    ShiftAsMonthStart(fb, 2025, 1, i);
    FieldsAsMonthStart(fa, i, i + 1);
    DayDecides(MonthStart(i) + fa.date - 1, MakeTime(fa.hours, fa.minutes, fa.seconds, fa.ms),
               MonthStart(i) + fb.date - 1, MakeTime(fb.hours, fb.minutes, fb.seconds, fb.ms));
  }

  /** 2024-02-29 to 2025-02-28 is 365 days. */
  lemma LeapDayToNextYearDays(a: Instant, b: Instant)
    requires a == FromFields(Fields(2025, 1, 28, 0, 0, 0, 0)) && b == FromFields(Fields(2024, 1, 29, 0, 0, 0, 0))
    ensures DateDiff(a, b, Days) == Ok(365)
  {
    LeapYearGap(a, b);
    FixedBranch(a, b, Days);
  }

  /** A fixed unit divides the millisecond gap. */
  lemma FixedBranch(left: Instant, right: Instant, unit: PluralUnit)
    requires UnitMs(unit) > 0
    ensures DateDiff(left, right, unit) == Ok((left - right) / UnitMs(unit))
  {
  }

  lemma LeapYearGap(a: Instant, b: Instant)
    requires a == FromFields(Fields(2025, 1, 28, 0, 0, 0, 0)) && b == FromFields(Fields(2024, 1, 29, 0, 0, 0, 0))
    ensures a - b == 365 * MsPerDay
  {
    var i, j := 12 * 2024 + 1, 12 * 2025 + 1;
    MakeDayMonthIndex(2024, 1, 29, i);
    MakeDayMonthIndex(2025, 1, 28, j);
    MonthStartStep(i, 2024, 1);
    MonthStartStep(j - 1, 2025, 0);
    DayFromYearStep(2024);
  }

  /** 2024-01-31 to 2024-02-15 is 0 months: January 31 moved by a month is March 2. */
  lemma MonthEndToMidMonth(a: Instant, fa: Fields, fb: Fields)
    requires fb == Fields(2024, 0, 31, 0, 0, 0, 0) && fa == Fields(2024, 1, 15, 0, 0, 0, 0)
    requires a == FromFields(fa)
    ensures MonthsOf(a, fa, fb) == 0
  {
    var i, total := 12 * 2024 + 1, MonthSpan(fa, fb);
    assert JsRem(total, 12) == 1;
    ShiftMonthsAsWrittenIs(fb, total, 2024, 1);
    ShiftAsMonthStart(fb, 2024, 1, i);
    FieldsAsMonthStart(fa, i, i + 1);
    DayDecides(MonthStart(i) + fa.date - 1, MakeTime(fa.hours, fa.minutes, fa.seconds, fa.ms),
               MonthStart(i) + fb.date - 1, MakeTime(fb.hours, fb.minutes, fb.seconds, fb.ms));
  }
}
