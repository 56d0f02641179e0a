/**
  `addTime` and `subtractTime`: a calendar step (years and months, clamping
  the day of month to the target month's length) followed by a fixed
  millisecond delta (weeks down to milliseconds). An option that is absent
  or 0 is the same thing to the library (it tests each field for
  truthiness), so a duration is a record of integers with 0 for "absent".
*/
module TimeArithmetic {
  import opened Civil
  import opened JsMath

  datatype Duration = Duration(
    years: int, months: int, weeks: int, days: int,
    hours: int, minutes: int, seconds: int, milliseconds: int)

  const NoDuration := Duration(0, 0, 0, 0, 0, 0, 0, 0)

  /** True when the option record asks for a calendar step. */
  predicate HasCalendarPart(o: Duration) { o.years != 0 || o.months != 0 }

  /** The fixed part of a duration in milliseconds. */
  function FixedMs(o: Duration): int {
    o.milliseconds + o.seconds * MsPerSecond + o.minutes * MsPerMinute + o.hours * MsPerHour
    + o.days * MsPerDay + o.weeks * 604800000
  }


  /** The year that `years` and `months` added to fields `f` land in, read off the absolute month index. */
  function TargetYear(f: Fields, years: int, months: int): int {
    (12 * f.year + f.month + 12 * years + months) / 12
  }

  /**
    Reference meaning of a calendar step: `g` lies `12 * years + months`
    months after `f` on the absolute month index, on `f`'s day of month
    clamped to the length of that month, at `f`'s time of day.
  */
  predicate Shifted(f: Fields, g: Fields, years: int, months: int) {
    && 12 * g.year + g.month == 12 * f.year + f.month + 12 * years + months
    && 0 <= g.month < 12
    && g.date == Min(f.date, DaysInMonth(g.year, g.month))
    && g.hours == f.hours && g.minutes == f.minutes
    && g.seconds == f.seconds && g.ms == f.ms
  }

  /** A shift determines its target fields. */
  lemma ShiftedUnique(f: Fields, g: Fields, h: Fields, years: int, months: int)
    requires Shifted(f, g, years, months) && Shifted(f, h, years, months)
    ensures g == h
  {
  }

  /** `targetYear` of the calendar block: years plus the carry of the month sum, divided as `Math.floor` does. */
  function StepYear(f: Fields, years: int, months: int): int {
    f.year + years + (f.month + months) / 12
  }

  /** `month` of the calendar block: the month sum normalised with `((x % 12) + 12) % 12`. */
  function StepMonth(f: Fields, months: int): int {
    (JsRem(f.month + months, 12) + 12) % 12
  }

  /** The fields the calendar block of `addTime` passes to Date.UTC: normalised target month, clamped day. */
  function StepTarget(f: Fields, years: int, months: int): Fields {
    Fields(StepYear(f, years, months), StepMonth(f, months),
           Min(f.date, LastDay(StepYear(f, years, months), StepMonth(f, months))),
           f.hours, f.minutes, f.seconds, f.ms)
  }

  /** `Date.UTC` applied to a record of fields. */
  function DateUTCOf(g: Fields): Instant {
    DateUTC(g.year, g.month, g.date, g.hours, g.minutes, g.seconds, g.ms)
  }

  /** The calendar block of `addTime`. */
  function CalendarStep(t: Instant, years: int, months: int): Instant {
    DateUTCOf(StepTarget(ToFields(t), years, months))
  }

  /** The target fields are valid and form the intended shift, outside the years Date.UTC reinterprets. */
  lemma StepTargetShifted(f: Fields, years: int, months: int)
    requires f.Valid() && PlainYear(TargetYear(f, years, months))
    ensures StepTarget(f, years, months).Valid()
    ensures PlainYear(StepTarget(f, years, months).year)
    ensures Shifted(f, StepTarget(f, years, months), years, months)
  {
    NormalizedRem(f.month + months);
    assert 12 * StepYear(f, years, months) + StepMonth(f, months) == 12 * f.year + f.month + 12 * years + months;
    LastDayIsLength(StepYear(f, years, months), StepMonth(f, months));
  }

  /** In every year, the target fields sit at month index `i` of the shift, on a day of month of at least 1. */
  lemma StepTargetIndex(f: Fields, years: int, months: int, i: int)
    requires f.Valid() && i == 12 * f.year + f.month + 12 * years + months
    ensures 12 * StepTarget(f, years, months).year + StepTarget(f, years, months).month == i
    ensures 0 <= StepTarget(f, years, months).month < 12 && 1 <= StepTarget(f, years, months).date
  {
    NormalizedRem(f.month + months);
    LastDayPositive(StepYear(f, years, months), StepMonth(f, months));
  }

  /** Outside the years 0..99 that Date.UTC reinterprets, the calendar step shifts as intended. */
  lemma CalendarStepShifts(t: Instant, years: int, months: int)
    requires PlainYear(TargetYear(ToFields(t), years, months))
    ensures Shifted(ToFields(t), ToFields(CalendarStep(t, years, months)), years, months)
  {
    ToFieldsValid(t);
    StepTargetShifted(ToFields(t), years, months);
    DateUTCFields(StepTarget(ToFields(t), years, months));
  }

  /** A later month offset gives a later instant, outside the years Date.UTC reinterprets. */
  lemma CalendarStepMonotone(t: Instant, y1: int, m1: int, y2: int, m2: int)
    requires PlainYear(TargetYear(ToFields(t), y1, m1)) && PlainYear(TargetYear(ToFields(t), y2, m2))
    requires 12 * y1 + m1 < 12 * y2 + m2
    ensures CalendarStep(t, y1, m1) < CalendarStep(t, y2, m2)
  {
    CalendarStepShifts(t, y1, m1);
    CalendarStepShifts(t, y2, m2);
    ToFieldsValid(CalendarStep(t, y1, m1));
    ToFieldsValid(CalendarStep(t, y2, m2));
    LaterMonthIsLater(ToFields(CalendarStep(t, y1, m1)), ToFields(CalendarStep(t, y2, m2)));
  }

  /** A forward shift lands after the instant it starts from. */
  lemma CalendarStepForward(t: Instant, years: int, months: int)
    requires PlainYear(TargetYear(ToFields(t), years, months)) && 12 * years + months > 0
    ensures t < CalendarStep(t, years, months)
  {
    CalendarStepShifts(t, years, months);
    ToFieldsValid(t);
    ToFieldsValid(CalendarStep(t, years, months));
    LaterMonthIsLater(ToFields(t), ToFields(CalendarStep(t, years, months)));
  }

  /** The instant after the calendar block of `addTime`: unchanged without years and months. */
  function CalendarPart(t: Instant, o: Duration): Instant {
    if HasCalendarPart(o) then CalendarStep(t, o.years, o.months) else t
  }

  /** `addTime(date, opt)`. */
  function AddTime(t: Instant, o: Duration): Instant {
    CalendarPart(t, o) + FixedMs(o)
  }

  /** Each non-zero field negated; zero (absent) fields stay absent. */
  function Negate(o: Duration): Duration {
    Duration(-o.years, -o.months, -o.weeks, -o.days,
             -o.hours, -o.minutes, -o.seconds, -o.milliseconds)
  }

  /** `subtractTime(date, opt)`: `addTime` with every field negated. */
  function SubtractTime(t: Instant, o: Duration): Instant {
    AddTime(t, Negate(o))
  }

  // ---------------------------------------------------------------------------
  // Properties

  /** With years or months, `addTime` is the calendar shift (month carry, clamped day, same clock) then the fixed delta. */
  lemma AddTimeShifts(t: Instant, o: Duration)
    requires HasCalendarPart(o) && PlainYear(TargetYear(ToFields(t), o.years, o.months))
    ensures Shifted(ToFields(t), ToFields(CalendarPart(t, o)), o.years, o.months)
  {
    CalendarStepShifts(t, o.years, o.months);
  }

  /** Negating a duration negates its fixed part and keeps whether it has a calendar part. */
  lemma NegateFixed(o: Duration)
    ensures FixedMs(Negate(o)) == -FixedMs(o)
    ensures HasCalendarPart(Negate(o)) == HasCalendarPart(o)
    ensures Negate(Negate(o)) == o
  {
  }

  /** An option record with only weeks..milliseconds adds exactly their weighted sum. */
  lemma FixedOnlyAddition(t: Instant, o: Duration)
    requires o.years == 0 && o.months == 0
    ensures AddTime(t, o) == t + o.milliseconds + 1000 * o.seconds + 60000 * o.minutes
      + 3600000 * o.hours + 86400000 * o.days + 604800000 * o.weeks
  {
  }

  /** The empty option record is the identity. */
  lemma AddNothing(t: Instant)
    ensures AddTime(t, NoDuration) == t
    ensures SubtractTime(t, NoDuration) == t
  {
  }

  function Plus(a: Duration, b: Duration): Duration {
    Duration(a.years + b.years, a.months + b.months, a.weeks + b.weeks, a.days + b.days,
             a.hours + b.hours, a.minutes + b.minutes, a.seconds + b.seconds,
             a.milliseconds + b.milliseconds)
  }

  /** Fixed-duration additions compose. */
  lemma FixedAdditionsCompose(t: Instant, a: Duration, b: Duration)
    requires !HasCalendarPart(a) && !HasCalendarPart(b)
    ensures AddTime(AddTime(t, a), b) == AddTime(t, Plus(a, b))
  {
  }

  /** Without years and months, subtracting undoes adding and the other way round. */
  lemma SubtractUndoesFixedAdd(t: Instant, o: Duration)
    requires !HasCalendarPart(o)
    ensures SubtractTime(AddTime(t, o), o) == t
    ensures AddTime(SubtractTime(t, o), o) == t
  {
  }

  // ---------------------------------------------------------------------------
  // Worked examples; each instant is given by its UTC fields (0-based month).

  /** The result of `addTime` from fields `f`, for a shift to `g` followed by a fixed delta that reaches `h`. */
  lemma AddTimeFromFields(t: Instant, o: Duration, f: Fields, g: Fields, h: Fields)
    requires ToFields(t) == f && HasCalendarPart(o) && PlainYear(TargetYear(f, o.years, o.months))
    requires Shifted(f, g, o.years, o.months)
    requires h.Valid() && FromFields(g) + FixedMs(o) == FromFields(h)
    ensures ToFields(AddTime(t, o)) == h
  {
    AddTimeShifts(t, o);
    ShiftedUnique(f, ToFields(CalendarPart(t, o)), g, o.years, o.months);
    AddToFields(CalendarPart(t, o), g, FixedMs(o), h, AddTime(t, o));
  }

  /** The same for `subtractTime`, whose shift runs backwards by the given years and months. */
  lemma SubtractTimeFromFields(t: Instant, p: Duration, f: Fields, g: Fields, h: Fields)
    requires ToFields(t) == f && HasCalendarPart(p) && PlainYear(TargetYear(f, -p.years, -p.months))
    requires Shifted(f, g, -p.years, -p.months)
    requires h.Valid() && FromFields(g) - FixedMs(p) == FromFields(h)
    ensures ToFields(SubtractTime(t, p)) == h
  {
    NegateFixed(p);
    AddTimeFromFields(t, Negate(p), f, g, h);
  }

  /** Adding whole milliseconds to an instant with known fields. */
  lemma AddToFields(u: Instant, g: Fields, delta: int, h: Fields, w: Instant)
    requires ToFields(u) == g && h.Valid() && FromFields(g) + delta == FromFields(h)
    requires w == u + delta
    ensures ToFields(w) == h
  {
    ToFieldsValid(u);
    assert w == FromFields(h);
    FromFieldsRoundTrip(h);
  }

  /** 2024-01-31T12:00Z plus one month is 2024-02-29T12:00Z. */
  lemma AddOneMonthClamps(t: Instant)
    requires ToFields(t) == Fields(2024, 0, 31, 12, 0, 0, 0)
    ensures ToFields(AddTime(t, NoDuration.(months := 1))) == Fields(2024, 1, 29, 12, 0, 0, 0)
  {
    AddTimeFromFields(t, NoDuration.(months := 1), Fields(2024, 0, 31, 12, 0, 0, 0),
      Fields(2024, 1, 29, 12, 0, 0, 0), Fields(2024, 1, 29, 12, 0, 0, 0));
  }

  /** The calendar step runs before the fixed delta: +{1y,2mo,3d,4h,5m,6s,7ms} from 2024-01-31T12:00Z is 2025-04-03T16:05:06.007Z. */
  lemma AddMixedDuration(t: Instant)
    requires ToFields(t) == Fields(2024, 0, 31, 12, 0, 0, 0)
    ensures ToFields(AddTime(t, Duration(1, 2, 0, 3, 4, 5, 6, 7))) == Fields(2025, 3, 3, 16, 5, 6, 7)
  {
    AddTimeFromFields(t, Duration(1, 2, 0, 3, 4, 5, 6, 7), Fields(2024, 0, 31, 12, 0, 0, 0),
      Fields(2025, 2, 31, 12, 0, 0, 0), Fields(2025, 3, 3, 16, 5, 6, 7));
  }

  /** 2024-03-31T12:00Z minus one year and one month is 2023-02-28T12:00Z. */
  lemma SubtractYearAndMonth(t: Instant)
    requires ToFields(t) == Fields(2024, 2, 31, 12, 0, 0, 0)
    ensures ToFields(SubtractTime(t, NoDuration.(years := 1, months := 1))) == Fields(2023, 1, 28, 12, 0, 0, 0)
  {
    SubtractTimeFromFields(t, NoDuration.(years := 1, months := 1), Fields(2024, 2, 31, 12, 0, 0, 0),
      Fields(2023, 1, 28, 12, 0, 0, 0), Fields(2023, 1, 28, 12, 0, 0, 0));
  }

  /** 2024-03-31T12:00Z minus one month is 2024-02-29T12:00Z. */
  lemma SubtractOneMonth(t: Instant)
    requires ToFields(t) == Fields(2024, 2, 31, 12, 0, 0, 0)
    ensures ToFields(SubtractTime(t, NoDuration.(months := 1))) == Fields(2024, 1, 29, 12, 0, 0, 0)
  {
    SubtractTimeFromFields(t, NoDuration.(months := 1), Fields(2024, 2, 31, 12, 0, 0, 0),
      Fields(2024, 1, 29, 12, 0, 0, 0), Fields(2024, 1, 29, 12, 0, 0, 0));
  }

  /** 2024-03-31T12:00Z minus one year, one month and five days is 2023-02-23T12:00Z. */
  lemma SubtractYearMonthDays(t: Instant)
    requires ToFields(t) == Fields(2024, 2, 31, 12, 0, 0, 0)
    ensures ToFields(SubtractTime(t, NoDuration.(years := 1, months := 1, days := 5))) == Fields(2023, 1, 23, 12, 0, 0, 0)
  {
    SubtractTimeFromFields(t, NoDuration.(years := 1, months := 1, days := 5), Fields(2024, 2, 31, 12, 0, 0, 0),
      Fields(2023, 1, 28, 12, 0, 0, 0), Fields(2023, 1, 23, 12, 0, 0, 0));
  }

  /** 2024-03-31T12:00Z minus two weeks is 2024-03-17T12:00Z. */
  lemma SubtractTwoWeeks(t: Instant)
    requires ToFields(t) == Fields(2024, 2, 31, 12, 0, 0, 0)
    ensures ToFields(SubtractTime(t, NoDuration.(weeks := 2))) == Fields(2024, 2, 17, 12, 0, 0, 0)
  {
    AddToFields(t, Fields(2024, 2, 31, 12, 0, 0, 0), -2 * 604800000, Fields(2024, 2, 17, 12, 0, 0, 0),
      SubtractTime(t, NoDuration.(weeks := 2)));
  }

  /** 2024-02-29T12:00Z minus one month is 2024-01-29T12:00Z. */
  lemma SubtractMonthFromLeapDay(u: Instant)
    requires ToFields(u) == Fields(2024, 1, 29, 12, 0, 0, 0)
    ensures ToFields(SubtractTime(u, NoDuration.(months := 1))) == Fields(2024, 0, 29, 12, 0, 0, 0)
  {
    SubtractTimeFromFields(u, NoDuration.(months := 1), Fields(2024, 1, 29, 12, 0, 0, 0),
      Fields(2024, 0, 29, 12, 0, 0, 0), Fields(2024, 0, 29, 12, 0, 0, 0));
  }

  /** Month arithmetic is not undone: 2024-01-31 plus then minus one month is 2024-01-29. */
  lemma MonthAddSubtractDrifts(t: Instant, u: Instant)
    requires ToFields(t) == Fields(2024, 0, 31, 12, 0, 0, 0)
    requires u == AddTime(t, NoDuration.(months := 1))
    ensures ToFields(SubtractTime(u, NoDuration.(months := 1))) == Fields(2024, 0, 29, 12, 0, 0, 0)
  {
    AddOneMonthClamps(t);
    SubtractMonthFromLeapDay(u);
  }
}
