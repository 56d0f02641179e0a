/**
  `dateRange(start, end, step)`: the instants from `start` up to and including
  `end`. A step without years or months advances by a fixed number of
  milliseconds (one day when that sum is 0). A step with years or months
  recomputes element `k` from `start` itself: `start` shifted by `k` times the
  calendar part, its day of month clamped, then the step's fixed part added
  once (not `k` times).
*/
module DateRange {
  import opened Civil
  import opened TimeArithmetic
  import opened JsMath
  import opened Wrappers

  /** The step used when none is given. */
  const DefaultStep := NoDuration.(days := 1)

  /** Milliseconds per element of a step without years or months; a zero sum means one day. */
  function StepMs(step: Duration): int {
    if FixedMs(step) == 0 then MsPerDay else FixedMs(step)
  }

  /**
    The steps the model computes: a calendar step that moves forward on the
    month index, or a fixed step that is positive once a zero sum is read as
    one day. A negative fixed step never lets the library's loop stop once
    `start <= end` (`NegativeStepNeverEnds`). A calendar step that does not
    move forward stops only when one of its elements passes `end`, which the
    model does not decide.
  */
  predicate Advances(step: Duration) {
    if HasCalendarPart(step) then 12 * step.years + step.months > 0 else StepMs(step) > 0
  }

  // ---------------------------------------------------------------------------
  // Fixed steps

  /** The time loop from `current` on. */
  function TimeRange(current: Instant, end: Instant, stepMs: int): (r: seq<Instant>)
    requires stepMs > 0 || current > end
    ensures forall j :: 0 <= j < |r| ==> r[j] <= end
    ensures current <= end <==> |r| > 0
    decreases end - current
  {
    if current > end then [] else [current] + TimeRange(current + stepMs, end, stepMs)
  }

  /** Element `j` of the time loop is `current + j * stepMs`, and the loop stops at the first one past `end`. */
  lemma {:induction false} TimeRangeElements(current: Instant, end: Instant, stepMs: int)
    requires stepMs > 0
    ensures forall j :: 0 <= j < |TimeRange(current, end, stepMs)| ==> TimeRange(current, end, stepMs)[j] == current + j * stepMs
    ensures current + |TimeRange(current, end, stepMs)| * stepMs > end
    decreases end - current
  {
    if current <= end {
      var rest := TimeRange(current + stepMs, end, stepMs);
      TimeRangeElements(current + stepMs, end, stepMs);
      assert TimeRange(current, end, stepMs) == [current] + rest;
      forall j | 1 <= j < |rest| + 1
        ensures TimeRange(current, end, stepMs)[j] == current + j * stepMs
      {
        MulStep(j - 1, stepMs);
      }
      MulStep(|rest|, stepMs);
    }
  }

  /** The number of elements of the time loop: `(end - current) / stepMs + 1` when `current <= end`. */
  lemma TimeRangeLength(current: Instant, end: Instant, stepMs: int)
    requires stepMs > 0 && current <= end
    ensures |TimeRange(current, end, stepMs)| == (end - current) / stepMs + 1
  {
    var n := |TimeRange(current, end, stepMs)|;
    TimeRangeElements(current, end, stepMs);
    assert current + (n - 1) * stepMs <= end by {
      assert TimeRange(current, end, stepMs)[n - 1] <= end;
    }
    DivBetween(end - current, stepMs, n - 1);
  }

  /** `x / d == q` whenever `q * d <= x < (q + 1) * d`. */
  lemma DivBetween(x: int, d: int, q: int)
    requires d > 0 && q * d <= x < q * d + d
    ensures x / d == q
  {
    var p := x / d;
    MulStep(p, d);
    MulStep(q, d);
    if p < q {
      MulMono(p + 1, q, d);
    } else if p > q {
      MulMono(q + 1, p, d);
    }
  }

  lemma MulStep(a: int, d: int)
    ensures (a + 1) * d == a * d + d
  {
  }

  lemma MulMono(a: int, b: int, d: int)
    requires a <= b && 0 <= d
    ensures a * d <= b * d
  {
  }

  // ---------------------------------------------------------------------------
  // Calendar steps

  /** Element `k` of the calendar loop. */
  function CalendarElement(start: Instant, step: Duration, k: nat): Instant {
    if k == 0 then start
    else CalendarStep(start, k * step.years, k * step.months) + FixedMs(step)
  }

  /** The step scaled by `k` in its calendar part only. */
  function Scaled(step: Duration, k: int): Duration {
    step.(years := k * step.years, months := k * step.months)
  }

  /** Elements after the first are `addTime(start, step)` with the calendar part taken `k` times. */
  lemma CalendarElementIsAddTime(start: Instant, step: Duration, k: nat)
    requires HasCalendarPart(step) && k >= 1
    ensures HasCalendarPart(Scaled(step, k))
    ensures CalendarElement(start, step, k) == AddTime(start, Scaled(step, k))
  {
    assert HasCalendarPart(Scaled(step, k)) by {
      if step.years != 0 { assert k * step.years != 0; } else { assert k * step.months != 0; }
    }
  }

  /** Twenty-eight days, the shortest month, in milliseconds. */
  const MsPer28Days: int := 2419200000

  /**
    The loop over elements `e(k), e(k + 1), ...` up to `end`. It ends because
    element `j` is at least `floor + j` times 28 days.
  */
  function Collect(e: nat -> Instant, end: Instant, k: nat, floor: int): (r: seq<Instant>)
    requires forall j: nat :: floor + MsPer28Days * j <= e(j)
    ensures forall n :: 0 <= n < |r| ==> r[n] == e(k + n) && r[n] <= end
    ensures e(k + |r|) > end
    decreases end - floor - MsPer28Days * k
  {
    if e(k) > end then [] else [e(k)] + Collect(e, end, k + 1, floor)
  }

  /** The month index `12 * year + month` of an instant. */
  function MonthIndex(t: Instant): int {
    12 * ToFields(t).year + ToFields(t).month
  }

  /** A lower bound for element 0: the start of its month, lowered by a negative fixed part. */
  function CalendarFloor(start: Instant, step: Duration): int {
    MonthStart(MonthIndex(start)) * MsPerDay + Min(FixedMs(step), 0)
  }

  /** A calendar step to month index `i` lands no earlier than the start of that month, in every year. */
  lemma CalendarStepAboveMonthStart(start: Instant, years: int, months: int, i: int)
    requires i == MonthIndex(start) + 12 * years + months
    ensures MonthStart(i) * MsPerDay <= CalendarStep(start, years, months)
  {
    ToFieldsValid(start);
    StepTargetIndex(ToFields(start), years, months, i);
    var g := StepTarget(ToFields(start), years, months);
    DateUTCAboveMonthStart(g.year, g.month, g.date, g.hours, g.minutes, g.seconds, g.ms, i);
  }

  /** Element `k` is at least `k` times 28 days above the floor. */
  lemma ElementAboveFloor(start: Instant, step: Duration, k: nat)
    requires 12 * step.years + step.months > 0
    ensures CalendarFloor(start, step) + MsPer28Days * k <= CalendarElement(start, step, k)
  {
    var i0 := MonthIndex(start);
    if k == 0 {
      InstantAboveMonthStart(start, i0);
    } else {
      var ky, km := k * step.years, k * step.months;
      var i := i0 + 12 * ky + km;
      CalendarStepAboveMonthStart(start, ky, km, i);
      ScaledIndexGrowth(k, step.years, step.months, i - i0);
      MonthStartGrowth(i0, i);
      FloorArithmetic(MonthStart(i0), MonthStart(i), i - i0, k, CalendarStep(start, ky, km), FixedMs(step));
    }
  }

  /** `k` steps of a forward month count move at least `k` months. */
  lemma ScaledIndexGrowth(k: nat, years: int, months: int, n: int)
    requires 12 * years + months > 0 && n == 12 * (k * years) + k * months
    ensures n >= k
  {
    Distribute(k, years, months);
    MulMono(1, 12 * years + months, k);
    assert k * (12 * years + months) == (12 * years + months) * k;
  }

  lemma Distribute(k: int, years: int, months: int)
    ensures 12 * (k * years) + k * months == k * (12 * years + months)
  {
  }

  /** Scaling a forward month count by more steps moves further. */
  lemma ScaledOrder(a: nat, b: nat, years: int, months: int)
    requires 12 * years + months > 0 && a < b
    ensures 0 <= 12 * (a * years) + a * months < 12 * (b * years) + b * months
  {
    Distribute(a, years, months);
    Distribute(b, years, months);
    MulMono(0, a, 12 * years + months);
    MulMono(a + 1, b, 12 * years + months);
    MulStep(a, 12 * years + months);
  }

  lemma FloorArithmetic(s0: int, s: int, n: int, k: int, c: int, d: int)
    requires s0 + 28 * n <= s && k <= n && s * MsPerDay <= c
    ensures s0 * MsPerDay + Min(d, 0) + MsPer28Days * k <= c + d
  {
    assert s0 * MsPerDay + MsPer28Days * k <= s * MsPerDay;
  }

  /** Every element is bounded below as `Collect` needs. */
  lemma ElementsAboveFloor(start: Instant, step: Duration)
    requires 12 * step.years + step.months > 0
    ensures forall j: nat :: CalendarFloor(start, step) + MsPer28Days * j <= CalendarElement(start, step, j)
  {
    forall j: nat
      ensures CalendarFloor(start, step) + MsPer28Days * j <= CalendarElement(start, step, j)
    {
      ElementAboveFloor(start, step, j);
    }
  }

  /** The calendar loop. */
  function CalendarRange(start: Instant, end: Instant, step: Duration): (r: seq<Instant>)
    requires 12 * step.years + step.months > 0
    ensures forall n :: 0 <= n < |r| ==> r[n] == CalendarElement(start, step, n) && r[n] <= end
    ensures CalendarElement(start, step, |r|) > end
  {
    ElementsAboveFloor(start, step);
    Collect((j: nat) => CalendarElement(start, step, j), end, 0, CalendarFloor(start, step))
  }

  // ---------------------------------------------------------------------------
  // dateRange

  /** `dateRange(start, end, step)`; `DefaultStep` when the caller gives none. */
  function DateRange(start: Instant, end: Instant, step: Duration): (r: seq<Instant>)
    requires start > end || Advances(step)
    ensures |r| > 0 <==> start <= end
    ensures |r| > 0 ==> r[0] == start
    ensures forall j :: 0 <= j < |r| ==> r[j] <= end
  {
    if !HasCalendarPart(step) then TimeRange(start, end, StepMs(step))
    else if start > end then []
    else CalendarRange(start, end, step)
  }

  // ---------------------------------------------------------------------------
  // Properties

  /** A fixed step lists `start + j * stepMs` for every `j` up to the last one not past `end`. */
  lemma FixedStepRange(start: Instant, end: Instant, step: Duration)
    requires !HasCalendarPart(step) && Advances(step)
    ensures forall j :: 0 <= j < |DateRange(start, end, step)| ==> DateRange(start, end, step)[j] == start + j * StepMs(step)
    ensures start + |DateRange(start, end, step)| * StepMs(step) > end
    ensures start <= end ==> |DateRange(start, end, step)| == (end - start) / StepMs(step) + 1
  {
    TimeRangeElements(start, end, StepMs(step));
    if start <= end {
      TimeRangeLength(start, end, StepMs(step));
    }
  }

  /** A calendar step lists the calendar elements up to the first one past `end`. */
  lemma CalendarStepRange(start: Instant, end: Instant, step: Duration)
    requires HasCalendarPart(step) && Advances(step)
    ensures forall n :: 0 <= n < |DateRange(start, end, step)| ==> DateRange(start, end, step)[n] == CalendarElement(start, step, n)
    ensures CalendarElement(start, step, |DateRange(start, end, step)|) > end
  {
  }

  /** A step whose fields sum to 0 milliseconds behaves as the default one-day step. */
  lemma ZeroStepIsOneDay(start: Instant, end: Instant, step: Duration)
    requires !HasCalendarPart(step) && FixedMs(step) == 0
    ensures StepMs(step) == StepMs(DefaultStep) == MsPerDay
    ensures DateRange(start, end, step) == DateRange(start, end, DefaultStep)
  {
  }

  /** A fixed step gives a strictly increasing list. */
  lemma FixedRangeIncreasing(start: Instant, end: Instant, step: Duration)
    requires !HasCalendarPart(step) && Advances(step)
    ensures forall a, b :: 0 <= a < b < |DateRange(start, end, step)| ==> DateRange(start, end, step)[a] < DateRange(start, end, step)[b]
  {
    FixedStepRange(start, end, step);
    forall a, b | 0 <= a < b < |DateRange(start, end, step)|
      ensures DateRange(start, end, step)[a] < DateRange(start, end, step)[b]
    {
      MulMono(a + 1, b, StepMs(step));
      MulStep(a, StepMs(step));
    }
  }

  /** From a start year of 100 on, no forward shift lands in the years Date.UTC reinterprets. */
  lemma ForwardTargetPlain(start: Instant, years: int, months: int)
    requires ToFields(start).year >= 100 && 12 * years + months >= 0
    ensures PlainYear(TargetYear(ToFields(start), years, months))
  {
    ToFieldsValid(start);
  }

  /** Elements after the first increase with their number. */
  lemma CalendarElementsOrdered(start: Instant, step: Duration, a: nat, b: nat)
    requires 12 * step.years + step.months > 0 && ToFields(start).year >= 100 && 1 <= a < b
    ensures CalendarElement(start, step, a) < CalendarElement(start, step, b)
  {
    ScaledOrder(a, b, step.years, step.months);
    ForwardTargetPlain(start, a * step.years, a * step.months);
    ForwardTargetPlain(start, b * step.years, b * step.months);
    CalendarStepMonotone(start, a * step.years, a * step.months, b * step.years, b * step.months);
  }

  /**
    With a fixed part that is not negative, every later element comes after
    `start`, in every year: Date.UTC's reading of years 0..99 only moves an
    instant later.
  */
  lemma CalendarElementAfterStart(start: Instant, step: Duration, b: nat)
    requires 12 * step.years + step.months > 0 && 1 <= b && FixedMs(step) >= 0
    ensures start < CalendarElement(start, step, b)
  {
    var i0 := MonthIndex(start);
    var ky, km := b * step.years, b * step.months;
    var i := i0 + 12 * ky + km;
    ScaledOrder(0, b, step.years, step.months);
    CalendarStepAboveMonthStart(start, ky, km, i);
    InstantBelowLaterMonth(start, i0, i);
  }

  /**
    A forward calendar step from year 100 on lists increasing instants after
    the first; the first comes before them too unless the fixed part is negative.
  */
  lemma CalendarRangeIncreasing(start: Instant, end: Instant, step: Duration)
    requires HasCalendarPart(step) && Advances(step)
    ensures ToFields(start).year >= 100 ==>
      forall a, b :: 1 <= a < b < |DateRange(start, end, step)| ==> DateRange(start, end, step)[a] < DateRange(start, end, step)[b]
    ensures FixedMs(step) >= 0 ==> forall b :: 0 < b < |DateRange(start, end, step)| ==> DateRange(start, end, step)[0] < DateRange(start, end, step)[b]
  {
    CalendarStepRange(start, end, step);
    forall a, b | 1 <= a < b < |DateRange(start, end, step)| && ToFields(start).year >= 100
      ensures DateRange(start, end, step)[a] < DateRange(start, end, step)[b]
    {
      CalendarElementsOrdered(start, step, a, b);
    }
    if FixedMs(step) >= 0 {
      forall b | 0 < b < |DateRange(start, end, step)|
        ensures DateRange(start, end, step)[0] < DateRange(start, end, step)[b]
      {
        CalendarElementAfterStart(start, step, b);
      }
    }
  }

  // ---------------------------------------------------------------------------
  // Worked examples; each instant is given by its UTC fields (0-based month).

  /** Calendar element `k` from fields `f`, for a shift to `g` followed by the fixed part reaching `h`. */
  lemma CalendarElementFromFields(start: Instant, step: Duration, k: nat, f: Fields, g: Fields, h: Fields)
    requires ToFields(start) == f && HasCalendarPart(step) && k >= 1
    requires PlainYear(TargetYear(f, k * step.years, k * step.months))
    requires Shifted(f, g, k * step.years, k * step.months)
    requires h.Valid() && FromFields(g) + FixedMs(step) == FromFields(h)
    ensures ToFields(CalendarElement(start, step, k)) == h
  {
    CalendarElementIsAddTime(start, step, k);
    AddTimeFromFields(start, Scaled(step, k), f, g, h);
  }

  /** Monthly from 2024-01-31, element 1 is 2024-02-29: the day is clamped to the leap February. */
  lemma MonthlyFromJan31First(start: Instant)
    requires ToFields(start) == Fields(2024, 0, 31, 0, 0, 0, 0)
    ensures ToFields(CalendarElement(start, NoDuration.(months := 1), 1)) == Fields(2024, 1, 29, 0, 0, 0, 0)
  {
    CalendarElementFromFields(start, NoDuration.(months := 1), 1, Fields(2024, 0, 31, 0, 0, 0, 0),
      Fields(2024, 1, 29, 0, 0, 0, 0), Fields(2024, 1, 29, 0, 0, 0, 0));
  }

  /** Element 2 is 2024-03-31: it is computed from the start's day 31, not from February 29. */
  lemma MonthlyFromJan31Second(start: Instant)
    requires ToFields(start) == Fields(2024, 0, 31, 0, 0, 0, 0)
    ensures ToFields(CalendarElement(start, NoDuration.(months := 1), 2)) == Fields(2024, 2, 31, 0, 0, 0, 0)
  {
    CalendarElementFromFields(start, NoDuration.(months := 1), 2, Fields(2024, 0, 31, 0, 0, 0, 0),
      Fields(2024, 2, 31, 0, 0, 0, 0), Fields(2024, 2, 31, 0, 0, 0, 0));
  }

  /** Element 3 is 2024-04-30, clamped to April's length. */
  lemma MonthlyFromJan31Third(start: Instant)
    requires ToFields(start) == Fields(2024, 0, 31, 0, 0, 0, 0)
    ensures ToFields(CalendarElement(start, NoDuration.(months := 1), 3)) == Fields(2024, 3, 30, 0, 0, 0, 0)
  {
    CalendarElementFromFields(start, NoDuration.(months := 1), 3, Fields(2024, 0, 31, 0, 0, 0, 0),
      Fields(2024, 3, 30, 0, 0, 0, 0), Fields(2024, 3, 30, 0, 0, 0, 0));
  }

  /** Daily from 2024-01-01 to 2024-01-05 with the default step: five days, the last one `end`. */
  lemma DailyRange(start: Instant, end: Instant)
    requires end == start + 4 * MsPerDay
    ensures |DateRange(start, end, DefaultStep)| == 5 && DateRange(start, end, DefaultStep)[4] == end
  {
    FixedStepRange(start, end, DefaultStep);
  }

  /** Every three days from 2024-01-01 to 2024-01-10: the 1st, 4th, 7th and 10th. */
  lemma ThreeDayRange(start: Instant, end: Instant)
    requires end == start + 9 * MsPerDay
    ensures DateRange(start, end, NoDuration.(days := 3)) == [start, start + 3 * MsPerDay, start + 6 * MsPerDay, end]
  {
    FixedStepRange(start, end, NoDuration.(days := 3));
  }

  /** Steps of two days and twelve hours over nine days: four elements, 60 hours apart. */
  lemma MixedStepRange(start: Instant, end: Instant)
    requires end == start + 9 * MsPerDay
    ensures DateRange(start, end, NoDuration.(days := 2, hours := 12)) ==
      [start, start + 60 * MsPerHour, start + 120 * MsPerHour, start + 180 * MsPerHour]
  {
    FixedStepRange(start, end, NoDuration.(days := 2, hours := 12));
  }

  /** Weekly from 2024-01-01 to 2024-01-29: five Mondays, the last one `end`. */
  lemma WeeklyRange(start: Instant, end: Instant)
    requires end == start + 28 * MsPerDay
    ensures |DateRange(start, end, NoDuration.(weeks := 1))| == 5
    ensures DateRange(start, end, NoDuration.(weeks := 1))[1] == start + 7 * MsPerDay
    ensures DateRange(start, end, NoDuration.(weeks := 1))[4] == end
  {
    FixedStepRange(start, end, NoDuration.(weeks := 1));
  }

  /** A range from an instant to itself holds just that instant, unless a calendar step's fixed part is negative. */
  lemma SingleInstantRange(start: Instant, step: Duration)
    requires Advances(step) && (HasCalendarPart(step) ==> FixedMs(step) >= 0)
    ensures DateRange(start, start, step) == [start]
  {
    if HasCalendarPart(step) {
      CalendarStepRange(start, start, step);
      CalendarElementAfterStart(start, step, 1);
    } else {
      FixedStepRange(start, start, step);
    }
  }

  // ---------------------------------------------------------------------------
  // Steps that do not advance

  /**
    With a negative fixed step and `start <= end`, every value the time loop
    reaches is still at or below `end`: the guard never fails and the loop
    pushes elements without end.
  */
  lemma NegativeStepNeverEnds(start: Instant, end: Instant, step: Duration, k: nat)
    requires !HasCalendarPart(step) && FixedMs(step) < 0 && start <= end
    ensures start + k * StepMs(step) < start || k == 0
    ensures start + k * StepMs(step) <= end
  {
    var s := StepMs(step);
    MulMono(0, k, -s);
    assert k * s == -(k * -s);
    if k > 0 {
      MulMono(1, k, -s);
    }
  }

  /**
    `dateRange` with the guard it evidently needs: a negative fixed step is
    refused (`None`) instead of looping. A calendar step that does not move
    forward is refused as well, since the model does not compute it; every
    other call lists what `dateRange` lists.
  */
  function CheckedDateRange(start: Instant, end: Instant, step: Duration): (r: Option<seq<Instant>>)
    ensures r.None? <==> start <= end && !Advances(step)
    ensures r.Some? ==> (|r.value| > 0 <==> start <= end)
    ensures r.Some? && |r.value| > 0 ==> r.value[0] == start
    ensures r.Some? ==> forall j :: 0 <= j < |r.value| ==> r.value[j] <= end
  {
    if start <= end && !Advances(step) then None else Some(DateRange(start, end, step))
  }

  /** The checked range of a fixed step that advances is strictly increasing and spaced by the step. */
  lemma CheckedFixedRange(start: Instant, end: Instant, step: Duration)
    requires !HasCalendarPart(step) && FixedMs(step) > 0
    ensures CheckedDateRange(start, end, step).Some?
    ensures var r := CheckedDateRange(start, end, step).value;
      forall j :: 0 <= j < |r| ==> r[j] == start + j * FixedMs(step)
  {
    FixedStepRange(start, end, step);
  }
}
