# chronal UTC calendar engine, in Dafny

This project models the UTC date engine of the chronal library: the
functional `src/lib` layer that adds and subtracts durations, lists date
ranges, finds the start and end of calendar units, reads and writes single
fields, numbers weeks, compares and selects dates, formats and parses
patterns, counts differences and writes relative phrases ("in 2 hours",
"5 minutes ago").

A JavaScript `Date` is modelled as its time value: an `Instant` is an
integer number of milliseconds since 1970-01-01T00:00:00Z. The module
`Civil` defines the calendar arithmetic of the ECMAScript Date object
(section 21.4.1 of ECMA-262: `Day`, `DayFromYear`, `YearFromTime`,
`MonthFromTime`, `MakeDay`, `MakeDate`, `Date.UTC` and the `setUTC*`
setters). `Date.UTC` is modelled with its quirk that reads years 0 to 99
as 1900 to 1999 (`UtcYear`); most instant-level lemmas hold outside those
years (`PlainYear`), and the quirk's effect is stated where it shows.

Modules follow the library's files:

| module | file | library functions |
|---|---|---|
| `Civil`, `JsMath`, `Decimal` | civil.dfy, js_math.dfy, decimal.dfy | the Date built-ins, `Math.floor`/`%`/`Math.abs`/`Math.min`, `String(n)`/`parseInt`/`pad2` |
| `Units` | units.dfy | the unit names |
| `TimeArithmetic` | add_time.dfy | `addTime`, `subtractTime` |
| `DateRange` | date_range.dfy | `dateRange` |
| `Boundaries` | boundaries.dfy | `startOf`, `endOf`, `daysInMonth`, `isLeapYear` |
| `FieldQueries` | fields.dfy | `getUnit`, `setUnit`, `getQuarter` |
| `WeekNumbers` | weeks.dfy | `weekOfYear` |
| `SameUnit` | same.dfy | `isSame` |
| `Comparison` | compare.dfy | `isBefore`, `isAfter`, `isEqual`, `isBetween`, `clampDate` |
| `Selection` | select.dfy | `minDate`, `maxDate`, `min`, `max`, `closestTo` |
| `Formatting` | format.dfy | `formatDate` and its compiled-pattern cache |
| `Parsing` | parse.dfy | `parseDate` |
| `Differences` | diff.dfy | `dateDiff`, `difference` |
| `Relative` | relative.dfy | `isToday`, `isTomorrow`, `isYesterday`, `toNow`, `fromNow` |

The clock (`Date.now()`) is a parameter `now`. The platform's month names are
a parameter `names`. The platform's free-form date parser is a parameter
`native`.

## Model

| member | source | states |
|---|---|---|
| TimeArithmetic.AddTime | src/lib/add-time.ts:24-66 | `addTime`: the calendar block, then the fixed delta. No contract of its own; characterised by `AddTimeShifts`, `FixedOnlyAddition`, `FixedAdditionsCompose` and `AddTimeFromFields`. |
| TimeArithmetic.SubtractTime | src/lib/subtract-time.ts:26-37 | `subtractTime`: `addTime` with every non-zero field negated. No contract of its own; characterised by `NegateFixed`, `SubtractUndoesFixedAdd` and `SubtractTimeFromFields`. |
| TimeArithmetic.AddTimeShifts | src/lib/add-time.ts:28-51 | With years or months, the calendar block moves the fields by `12*years + months` months on the absolute month index, with the day of month clamped to the target month's length and the clock kept (the `Shifted` reference). This holds outside years 0..99. |
| TimeArithmetic.StepTargetShifted | src/lib/add-time.ts:35-41 | The target year (`Math.floor` carry), the month (`((x % 12) + 12) % 12`) and the clamped day passed to Date.UTC form valid fields, at the intended shift. |
| TimeArithmetic.StepTargetIndex | src/lib/add-time.ts:36-38 | In every year, the target year and month sit at month index `12*year + month + 12*years + months`, with the month in 0..11. |
| TimeArithmetic.CalendarStepMonotone | src/lib/add-time.ts:28-51 | A larger month offset gives a strictly later instant. |
| TimeArithmetic.CalendarStepForward | src/lib/add-time.ts:28-51 | A positive month offset lands after the starting instant. |
| TimeArithmetic.ShiftedUnique | src/lib/add-time.ts:35-51 | A calendar shift determines its target fields. |
| TimeArithmetic.FixedOnlyAddition | src/lib/add-time.ts:54-63 | Without years and months, `addTime` adds exactly ms + 1000·s + 60000·min + 3600000·h + 86400000·d + 604800000·w. |
| TimeArithmetic.AddNothing | src/lib/add-time.ts:24-66 | The empty option record leaves the date unchanged under `addTime` and `subtractTime`. |
| TimeArithmetic.FixedAdditionsCompose | src/lib/add-time.ts:54-63 | Two fixed-duration additions are one addition of the field-wise sum. |
| TimeArithmetic.NegateFixed | src/lib/subtract-time.ts:26-37 | Negating every field negates the fixed part, keeps whether there is a calendar part, and is an involution. |
| TimeArithmetic.SubtractUndoesFixedAdd | src/lib/subtract-time.ts:26-37 | Without years and months, `subtractTime` undoes `addTime`, and the other way round. |
| TimeArithmetic.AddTimeFromFields | src/lib/add-time.ts:24-66 | From known fields, a shift to `g` followed by the fixed delta reaching valid `h` gives exactly `h`. |
| TimeArithmetic.SubtractTimeFromFields | src/lib/subtract-time.ts:26-37 | The same for `subtractTime`, whose shift runs backwards. |
| TimeArithmetic.AddOneMonthClamps | src/lib/add-time.test.ts:11-13 | 2024-01-31T12:00Z plus one month is 2024-02-29T12:00Z. |
| TimeArithmetic.AddMixedDuration | src/lib/add-time.ts:19-21 | Extends the documented example ({1y, 2mo, 3d} from 2024-01-31T12:00Z gives 2025-04-03T12:00Z) with a clock part: the calendar step runs before the fixed delta, so {1y, 2mo, 3d, 4h, 5m, 6s, 7ms} gives 2025-04-03T16:05:06.007Z. |
| TimeArithmetic.SubtractOneMonth | src/lib/subtract-time.test.ts:11-13 | 2024-03-31T12:00Z minus one month is 2024-02-29T12:00Z. |
| TimeArithmetic.SubtractYearMonthDays | src/lib/subtract-time.test.ts:35-37 | 2024-03-31T12:00Z minus {1y, 1mo, 5d} is 2023-02-23T12:00Z. |
| TimeArithmetic.SubtractTwoWeeks | src/lib/subtract-time.test.ts:39-41 | 2024-03-31T12:00Z minus two weeks is 2024-03-17T12:00Z. |
| TimeArithmetic.SubtractYearAndMonth | src/lib/subtract-time.ts:26-37 | 2024-03-31T12:00Z minus one year and one month is 2023-02-28T12:00Z. |
| TimeArithmetic.SubtractMonthFromLeapDay | src/lib/subtract-time.ts:26-37 | 2024-02-29T12:00Z minus one month is 2024-01-29T12:00Z. |
| TimeArithmetic.MonthAddSubtractDrifts | src/lib/add-time.ts:40-41 | Month arithmetic is not invertible: 2024-01-31 plus one month, then minus one month, is 2024-01-29. |
| DateRange.DateRange | src/lib/date-range.ts:34-115 | The list is non-empty exactly when `start <= end`, starts at `start`, and never passes `end`. |
| DateRange.TimeRange | src/lib/date-range.ts:59-64 | The fixed-step loop lists only values at or below `end`, and lists something exactly when it starts at or below `end`. |
| DateRange.TimeRangeElements | src/lib/date-range.ts:59-64 | Element `j` of the fixed-step loop is `start + j*stepMs`, and the next value passes `end`. |
| DateRange.FixedStepRange | src/lib/date-range.ts:47-64 | A fixed step lists `start + j*stepMs` up to the last one not past `end`, `(end - start) / stepMs + 1` elements in all. |
| DateRange.ZeroStepIsOneDay | src/lib/date-range.ts:55-57 | A step whose fields sum to 0 ms behaves as the one-day default step. |
| DateRange.FixedRangeIncreasing | src/lib/date-range.ts:59-64 | A fixed step gives a strictly increasing list. |
| DateRange.CalendarElementIsAddTime | src/lib/date-range.ts:77-114 | Calendar element `k` is `addTime(start, k·{years, months})` plus the step's fixed part, added once. |
| DateRange.CalendarRange | src/lib/date-range.ts:71-101 | The calendar loop lists the elements computed from `start` for `k = 0, 1, …`, all at or below `end`, and stops at the first one past `end`. |
| DateRange.CalendarStepRange | src/lib/date-range.ts:65-115 | With years or months, element `n` of the result is calendar element `n`, and the element after the last one passes `end`. |
| DateRange.ElementsAboveFloor | src/lib/date-range.ts:77-114 | Calendar element `k` is at least a fixed floor plus `k` times 28 days, which is why the calendar loop ends. |
| DateRange.CalendarRangeIncreasing | src/lib/date-range.ts:71-115 | From a start year of 100 on, the calendar elements after the first strictly increase. With a non-negative fixed part, every element after the first is later than `start`. |
| DateRange.SingleInstantRange | src/lib/date-range.ts:34-115 | A range from an instant to itself is that one instant, for every step that advances (with a calendar step, one whose fixed part is not negative). |
| DateRange.MonthlyFromJan31First | src/lib/date-range.ts:89-90 | Monthly from 2024-01-31: the second element is 2024-02-29 (the day is clamped). |
| DateRange.MonthlyFromJan31Second | src/lib/date-range.ts:85-100 | Monthly from 2024-01-31: the third element is 2024-03-31 (the day comes from `start`, not from the previous element). |
| DateRange.MonthlyFromJan31Third | src/lib/date-range.ts:85-100 | Monthly from 2024-01-31: the fourth element is 2024-04-30. |
| DateRange.DailyRange | src/lib/date-range.ts:37 | The default step over four days lists five dates, ending at `end`. |
| DateRange.ThreeDayRange | src/lib/date-range.ts:47-64 | A three-day step over nine days lists the four dates 0, 3, 6 and 9 days on. |
| DateRange.MixedStepRange | src/lib/date-range.ts:47-64 | A {2 days, 12 hours} step over nine days lists the elements 60 hours apart. |
| DateRange.WeeklyRange | src/lib/date-range.ts:22-31 | A one-week step over 28 days lists five dates, 7 days apart. |
| DateRange.NegativeStepNeverEnds | src/lib/date-range.ts:55-64 | With a negative fixed step and `start <= end`, every value the loop reaches stays at or below `end`, so the loop never stops (see Findings). |
| DateRange.CheckedDateRange | src/lib/date-range.ts:34-115 | The guarded range refuses, when `start <= end`, exactly the negative fixed steps and the calendar steps that do not move forward on the month index, and otherwise lists what `dateRange` lists: non-empty iff `start <= end`, starting at `start`, never past `end`. |
| DateRange.CheckedFixedRange | src/lib/date-range.ts:47-64 | For a positive fixed step the guarded range is defined and lists `start + j*step`. |
| Boundaries.StartOf | src/lib/start-of.ts:1-34 | `startOf`: the `setUTC*` calls of each unit. No contract of its own; characterised by `StartOfFields`, `StartOfBelow` and `StartOfIdempotent`. |
| Boundaries.EndOf | src/lib/end-of.ts:1-37 | `endOf`: the `setUTC*` calls of each unit, the month's last day from Date.UTC. No contract of its own; characterised by `EndOfFields`, `EndOfIsStartPlusSpan`, `EndOfAbove` and `EndOfIdempotent`. |
| Boundaries.DaysInMonthOf | src/lib/days-in-month.ts:15-20 | `daysInMonth`: day 0 of the next month. No contract of its own; characterised by `DaysInMonthOfIsLength`, `DaysInMonthByMonth` and `DaysInMonthYearZero`. |
| Boundaries.IsLeapYearOf | src/lib/is-leap-year.ts:20-23 | `isLeapYear` with JavaScript's `%`. No contract of its own; characterised by `LeapRuleIsGregorian`, `LeapRuleShape` and `LeapRuleExamples`. |
| Boundaries.CorrectedEndOf | src/lib/end-of.ts:10-17 | `endOf` with the real month length for the month unit. No contract of its own; characterised by `CorrectedEndOfIsStartPlusSpan`, `CorrectedEndOfMonthFields` and `CorrectedEndOfAgrees`. |
| Boundaries.StartOfFields | src/lib/start-of.ts:1-34 | `startOf` keeps the fields coarser than the unit and resets the finer ones to their least value (the `Truncate` reference), for every unit. |
| Boundaries.EndOfFields | src/lib/end-of.ts:1-37 | `endOf` keeps the coarser fields and sets the finer ones to their greatest value, with the last day that Date.UTC finds (the `Ceiling` reference). |
| Boundaries.StartOfBelow | src/lib/start-of.ts:1-34 | The start of a unit is at or before the instant, by less than the unit's length. |
| Boundaries.EndOfIsStartPlusSpan | src/lib/end-of.ts:1-37 | The end of a unit is its start plus its length less 1 ms, for every instant and unit except the month unit in February of year 0. |
| Boundaries.EndOfAbove | src/lib/end-of.ts:1-37 | The end of a unit is at or after the instant, except for the month unit in February of year 0. |
| Boundaries.EndOfMonthYearZero | src/lib/end-of.ts:10-17 | On 0000-02-29, `endOf(date, 'month')` is 0000-02-28T23:59:59.999, before the date itself (see Findings). |
| Boundaries.CorrectedEndOfIsStartPlusSpan | src/lib/end-of.ts:10-17 | With the real month length, the end of every unit is its start plus its length less 1 ms, and is not before the instant, for every instant. |
| Boundaries.CorrectedEndOfMonthFields | src/lib/end-of.ts:10-17 | The corrected month end keeps the year and month and sets the real last day and 23:59:59.999. |
| Boundaries.CorrectedEndOfAgrees | src/lib/end-of.ts:10-17 | Outside February of year 0 the corrected end is `endOf`. |
| Boundaries.StartOfIdempotent | src/lib/start-of.ts:1-34 | `startOf` applied twice is `startOf` applied once. |
| Boundaries.EndOfIdempotent | src/lib/end-of.ts:1-37 | `endOf` applied twice is `endOf` applied once. |
| Boundaries.StartOfFixed | src/lib/start-of.ts:1-34 | An instant whose fields are already truncated is its own start. |
| Boundaries.EndOfFixed | src/lib/end-of.ts:1-37 | An instant whose fields are already at their greatest value is its own end. |
| Boundaries.StartOfExamples | src/lib/start-of.ts:5-30 | From 2024-06-15T14:35:22.500Z each unit resets exactly the finer fields. |
| Boundaries.EndOfFebruary | src/lib/end-of.ts:10-17 | The end of February is the 29th in 2024 and the 28th in 2023. |
| Boundaries.DaysInMonthOfIsLength | src/lib/days-in-month.ts:15-20 | Day 0 of the next month is the month's length (28..31) in the year Date.UTC reads. Outside February of year 0 that is the real length. |
| Boundaries.DaysInMonthByMonth | src/lib/days-in-month.ts:15-20 | February has 29 days exactly in leap years and 28 otherwise; April, June, September and November have 30; the rest 31. |
| Boundaries.DaysInMonthYearZero | src/lib/days-in-month.ts:17-19 | In February of year 0, a leap year, `daysInMonth` reports 28 (the length in 1900). |
| Boundaries.LeapRuleIsGregorian | src/lib/is-leap-year.ts:20-23 | The test with JavaScript's `%` is the Gregorian rule, negative years included. |
| Boundaries.LeapRuleShape | src/lib/is-leap-year.ts:22 | The rule repeats every 400 years, needs divisibility by 4, and excludes centuries not divisible by 400. |
| Boundaries.LeapRuleExamples | src/lib/is-leap-year.ts:20-23 | 2000, 2024, 2400, 1996 and 2020 are leap; 1900, 2100, 2023, 2019 and 1997 are not. |
| FieldQueries.GetUnit | src/lib/get-unit.ts:17-36 | A value exactly for year, month, date, day, hour, minute and second; any other unit throws `Unsupported unit: <unit>`. |
| FieldQueries.GetUnitRanges | src/lib/get-unit.ts:17-36 | Every field read lies in its calendar range (the day of the month within the month's length). |
| FieldQueries.WeekdayAdvances | src/lib/get-unit.ts:17-36 | The weekday moves on by one, modulo 7, per day. |
| FieldQueries.GetUnitExample | src/lib/get-unit.ts:17-36 | 2024-03-15T12:34:56Z reads as 2024, 2, 15, Friday (5), 12, 34 and 56. `week` throws. |
| FieldQueries.GetWeekdayExamples | src/lib/get-unit.ts:17-36 | 2024-03-01 is a Friday and 2024-03-31 a Sunday. |
| FieldQueries.SetUnit | src/lib/set-unit.ts:20-52 | `setUnit`: one `setUTC*` call per unit, unknown units leaving the date as it is. No contract of its own; characterised by `SetUnitFields`, `SetThenGet` and `MonthRollsOver`. |
| FieldQueries.SetUnitFields | src/lib/set-unit.ts:20-52 | A value that fits changes only the field it names; every other field is unchanged. |
| FieldQueries.SetThenGet | src/lib/set-unit.ts:20-52 | Reading back the set field gives the value written (`setUnit`'s `day` is `getUnit`'s `date`). |
| FieldQueries.MonthRollsOver | src/lib/set-unit.ts:31-33 | Setting a month the day does not fit in carries the excess days into the next month. |
| FieldQueries.SetUnitExamples | src/lib/set-unit.ts:20-52 | From 2024-06-15T14:30:45Z: year 2025, month 0, day 20 and hour 10 each change only their field. |
| FieldQueries.SetDayIsNotGetDay | src/lib/set-unit.ts:34-36 | `setUnit(date, 'day', 20)` sets the day of the month; `getUnit(…, 'day')` then reads weekday 4. |
| FieldQueries.MonthRolloverExample | src/lib/set-unit.ts:31-33 | 2024-01-31 with the month set to February becomes 2024-03-02. |
| FieldQueries.GetQuarter | src/lib/get-quarter.ts:20-23 | The quarter is in 1..4 and is the one whose three months hold the month. |
| FieldQueries.QuarterByMonth | src/lib/get-quarter.ts:22 | January to March is quarter 1, April to June 2, July to September 3, October to December 4; each both ways. |
| FieldQueries.QuarterMonotone | src/lib/get-quarter.ts:22 | A later month never has an earlier quarter. |
| WeekNumbers.WeekOfYear | src/lib/week-of-year.ts:15-33 | `weekOfYear`: `ceil((dayOfYear + weekday of January 1) / 7)`. No contract of its own; characterised by `WeekOfYearIsIndexDifference`, `WeekOfYearRange`, `WeekOfYearNextDay` and `WeekOfYearMonotone`. |
| WeekNumbers.WeekOfYearIsIndexDifference | src/lib/week-of-year.ts:15-33 | Outside years 0..99 the week number is the Sunday-started epoch week index of the date less that of January 1, plus one. |
| WeekNumbers.WeekOfYearRange | src/lib/week-of-year.ts:15-33 | Outside years 0..99 the week number lies in 1..54. |
| WeekNumbers.NewYearIsWeekOne | src/lib/week-of-year.ts:15-33 | January 1 is in week 1. |
| WeekNumbers.WeekOfYearNextDay | src/lib/week-of-year.ts:29-30 | From one day to the next in a year, the number rises by one exactly when the new day is a Sunday. |
| WeekNumbers.SameWeekSameNumber | src/lib/week-of-year.ts:29-30 | The days of one Sunday-to-Saturday week in a year share a number. |
| WeekNumbers.WeekOfYearMonotone | src/lib/week-of-year.ts:15-33 | Within a year the week number never goes down. |
| WeekNumbers.WeekOfYear2024 | src/lib/week-of-year.ts:10-12 | 2024-01-08 is in week 2 and 2024-12-31 in week 53. |
| WeekNumbers.LeapSaturdayYearHasWeek54 | src/lib/week-of-year.ts:2-6 | 2000-12-31 is in week 54, outside the documented 1-53 (see Findings). |
| WeekNumbers.EarlyYearsWeekNegative | src/lib/week-of-year.ts:17-18 | In years 0..99 Date.UTC puts January 1 in 1900 + y, and the week number is negative. |
| SameUnit.IsSame | src/lib/is-same.ts:17-77 | Any unit other than the seven handled gives false. |
| SameUnit.IsSameEquivalence | src/lib/is-same.ts:17-77 | For each handled unit, `isSame` is reflexive, symmetric and transitive. |
| SameUnit.IsSameNests | src/lib/is-same.ts:19-73 | Same second implies same minute, then hour, day, month and year. |
| SameUnit.SameDayIsSameDayNumber | src/lib/is-same.ts:48-52 | Same day exactly when the UTC day numbers agree. |
| SameUnit.SameDayIsSameStartOfDay | src/lib/is-same.ts:48-52 | Same day exactly when `startOf(…, 'day')` agrees. |
| SameUnit.SameClockUnitIsSameIndex | src/lib/is-same.ts:53-73 | Same hour, minute or second exactly when the two instants share that unit's count since the epoch. |
| SameUnit.SameWeekIsSameWeekIndex | src/lib/is-same.ts:25-47 | Outside years 0..99, same week exactly when the Sunday-started week indexes agree. |
| SameUnit.SameDaySameWeek | src/lib/is-same.ts:25-52 | The same day is always the same week, years 0..99 included. |
| SameUnit.WeeksStartOnSunday | src/lib/is-same.ts:25-47 | Monday 2024-01-08 and Saturday 01-13 share a week; Sunday 01-14 starts the next. |
| Comparison.IsBefore | src/lib/is-before.ts:13-15 | `isBefore`: `<` on the time values. No contract of its own; characterised by `OrderLaws` and `OneMillisecondApart`. |
| Comparison.IsAfter | src/lib/is-after.ts:13-15 | `isAfter`: `>` on the time values. No contract of its own; characterised by `OrderLaws` (the converse of `isBefore`). |
| Comparison.IsEqual | src/lib/is-equal.ts:13-15 | `isEqual`: the same millisecond. No contract of its own; characterised by `OrderLaws` (exactly one of the three holds). |
| Comparison.IsBetween | src/lib/is-between.ts:25-48 | `isBetween`: the bounds put in order, then one of four inclusivity tests. No contract of its own; characterised by `IsBetweenMeaning`, `IsBetweenSymmetric`, `InclusivityOrder`, `BoundsIncluded` and `EmptyInterval`. |
| Comparison.OrderLaws | src/lib/is-before.ts:13-15 | `isBefore` is a strict order, `isAfter` (is-after.ts:13-15) its converse, `isEqual` (is-equal.ts:13-15) symmetric, and exactly one of the three holds. |
| Comparison.OneMillisecondApart | src/lib/is-equal.ts:13-15 | One millisecond apart is seen by all three comparisons. |
| Comparison.IsBetweenMeaning | src/lib/is-between.ts:25-48 | Each inclusivity string tests against the smaller and the larger bound with its own strict or non-strict comparisons. |
| Comparison.IsBetweenSymmetric | src/lib/is-between.ts:36 | Swapping the bounds never changes the answer. |
| Comparison.InclusivityOrder | src/lib/is-between.ts:39-46 | `()` implies both half-open tests, and each of those implies `[]`. |
| Comparison.BoundsIncluded | src/lib/is-between.ts:39-46 | With the bounds in order, `()` and `(]` exclude the start, `[)` the end, and `[]` includes both. |
| Comparison.EmptyInterval | src/lib/is-between.ts:39-46 | With equal bounds only `[]` can hold, and only at that instant. |
| Comparison.ClampDate | src/lib/clamp-date.ts:22-36 | The result is the date or one of the two bounds. |
| Comparison.ClampInRange | src/lib/clamp-date.ts:22-36 | With ordered bounds the result lies between them, and is the date exactly when the date already does. |
| Comparison.ClampIdempotent | src/lib/clamp-date.ts:22-36 | Clamping twice is clamping once. |
| Comparison.ClampEdges | src/lib/clamp-date.ts:22-36 | Equal bounds give that bound; a date equal to a bound comes back. |
| Comparison.ClampReversedBounds | src/lib/clamp-date.ts:22-36 | With reversed bounds the result is `min` below `min` and `max` otherwise. |
| Selection.MinDate | src/lib/min-date.ts:15-32 | No dates throws `minDate requires at least one date`; otherwise the position of the first earliest date. |
| Selection.MaxDate | src/lib/max-date.ts:15-32 | No dates throws `maxDate requires at least one date`; otherwise the position of the first latest date. |
| Selection.Min | src/lib/min.ts:1-15 | No dates throws `min requires at least one date`; otherwise the position of the first earliest date. |
| Selection.Max | src/lib/max.ts:1-18 | No dates throws `max requires at least one date`; otherwise the position of the first latest date. |
| Selection.MinAgreesWithMinDate | src/lib/min.ts:1-15 | `min` and `minDate` fail on the same inputs and otherwise pick the same position. |
| Selection.MaxAgreesWithMaxDate | src/lib/max.ts:1-18 | `max` and `maxDate` fail on the same inputs and otherwise pick the same position. |
| Selection.FirstMinUnique | src/lib/min-date.ts:20-31 | Only one position holds the first least element. |
| Selection.FirstMaxUnique | src/lib/max-date.ts:20-31 | Only one position holds the first greatest element. |
| Selection.ClosestTo | src/lib/closest-to.ts:19-37 | None for no dates; otherwise the position of the first date nearest to the target. |
| Selection.ClosestIsExact | src/lib/closest-to.ts:28-36 | A date equal to the target is picked when there is one (the first such). |
| Formatting.Compile | src/lib/format-date.ts:56-157 | `compileFormat` without its cache: the fast path without `[`, the bracket-aware path otherwise. No contract of its own; characterised by `TokenizeCovers`, `SlowPathAgrees`, `EscapedText` and `UnclosedBracketIsIgnored`. |
| Formatting.FormatDate | src/lib/format-date.ts:225-250 | `formatDate` in UTC: the compiled parts, literals as they are and tokens rendered. No contract of its own; characterised by `FormatOneToken`, `FormatDateTime`, `FormatClock`, `PlainTextIsVerbatim` and `EscapedIsVerbatim`. |
| Formatting.FormatOneToken | src/lib/format-date.ts:24-44 | A pattern that is one token prints that token's rendering. |
| Formatting.MatchToken | src/lib/format-date.ts:46 | The token expression matches the first listed alternative that fits, and nothing when none fits. |
| Formatting.MatchIsWidest | src/lib/format-date.ts:46 | A match is always the widest token of its letter that fits. |
| Formatting.WidestTokenMatches | src/lib/format-date.ts:46 | The widest fitting token of a letter is what matches. |
| Formatting.NoMatchWithoutLetter | src/lib/format-date.ts:46 | No token starts at a character that is not a pattern letter. |
| Formatting.TokenizeCovers | src/lib/format-date.ts:63-82 | The parts spell out the pattern they were read from: tokenizing loses nothing. |
| Formatting.ScanPlainText | src/lib/format-date.ts:63-82 | Text without pattern letters is one literal run. |
| Formatting.SlowPathAgrees | src/lib/format-date.ts:56-157 | The bracket-aware path compiles a pattern without `[` exactly as the fast path does. |
| Formatting.InsideBracket | src/lib/format-date.ts:118-129 | Inside a bracket, everything up to `]` is collected as it stands. |
| Formatting.EscapedText | src/lib/format-date.ts:84-151 | A bracketed text is one literal part, whatever letters it holds, and the rest compiles on its own. |
| Formatting.UnclosedBracketIsIgnored | src/lib/format-date.ts:132-151 | A `[` that is never closed is dropped and the rest is tokenized. |
| Formatting.CompileCached | src/lib/format-date.ts:54-58 | The cached compile gives what compiling gives, keeps every entry sound, and stores the pattern (lines 154-156). |
| Formatting.MonthName | src/lib/format-date.ts:30-31 | `names[month - 1]`, or `undefined` outside the table. |
| Formatting.UtcPartsInRange | src/lib/format-date.ts:160-169 | The parts read from an instant are in their ranges, the month 1-based. |
| Formatting.PaddedParts | src/lib/format-date.ts:29-43 | The two-letter tokens print two digits that read back as the field. |
| Formatting.UnpaddedParts | src/lib/format-date.ts:28-42 | The one-letter tokens print the field unpadded: digits that read back as the field, one digit below ten. |
| Formatting.ShortYear | src/lib/format-date.ts:26 | For years of at least 10, `YY` is the year modulo 100 with two digits. |
| Formatting.MonthNameTokens | src/lib/format-date.ts:30-31 | `MMM` and `MMMM` look the month up in the short and long tables. |
| Formatting.FormatDateTime | src/lib/format-date.ts:225-250 | `YYYY-MM-DD HH:mm:ss` prints the year as is and every other field with two digits. |
| Formatting.FormatDateTimeExample | src/lib/format-date.test.ts:38 | 2024-12-25T14:35:22Z prints `2024-12-25 14:35:22`. |
| Formatting.FormatClock | src/lib/format-date.ts:225-250 | `H:m:s` prints the hour, minute and second as `String` writes them. |
| Formatting.MidnightUnpadded | src/lib/format-date.test.ts:72 | Midnight with `H:m:s` prints `0:0:0`. |
| Formatting.PlainTextIsVerbatim | src/lib/format-date.ts:225-250 | A pattern with no pattern letters and no `[` prints as itself. |
| Formatting.EscapedIsVerbatim | src/lib/format-date.ts:90-125 | A bracketed text prints as it stands, pattern letters included. |
| Formatting.EscapedBrackets | src/lib/format-date.test.ts:62-63 | `[[[text]]]` prints `[[text]]`. |
| Formatting.LoneYIsText | src/lib/format-date.ts:46 | A lone `Y` is no token. |
| Formatting.TripleYIsYearAndText | src/lib/format-date.ts:46 | `YYY` is `YY` and a literal `Y`. |
| Parsing.ParseDate | src/lib/parse-date.ts:16-95 | Errors are always `Invalid date`. With a pattern, the parse succeeds exactly when the text matches the anchored expression; without one, exactly when the platform parser succeeds. |
| Parsing.Translate | src/lib/parse-date.ts:30-65 | Every capture of the built expression is one of the six known fields. |
| Parsing.Match | src/lib/parse-date.ts:67-72 | A match captures only digits, and the text has exactly the pattern's width. |
| Parsing.TranslateField | src/lib/parse-date.ts:31-54 | A field's letters become its capture. |
| Parsing.ShortLettersAreText | src/lib/parse-date.ts:55-63 | A single `M`, `D` or `Y` is matched literally. |
| Parsing.MatchOrder | src/lib/parse-date.ts:26-33 | Capture group `k` belongs to the `k`-th token of the pattern (`tokenOrder`). |
| Parsing.LookupFirst | src/lib/parse-date.ts:75-78 | `getValue` reads the group of the first occurrence of the token. |
| Parsing.LookupAbsent | src/lib/parse-date.ts:75-78 | A token that was never captured reads 0. |
| Parsing.ParseDateTimeDigits | src/lib/parse-date.ts:67-88 | Any text of the `YYYY-MM-DD HH:mm:ss` shape parses to Date.UTC of its fields, zeros read as absent. |
| Parsing.ParseDateTimeText | src/lib/parse-date.ts:81-88 | What the date-time pattern prints parses back to the same fields, for years 1000..9999. |
| Parsing.FormatThenParseFields | src/lib/parse-date.ts:81-88 | Parsing what `formatDate` printed with `YYYY-MM-DD HH:mm:ss` gives Date.UTC of the date's fields with 0 ms. |
| Parsing.WholeSecondOf | src/lib/parse-date.ts:81-88 | Those fields with 0 ms are the instant truncated to its second. |
| Parsing.FormatThenParse | src/lib/parse-date.ts:16-95 | For every instant in years 1000..9999, parsing what `formatDate` prints with `YYYY-MM-DD HH:mm:ss` gives the instant truncated to the second. |
| Parsing.ClockOnly | src/lib/parse-date.ts:81-88 | With only `HH:mm`, the date defaults to 1970-01-01 and the seconds to 0. |
| Parsing.ClockOnlyExample | src/lib/parse-date.ts:81-88 | `parseDate("14:30", "HH:mm")` is 1970-01-01T14:30:00Z. |
| Parsing.MismatchRejected | src/lib/parse-date.ts:67-72 | `15/06/2024` against `YYYY-MM-DD HH:mm:ss` throws `Invalid date`. |
| Parsing.TwoDigitYearIsShifted | src/lib/parse-date.ts:81-82 | `0050-01-01 00:00:00` parses into the year 1950 (see Findings). |
| Parsing.ParseDateFullYear | src/lib/parse-date.ts:81-88 | The corrected parse fails exactly where `parseDate` fails, with the same message. |
| Parsing.FullYearAgrees | src/lib/parse-date.ts:81-88 | Outside years 0..99 the corrected parse is `parseDate`. |
| Parsing.FullYearKeepsFields | src/lib/parse-date.ts:81-88 | The corrected parse reads every valid date-time back field for field, whatever its year above 0. |
| Differences.DateDiff | src/lib/date-diff.ts:16-68 | An error exactly for an unknown unit, with `Unsupported unit: <unit>`. Years are the year gap or one less; months are the month gap or one less. |
| Differences.Difference | src/lib/difference.ts:1-52 | The same contract as `dateDiff`; the fixed units are the floor of the gap over the unit. |
| Differences.CalendarBranches | src/lib/date-diff.ts:20-54 | The `years` and `months` branches work on the UTC fields of the two dates. |
| Differences.YearsOfCases | src/lib/date-diff.ts:31-34 | One less than the year gap exactly when `right` moved by the gap passes `left`. |
| Differences.YearsAreWholeYears | src/lib/date-diff.ts:20-35 | The count `n` is the number of whole years: `right` moved by `n` years is at or before `left`, and moved by `n + 1` is after it. |
| Differences.MonthsElapsedBrackets | src/lib/date-diff.ts:36-54 | With the carry kept, `right` moved by `n + 1` months is after `left`. For days of month up to 28, `right` moved by `n` months is at or before `left`. |
| Differences.MonthsAgreeWithoutWrap | src/lib/date-diff.ts:41-49 | Where the month does not wrap past December, the count as written equals the corrected one. |
| Differences.MonthsCarryLost | src/lib/date-diff.ts:41-49 | From 2024-11-15 to 2025-01-10 the count is 2, though `right` moved by two months is after `left` (see Findings). |
| Differences.MonthsCarryKept | src/lib/date-diff.ts:41-49 | With the carry, the same count is 1. |
| Differences.FixedUnitIsFloor | src/lib/date-diff.ts:55-64 | A fixed unit counts whole units in the gap, rounded toward negative infinity. |
| Differences.FixedUnitsAntisymmetric | src/lib/date-diff.ts:55-64 | Swapping the dates negates the count when the gap is whole units; otherwise the two counts sum to -1. |
| Differences.SameInstantIsZero | src/lib/date-diff.test.ts:69-79 | An instant is 0 from itself in every unit, outside years 0..99. |
| Differences.EarlyYearIsOneYearBehindItself | src/lib/date-diff.ts:22-30 | In years 0..99 an instant is -1 years from itself. |
| Differences.YearsNotAntisymmetric | src/lib/date-diff.ts:20-35 | 2025-01-15 is 0 years after 2024-06-15, but 2024-06-15 is -1 years after 2025-01-15. |
| Differences.LeapDayToNextYear | src/lib/date-diff.test.ts:82-88 | 2024-02-29 to 2025-02-28 is 0 years. |
| Differences.LeapDayToNextYearDays | src/lib/date-diff.test.ts:82-88 | 2024-02-29 to 2025-02-28 is 365 days. |
| Differences.YearAheadNotReached | src/lib/date-diff.test.ts:64-67 | 2025-01-15 is 0 years after 2024-06-15. |
| Differences.MonthEndToMidMonth | src/lib/date-diff.ts:36-54 | 2024-01-31 to 2024-02-15 is 0 months. |
| Relative.IsToday | src/lib/is-today.ts:13-17 | `isToday`: the same UTC year, month and day as `now`. No contract of its own; characterised by `TodayIsSameDay`. |
| Relative.IsTomorrow | src/lib/is-tomorrow.ts:14-24 | `isTomorrow`: the fields of Date.UTC(year, month, date + 1) of `now`. No contract of its own; characterised by `TomorrowIsNextDay` and `TomorrowStartsOneDayLater`. |
| Relative.IsYesterday | src/lib/is-yesterday.ts:14-24 | `isYesterday`: the fields of Date.UTC(year, month, date - 1) of `now`. No contract of its own; characterised by `YesterdayIsPreviousDay` and `AtMostOneOfThreeDays`. |
| Relative.ToNow | src/lib/to-now.ts:17-56 | `toNow`: the floors of the gap and the first bucket under its limit. No contract of its own; characterised by `ToNowIsPhraseOfGap`, `BucketedIsPhraseOf`, `JustNowWithinAMinute` and `CountIsPositive`. |
| Relative.FromNow | src/lib/from-now.ts:16-55 | `fromNow`: the same chain with the gap and its sign test flipped. No contract of its own; characterised by `FromNowIsToNow`. |
| Relative.CorrectedPhraseOf | src/lib/to-now.ts:50-56 | The phrase with the year bucket starting at 365 days. No contract of its own; characterised by `CorrectedCountIsPositive` and `ZeroYearsAhead`. |
| Relative.TodayIsSameDay | src/lib/is-today.ts:13-17 | `isToday` is `isSame(…, 'day')` with the clock, and holds exactly on the same day number. |
| Relative.TomorrowIsNextDay | src/lib/is-tomorrow.ts:14-24 | Outside years 0..99, `isTomorrow` holds exactly on the day after today, month and year ends included. |
| Relative.YesterdayIsPreviousDay | src/lib/is-yesterday.ts:14-24 | Outside years 0..99, `isYesterday` holds exactly on the day before today. |
| Relative.TomorrowStartsOneDayLater | src/lib/is-tomorrow.ts:14-24 | Outside years 0..99, `isTomorrow` holds exactly when the date's start of day is today's plus one day. |
| Relative.AtMostOneOfThreeDays | src/lib/is-today.ts:13-17 | For every date and clock, at most one of `isYesterday`, `isToday` and `isTomorrow` holds. |
| Relative.BucketedIsPhraseOf | src/lib/to-now.ts:22-56 | The chain of floors and limits is the floor of the gap over each unit's length, with millisecond thresholds. |
| Relative.ToNowIsPhraseOfGap | src/lib/to-now.ts:17-56 | `toNow` prints the phrase of `abs(date - now)`, ahead exactly when the date is later. |
| Relative.FromNowIsToNow | src/lib/from-now.ts:16-55 | `fromNow` and `toNow` are the same function for every date and clock. |
| Relative.JustNowWithinAMinute | src/lib/to-now.ts:31-33 | "just now" exactly for gaps under a minute; any longer gap is a count, ahead exactly when the date is later. |
| Relative.CountIsPositive | src/lib/to-now.ts:35-56 | Every printed count is at least 1, except gaps of 360 to 364 days, which print 0 years. |
| Relative.SayDirection | src/lib/to-now.ts:35-56 | A phrase ahead starts with `in `; one behind does not. |
| Relative.PluralIffNotOne | src/lib/to-now.ts:36-55 | The unit word ends in `s` exactly when the count is not 1. |
| Relative.SayParts | src/lib/to-now.ts:37-56 | Ahead is `in N unit`; behind is `N unit ago`. |
| Relative.ZeroYearsAhead | src/lib/to-now.ts:50-56 | 360 days ahead prints `in 0 years` as written and `in 12 months` corrected (see Findings). |
| Relative.CorrectedCountIsPositive | src/lib/to-now.ts:50-56 | With the year bucket from 365 days, every count is at least 1, and only 360..364 days change (to 12 months). |
| Relative.OneOfEachUnit | src/lib/to-now.test.ts:9-51 | One minute, one day, 30 days and 365 days ahead print a count of one; one day behind is `1 day ago`. |
| Relative.PluralExamples | src/lib/from-now.ts:34-56 | Five minutes behind is `5 minutes ago`; two hours ahead is `in 2 hours`. |
| Decimal.NatToStringRoundTrip | src/lib/format-date.ts:25 | `parseInt` reads back what `String(n)` wrote. |
| Decimal.Pad2RoundTrip | src/lib/format-date.ts:22 | `pad2` of 0..99 is two digits that read back as the value. |
| Decimal.LastTwoDigits | src/lib/format-date.ts:26 | The last two characters of `String(n)`, for `n >= 10`, are `pad2(n % 100)`. |
| JsMath.JsRem | src/lib/date-diff.ts:43 | JavaScript's `%` has the dividend's sign and the truncated quotient. |
| JsMath.NormalizedRem | src/lib/add-time.ts:38 | `((x % 12) + 12) % 12` is the non-negative residue. |
| JsMath.JsRemZero | src/lib/is-leap-year.ts:22 | JavaScript's `% n === 0` is divisibility. |
| Civil.LastDayIsLength | src/lib/days-in-month.ts:19 | Outside years 0..99, day 0 of the next month is the month's length. |
| Civil.DateUTCFields | src/lib/parse-date.ts:81-88 | Date.UTC on valid fields of a year outside 0..99 is the instant with those fields. |

## Left out

- Civil.DateUTC: the setters and Date.UTC never apply TimeClip, the ±8.64e15 ms limit that section 21.4.1 of ECMA-262 defines. Beyond it the library returns an Invalid Date from `addTime`, `setUnit` and `dateRange`; here instants are unbounded integers.
- Parsing.ParseDate: the `isNaN` check at parse-date.ts:90-92 after Date.UTC is not modelled. It cannot fire: every capture is at most four digits, so the fields stay far inside the TimeClip range.
- Parsing.ParseDate: the no-pattern branch (`new Date(dateString)`, parse-date.ts:17-23) is the platform's free-form parser. It is the parameter `native`, and only its success or failure is modelled. An empty pattern string is falsy and takes that branch too.
- Selection.MinDate, Selection.MaxDate, Selection.Min, Selection.Max, Selection.ClosestTo: return the position of the chosen date rather than the Date object, so that which of several equal dates is chosen stays observable.
- DateRange.DateRange: `requires start > end || Advances(step)` also excludes some inputs on which the library's loop ends. Example: {years: 1, months: -12, days: 1} with `start + 1 day > end` returns `[start]`. A calendar step must move forward on the month index, and a fixed step must be positive.
- DateRange.CheckedDateRange: also refuses a calendar step that does not move forward on the month index. The library may stop on such a step (an element passes `end`) or loop; the model does not decide which, so it does not compute that case.
- DateRange.CalendarRangeIncreasing: the strict increase is proved from a start year of 100 on. Earlier, Date.UTC's 0..99 quirk can move an element back by centuries.
- TimeArithmetic.AddTimeShifts: holds where the target year is outside 0..99 (`PlainYear`). Inside, Date.UTC reads the target as 1900 + y.
- WeekNumbers.WeekOfYearRange: holds outside years 0..99. In years 0..99 the week number is negative (EarlyYearsWeekNegative).
- Differences.YearsAreWholeYears: holds where the year before `left`'s is outside 0..99.
- Differences.MonthsElapsedBrackets: the lower bound is stated for days of month up to 28. For days 29-31, moving `right` forward can roll over into the next month under Date.UTC, and the lower bound is false.
- Parsing.FormatThenParse: stated for years 1000..9999, the years `YYYY` prints with exactly four digits.
- Formatting.FormatDate: the month names come from the parameter `names` (`MonthNames`, format.dfy) instead of `Intl` (`months(...)` in months.ts). The non-UTC `tz` path (`getPartsWithTZ`, format-date.ts:172-208, using `Intl.DateTimeFormat`) is dropped, and every instant is formatted in UTC.
- TimeArithmetic.AddTime: duration fields are unbounded integers rather than JavaScript numbers. Fractional and non-finite options and floating-point rounding are not modelled.
- Relative.ToNow, Relative.FromNow, Relative.IsToday, Relative.IsTomorrow, Relative.IsYesterday: `Date.now()` / `new Date()` is the parameter `now`.
- Formatting.CompileCached: the cache is a value passed in and returned rather than a module-level `Map`.
- The chainable and full wrappers (src/chainable, src/full), the locale configuration (config.ts, set-default-locale.ts), `isValidDate`, and the `Intl` helpers (src/core) are not part of this model.

## Findings

| source | as written | input that shows it | evidently intended | confidence | as-written member | corrected member |
|---|---|---|---|---|---|---|
| src/lib/date-diff.ts:42-43 (and difference.ts:27-28) | The adjusted date for `months` adds `Math.floor(totalMonths / 12)` years but drops the carry when `month + totalMonths % 12` passes December. | right 2024-11-15, left 2025-01-10: the adjusted date is 2024-01-15, not 2025-01-15. The count is 2, but only one month has elapsed. | Carry the month into the year: Date.UTC(year, month + totalMonths, …). | high, not executed | Differences.MonthsCarryLost | Differences.MonthsCarryKept, Differences.MonthsElapsedBrackets |
| src/lib/to-now.ts:50-56 (and from-now.ts:49-54) | Gaps of 360 to 364 days pass `months < 12` and print `years = floor(days / 365)`, which is 0. | a date 360 days ahead prints `in 0 years` | A count of at least 1: the year bucket starts at 365 days, and 360..364 days stay 12 months. | high, not executed | Relative.ZeroYearsAhead, Relative.CountIsPositive | Relative.CorrectedPhraseOf, Relative.CorrectedCountIsPositive |
| src/lib/parse-date.ts:81-82 | The captured year goes through Date.UTC, which reads 0..99 as 1900..1999. | `parseDate("0050-01-01 00:00:00", "YYYY-MM-DD HH:mm:ss")` is in 1950 | The four-digit year as written (set with `setUTCFullYear`). | medium, not executed | Parsing.TwoDigitYearIsShifted | Parsing.ParseDateFullYear, Parsing.FullYearKeepsFields |
| src/lib/week-of-year.ts:2-6 versus :30 | The documentation promises weeks 1-53, but the formula reaches 54. | 2000-12-31 (2000 is a leap year that began on a Saturday) is week 54 | The range the formula gives, 1..54, outside years 0..99. | high, not executed | WeekNumbers.LeapSaturdayYearHasWeek54 | WeekNumbers.WeekOfYearRange |
| src/lib/end-of.ts:13 with days-in-month.ts:19 | The month's last day is found with Date.UTC, which reads year 0 as 1900, a common year. | `endOf(0000-02-29, 'month')` is 0000-02-28T23:59:59.999, before the date | The real last day, so that the end is never before the date. | medium, not executed | Boundaries.EndOfMonthYearZero | Boundaries.CorrectedEndOf, Boundaries.CorrectedEndOfIsStartPlusSpan |
| src/lib/date-range.ts:55-64 | A negative fixed step never passes `end` once `start <= end`, so the `while (currentTime <= endTime)` loop never stops. | `dateRange(start, start, { days: -1 })` | Refuse a negative fixed step (or stop on it) instead of looping. | high, not executed | DateRange.NegativeStepNeverEnds | DateRange.CheckedDateRange, DateRange.CheckedFixedRange |
