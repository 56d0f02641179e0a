/**
  The clock-relative helpers: `isToday`, `isTomorrow`, `isYesterday`, `toNow`
  and `fromNow`. The clock read each of them makes (`new Date()`,
  `Date.now()`) is the parameter `now`.

  `isTomorrow` and `isYesterday` build the neighbouring day with
  `Date.UTC(year, month, date ± 1)`, so the day overflows into the month and
  the year, and a year 0..99 is read as 1900..1999.

  `toNow` and `fromNow` take floors of the absolute gap down the chain
  seconds, minutes, hours, days, then months of 30 days and years of 365
  days, and print the first count that is under its limit.
*/
module Relative {
  import opened Civil
  import opened Decimal
  import opened JsMath
  import Units
  import SameUnit
  import Boundaries

  // ---------------------------------------------------------------------------
  // Today, tomorrow, yesterday

  /** The UTC year, month and day of month of `a` are those of `b`. */
  predicate SameCalendarDay(a: Instant, b: Instant) {
    YearFromTime(a) == YearFromTime(b) && MonthFromTime(a) == MonthFromTime(b) && DateFromTime(a) == DateFromTime(b)
  }

  /** `isToday(date)`. */
  predicate IsToday(date: Instant, now: Instant) {
    SameCalendarDay(date, now)
  }

  /** `Date.UTC(year, month, date + shift)` on the fields of `now`: midnight of the day `shift` days on. */
  function ShiftedMidnight(now: Instant, shift: int): Instant {
    DateUTC(YearFromTime(now), MonthFromTime(now), DateFromTime(now) + shift, 0, 0, 0, 0)
  }

  /** `isTomorrow(date)`. */
  predicate IsTomorrow(date: Instant, now: Instant) {
    SameCalendarDay(date, ShiftedMidnight(now, 1))
  }

  /** `isYesterday(date)`. */
  predicate IsYesterday(date: Instant, now: Instant) {
    SameCalendarDay(date, ShiftedMidnight(now, -1))
  }

  /** Two instants share their calendar day exactly when they share their day number. */
  lemma SameCalendarDayIsSameDayNumber(a: Instant, b: Instant)
    ensures SameCalendarDay(a, b) <==> DayNumber(a) == DayNumber(b)
  {
    DateOfDay(a);
    DateOfDay(b);
  }

  /**
    `isToday(date)` is `isSame(date, now, 'day')`, and holds exactly when the
    two instants have the same day number, so from midnight to the last
    millisecond of the day.
  */
  lemma TodayIsSameDay(date: Instant, now: Instant)
    ensures IsToday(date, now) <==> SameUnit.IsSame(date, now, Units.Day)
    ensures IsToday(date, now) <==> DayNumber(date) == DayNumber(now)
  {
    SameCalendarDayIsSameDayNumber(date, now);
  }

  /** The day number of the shifted midnight, counted along the month index `i` of the year Date.UTC uses. */
  lemma ShiftedMidnightDay(now: Instant, shift: int, i: int)
    requires i == 12 * UtcYear(YearFromTime(now)) + MonthFromTime(now)
    ensures DayNumber(ShiftedMidnight(now, shift)) == MonthStart(i) + DateFromTime(now) + shift - 1
  {
    var y, m, e := UtcYear(YearFromTime(now)), MonthFromTime(now), DateFromTime(now) + shift;
    MakeDayMonthIndex(y, m, e, i);
    SplitMakeDate(MakeDay(y, m, e), MakeTime(0, 0, 0, 0));
  }

  /**
    Against the same month index, `now`'s own day number: the day before the
    shift when the year is one Date.UTC leaves alone, and more than two days
    earlier when Date.UTC moves the year 1900 years on.
  */
  lemma NowAgainstShift(now: Instant, i: int)
    requires i == 12 * UtcYear(YearFromTime(now)) + MonthFromTime(now)
    ensures PlainYear(YearFromTime(now)) ==> DayNumber(now) == MonthStart(i) + DateFromTime(now) - 1
    ensures !PlainYear(YearFromTime(now)) ==> DayNumber(now) + 2 < MonthStart(i) + DateFromTime(now) - 1
  {
    var y, m, d, day := YearFromTime(now), MonthFromTime(now), DateFromTime(now), DayNumber(now);
    DateOfDay(now);
    DayAgainstUtcIndex(y, m, d, day, i);
  }

  /** The day number of a date against the month index of the year Date.UTC reads for it. */
  lemma DayAgainstUtcIndex(y: int, m: int, d: int, day: int, i: int)
    requires 0 <= m < 12 && day == MakeDay(y, m, d) && i == 12 * UtcYear(y) + m
    ensures PlainYear(y) ==> day == MonthStart(i) + d - 1
    ensures !PlainYear(y) ==> day + 2 < MonthStart(i) + d - 1
  {
    var j := 12 * y + m;
    MakeDayMonthIndex(y, m, d, j);
    if !PlainYear(y) {
      MonthStartGrowth(j, i);
    }
  }

  /** Outside the years 0..99, `Date.UTC(year, month, date + shift)` is `shift` days after `now`'s day. */
  lemma ShiftedDayNumber(now: Instant, shift: int)
    requires PlainYear(YearFromTime(now))
    ensures DayNumber(ShiftedMidnight(now, shift)) == DayNumber(now) + shift
  {
    var i := 12 * UtcYear(YearFromTime(now)) + MonthFromTime(now);
    ShiftedMidnightDay(now, shift, i);
    NowAgainstShift(now, i);
  }

  /** Outside the years 0..99, `isTomorrow(date)` holds exactly on the day after `now`'s, month and year ends included. */
  lemma TomorrowIsNextDay(date: Instant, now: Instant)
    requires PlainYear(YearFromTime(now))
    ensures IsTomorrow(date, now) <==> DayNumber(date) == DayNumber(now) + 1
  {
    SameCalendarDayIsSameDayNumber(date, ShiftedMidnight(now, 1));
    ShiftedDayNumber(now, 1);
  }

  /** Outside the years 0..99, `isYesterday(date)` holds exactly on the day before `now`'s. */
  lemma YesterdayIsPreviousDay(date: Instant, now: Instant)
    requires PlainYear(YearFromTime(now))
    ensures IsYesterday(date, now) <==> DayNumber(date) == DayNumber(now) - 1
  {
    SameCalendarDayIsSameDayNumber(date, ShiftedMidnight(now, -1));
    ShiftedDayNumber(now, -1);
  }

  /** `startOf(t, 'day')` is midnight of the instant's day number. */
  lemma StartOfDayIsMidnight(t: Instant)
    ensures Boundaries.StartOf(t, Units.Day) == DayNumber(t) * MsPerDay
  {
  }

  /** Outside the years 0..99, `isTomorrow(date)` is `startOf(date, 'day') == startOf(now, 'day') + 86400000`. */
  lemma TomorrowStartsOneDayLater(date: Instant, now: Instant)
    requires PlainYear(YearFromTime(now))
    ensures IsTomorrow(date, now) <==> Boundaries.StartOf(date, Units.Day) == Boundaries.StartOf(now, Units.Day) + MsPerDay
  {
    TomorrowIsNextDay(date, now);
    StartOfDayIsMidnight(date);
    StartOfDayIsMidnight(now);
  }

  /** Whatever `date` and `now`, at most one of `isYesterday`, `isToday` and `isTomorrow` holds. */
  lemma AtMostOneOfThreeDays(date: Instant, now: Instant)
    ensures !(IsYesterday(date, now) && IsToday(date, now))
    ensures !(IsToday(date, now) && IsTomorrow(date, now))
    ensures !(IsYesterday(date, now) && IsTomorrow(date, now))
  {
    var i := 12 * UtcYear(YearFromTime(now)) + MonthFromTime(now);
    var before, after := -1, 1;
    ShiftedMidnightDay(now, before, i);
    ShiftedMidnightDay(now, after, i);
    NowAgainstShift(now, i);
    SameCalendarDayIsSameDayNumber(date, now);
    SameCalendarDayIsSameDayNumber(date, ShiftedMidnight(now, before));
    SameCalendarDayIsSameDayNumber(date, ShiftedMidnight(now, after));
  }

  // ---------------------------------------------------------------------------
  // toNow and fromNow

  /** The units a relative phrase counts in. */
  datatype Scale = Minute | Hour | Day | Month | Year

  /** What `toNow` and `fromNow` print: "just now", or a count of a unit, ahead ("in …") or behind ("… ago"). */
  datatype Phrase = JustNow | Span(count: nat, scale: Scale, future: bool)

  /** The floors of the absolute gap `absDiff` in milliseconds, and the first one under its limit. */
  function Bucketed(absDiff: nat, isFuture: bool): Phrase {
    var seconds := absDiff / 1000;
    var minutes := seconds / 60;
    var hours := minutes / 60;
    var days := hours / 24;
    var months := days / 30;
    var years := days / 365;
    if seconds < 60 then JustNow
    else if minutes < 60 then Span(minutes, Minute, isFuture)
    else if hours < 24 then Span(hours, Hour, isFuture)
    else if days < 30 then Span(days, Day, isFuture)
    else if months < 12 then Span(months, Month, isFuture)
    else Span(years, Year, isFuture)
  }

  /** `toNow(date)`: the gap is `date - now`, and it is ahead when positive. */
  function ToNowPhrase(date: Instant, now: Instant): Phrase {
    Bucketed(Abs(date - now), date - now > 0)
  }

  /** `fromNow(date)`: the gap is `now - date`, and it is ahead when negative. */
  function FromNowPhrase(date: Instant, now: Instant): Phrase {
    Bucketed(Abs(now - date), now - date < 0)
  }

  /** The word for one unit. */
  function Singular(scale: Scale): string {
    match scale
    case Minute => "minute"
    case Hour => "hour"
    case Day => "day"
    case Month => "month"
    case Year => "year"
  }

  /** The unit word for a count: singular for 1, with an `s` otherwise. */
  function UnitWord(count: nat, scale: Scale): string {
    if count == 1 then Singular(scale) else Singular(scale) + "s"
  }

  /** The text of a phrase: `in N unit` ahead, `N unit ago` behind. */
  function Say(p: Phrase): string {
    match p
    case JustNow => "just now"
    case Span(n, scale, future) =>
      if future then "in " + NatToString(n) + " " + UnitWord(n, scale)
      else NatToString(n) + " " + UnitWord(n, scale) + " ago"
  }

  function ToNow(date: Instant, now: Instant): string {
    Say(ToNowPhrase(date, now))
  }

  function FromNow(date: Instant, now: Instant): string {
    Say(FromNowPhrase(date, now))
  }

  // ---------------------------------------------------------------------------
  // The phrase on the millisecond gap

  /**
    The phrase stated on the gap in milliseconds: under a minute is "just
    now"; then minutes below an hour, hours below a day, days below 30 days,
    months of 30 days below 360 days, and years of 365 days beyond.
  */
  function PhraseOf(a: nat, future: bool): Phrase {
    if a < MsPerMinute then JustNow
    else if a < MsPerHour then Span(a / MsPerMinute, Minute, future)
    else if a < MsPerDay then Span(a / MsPerHour, Hour, future)
    else if a < 30 * MsPerDay then Span(a / MsPerDay, Day, future)
    else if a < 360 * MsPerDay then Span(a / (30 * MsPerDay), Month, future)
    else Span(a / (365 * MsPerDay), Year, future)
  }

  /** The chain of floors gives the floor of the gap over each unit's length, and the limits become millisecond thresholds. */
  lemma BucketedIsPhraseOf(a: nat, future: bool)
    ensures Bucketed(a, future) == PhraseOf(a, future)
  {
    SameUnit.NestedDiv(a, 1000, 60);
    SameUnit.NestedDiv(a, 60000, 60);
    SameUnit.NestedDiv(a, 3600000, 24);
    SameUnit.NestedDiv(a, 86400000, 30);
    SameUnit.NestedDiv(a, 86400000, 365);
  }

  /** `toNow` prints the phrase of the gap between `date` and `now`, ahead exactly when `date` is later. */
  lemma ToNowIsPhraseOfGap(date: Instant, now: Instant)
    ensures ToNowPhrase(date, now) == PhraseOf(Abs(date - now), date > now)
  {
    BucketedIsPhraseOf(Abs(date - now), date - now > 0);
  }

  /** `fromNow` and `toNow` are the same function: the gap and the test of its sign are both flipped. */
  lemma FromNowIsToNow(date: Instant, now: Instant)
    ensures FromNowPhrase(date, now) == ToNowPhrase(date, now)
    ensures FromNow(date, now) == ToNow(date, now)
  {
    assert Abs(now - date) == Abs(date - now);
  }

  /** A gap under a minute, either way, is "just now"; any longer gap is a count ahead exactly when `date` is later. */
  lemma JustNowWithinAMinute(date: Instant, now: Instant)
    ensures ToNow(date, now) == "just now" <==> Abs(date - now) < MsPerMinute
    ensures Abs(date - now) >= MsPerMinute ==> ToNowPhrase(date, now).Span? && (ToNowPhrase(date, now).future <==> date > now)
  {
    ToNowIsPhraseOfGap(date, now);
    var p := ToNowPhrase(date, now);
    if p.Span? {
      SayNotJustNow(p);
    }
  }

  lemma SayNotJustNow(p: Phrase)
    requires p.Span?
    ensures Say(p) != "just now"
  {
    var digits := NatToString(p.count);
    assert "just now"[0] == 'j';
    if !p.future {
      assert Say(p)[0] == digits[0];
      assert IsDigit(digits[0]);
    } else {
      assert Say(p)[0] == 'i';
    }
  }

  /** Every printed count is at least 1, except for gaps of 360 to 364 days, which print 0 years. */
  lemma CountIsPositive(a: nat, future: bool)
    ensures PhraseOf(a, future).Span? ==>
      (PhraseOf(a, future).count == 0 <==> 360 * MsPerDay <= a < 365 * MsPerDay)
    ensures 360 * MsPerDay <= a < 365 * MsPerDay ==> PhraseOf(a, future) == Span(0, Year, future)
  {
  }

  // ---------------------------------------------------------------------------
  // What the text says

  /** A phrase ahead starts with "in "; one behind starts with a digit. */
  lemma SayDirection(p: Phrase)
    requires p.Span?
    ensures |Say(p)| >= 3 && (Say(p)[..3] == "in " <==> p.future)
  {
    var digits := NatToString(p.count);
    if !p.future {
      assert Say(p) == digits + (" " + UnitWord(p.count, p.scale) + " ago");
      assert Say(p)[0] == digits[0];
      assert IsDigit(digits[0]);
    }
  }

  /** The unit word ends in `s` exactly when the count is not 1. */
  lemma PluralIffNotOne(count: nat, scale: Scale)
    ensures |UnitWord(count, scale)| >= 3
    ensures UnitWord(count, scale)[|UnitWord(count, scale)| - 1] == 's' <==> count != 1
  {
  }

  /** The phrase ahead is "in", the count, and the unit word; the phrase behind is the count, the unit word and "ago". */
  lemma SayParts(p: Phrase)
    requires p.Span?
    ensures p.future ==> Say(p)[3..] == NatToString(p.count) + " " + UnitWord(p.count, p.scale)
    ensures !p.future ==> Say(p)[..|Say(p)| - 4] == NatToString(p.count) + " " + UnitWord(p.count, p.scale)
    ensures !p.future ==> Say(p)[|Say(p)| - 4..] == " ago"
  {
    var body := NatToString(p.count) + " " + UnitWord(p.count, p.scale);
    if p.future {
      assert Say(p) == "in " + body;
    } else {
      assert Say(p) == body + " ago";
    }
  }

  // ---------------------------------------------------------------------------
  // Corrected years

  /** The phrase with the year bucket starting at 365 days, so that 360 to 364 days stay 12 months. */
  function CorrectedPhraseOf(a: nat, future: bool): Phrase {
    if a < 360 * MsPerDay then PhraseOf(a, future)
    else if a < 365 * MsPerDay then Span(a / (30 * MsPerDay), Month, future)
    else Span(a / (365 * MsPerDay), Year, future)
  }

  /** `toNow` with the corrected year bucket. */
  function CorrectedToNow(date: Instant, now: Instant): string {
    Say(CorrectedPhraseOf(Abs(date - now), date > now))
  }

  /** With the corrected bucket every printed count is at least 1, and nothing changes outside 360 to 364 days. */
  lemma CorrectedCountIsPositive(a: nat, future: bool)
    ensures CorrectedPhraseOf(a, future).Span? ==> CorrectedPhraseOf(a, future).count >= 1
    ensures !(360 * MsPerDay <= a < 365 * MsPerDay) ==> CorrectedPhraseOf(a, future) == PhraseOf(a, future)
    ensures 360 * MsPerDay <= a < 365 * MsPerDay ==> CorrectedPhraseOf(a, future) == Span(12, Month, future)
  {
  }

  /** As written, a date 360 days ahead prints "in 0 years"; corrected, "in 12 months". */
  lemma ZeroYearsAhead(now: Instant)
    ensures ToNow(now + 360 * MsPerDay, now) == "in 0 years"
    ensures CorrectedToNow(now + 360 * MsPerDay, now) == "in 12 months"
  {
    var date := now + 360 * MsPerDay;
    ToNowIsPhraseOfGap(date, now);
    assert ToNowPhrase(date, now) == Span(0, Year, true);
    assert NatToString(12) == "12";
  }

  // ---------------------------------------------------------------------------
  // Examples

  /** One minute, one day, 30 days and 365 days ahead print a count of one; one day behind prints "1 day ago". */
  lemma OneOfEachUnit(now: Instant)
    ensures ToNow(now + 60000, now) == "in 1 minute"
    ensures ToNow(now + 86400000, now) == "in 1 day"
    ensures ToNow(now + 2592000000, now) == "in 1 month"
    ensures ToNow(now + 31536000000, now) == "in 1 year"
    ensures ToNow(now - 86400000, now) == "1 day ago"
  {
    ToNowIsPhraseOfGap(now + 60000, now);
    ToNowIsPhraseOfGap(now + 86400000, now);
    ToNowIsPhraseOfGap(now + 2592000000, now);
    ToNowIsPhraseOfGap(now + 31536000000, now);
    ToNowIsPhraseOfGap(now - 86400000, now);
  }

  /** Five minutes behind is "5 minutes ago" and two hours ahead "in 2 hours", by either function. */
  lemma PluralExamples(now: Instant)
    ensures FromNow(now - 300000, now) == "5 minutes ago"
    ensures FromNow(now + 7200000, now) == "in 2 hours"
  {
    FromNowIsToNow(now - 300000, now);
    FromNowIsToNow(now + 7200000, now);
    ToNowIsPhraseOfGap(now - 300000, now);
    ToNowIsPhraseOfGap(now + 7200000, now);
  }
}
