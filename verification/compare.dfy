/**
  The ordering predicates `isBefore`, `isAfter`, `isEqual`, `isBetween` and
  `clampDate`: comparisons of the millisecond values of the instants.
*/
module Comparison {
  import opened Civil
  import opened JsMath

  /** `isBefore(left, right)`. */
  predicate IsBefore(a: Instant, b: Instant) { a < b }

  /** `isAfter(left, right)`. */
  predicate IsAfter(a: Instant, b: Instant) { a > b }

  /** `isEqual(left, right)`: the same millisecond. */
  predicate IsEqual(a: Instant, b: Instant) { a == b }

  /** isBefore is a strict order, isAfter its converse, and exactly one of the three holds. */
  lemma OrderLaws(a: Instant, b: Instant, c: Instant)
    ensures !IsBefore(a, a) && !IsAfter(a, a) && IsEqual(a, a)
    ensures IsBefore(a, b) ==> !IsBefore(b, a)
    ensures IsBefore(a, b) && IsBefore(b, c) ==> IsBefore(a, c)
    ensures IsAfter(a, b) == IsBefore(b, a)
    ensures IsEqual(a, b) == IsEqual(b, a)
    ensures (if IsBefore(a, b) then 1 else 0) + (if IsEqual(a, b) then 1 else 0) + (if IsAfter(a, b) then 1 else 0) == 1
  {
  }

  /** A difference of one millisecond is seen by all three. */
  lemma OneMillisecondApart(a: Instant)
    ensures IsBefore(a, a + 1) && IsAfter(a + 1, a) && !IsEqual(a, a + 1)
  {
  }

  // ---------------------------------------------------------------------------
  // isBetween

  /** The four inclusivity strings: `[]`, `()`, `[)` and `(]`. */
  datatype Inclusivity = Closed | Open | ClosedOpen | OpenClosed

  /** The inclusivity used when the argument is omitted. */
  const DefaultInclusivity := Closed

  /** `isBetween(date, start, end, inclusivity)`: the bounds are put in order first. */
  predicate IsBetween(t: Instant, start: Instant, end: Instant, mode: Inclusivity) {
    var lo := if start < end then start else end;
    var hi := if start < end then end else start;
    match mode
    case Closed => lo <= t <= hi
    case Open => lo < t < hi
    case ClosedOpen => lo <= t < hi
    case OpenClosed => lo < t <= hi
  }

  /** The inclusion tests against the smaller and the larger bound. */
  lemma IsBetweenMeaning(t: Instant, start: Instant, end: Instant)
    ensures var lo, hi := Min(start, end), Max(start, end);
      && (IsBetween(t, start, end, Closed) <==> lo <= t && t <= hi)
      && (IsBetween(t, start, end, Open) <==> lo < t && t < hi)
      && (IsBetween(t, start, end, ClosedOpen) <==> lo <= t && t < hi)
      && (IsBetween(t, start, end, OpenClosed) <==> lo < t && t <= hi)
  {
  }


  /** Swapping the bounds never changes the answer. */
  lemma IsBetweenSymmetric(t: Instant, start: Instant, end: Instant, mode: Inclusivity)
    ensures IsBetween(t, start, end, mode) == IsBetween(t, end, start, mode)
  {
  }

  /** The open test implies both half-open ones, and each of those the closed one. */
  lemma InclusivityOrder(t: Instant, start: Instant, end: Instant)
    ensures IsBetween(t, start, end, Open) ==> IsBetween(t, start, end, ClosedOpen)
    ensures IsBetween(t, start, end, Open) ==> IsBetween(t, start, end, OpenClosed)
    ensures IsBetween(t, start, end, ClosedOpen) ==> IsBetween(t, start, end, Closed)
    ensures IsBetween(t, start, end, OpenClosed) ==> IsBetween(t, start, end, Closed)
  {
  }

  /** With the bounds in order, `()` and `(]` exclude the start and `[)` the end; `[]` includes both. */
  lemma BoundsIncluded(start: Instant, end: Instant)
    requires start <= end
    ensures !IsBetween(start, start, end, Open) && !IsBetween(start, start, end, OpenClosed)
    ensures !IsBetween(end, start, end, ClosedOpen)
    ensures IsBetween(start, start, end, Closed) && IsBetween(end, start, end, Closed)
  {
  }

  /** With equal bounds only `[]` can hold, and only at that instant. */
  lemma EmptyInterval(t: Instant, s: Instant, mode: Inclusivity)
    ensures IsBetween(t, s, s, mode) <==> mode == Closed && t == s
  {
  }

  // ---------------------------------------------------------------------------
  // clampDate

  /** `clampDate(date, min, max)`: the lower bound is compared first. */
  function ClampDate(t: Instant, lo: Instant, hi: Instant): (r: Instant)
    ensures r == t || r == lo || r == hi
  {
    if t < lo then lo
    else if t > hi then hi
    else t
  }

  /** With ordered bounds the result lies between them and is the date exactly when the date already does. */
  lemma ClampInRange(t: Instant, lo: Instant, hi: Instant)
    requires lo <= hi
    ensures IsBetween(ClampDate(t, lo, hi), lo, hi, Closed)
    ensures ClampDate(t, lo, hi) == t <==> IsBetween(t, lo, hi, Closed)
    ensures t < lo ==> ClampDate(t, lo, hi) == lo
    ensures t > hi ==> ClampDate(t, lo, hi) == hi
  {
  }

  /** Clamping twice is clamping once, when the bounds are in order. */
  lemma ClampIdempotent(t: Instant, lo: Instant, hi: Instant)
    requires lo <= hi
    ensures ClampDate(ClampDate(t, lo, hi), lo, hi) == ClampDate(t, lo, hi)
  {
  }

  /** Equal bounds always give that bound; a date equal to a bound comes back as it is. */
  lemma ClampEdges(t: Instant, lo: Instant, hi: Instant)
    ensures ClampDate(t, lo, lo) == lo
    ensures lo <= hi && (t == lo || t == hi) ==> ClampDate(t, lo, hi) == t
  {
  }

  /** With reversed bounds the date itself is never returned unless it equals a bound. */
  lemma ClampReversedBounds(t: Instant, lo: Instant, hi: Instant)
    requires lo > hi
    ensures ClampDate(t, lo, hi) == (if t < lo then lo else hi)
  {
  }
}
