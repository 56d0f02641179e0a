/**
  `minDate`, `maxDate`, `min`, `max` and `closestTo`: one pass over an array
  of dates keeping the best so far. Each returns the position of the element
  it picks, so the tie-breaking of the loops is visible; the source returns
  that element itself.
*/
module Selection {
  import opened Wrappers
  import opened Civil
  import JsMath

  /** Position `i` holds the first least element of `s`. */
  predicate IsFirstMin(s: seq<Instant>, i: int) {
    0 <= i < |s| && (forall j :: 0 <= j < |s| ==> s[i] <= s[j]) && (forall j :: 0 <= j < i ==> s[j] > s[i])
  }

  /** Position `i` holds the first greatest element of `s`. */
  predicate IsFirstMax(s: seq<Instant>, i: int) {
    0 <= i < |s| && (forall j :: 0 <= j < |s| ==> s[i] >= s[j]) && (forall j :: 0 <= j < i ==> s[j] < s[i])
  }

  /** Only one position can hold the first least element. */
  lemma FirstMinUnique(s: seq<Instant>, i: int, k: int)
    requires IsFirstMin(s, i) && IsFirstMin(s, k)
    ensures i == k
  {
    assert s[i] <= s[k] && s[k] <= s[i];
  }

  /** Only one position can hold the first greatest element. */
  lemma FirstMaxUnique(s: seq<Instant>, i: int, k: int)
    requires IsFirstMax(s, i) && IsFirstMax(s, k)
    ensures i == k
  {
    assert s[i] >= s[k] && s[k] >= s[i];
  }

  /** `minDate(...dates)`: starts from the first date and replaces it on a strictly earlier one. */
  method MinDate(dates: seq<Instant>) returns (r: Result<nat>)
    ensures r.Ok? <==> |dates| > 0
    ensures r.Err? ==> r.message == "minDate requires at least one date"
    ensures r.Ok? ==> IsFirstMin(dates, r.value)
  {
    if |dates| == 0 {
      return Err("minDate requires at least one date");
    }
    var best := 0;
    var i := 1;
    while i < |dates|
      invariant 1 <= i <= |dates| && best < i
      invariant forall j :: 0 <= j < i ==> dates[best] <= dates[j]
      invariant forall j :: 0 <= j < best ==> dates[j] > dates[best]
    {
      if dates[i] < dates[best] {
        best := i;
      }
      i := i + 1;
    }
    return Ok(best);
  }

  /** `maxDate(...dates)`: starts from the first date and replaces it on a strictly later one. */
  method MaxDate(dates: seq<Instant>) returns (r: Result<nat>)
    ensures r.Ok? <==> |dates| > 0
    ensures r.Err? ==> r.message == "maxDate requires at least one date"
    ensures r.Ok? ==> IsFirstMax(dates, r.value)
  {
    if |dates| == 0 {
      return Err("maxDate requires at least one date");
    }
    var best := 0;
    var i := 1;
    while i < |dates|
      invariant 1 <= i <= |dates| && best < i
      invariant forall j :: 0 <= j < i ==> dates[best] >= dates[j]
      invariant forall j :: 0 <= j < best ==> dates[j] < dates[best]
    {
      if dates[i] > dates[best] {
        best := i;
      }
      i := i + 1;
    }
    return Ok(best);
  }

  /** `min(...dates)`: the loop visits every date, the first one included, comparing with `<`. */
  method Min(dates: seq<Instant>) returns (r: Result<nat>)
    ensures r.Ok? <==> |dates| > 0
    ensures r.Err? ==> r.message == "min requires at least one date"
    ensures r.Ok? ==> IsFirstMin(dates, r.value)
  {
    if |dates| == 0 {
      return Err("min requires at least one date");
    }
    var best := 0;
    var i := 0;
    while i < |dates|
      invariant 0 <= i <= |dates| && best < |dates| && best <= i
      invariant forall j :: 0 <= j < i ==> dates[best] <= dates[j]
      invariant forall j :: 0 <= j < best ==> dates[j] > dates[best]
    {
      if dates[i] < dates[best] {
        best := i;
      }
      i := i + 1;
    }
    return Ok(best);
  }

  /** `max(...dates)`: the same loop as `maxDate`, with its own message. */
  method Max(dates: seq<Instant>) returns (r: Result<nat>)
    ensures r.Ok? <==> |dates| > 0
    ensures r.Err? ==> r.message == "max requires at least one date"
    ensures r.Ok? ==> IsFirstMax(dates, r.value)
  {
    if |dates| == 0 {
      return Err("max requires at least one date");
    }
    var best := 0;
    var i := 1;
    while i < |dates|
      invariant 1 <= i <= |dates| && best < i
      invariant forall j :: 0 <= j < i ==> dates[best] >= dates[j]
      invariant forall j :: 0 <= j < best ==> dates[j] < dates[best]
    {
      if dates[i] > dates[best] {
        best := i;
      }
      i := i + 1;
    }
    return Ok(best);
  }

  /**
    `minDate` and `min` pick the same position for every list, and so do
    `maxDate` and `max`: the first least (greatest) date is unique. Only
    their error messages for the empty list differ.
  */
  method MinAgreesWithMinDate(dates: seq<Instant>) returns (viaMinDate: Result<nat>, viaMin: Result<nat>)
    ensures viaMinDate.Ok? == viaMin.Ok? && (viaMin.Ok? ==> viaMinDate.value == viaMin.value)
  {
    viaMinDate := MinDate(dates);
    viaMin := Min(dates);
    if viaMinDate.Ok? && viaMin.Ok? {
      FirstMinUnique(dates, viaMinDate.value, viaMin.value);
    }
  }

  method MaxAgreesWithMaxDate(dates: seq<Instant>) returns (viaMaxDate: Result<nat>, viaMax: Result<nat>)
    ensures viaMaxDate.Ok? == viaMax.Ok? && (viaMax.Ok? ==> viaMaxDate.value == viaMax.value)
  {
    viaMaxDate := MaxDate(dates);
    viaMax := Max(dates);
    if viaMaxDate.Ok? && viaMax.Ok? {
      FirstMaxUnique(dates, viaMaxDate.value, viaMax.value);
    }
  }

  /** Position `i` holds the first element nearest to `target`. */
  predicate IsFirstClosest(s: seq<Instant>, target: Instant, i: int) {
    && 0 <= i < |s|
    && (forall j :: 0 <= j < |s| ==> JsMath.Abs(s[i] - target) <= JsMath.Abs(s[j] - target))
    && (forall j :: 0 <= j < i ==> JsMath.Abs(s[j] - target) > JsMath.Abs(s[i] - target))
  }

  /**
    `closestTo(target, dates)`: null for no dates; otherwise a strict `<` on the
    distance, starting from an infinite best distance, so the first date is
    always taken and ties keep the earlier one.
  */
  method ClosestTo(target: Instant, dates: seq<Instant>) returns (r: Option<nat>)
    ensures r.None? <==> |dates| == 0
    ensures r.Some? ==> IsFirstClosest(dates, target, r.value)
  {
    if |dates| == 0 {
      return None;
    }
    var closest: Option<nat> := None;
    var minDiff: Option<nat> := None;
    var i := 0;
    while i < |dates|
      invariant 0 <= i <= |dates|
      invariant closest.None? <==> i == 0
      invariant minDiff.None? <==> i == 0
      invariant closest.Some? ==> closest.value < i && minDiff.value == JsMath.Abs(dates[closest.value] - target)
      invariant closest.Some? ==> forall j :: 0 <= j < i ==> minDiff.value <= JsMath.Abs(dates[j] - target)
      invariant closest.Some? ==> forall j :: 0 <= j < closest.value ==> JsMath.Abs(dates[j] - target) > minDiff.value
    {
      var diff := JsMath.Abs(dates[i] - target);
      if minDiff.None? || diff < minDiff.value {
        minDiff := Some(diff);
        closest := Some(i);
      }
      i := i + 1;
    }
    return closest;
  }

  /** A date equal to the target is picked when there is one (the first such date). */
  lemma ClosestIsExact(s: seq<Instant>, target: Instant, i: int, k: int)
    requires IsFirstClosest(s, target, i) && 0 <= k < |s| && s[k] == target
    ensures s[i] == target && i <= k
  {
    assert JsMath.Abs(s[k] - target) == 0;
  }
}
