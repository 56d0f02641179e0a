/**
  `parseDate` with an explicit pattern. The pattern is read left to right:
  `YYYY` captures four ASCII digits, `MM`, `DD`, `HH`, `mm` and `ss` capture
  two, every other character must appear as it is. The whole string must match
  (the expression is anchored at both ends). Every element has a fixed width,
  so the match is unique and no backtracking is involved. Fields the pattern
  lacks take defaults (1970, January, day 1, midnight); the date is built with
  `Date.UTC`, seconds precision.
*/
module Parsing {
  import opened Wrappers
  import opened Civil
  import opened Decimal
  import opened Formatting

  /** One element of the anchored expression. */
  datatype Piece = Capture(field: Token) | Exact(c: char)

  /** The tokens the parser knows, in the order it tries them. */
  predicate IsField(tok: Token) {
    tok == Year4 || tok == Month2 || tok == Day2 || tok == Hour2 || tok == Minute2 || tok == Second2
  }

  /** The expression a pattern is turned into; a character that starts no token must match itself. */
  function Translate(fmt: string): (ps: seq<Piece>)
    ensures forall i :: 0 <= i < |ps| && ps[i].Capture? ==> IsField(ps[i].field)
    decreases |fmt|
  {
    if fmt == [] then []
    else if Fits(Year4, fmt) then [Capture(Year4)] + Translate(fmt[4..])
    else if Fits(Month2, fmt) then [Capture(Month2)] + Translate(fmt[2..])
    else if Fits(Day2, fmt) then [Capture(Day2)] + Translate(fmt[2..])
    else if Fits(Hour2, fmt) then [Capture(Hour2)] + Translate(fmt[2..])
    else if Fits(Minute2, fmt) then [Capture(Minute2)] + Translate(fmt[2..])
    else if Fits(Second2, fmt) then [Capture(Second2)] + Translate(fmt[2..])
    else [Exact(fmt[0])] + Translate(fmt[1..])
  }

  /** The text one field captured. */
  datatype Captured = Captured(field: Token, digits: string)

  predicate AllCapturesDigits(caps: seq<Captured>) {
    forall i :: 0 <= i < |caps| ==> AllDigits(caps[i].digits)
  }

  /** How many characters an element consumes. */
  function PieceWidth(p: Piece): nat {
    match p
    case Capture(tok) => Width(tok)
    case Exact(_) => 1
  }

  function PatternWidth(ps: seq<Piece>): nat
    decreases |ps|
  {
    if ps == [] then 0 else PieceWidth(ps[0]) + PatternWidth(ps[1..])
  }

  /** The anchored match: `Some` with the captures in pattern order, or `None`. */
  function Match(s: string, ps: seq<Piece>): (r: Option<seq<Captured>>)
    ensures r.Some? ==> AllCapturesDigits(r.value) && |s| == PatternWidth(ps)
    decreases |ps|
  {
    if ps == [] then (if s == [] then Some([]) else None)
    else
      match ps[0]
      case Exact(c) =>
        if |s| > 0 && s[0] == c then Match(s[1..], ps[1..]) else None
      case Capture(tok) =>
        var w := Width(tok);
        if |s| >= w && AllDigits(s[..w]) then
          match Match(s[w..], ps[1..])
          case Some(rest) => Some([Captured(tok, s[..w])] + rest)
          case None => None
        else None
  }

  /** `parseInt(match[tokenOrder.indexOf(token) + 1], 10)`, or 0 when the token is absent. */
  function Lookup(caps: seq<Captured>, tok: Token): (v: nat)
    requires AllCapturesDigits(caps)
    decreases |caps|
  {
    if caps == [] then 0
    else if caps[0].field == tok then DigitsValue(caps[0].digits)
    else Lookup(caps[1..], tok)
  }

  /** `v || fallback` on a number: zero counts as absent. */
  function OrElse(v: int, fallback: int): int {
    if v == 0 then fallback else v
  }

  /** The fields a match read, with absent (zero) ones replaced by their defaults, months 0-based. */
  function CapturedFields(caps: seq<Captured>): Fields
    requires AllCapturesDigits(caps)
  {
    Fields(OrElse(Lookup(caps, Year4), 1970), OrElse(Lookup(caps, Month2), 1) - 1, OrElse(Lookup(caps, Day2), 1),
           Lookup(caps, Hour2), Lookup(caps, Minute2), Lookup(caps, Second2), 0)
  }

  /** The instant `Date.UTC` builds from the captured fields. */
  function FromCaptures(caps: seq<Captured>): Instant
    requires AllCapturesDigits(caps)
  {
    var f := CapturedFields(caps);
    DateUTC(f.year, f.month, f.date, f.hours, f.minutes, f.seconds, f.ms)
  }

  /**
    `parseDate(text, format)`. An empty or missing pattern hands the text to the
    platform's own date parser, which comes in as `native`.
  */
  function ParseDate(text: string, format: string, native: string -> Option<Instant>): (r: Result<Instant>)
    ensures r.Err? ==> r.message == "Invalid date"
    ensures format != [] ==> (r.Ok? <==> Match(text, Translate(format)).Some?)
    ensures format == [] ==> (r.Ok? <==> native(text).Some?)
  {
    if format == [] then
      match native(text)
      case Some(t) => Ok(t)
      case None => Err("Invalid date")
    else
      match Match(text, Translate(format))
      case Some(caps) => Ok(FromCaptures(caps))
      case None => Err("Invalid date")
  }

  // ---------------------------------------------------------------------------
  // Reading a pattern

  /** A field's letters become its capture, whatever follows. */
  lemma TranslateField(tok: Token, rest: string)
    requires IsField(tok)
    ensures Translate(Text(tok) + rest) == [Capture(tok)] + Translate(rest)
  {
    var s := Text(tok) + rest;
    assert Fits(tok, s);
    assert s[0] == Letter(tok);
    assert s[Width(tok)..] == rest;
  }

  /** A character that starts no token must match itself. */
  lemma TranslateChar(c: char, rest: string)
    requires !IsPatternLetter(c)
    ensures Translate([c] + rest) == [Exact(c)] + Translate(rest)
  {
    var s := [c] + rest;
    assert s[0] == c && s[1..] == rest;
  }

  /** A single `M`, `D` or `Y` is no field for the parser: `D/M/YYYY` expects the letters themselves. */
  lemma ShortLettersAreText(c: char, rest: string)
    requires c == 'M' || c == 'D' || c == 'Y'
    requires rest == [] || rest[0] != c
    ensures Translate([c] + rest) == [Exact(c)] + Translate(rest)
  {
    var s := [c] + rest;
    assert s[0] == c && s[1..] == rest;
    if |s| >= 2 { assert s[1] != c; }
  }

  // ---------------------------------------------------------------------------
  // Matching

  lemma MatchExact(c: char, rest: string, ps: seq<Piece>)
    ensures Match([c] + rest, [Exact(c)] + ps) == Match(rest, ps)
  {
    assert ([c] + rest)[1..] == rest;
    assert ([Exact(c)] + ps)[1..] == ps;
  }

  lemma MatchCapture(digits: string, rest: string, tok: Token, ps: seq<Piece>)
    requires |digits| == Width(tok) && AllDigits(digits)
    ensures Match(rest, ps).None? ==> Match(digits + rest, [Capture(tok)] + ps) == None
    ensures Match(rest, ps).Some? ==>
      Match(digits + rest, [Capture(tok)] + ps) == Some([Captured(tok, digits)] + Match(rest, ps).value)
  {
    var s := digits + rest;
    assert s[..Width(tok)] == digits && s[Width(tok)..] == rest;
    assert ([Capture(tok)] + ps)[1..] == ps;
  }

  /** The fields a pattern captures, in pattern order: the `tokenOrder` list of the source. */
  function TokenOrder(ps: seq<Piece>): seq<Token>
    decreases |ps|
  {
    if ps == [] then []
    else (if ps[0].Capture? then [ps[0].field] else []) + TokenOrder(ps[1..])
  }

  function FieldsOf(caps: seq<Captured>): seq<Token>
    decreases |caps|
  {
    if caps == [] then [] else [caps[0].field] + FieldsOf(caps[1..])
  }

  /** Group `k` of a match belongs to the `k`-th token of the pattern. */
  lemma {:induction false} MatchOrder(s: string, ps: seq<Piece>)
    requires Match(s, ps).Some?
    ensures FieldsOf(Match(s, ps).value) == TokenOrder(ps)
    decreases |ps|
  {
    if ps != [] {
      var w := PieceWidth(ps[0]);
      MatchOrder(s[w..], ps[1..]);
      match ps[0]
      case Exact(_) =>
      case Capture(tok) =>
        var caps := Match(s, ps).value;
        assert caps[1..] == Match(s[w..], ps[1..]).value;
    }
  }

  /** `indexOf` finds the first capture of a field; a field that was never captured reads 0. */
  lemma {:induction false} LookupFirst(caps: seq<Captured>, tok: Token, i: nat)
    requires AllCapturesDigits(caps)
    requires i < |caps| && caps[i].field == tok
    requires forall j :: 0 <= j < i ==> caps[j].field != tok
    ensures Lookup(caps, tok) == DigitsValue(caps[i].digits)
    decreases i
  {
    if i > 0 {
      assert caps[0].field != tok;
      LookupFirst(caps[1..], tok, i - 1);
    }
  }

  lemma {:induction false} LookupAbsent(caps: seq<Captured>, tok: Token)
    requires AllCapturesDigits(caps)
    requires forall j :: 0 <= j < |caps| ==> caps[j].field != tok
    ensures Lookup(caps, tok) == 0
    decreases |caps|
  {
    if caps != [] {
      LookupAbsent(caps[1..], tok);
    }
  }

  lemma LookupCons(c: Captured, rest: seq<Captured>)
    requires AllDigits(c.digits) && AllCapturesDigits(rest)
    ensures AllCapturesDigits([c] + rest)
    ensures forall tok :: Lookup([c] + rest, tok) == if c.field == tok then DigitsValue(c.digits) else Lookup(rest, tok)
  {
    var caps := [c] + rest;
    assert caps[0] == c && caps[1..] == rest;
  }

  // ---------------------------------------------------------------------------
  // Reading back what `formatDate` wrote

  /** A separator character followed by a field. */
  function FieldAfter(c: char, tok: Token): seq<Piece> {
    [Exact(c), Capture(tok)]
  }

  /** The expression for `YYYY-MM-DD HH:mm:ss`. */
  const DateTimePieces: seq<Piece> :=
    [Capture(Year4)] + (FieldAfter('-', Month2) + (FieldAfter('-', Day2) + (FieldAfter(' ', Hour2)
      + (FieldAfter(':', Minute2) + FieldAfter(':', Second2)))))

  lemma TranslateFieldAfter(c: char, tok: Token, rest: string)
    requires !IsPatternLetter(c) && IsField(tok)
    ensures Translate([c] + (Text(tok) + rest)) == FieldAfter(c, tok) + Translate(rest)
  {
    TranslateChar(c, Text(tok) + rest);
    TranslateField(tok, rest);
  }

  lemma TranslateDateTime()
    ensures Translate(DateTimePattern) == DateTimePieces
  {
    var s5 := "";
    var s4 := ":" + (Text(Second2) + s5);
    var s3 := ":" + (Text(Minute2) + s4);
    var s2 := " " + (Text(Hour2) + s3);
    var s1 := "-" + (Text(Day2) + s2);
    var s0 := "-" + (Text(Month2) + s1);
    TranslateField(Year4, s0);
    TranslateFieldAfter('-', Month2, s1);
    TranslateFieldAfter('-', Day2, s2);
    TranslateFieldAfter(' ', Hour2, s3);
    TranslateFieldAfter(':', Minute2, s4);
    TranslateFieldAfter(':', Second2, s5);
    assert FieldAfter(':', Second2) + [] == FieldAfter(':', Second2);
  }

  lemma MatchFieldAfter(c: char, digits: string, rest: string, tok: Token, ps: seq<Piece>)
    requires |digits| == Width(tok) && AllDigits(digits)
    requires Match(rest, ps).Some?
    ensures Match([c] + (digits + rest), FieldAfter(c, tok) + ps) == Some([Captured(tok, digits)] + Match(rest, ps).value)
  {
    assert FieldAfter(c, tok) + ps == [Exact(c)] + ([Capture(tok)] + ps);
    MatchExact(c, digits + rest, [Capture(tok)] + ps);
    MatchCapture(digits, rest, tok, ps);
  }

  /** The captures of a `YYYY-MM-DD HH:mm:ss` text, one per field. */
  function DateTimeCaptures(y: string, mo: string, d: string, h: string, mi: string, sec: string): seq<Captured> {
    [Captured(Year4, y)] + ([Captured(Month2, mo)] + ([Captured(Day2, d)] + ([Captured(Hour2, h)]
      + ([Captured(Minute2, mi)] + ([Captured(Second2, sec)] + [])))))
  }

  /** Field texts of the right widths match the date-time pattern, each in its own group. */
  lemma MatchDateTime(y: string, mo: string, d: string, h: string, mi: string, sec: string)
    requires |y| == 4 && |mo| == 2 && |d| == 2 && |h| == 2 && |mi| == 2 && |sec| == 2
    requires AllDigits(y) && AllDigits(mo) && AllDigits(d) && AllDigits(h) && AllDigits(mi) && AllDigits(sec)
    ensures Match(y + ("-" + (mo + ("-" + (d + (" " + (h + (":" + (mi + (":" + sec))))))))), DateTimePieces)
      == Some(DateTimeCaptures(y, mo, d, h, mi, sec))
  {
    var e: seq<Piece> := [];
    assert Match("", e) == Some([]);
    assert sec + "" == sec;
    MatchFieldAfter(':', sec, "", Second2, e);
    assert FieldAfter(':', Second2) + e == FieldAfter(':', Second2);
    var p4 := FieldAfter(':', Second2);
    var t4 := ":" + sec;
    MatchFieldAfter(':', mi, t4, Minute2, p4);
    var p3 := FieldAfter(':', Minute2) + p4;
    var t3 := ":" + (mi + t4);
    MatchFieldAfter(' ', h, t3, Hour2, p3);
    var p2 := FieldAfter(' ', Hour2) + p3;
    var t2 := " " + (h + t3);
    MatchFieldAfter('-', d, t2, Day2, p2);
    var p1 := FieldAfter('-', Day2) + p2;
    var t1 := "-" + (d + t2);
    MatchFieldAfter('-', mo, t1, Month2, p1);
    var p0 := FieldAfter('-', Month2) + p1;
    var t0 := "-" + (mo + t1);
    MatchCapture(y, t0, Year4, p0);
  }

  /** Reading the captures: every field is found, at its own group. */
  lemma LookupDateTime(y: string, mo: string, d: string, h: string, mi: string, sec: string)
    requires AllDigits(y) && AllDigits(mo) && AllDigits(d) && AllDigits(h) && AllDigits(mi) && AllDigits(sec)
    ensures AllCapturesDigits(DateTimeCaptures(y, mo, d, h, mi, sec))
    ensures var caps := DateTimeCaptures(y, mo, d, h, mi, sec);
      && Lookup(caps, Year4) == DigitsValue(y) && Lookup(caps, Month2) == DigitsValue(mo)
      && Lookup(caps, Day2) == DigitsValue(d) && Lookup(caps, Hour2) == DigitsValue(h)
      && Lookup(caps, Minute2) == DigitsValue(mi) && Lookup(caps, Second2) == DigitsValue(sec)
  {
    var c5: seq<Captured> := [];
    LookupCons(Captured(Second2, sec), c5);
    var c4 := [Captured(Second2, sec)] + c5;
    LookupCons(Captured(Minute2, mi), c4);
    var c3 := [Captured(Minute2, mi)] + c4;
    LookupCons(Captured(Hour2, h), c3);
    var c2 := [Captured(Hour2, h)] + c3;
    LookupCons(Captured(Day2, d), c2);
    var c1 := [Captured(Day2, d)] + c2;
    LookupCons(Captured(Month2, mo), c1);
    var c0 := [Captured(Month2, mo)] + c1;
    LookupCons(Captured(Year4, y), c0);
  }

  /** A `YYYY-MM-DD HH:mm:ss` text assembled from its field texts. */
  function JoinDateTime(y: string, mo: string, d: string, h: string, mi: string, sec: string): string {
    y + ("-" + (mo + ("-" + (d + (" " + (h + (":" + (mi + (":" + sec)))))))))
  }

  /** Any text of the date-time shape parses to what `Date.UTC` makes of its fields, zeros read as absent. */
  lemma ParseDateTimeDigits(y: string, mo: string, d: string, h: string, mi: string, sec: string, native: string -> Option<Instant>)
    requires |y| == 4 && |mo| == 2 && |d| == 2 && |h| == 2 && |mi| == 2 && |sec| == 2
    requires AllDigits(y) && AllDigits(mo) && AllDigits(d) && AllDigits(h) && AllDigits(mi) && AllDigits(sec)
    ensures ParseDate(JoinDateTime(y, mo, d, h, mi, sec), DateTimePattern, native)
      == Ok(DateUTC(OrElse(DigitsValue(y), 1970), OrElse(DigitsValue(mo), 1) - 1, OrElse(DigitsValue(d), 1),
                    DigitsValue(h), DigitsValue(mi), DigitsValue(sec), 0))
  {
    var text, caps := JoinDateTime(y, mo, d, h, mi, sec), DateTimeCaptures(y, mo, d, h, mi, sec);
    MatchJoined(y, mo, d, h, mi, sec);
    LookupDateTime(y, mo, d, h, mi, sec);
    var f := CapturedFields(caps);
    assert f == Fields(OrElse(DigitsValue(y), 1970), OrElse(DigitsValue(mo), 1) - 1, OrElse(DigitsValue(d), 1),
                       DigitsValue(h), DigitsValue(mi), DigitsValue(sec), 0);
    assert ParseDate(text, DateTimePattern, native) == Ok(FromCaptures(caps));
  }

  /** The joined field texts match the date-time pattern, one capture per field. */
  lemma MatchJoined(y: string, mo: string, d: string, h: string, mi: string, sec: string)
    requires |y| == 4 && |mo| == 2 && |d| == 2 && |h| == 2 && |mi| == 2 && |sec| == 2
    requires AllDigits(y) && AllDigits(mo) && AllDigits(d) && AllDigits(h) && AllDigits(mi) && AllDigits(sec)
    ensures DateTimePattern != []
    ensures Match(JoinDateTime(y, mo, d, h, mi, sec), Translate(DateTimePattern)) == Some(DateTimeCaptures(y, mo, d, h, mi, sec))
  {
    assert |Text(Year4)| == 4;
    TranslateDateTime();
    MatchDateTime(y, mo, d, h, mi, sec);
  }

  /** What `formatDate` prints with `YYYY-MM-DD HH:mm:ss` parses back to the same fields (years 1000 to 9999). */
  lemma ParseDateTimeText(p: DateParts, native: string -> Option<Instant>)
    requires InRange(p) && 1000 <= p.year <= 9999
    ensures ParseDate(DateTimeText(p), DateTimePattern, native)
      == Ok(DateUTC(p.year, p.month - 1, p.day, p.hour, p.minute, p.second, 0))
  {
    var y := IntToString(p.year);
    FourDigitYear(p.year);
    NatToStringRoundTrip(p.year);
    Pad2RoundTrip(p.month);
    Pad2RoundTrip(p.day);
    Pad2RoundTrip(p.hour);
    Pad2RoundTrip(p.minute);
    Pad2RoundTrip(p.second);
    ParseDateTimeDigits(y, Pad2(p.month), Pad2(p.day), Pad2(p.hour), Pad2(p.minute), Pad2(p.second), native);
  }

  /**
    Formatting with `YYYY-MM-DD HH:mm:ss` and parsing with the same pattern
    gives back the fields of the instant down to the second, in the years
    1000 to 9999; the milliseconds are not printed and read back as zero.
  */
  lemma FormatThenParseFields(t: Instant, names: MonthNames, native: string -> Option<Instant>)
    requires 1000 <= YearFromTime(t) <= 9999
    ensures ParseDate(FormatDate(t, DateTimePattern, names), DateTimePattern, native)
      == Ok(DateUTC(YearFromTime(t), MonthFromTime(t), DateFromTime(t), HourFromTime(t), MinFromTime(t), SecFromTime(t), 0))
  {
    var p := UtcParts(t);
    FormatDateTime(t, names);
    UtcPartsInRange(t);
    ParseDateTimeText(p, native);
  }

  /** The instant truncated to its second. */
  function WholeSecond(t: Instant): Instant {
    t - MsFromTime(t)
  }

  /** The instant with the same fields and no milliseconds is the instant truncated to its second. */
  lemma WholeSecondOf(t: Instant)
    requires PlainYear(YearFromTime(t))
    ensures DateUTC(YearFromTime(t), MonthFromTime(t), DateFromTime(t), HourFromTime(t), MinFromTime(t), SecFromTime(t), 0)
      == t - MsFromTime(t)
  {
    var f := ToFields(t);
    var g := f.(ms := 0);
    ToFieldsValid(t);
    DateUTCFields(g);
    TimeOfDayParts(t);
  }

  /**
    The round trip through the date-time pattern gives back the instant
    truncated to its second.
  */
  lemma FormatThenParse(t: Instant, names: MonthNames, native: string -> Option<Instant>)
    requires 1000 <= YearFromTime(t) <= 9999
    ensures ParseDate(FormatDate(t, DateTimePattern, names), DateTimePattern, native) == Ok(WholeSecond(t))
  {
    var w := DateUTC(YearFromTime(t), MonthFromTime(t), DateFromTime(t), HourFromTime(t), MinFromTime(t), SecFromTime(t), 0);
    var v := WholeSecond(t);
    var r := ParseDate(FormatDate(t, DateTimePattern, names), DateTimePattern, native);
    assert r == Ok(w) by { FormatThenParseFields(t, names, native); }
    assert w == v by { WholeSecondOf(t); }
    SameResult(r, w, v);
  }

  lemma SameResult(r: Result<Instant>, w: Instant, v: Instant)
    requires r == Ok(w) && w == v
    ensures r == Ok(v)
  {
  }

  // ---------------------------------------------------------------------------
  // Defaults

  /** The expression for `HH:mm`. */
  const ClockPieces: seq<Piece> := [Capture(Hour2)] + (FieldAfter(':', Minute2) + [])

  lemma TranslateClock()
    ensures Translate("HH:mm") == ClockPieces
  {
    assert "HH:mm" == Text(Hour2) + (":" + (Text(Minute2) + ""));
    TranslateField(Hour2, ":" + (Text(Minute2) + ""));
    TranslateFieldAfter(':', Minute2, "");
  }

  function ClockCaptures(h: string, mi: string): seq<Captured> {
    [Captured(Hour2, h)] + ([Captured(Minute2, mi)] + [])
  }

  lemma MatchClock(h: string, mi: string)
    requires |h| == 2 && |mi| == 2 && AllDigits(h) && AllDigits(mi)
    ensures Match(h + (":" + mi), ClockPieces) == Some(ClockCaptures(h, mi))
  {
    var e: seq<Piece> := [];
    assert Match("", e) == Some([]);
    assert mi + "" == mi;
    MatchFieldAfter(':', mi, "", Minute2, e);
    MatchCapture(h, ":" + mi, Hour2, FieldAfter(':', Minute2) + e);
  }

  lemma LookupClock(h: string, mi: string)
    requires AllDigits(h) && AllDigits(mi)
    ensures AllCapturesDigits(ClockCaptures(h, mi))
    ensures var caps := ClockCaptures(h, mi);
      && Lookup(caps, Hour2) == DigitsValue(h) && Lookup(caps, Minute2) == DigitsValue(mi)
      && Lookup(caps, Year4) == 0 && Lookup(caps, Month2) == 0 && Lookup(caps, Day2) == 0 && Lookup(caps, Second2) == 0
  {
    var c1: seq<Captured> := [];
    LookupCons(Captured(Minute2, mi), c1);
    LookupCons(Captured(Hour2, h), [Captured(Minute2, mi)] + c1);
  }

  /** A pattern with only the clock: the date defaults to 1970-01-01 and the seconds to 0. */
  lemma ClockOnly(h: string, mi: string, native: string -> Option<Instant>)
    requires |h| == 2 && |mi| == 2 && AllDigits(h) && AllDigits(mi)
    ensures ParseDate(h + (":" + mi), "HH:mm", native) == Ok(DateUTC(1970, 0, 1, DigitsValue(h), DigitsValue(mi), 0, 0))
  {
    TranslateClock();
    MatchClock(h, mi);
    LookupClock(h, mi);
  }

  lemma EpochDay()
    ensures DateUTC(1970, 0, 1, 14, 30, 0, 0) == 52200000
  {
  }

  /** `parseDate("14:30", "HH:mm")` is 1970-01-01T14:30:00Z. */
  lemma ClockOnlyExample(native: string -> Option<Instant>)
    ensures ParseDate("14:30", "HH:mm", native) == Ok(52200000)
  {
    var h, mi := "14", "30";
    assert DigitsValue(h) == 14 && DigitsValue(mi) == 30;
    assert "14:30" == h + (":" + mi);
    ClockOnly(h, mi, native);
    EpochDay();
  }

  /** A text that does not fit the pattern is rejected. */
  lemma MismatchRejected(native: string -> Option<Instant>)
    ensures ParseDate("15/06/2024", DateTimePattern, native) == Err("Invalid date")
  {
    TranslateDateTime();
    var s := "15/06/2024";
    assert |s| == 10;
    if Match(s, DateTimePieces).Some? {
      assert PatternWidth(DateTimePieces) == 19 by {
        DateTimeWidth();
      }
    }
  }

  lemma DateTimeWidth()
    ensures PatternWidth(DateTimePieces) == 19
  {
    var e: seq<Piece> := [];
    var p4 := FieldAfter(':', Second2);
    var p3 := FieldAfter(':', Minute2) + p4;
    var p2 := FieldAfter(' ', Hour2) + p3;
    var p1 := FieldAfter('-', Day2) + p2;
    var p0 := FieldAfter('-', Month2) + p1;
    assert PatternWidth(p4) == 3 by {
      WidthOfFieldAfter(':', Second2, e);
      assert p4 == p4 + e;
    }
    assert PatternWidth(p3) == 6 by { WidthOfFieldAfter(':', Minute2, p4); }
    assert PatternWidth(p2) == 9 by { WidthOfFieldAfter(' ', Hour2, p3); }
    assert PatternWidth(p1) == 12 by { WidthOfFieldAfter('-', Day2, p2); }
    assert PatternWidth(p0) == 15 by { WidthOfFieldAfter('-', Month2, p1); }
    assert ([Capture(Year4)] + p0)[1..] == p0;
  }

  lemma WidthOfFieldAfter(c: char, tok: Token, ps: seq<Piece>)
    ensures PatternWidth(FieldAfter(c, tok) + ps) == 1 + Width(tok) + PatternWidth(ps)
  {
    var q := FieldAfter(c, tok) + ps;
    assert q[1..][1..] == ps;
  }

  // ---------------------------------------------------------------------------
  // Years below 100

  /** The texts of 0050-01-01 00:00:00. */
  lemma YearFiftyDigits()
    ensures DigitsValue("0050") == 50 && DigitsValue("01") == 1 && DigitsValue("00") == 0
    ensures AllDigits("0050") && AllDigits("01") && AllDigits("00")
    ensures "0050-01-01 00:00:00" == JoinDateTime("0050", "01", "01", "00", "00", "00")
  {
    assert "0050"[..3] == "005" && "005"[..2] == "00" && "00"[..1] == "0" && "0"[..0] == "";
    assert "01"[..1] == "0";
  }

  /**
    As written, a four-digit year from 0001 to 0099 goes through `Date.UTC`,
    which reads it as 1901 to 1999: `0050-01-01 00:00:00` parses as 1950.
  */
  lemma TwoDigitYearIsShifted(native: string -> Option<Instant>)
    ensures ParseDate("0050-01-01 00:00:00", DateTimePattern, native) == Ok(FromFields(Fields(1950, 0, 1, 0, 0, 0, 0)))
    ensures ToFields(FromFields(Fields(1950, 0, 1, 0, 0, 0, 0))).year == 1950
  {
    YearFiftyDigits();
    ParseDateTimeDigits("0050", "01", "01", "00", "00", "00", native);
    var f := Fields(1950, 0, 1, 0, 0, 0, 0);
    assert DateUTC(50, 0, 1, 0, 0, 0, 0) == DateUTC(1950, 0, 1, 0, 0, 0, 0);
    DateUTCFields(f);
  }

  /** `parseDate` with the year set as written (as `setUTCFullYear` does) instead of through `Date.UTC`. */
  function ParseDateFullYear(text: string, format: string, native: string -> Option<Instant>): (r: Result<Instant>)
    ensures r.Err? <==> ParseDate(text, format, native).Err?
    ensures r.Err? ==> r.message == "Invalid date"
  {
    if format == [] then ParseDate(text, format, native)
    else
      match Match(text, Translate(format))
      case Some(caps) => Ok(FromFields(CapturedFields(caps)))
      case None => Err("Invalid date")
  }

  /** Where `Date.UTC` leaves the year alone (outside 0 to 99) the corrected parse agrees with the one as written. */
  lemma FullYearAgrees(text: string, format: string, native: string -> Option<Instant>)
    requires format != [] && Match(text, Translate(format)).Some?
    requires PlainYear(CapturedFields(Match(text, Translate(format)).value).year)
    ensures ParseDateFullYear(text, format, native) == ParseDate(text, format, native)
  {
  }

  /** The corrected parse reads a valid date-time back field for field, whatever its year above 0. */
  lemma FullYearKeepsFields(y: string, mo: string, d: string, h: string, mi: string, sec: string, f: Fields, native: string -> Option<Instant>)
    requires |y| == 4 && |mo| == 2 && |d| == 2 && |h| == 2 && |mi| == 2 && |sec| == 2
    requires AllDigits(y) && AllDigits(mo) && AllDigits(d) && AllDigits(h) && AllDigits(mi) && AllDigits(sec)
    requires f == Fields(DigitsValue(y), DigitsValue(mo) - 1, DigitsValue(d), DigitsValue(h), DigitsValue(mi), DigitsValue(sec), 0)
    requires f.Valid() && f.year != 0
    ensures ParseDateFullYear(JoinDateTime(y, mo, d, h, mi, sec), DateTimePattern, native) == Ok(FromFields(f))
    ensures ToFields(FromFields(f)) == f
  {
    MatchJoined(y, mo, d, h, mi, sec);
    LookupDateTime(y, mo, d, h, mi, sec);
    CapturesGiveFields(DateTimeCaptures(y, mo, d, h, mi, sec), f);
    FromFieldsRoundTrip(f);
  }

  /** Captures that hold every field, none of the date ones zero, read as exactly those fields. */
  lemma CapturesGiveFields(caps: seq<Captured>, f: Fields)
    requires AllCapturesDigits(caps) && f.year != 0 && f.month != -1 && f.date != 0 && f.ms == 0
    requires Lookup(caps, Year4) == f.year && Lookup(caps, Month2) == f.month + 1 && Lookup(caps, Day2) == f.date
    requires Lookup(caps, Hour2) == f.hours && Lookup(caps, Minute2) == f.minutes && Lookup(caps, Second2) == f.seconds
    ensures CapturedFields(caps) == f
  {
  }

  /** With the year set as written, `0050-01-01 00:00:00` is in the year 50. */
  lemma FullYearFifty(native: string -> Option<Instant>)
    ensures ParseDateFullYear("0050-01-01 00:00:00", DateTimePattern, native) == Ok(FromFields(Fields(50, 0, 1, 0, 0, 0, 0)))
    ensures ToFields(FromFields(Fields(50, 0, 1, 0, 0, 0, 0))).year == 50
  {
    YearFiftyDigits();
    FullYearKeepsFields("0050", "01", "01", "00", "00", "00", Fields(50, 0, 1, 0, 0, 0, 0), native);
  }
}
