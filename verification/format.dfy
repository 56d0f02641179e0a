/**
  `formatDate` in UTC: a pattern is compiled into parts (tokens and literal
  text), the instant is split into its UTC parts, and each token is replaced by
  its rendering. Text inside `[...]` is copied without looking for tokens.
  The locale's month names come in as a parameter.
*/
module Formatting {
  import opened Wrappers
  import opened Civil
  import opened Decimal

  // ---------------------------------------------------------------------------
  // Tokens

  datatype Token =
    | Year4 | Year2
    | Month1 | Month2 | MonthShort | MonthLong
    | Day1 | Day2
    | Hour1 | Hour2
    | Minute1 | Minute2
    | Second1 | Second2

  /** Every token is a run of one pattern letter. */
  function Letter(tok: Token): char {
    match tok
    case Year4 | Year2 => 'Y'
    case Month1 | Month2 | MonthShort | MonthLong => 'M'
    case Day1 | Day2 => 'D'
    case Hour1 | Hour2 => 'H'
    case Minute1 | Minute2 => 'm'
    case Second1 | Second2 => 's'
  }

  function Width(tok: Token): nat {
    match tok
    case Year4 | MonthLong => 4
    case MonthShort => 3
    case Year2 | Month2 | Day2 | Hour2 | Minute2 | Second2 => 2
    case Month1 | Day1 | Hour1 | Minute1 | Second1 => 1
  }

  /** The letters that stand for a token in a pattern. */
  function Text(tok: Token): (w: string)
    ensures |w| == Width(tok) && forall i :: 0 <= i < |w| ==> w[i] == Letter(tok)
  {
    match tok
    case Year4 => "YYYY"
    case Year2 => "YY"
    case Month1 => "M"
    case Month2 => "MM"
    case MonthShort => "MMM"
    case MonthLong => "MMMM"
    case Day1 => "D"
    case Day2 => "DD"
    case Hour1 => "H"
    case Hour2 => "HH"
    case Minute1 => "m"
    case Minute2 => "mm"
    case Second1 => "s"
    case Second2 => "ss"
  }

  /** `s` begins with the token's letters. */
  predicate Fits(tok: Token, s: string) {
    Width(tok) <= |s| && forall i :: 0 <= i < Width(tok) ==> s[i] == Letter(tok)
  }

  lemma FitsIsPrefix(tok: Token, s: string)
    ensures Fits(tok, s) <==> Text(tok) <= s
  {
    if Fits(tok, s) {
      assert Text(tok) == s[..Width(tok)];
    }
  }

  /** The alternatives of the token expression, in the order the expression lists them. */
  const Alternatives: seq<Token> := [
    Year4, MonthLong, MonthShort, Year2, Month2, Month1, Day2, Day1,
    Hour2, Hour1, Minute2, Minute1, Second2, Second1]

  lemma AlternativesComplete(tok: Token)
    ensures tok in Alternatives
  {
  }

  /** The first alternative from index `k` on that fits at the start of `s` (or `|Alternatives|`). */
  function FirstAlternative(s: string, k: nat): (j: nat)
    requires k <= |Alternatives|
    ensures k <= j <= |Alternatives|
    decreases |Alternatives| - k
  {
    if k == |Alternatives| then k
    else if Fits(Alternatives[k], s) then k
    else FirstAlternative(s, k + 1)
  }

  /** The alternative found fits, and none listed before it does. */
  lemma {:induction false} FirstAlternativeIsFirst(s: string, k: nat)
    requires k <= |Alternatives|
    ensures FirstAlternative(s, k) < |Alternatives| ==> Fits(Alternatives[FirstAlternative(s, k)], s)
    ensures forall i :: k <= i < FirstAlternative(s, k) ==> !Fits(Alternatives[i], s)
    decreases |Alternatives| - k
  {
    if k < |Alternatives| && !Fits(Alternatives[k], s) {
      FirstAlternativeIsFirst(s, k + 1);
    }
  }

  /** What the token expression matches at the start of `s`: the first listed alternative that fits. */
  function MatchToken(s: string): (r: Option<Token>)
    ensures r.Some? ==> Fits(r.value, s)
    ensures r.None? ==> forall i :: 0 <= i < |Alternatives| ==> !Fits(Alternatives[i], s)
  {
    FirstAlternativeIsFirst(s, 0);
    var j := FirstAlternative(s, 0);
    if j < |Alternatives| then Some(Alternatives[j]) else None
  }

  /** No token starts at a character that is not one of the pattern letters. */
  predicate IsPatternLetter(c: char) {
    c == 'Y' || c == 'M' || c == 'D' || c == 'H' || c == 'm' || c == 's'
  }

  lemma NoMatchWithoutLetter(s: string)
    requires |s| > 0 && !IsPatternLetter(s[0])
    ensures MatchToken(s) == None
  {
    forall i | 0 <= i < |Alternatives|
      ensures !Fits(Alternatives[i], s)
    {
      assert Letter(Alternatives[i]) != s[0];
    }
  }

  /** Moving the first character of `b` to the end of `a` keeps the concatenation. */
  lemma ShiftChar(a: string, b: string)
    requires |b| > 0
    ensures a + b == (a + [b[0]]) + b[1..]
  {
  }

  /** Where each token stands in the list of alternatives. */
  function Rank(tok: Token): (k: nat)
    ensures k < |Alternatives| && Alternatives[k] == tok
  {
    match tok
    case Year4 => 0
    case MonthLong => 1
    case MonthShort => 2
    case Year2 => 3
    case Month2 => 4
    case Month1 => 5
    case Day2 => 6
    case Day1 => 7
    case Hour2 => 8
    case Hour1 => 9
    case Minute2 => 10
    case Minute1 => 11
    case Second2 => 12
    case Second1 => 13
  }

  /** Among tokens of one letter, the wider ones are listed first. */
  lemma WiderFirst(a: Token, b: Token)
    requires Letter(a) == Letter(b) && Width(a) > Width(b)
    ensures Rank(a) < Rank(b)
  {
  }

  /** Two tokens that fit the same text share its first letter. */
  lemma FitsSameLetter(a: Token, b: Token, s: string)
    requires Fits(a, s) && Fits(b, s)
    ensures Letter(a) == Letter(b)
  {
    assert s[0] == Letter(a) && s[0] == Letter(b);
  }

  lemma SameShape(a: Token, b: Token)
    requires Letter(a) == Letter(b) && Width(a) == Width(b)
    ensures a == b
  {
  }

  /**
    The ordered alternation takes the widest token that fits: `MMMM` is one
    token, not two `MM`s, and a lone or tripled `Y` leaves letters over.
  */
  lemma WidestTokenMatches(tok: Token, s: string)
    requires Fits(tok, s)
    requires forall other: Token :: Letter(other) == Letter(tok) && Width(other) > Width(tok) ==> !Fits(other, s)
    ensures MatchToken(s) == Some(tok)
  {
    FirstAlternativeIsFirst(s, 0);
    var j := FirstAlternative(s, 0);
    assert j <= Rank(tok);
    if j < Rank(tok) {
      var other := Alternatives[j];
      FitsSameLetter(other, tok, s);
      if Width(other) < Width(tok) {
        WiderFirst(tok, other);
      } else if Width(other) == Width(tok) {
        SameShape(other, tok);
      }
    }
  }

  /** A match is always the widest token that fits. */
  lemma MatchIsWidest(s: string, tok: Token, other: Token)
    requires MatchToken(s) == Some(tok) && Fits(other, s)
    ensures Letter(other) == Letter(tok) && Width(other) <= Width(tok)
  {
    FitsSameLetter(other, tok, s);
    if Width(other) > Width(tok) {
      FirstAlternativeIsFirst(s, 0);
      WiderFirst(other, tok);
      assert Alternatives[FirstAlternative(s, 0)] == tok;
      if FirstAlternative(s, 0) != Rank(tok) {
        RankUnique(tok, FirstAlternative(s, 0));
      }
    }
  }

  lemma RankUnique(tok: Token, k: nat)
    requires k < |Alternatives| && Alternatives[k] == tok
    ensures k == Rank(tok)
  {
  }

  // ---------------------------------------------------------------------------
  // Compiling a pattern

  datatype Part = Lit(text: string) | Tok(token: Token)

  /** The pattern text a list of parts was read from. */
  function Source(parts: seq<Part>): string
    decreases |parts|
  {
    if parts == [] then "" else PartSource(parts[0]) + Source(parts[1..])
  }

  function PartSource(part: Part): string {
    match part
    case Lit(x) => x
    case Tok(tok) => Text(tok)
  }

  lemma {:induction false} SourceAppend(a: seq<Part>, b: seq<Part>)
    ensures Source(a + b) == Source(a) + Source(b)
    decreases |a|
  {
    if a != [] {
      assert (a + b)[0] == a[0];
      assert (a + b)[1..] == a[1..] + b;
      SourceAppend(a[1..], b);
      var h := PartSource(a[0]);
      assert Source(a + b) == h + (Source(a[1..]) + Source(b));
      assert h + (Source(a[1..]) + Source(b)) == (h + Source(a[1..])) + Source(b);
    } else {
      assert a + b == b;
    }
  }

  /** The pending literal run, as a part list (an empty run yields nothing). */
  function Pending(lit: string): seq<Part> {
    if lit == [] then [] else [Lit(lit)]
  }

  /**
    The scan of the token expression over `rest`, with `lit` the literal text
    read since the last match: text between matches becomes one literal part.
  */
  function Scan(rest: string, lit: string): seq<Part>
    decreases |rest|
  {
    if rest == [] then Pending(lit)
    else
      match MatchToken(rest)
      case Some(tok) => Pending(lit) + [Tok(tok)] + Scan(rest[Width(tok)..], [])
      case None => Scan(rest[1..], lit + [rest[0]])
  }

  function Tokenize(s: string): seq<Part> {
    Scan(s, [])
  }

  /** Tokenizing loses nothing: the parts spell out the text that was scanned. */
  lemma {:induction false} ScanCovers(rest: string, lit: string)
    ensures Source(Scan(rest, lit)) == lit + rest
    decreases |rest|
  {
    if rest != [] {
      match MatchToken(rest)
      case Some(tok) =>
        var tail := rest[Width(tok)..];
        ScanCovers(tail, []);
        CoverMatch(rest, lit, tok, tail, Scan(tail, []));
      case None =>
        ScanCovers(rest[1..], lit + [rest[0]]);
        ShiftChar(lit, rest);
    }
  }

  lemma CoverMatch(rest: string, lit: string, tok: Token, tail: string, after: seq<Part>)
    requires Fits(tok, rest) && tail == rest[Width(tok)..]
    requires Source(after) == [] + tail
    ensures Source(Pending(lit) + [Tok(tok)] + after) == lit + rest
  {
    var pre := Pending(lit);
    var w := Text(tok);
    SourceAppend(pre + [Tok(tok)], after);
    SourceAppend(pre, [Tok(tok)]);
    SourceOne(lit, tok);
    FitsIsPrefix(tok, rest);
    SplitPrefix(rest, w, tail);
    assert [] + tail == tail;
    assert Source(pre + [Tok(tok)] + after) == (lit + w) + tail;
  }

  lemma SourceOne(lit: string, tok: Token)
    ensures Source(Pending(lit)) == lit
    ensures Source([Tok(tok)]) == Text(tok)
  {
    assert Source([Tok(tok)]) == Text(tok) + Source([]);
    if lit != [] {
      assert Source([Lit(lit)]) == lit + Source([]);
    }
  }

  lemma SplitPrefix(s: string, w: string, tail: string)
    requires w <= s && tail == s[|w|..]
    ensures s == w + tail
  {
    assert s == s[..|w|] + s[|w|..];
  }

  lemma TokenizeCovers(s: string)
    ensures Source(Tokenize(s)) == s
  {
    ScanCovers(s, []);
  }

  /** Text without pattern letters is one literal run. */
  lemma {:induction false} ScanPlainText(rest: string, lit: string)
    requires forall i :: 0 <= i < |rest| ==> !IsPatternLetter(rest[i])
    ensures Scan(rest, lit) == Pending(lit + rest)
    decreases |rest|
  {
    if rest != [] {
      NoMatchWithoutLetter(rest);
      assert forall i :: 0 <= i < |rest[1..]| ==> rest[1..][i] == rest[i + 1];
      ScanPlainText(rest[1..], lit + [rest[0]]);
      ShiftChar(lit, rest);
    } else {
      assert lit + rest == lit;
    }
  }

  /**
    The slow path of `compileFormat`: `[` opens a bracket (outside one), `]`
    closes it (inside one); text outside brackets is tokenized when a bracket
    opens and at the end, text inside is kept as one literal. Text after an
    unclosed `[` is still tokenized at the end.
  */
  function Bracketed(rest: string, current: string, inBracket: bool): seq<Part>
    decreases |rest|
  {
    if rest == [] then
      (if current != [] then Tokenize(current) else [])
    else if rest[0] == '[' && !inBracket then
      (if current != [] then Tokenize(current) else []) + Bracketed(rest[1..], [], true)
    else if rest[0] == ']' && inBracket then
      Pending(current) + Bracketed(rest[1..], [], false)
    else
      Bracketed(rest[1..], current + [rest[0]], inBracket)
  }

  /** `compileFormat`: the fast path when the pattern has no `[`, the bracket-aware path otherwise. */
  function Compile(fmt: string): seq<Part> {
    if '[' !in fmt then Tokenize(fmt) else Bracketed(fmt, [], false)
  }

  /** Outside brackets and with no `[` ahead, the slow path tokenizes everything that is left. */
  lemma {:induction false} BracketFree(rest: string, current: string)
    requires '[' !in rest
    ensures Bracketed(rest, current, false) == Bracketed([], current + rest, false)
    decreases |rest|
  {
    if rest == [] {
      assert current + rest == current;
    } else {
      assert rest[0] in rest;
      assert forall c :: c in rest[1..] ==> c in rest;
      BracketFree(rest[1..], current + [rest[0]]);
      ShiftChar(current, rest);
    }
  }

  /** The fast path is only a shortcut: the slow path compiles every pattern the same way. */
  lemma SlowPathAgrees(fmt: string)
    ensures Bracketed(fmt, [], false) == Compile(fmt)
  {
    if '[' !in fmt {
      BracketFree(fmt, []);
      assert [] + fmt == fmt;
      assert Tokenize([]) == [];
    }
  }

  /** Inside a bracket, everything up to the closing `]` is collected as it stands. */
  lemma {:induction false} InsideBracket(lit: string, current: string, rest: string)
    requires ']' !in lit
    ensures Bracketed(lit + "]" + rest, current, true) == Pending(current + lit) + Bracketed(rest, [], false)
    decreases |lit|
  {
    if lit == [] {
      assert lit + "]" + rest == "]" + rest;
      assert current + lit == current;
    } else {
      assert lit[0] in lit;
      assert forall c :: c in lit[1..] ==> c in lit;
      assert (lit + "]" + rest)[1..] == lit[1..] + "]" + rest;
      InsideBracket(lit[1..], current + [lit[0]], rest);
      ShiftChar(current, lit);
    }
  }

  /** A bracketed text is one literal part, whatever letters it holds; the rest compiles on its own. */
  lemma EscapedText(lit: string, rest: string)
    requires ']' !in lit
    ensures Compile("[" + lit + "]" + rest) == Pending(lit) + Compile(rest)
  {
    OpenBracket(lit, rest);
    InsideBracket(lit, [], rest);
    assert [] + lit == lit;
    SlowPathAgrees(rest);
  }

  /** An opening `[` at the start switches the slow path into a bracket. */
  lemma OpenBracket(lit: string, rest: string)
    ensures Bracketed("[" + lit + "]" + rest, [], false) == Bracketed(lit + "]" + rest, [], true)
  {
    var fmt := "[" + lit + "]" + rest;
    assert fmt[0] == '[';
    assert fmt[1..] == lit + "]" + rest;
  }

  /** Inside a bracket that is never closed, the collected text is tokenized after all. */
  lemma {:induction false} UnclosedBracket(lit: string, current: string)
    requires ']' !in lit
    ensures Bracketed(lit, current, true) == Bracketed([], current + lit, true)
    decreases |lit|
  {
    if lit == [] {
      assert current + lit == current;
    } else {
      assert lit[0] in lit;
      assert forall c :: c in lit[1..] ==> c in lit;
      UnclosedBracket(lit[1..], current + [lit[0]]);
      ShiftChar(current, lit);
    }
  }

  lemma UnclosedBracketIsIgnored(lit: string)
    requires ']' !in lit
    ensures Compile("[" + lit) == Tokenize(lit)
  {
    var fmt := "[" + lit;
    assert fmt[0] == '[' && fmt[1..] == lit;
    UnclosedBracket(lit, []);
    assert [] + lit == lit;
    assert Tokenize([]) == [];
  }

  // ---------------------------------------------------------------------------
  // Rendering

  /** The parts `formatDate` reads from an instant: the month is 1-based. */
  datatype DateParts = DateParts(year: int, month: int, day: int, hour: int, minute: int, second: int)

  function UtcParts(t: Instant): DateParts {
    DateParts(YearFromTime(t), MonthFromTime(t) + 1, DateFromTime(t),
              HourFromTime(t), MinFromTime(t), SecFromTime(t))
  }

  /** The locale's month names, January first; the platform supplies twelve of each. */
  datatype MonthNames = MonthNames(short: seq<string>, long: seq<string>)

  /** `names[month - 1]`; an index outside the table reads `undefined`, which concatenates as that word. */
  function MonthName(names: seq<string>, month: int): (r: string)
    ensures 1 <= month <= |names| ==> r == names[month - 1]
    ensures !(1 <= month <= |names|) ==> r == "undefined"
  {
    if 1 <= month <= |names| then names[month - 1] else "undefined"
  }

  function Render(tok: Token, p: DateParts, names: MonthNames): string {
    match tok
    case Year4 => IntToString(p.year)
    case Year2 => LastTwo(IntToString(p.year))
    case Month1 => IntToString(p.month)
    case Month2 => Pad2(p.month)
    case MonthShort => MonthName(names.short, p.month)
    case MonthLong => MonthName(names.long, p.month)
    case Day1 => IntToString(p.day)
    case Day2 => Pad2(p.day)
    case Hour1 => IntToString(p.hour)
    case Hour2 => Pad2(p.hour)
    case Minute1 => IntToString(p.minute)
    case Minute2 => Pad2(p.minute)
    case Second1 => IntToString(p.second)
    case Second2 => Pad2(p.second)
  }

  /** The output for a part list: literals as they are, tokens rendered, in order. */
  function RenderParts(parts: seq<Part>, p: DateParts, names: MonthNames): string
    decreases |parts|
  {
    if parts == [] then "" else RenderPart(parts[0], p, names) + RenderParts(parts[1..], p, names)
  }

  function RenderPart(part: Part, p: DateParts, names: MonthNames): string {
    match part
    case Lit(x) => x
    case Tok(tok) => Render(tok, p, names)
  }

  lemma {:induction false} RenderAppend(a: seq<Part>, b: seq<Part>, p: DateParts, names: MonthNames)
    ensures RenderParts(a + b, p, names) == RenderParts(a, p, names) + RenderParts(b, p, names)
    decreases |a|
  {
    if a != [] {
      assert (a + b)[0] == a[0];
      assert (a + b)[1..] == a[1..] + b;
      RenderAppend(a[1..], b, p, names);
      var h := RenderPart(a[0], p, names);
      assert RenderParts(a + b, p, names) == h + (RenderParts(a[1..], p, names) + RenderParts(b, p, names));
      assert h + (RenderParts(a[1..], p, names) + RenderParts(b, p, names))
        == (h + RenderParts(a[1..], p, names)) + RenderParts(b, p, names);
    } else {
      assert a + b == b;
    }
  }

  /** `formatDate(date, fmt, { locale })` in UTC. */
  function FormatDate(t: Instant, fmt: string, names: MonthNames): string {
    RenderParts(Compile(fmt), UtcParts(t), names)
  }

  // ---------------------------------------------------------------------------
  // The compiled-pattern cache

  /** Every cached entry is what compiling its pattern gives. */
  predicate CacheSound(cache: map<string, seq<Part>>) {
    forall fmt :: fmt in cache ==> cache[fmt] == Compile(fmt)
  }

  /** `compileFormat` with its cache: the cached entry if there is one, otherwise compile and store. */
  function CompileCached(cache: map<string, seq<Part>>, fmt: string): (r: (seq<Part>, map<string, seq<Part>>))
    requires CacheSound(cache)
    ensures r.0 == Compile(fmt)
    ensures CacheSound(r.1) && fmt in r.1 && cache.Keys <= r.1.Keys
  {
    if fmt in cache then (cache[fmt], cache)
    else
      var parts := Compile(fmt);
      (parts, cache[fmt := parts])
  }

  // ---------------------------------------------------------------------------
  // Scanning step by step

  lemma ScanToken(rest: string, lit: string, tok: Token, tail: string)
    requires MatchToken(rest) == Some(tok) && rest == Text(tok) + tail
    ensures Scan(rest, lit) == Pending(lit) + [Tok(tok)] + Scan(tail, [])
  {
    assert rest[Width(tok)..] == tail;
  }

  lemma ScanChar(c: char, tail: string, lit: string)
    requires !IsPatternLetter(c)
    ensures Scan([c] + tail, lit) == Scan(tail, lit + [c])
  {
    NoMatchWithoutLetter([c] + tail);
    assert ([c] + tail)[1..] == tail;
  }

  /** A token whose letters are not followed by the same letter is matched as written. */
  lemma MatchRunEnd(tok: Token, tail: string)
    requires tail == [] || tail[0] != Letter(tok)
    ensures MatchToken(Text(tok) + tail) == Some(tok)
  {
    var s := Text(tok) + tail;
    assert Fits(tok, s);
    forall other: Token | Letter(other) == Letter(tok) && Width(other) > Width(tok)
      ensures !Fits(other, s)
    {
      if tail != [] && Width(other) <= |s| {
        assert s[Width(tok)] == tail[0];
      }
    }
    WidestTokenMatches(tok, s);
  }

  /** A token's own letters compile to that one token. */
  lemma TokenTextIsOneToken(tok: Token)
    ensures Compile(Text(tok)) == [Tok(tok)]
  {
    var w := Text(tok);
    assert w + [] == w;
    assert '[' !in w by {
      forall i | 0 <= i < |w| ensures w[i] != '[' { }
    }
    MatchRunEnd(tok, []);
    ScanToken(w, [], tok, []);
  }

  /** A pattern that is one token prints that token's rendering. */
  lemma FormatOneToken(t: Instant, tok: Token, names: MonthNames)
    ensures FormatDate(t, Text(tok), names) == Render(tok, UtcParts(t), names)
  {
    TokenTextIsOneToken(tok);
    assert RenderParts([Tok(tok)], UtcParts(t), names) == Render(tok, UtcParts(t), names) + "";
  }

  // ---------------------------------------------------------------------------
  // The date-time pattern

  /** `YYYY-MM-DD HH:mm:ss`, written as the tokens and separators it is made of. */
  const DateTimePattern: string :=
    Text(Year4) + ("-" + (Text(Month2) + ("-" + (Text(Day2) + (" " + (Text(Hour2)
      + (":" + (Text(Minute2) + (":" + (Text(Second2) + ""))))))))))

  lemma DateTimePatternSpelling()
    ensures DateTimePattern == "YYYY-MM-DD HH:mm:ss"
  {
  }

  /** A one-character separator followed by a token. */
  function Separated(c: char, tok: Token): seq<Part> {
    [Lit([c]), Tok(tok)]
  }

  /** The parts of the date-time pattern, grouped as separator-token pairs. */
  const DateTimeParts: seq<Part> :=
    [Tok(Year4)] + (Separated('-', Month2) + (Separated('-', Day2) + (Separated(' ', Hour2)
      + (Separated(':', Minute2) + Separated(':', Second2)))))

  /** A literal character and the token after it, as the scanner reads them. */
  lemma ScanSeparated(c: char, tok: Token, tail: string)
    requires !IsPatternLetter(c) && (tail == [] || tail[0] != Letter(tok))
    ensures Scan([c] + (Text(tok) + tail), []) == Separated(c, tok) + Scan(tail, [])
  {
    var x := Text(tok) + tail;
    MatchRunEnd(tok, tail);
    ScanLiteralThenToken(c, x, tok, tail);
  }

  lemma ScanLiteralThenToken(c: char, x: string, tok: Token, tail: string)
    requires !IsPatternLetter(c) && MatchToken(x) == Some(tok) && x == Text(tok) + tail
    ensures Scan([c] + x, []) == Separated(c, tok) + Scan(tail, [])
  {
    var after := Scan(tail, []);
    ScanFirstChar(c, x);
    ScanToken(x, [c], tok, tail);
    SeparatedThen(c, tok, after);
  }

  lemma ScanFirstChar(c: char, x: string)
    requires !IsPatternLetter(c)
    ensures Scan([c] + x, []) == Scan(x, [c])
  {
    ScanChar(c, x, []);
    assert [] + [c] == [c];
  }

  lemma SeparatedThen(c: char, tok: Token, after: seq<Part>)
    ensures Pending([c]) + [Tok(tok)] + after == Separated(c, tok) + after
  {
    assert Pending([c]) == [Lit([c])];
  }

  lemma DateTimePatternParts()
    ensures Compile(DateTimePattern) == DateTimeParts
  {
    var s5 := "";
    var s4 := ":" + (Text(Second2) + s5);
    var s3 := ":" + (Text(Minute2) + s4);
    var s2 := " " + (Text(Hour2) + s3);
    var s1 := "-" + (Text(Day2) + s2);
    var s0 := "-" + (Text(Month2) + s1);
    assert DateTimePattern == Text(Year4) + s0;
    assert '[' !in DateTimePattern by { DateTimePatternSpelling(); }
    MatchRunEnd(Year4, s0);
    ScanToken(DateTimePattern, [], Year4, s0);
    ScanSeparated('-', Month2, s1);
    ScanSeparated('-', Day2, s2);
    ScanSeparated(' ', Hour2, s3);
    ScanSeparated(':', Minute2, s4);
    ScanSeparated(':', Second2, s5);
    var r4 := Separated(':', Second2);
    assert Scan(s4, []) == r4 + [];
    assert r4 + [] == r4;
    assert [] + [Tok(Year4)] == [Tok(Year4)];
  }

  /** The text the date-time pattern prints: four fields of the date and three of the clock, padded. */
  function DateTimeText(p: DateParts): string {
    IntToString(p.year) + ("-" + (Pad2(p.month) + ("-" + (Pad2(p.day)
      + (" " + (Pad2(p.hour) + (":" + (Pad2(p.minute) + (":" + Pad2(p.second))))))))))
  }

  lemma RenderSeparated(c: char, tok: Token, rest: seq<Part>, p: DateParts, names: MonthNames)
    ensures RenderParts(Separated(c, tok) + rest, p, names) == [c] + (Render(tok, p, names) + RenderParts(rest, p, names))
  {
    var parts := Separated(c, tok);
    assert parts[1..] == [Tok(tok)];
    assert RenderParts([Tok(tok)], p, names) == Render(tok, p, names) + RenderParts([], p, names);
    assert RenderParts(parts, p, names) == [c] + RenderParts([Tok(tok)], p, names);
    RenderAppend(parts, rest, p, names);
    assert RenderParts(parts, p, names) == [c] + Render(tok, p, names);
  }

  /** `YYYY-MM-DD HH:mm:ss` prints the year as is and every other field with two digits. */
  lemma FormatDateTime(t: Instant, names: MonthNames)
    ensures FormatDate(t, DateTimePattern, names) == DateTimeText(UtcParts(t))
  {
    var p := UtcParts(t);
    DateTimePatternParts();
    RenderDateTime(p, names);
  }

  /** The compiled date-time pattern renders any date parts as `DateTimeText`. */
  lemma RenderDateTime(p: DateParts, names: MonthNames)
    ensures RenderParts(DateTimeParts, p, names) == DateTimeText(p)
  {
    var q5: seq<Part> := [];
    var q4 := Separated(':', Second2) + q5;
    var q3 := Separated(':', Minute2) + q4;
    var q2 := Separated(' ', Hour2) + q3;
    var q1 := Separated('-', Day2) + q2;
    var q0 := Separated('-', Month2) + q1;
    assert Separated(':', Second2) + q5 == Separated(':', Second2);
    RenderSeparated(':', Second2, q5, p, names);
    RenderSeparated(':', Minute2, q4, p, names);
    RenderSeparated(' ', Hour2, q3, p, names);
    RenderSeparated('-', Day2, q2, p, names);
    RenderSeparated('-', Month2, q1, p, names);
    RenderAppend([Tok(Year4)], q0, p, names);
    assert RenderParts([Tok(Year4)], p, names) == IntToString(p.year) + "";
    assert Pad2(p.second) + RenderParts(q5, p, names) == Pad2(p.second);
  }

  // ---------------------------------------------------------------------------
  // What a pattern prints

  /** Text with no pattern letters and no `[` prints as itself, whatever the instant. */
  lemma PlainTextIsVerbatim(t: Instant, fmt: string, names: MonthNames)
    requires '[' !in fmt
    requires forall i :: 0 <= i < |fmt| ==> !IsPatternLetter(fmt[i])
    ensures FormatDate(t, fmt, names) == fmt
  {
    ScanPlainText(fmt, []);
    assert [] + fmt == fmt;
    if fmt != [] {
      assert RenderParts([Lit(fmt)], UtcParts(t), names) == fmt + RenderParts([], UtcParts(t), names);
    }
  }

  /** A bracketed text prints as it stands, pattern letters included. */
  lemma EscapedIsVerbatim(t: Instant, lit: string, names: MonthNames)
    requires ']' !in lit
    ensures FormatDate(t, "[" + lit + "]", names) == lit
  {
    EscapedText(lit, "");
    assert "[" + lit + "]" + "" == "[" + lit + "]";
    assert Compile("") == [];
    assert Pending(lit) + [] == Pending(lit);
    if lit != [] {
      assert RenderParts([Lit(lit)], UtcParts(t), names) == lit + RenderParts([], UtcParts(t), names);
    }
  }

  /** `[[[text]]]` prints `[[text]]`: the inner `[`s belong to the text, the `]]` after the bracket is plain text. */
  lemma EscapedBrackets(t: Instant, lit: string, names: MonthNames)
    requires ']' !in lit
    ensures FormatDate(t, "[[[" + lit + "]]]", names) == "[[" + lit + "]]"
  {
    var inner := "[[" + lit;
    var rest := "]]";
    assert "[[[" + lit + "]]]" == "[" + inner + "]" + rest;
    assert ']' !in inner by {
      forall i | 0 <= i < |inner| ensures inner[i] != ']' {
        if i >= 2 { assert inner[i] == lit[i - 2]; }
      }
    }
    EscapedText(inner, rest);
    assert '[' !in rest;
    ScanPlainText(rest, []);
    assert [] + rest == rest;
    var p := UtcParts(t);
    RenderAppend([Lit(inner)], [Lit(rest)], p, names);
    assert [Lit(inner)] + [Lit(rest)] == Compile("[" + inner + "]" + rest);
    assert RenderParts([Lit(inner)], p, names) == inner + RenderParts([], p, names);
    assert RenderParts([Lit(rest)], p, names) == rest + RenderParts([], p, names);
  }

  /** A lone `Y` is no token: only `YY` and `YYYY` are. */
  lemma LoneYIsText()
    ensures Tokenize("Y") == [Lit("Y")]
  {
    var y := "Y";
    assert |y| == 1 && y[0] == 'Y';
    forall i | 0 <= i < |Alternatives| ensures !Fits(Alternatives[i], y) {
      var tok := Alternatives[i];
      if Letter(tok) == 'Y' {
        assert Width(tok) >= 2;
      }
    }
    FirstAlternativeIsFirst(y, 0);
    assert MatchToken(y) == None;
    assert y[1..] == [];
    assert Scan(y, []) == Scan([], [] + ['Y']);
    assert [] + ['Y'] == y;
    assert Scan([], y) == [Lit(y)];
  }

  /** Three `Y`s are `YY` and a letter left over. */
  lemma TripleYIsYearAndText()
    ensures Tokenize("YYY") == [Tok(Year2), Lit("Y")]
  {
    LoneYIsText();
    assert "YYY" == Text(Year2) + "Y";
    forall other: Token | Letter(other) == 'Y' && Width(other) > 2 ensures !Fits(other, "YYY") {
      assert Width(other) == 4;
    }
    WidestTokenMatches(Year2, "YYY");
    ScanToken("YYY", [], Year2, "Y");
  }

  /** The parts of an instant are in their calendar ranges, as `getUTC*` returns them. */
  predicate InRange(p: DateParts) {
    && 1 <= p.month <= 12 && 1 <= p.day <= 31
    && 0 <= p.hour < 24 && 0 <= p.minute < 60 && 0 <= p.second < 60
  }

  lemma UtcPartsInRange(t: Instant)
    ensures InRange(UtcParts(t))
  {
    ToFieldsValid(t);
  }

  /** The two-letter tokens print two digits that read back as the field. */
  lemma PaddedParts(p: DateParts, names: MonthNames)
    requires InRange(p)
    ensures |Render(Month2, p, names)| == 2 && DigitsValue(Render(Month2, p, names)) == p.month
    ensures |Render(Day2, p, names)| == 2 && DigitsValue(Render(Day2, p, names)) == p.day
    ensures |Render(Hour2, p, names)| == 2 && DigitsValue(Render(Hour2, p, names)) == p.hour
    ensures |Render(Minute2, p, names)| == 2 && DigitsValue(Render(Minute2, p, names)) == p.minute
    ensures |Render(Second2, p, names)| == 2 && DigitsValue(Render(Second2, p, names)) == p.second
  {
    Pad2RoundTrip(p.month);
    Pad2RoundTrip(p.day);
    Pad2RoundTrip(p.hour);
    Pad2RoundTrip(p.minute);
    Pad2RoundTrip(p.second);
  }

  /** The one-letter tokens write the field without padding: one digit below ten, and digits that read back as the field. */
  lemma UnpaddedParts(p: DateParts, names: MonthNames)
    requires InRange(p)
    ensures DigitsValue(Render(Month1, p, names)) == p.month && DigitsValue(Render(Day1, p, names)) == p.day
    ensures DigitsValue(Render(Hour1, p, names)) == p.hour
    ensures DigitsValue(Render(Minute1, p, names)) == p.minute && DigitsValue(Render(Second1, p, names)) == p.second
    ensures p.hour < 10 ==> |Render(Hour1, p, names)| == 1
    ensures p.minute < 10 ==> |Render(Minute1, p, names)| == 1
    ensures p.second < 10 ==> |Render(Second1, p, names)| == 1
  {
    NatToStringRoundTrip(p.month);
    NatToStringRoundTrip(p.day);
    NatToStringRoundTrip(p.hour);
    NatToStringRoundTrip(p.minute);
    NatToStringRoundTrip(p.second);
  }

  /** `H:m:s`, the clock with the one-letter tokens, written as the tokens and separators it is made of. */
  const ClockPattern: string := Text(Hour1) + (":" + (Text(Minute1) + (":" + (Text(Second1) + ""))))

  lemma ClockPatternSpelling()
    ensures ClockPattern == "H:m:s"
  {
  }

  /** The compiled form of `H:m:s`. */
  const ClockParts: seq<Part> := [Tok(Hour1)] + (Separated(':', Minute1) + Separated(':', Second1))

  lemma ClockPatternParts()
    ensures Compile(ClockPattern) == ClockParts
  {
    var s2 := "";
    var s1 := ":" + (Text(Second1) + s2);
    var s0 := ":" + (Text(Minute1) + s1);
    assert ClockPattern == Text(Hour1) + s0;
    assert '[' !in ClockPattern by { ClockPatternSpelling(); }
    MatchRunEnd(Hour1, s0);
    ScanToken(ClockPattern, [], Hour1, s0);
    ScanSeparated(':', Minute1, s1);
    ScanSeparated(':', Second1, s2);
    var r1 := Separated(':', Second1);
    assert Scan(s1, []) == r1 + [];
    assert r1 + [] == r1;
    assert [] + [Tok(Hour1)] == [Tok(Hour1)];
  }

  /** The text `H:m:s` prints: the three clock fields without padding. */
  function ClockText(p: DateParts): string {
    IntToString(p.hour) + (":" + (IntToString(p.minute) + (":" + IntToString(p.second))))
  }

  lemma RenderClock(p: DateParts, names: MonthNames)
    ensures RenderParts(ClockParts, p, names) == ClockText(p)
  {
    var q1: seq<Part> := [];
    var q0 := Separated(':', Second1) + q1;
    assert q0 == Separated(':', Second1);
    RenderSeparated(':', Second1, q1, p, names);
    RenderSeparated(':', Minute1, q0, p, names);
    RenderAppend([Tok(Hour1)], Separated(':', Minute1) + q0, p, names);
    assert RenderParts([Tok(Hour1)], p, names) == IntToString(p.hour) + "";
    assert IntToString(p.second) + RenderParts(q1, p, names) == IntToString(p.second);
  }

  /** `H:m:s` prints the hour, minute and second of the instant as `String` writes them. */
  lemma FormatClock(t: Instant, names: MonthNames)
    ensures FormatDate(t, ClockPattern, names) == ClockText(UtcParts(t))
  {
    var p := UtcParts(t);
    ClockPatternParts();
    RenderClock(p, names);
  }

  lemma ZeroClockText(p: DateParts)
    requires p.hour == 0 && p.minute == 0 && p.second == 0
    ensures ClockText(p) == "0:0:0"
  {
    assert IntToString(0) == "0";
  }

  /** Midnight written with the one-letter clock tokens is `0:0:0`. */
  lemma MidnightUnpadded(t: Instant, names: MonthNames)
    requires HourFromTime(t) == 0 && MinFromTime(t) == 0 && SecFromTime(t) == 0
    ensures FormatDate(t, ClockPattern, names) == "0:0:0"
  {
    var p := UtcParts(t);
    FormatClock(t, names);
    ZeroClockText(p);
  }

  /** `YY` is the year modulo 100 with two digits, once the year has two digits itself. */
  lemma ShortYear(p: DateParts, names: MonthNames)
    requires p.year >= 10
    ensures Render(Year2, p, names) == Pad2(p.year % 100)
  {
    LastTwoDigits(p.year);
  }

  /** The month-name tokens look the month up in the locale's tables. */
  lemma MonthNameTokens(t: Instant, names: MonthNames)
    requires |names.short| == 12 && |names.long| == 12
    ensures Render(MonthShort, UtcParts(t), names) == names.short[MonthFromTime(t)]
    ensures Render(MonthLong, UtcParts(t), names) == names.long[MonthFromTime(t)]
  {
    UtcPartsInRange(t);
  }

  lemma DateTimeTextExample()
    ensures DateTimeText(DateParts(2024, 12, 25, 14, 35, 22)) == "2024-12-25 14:35:22"
  {
    var y, mo, d, h, mi, sec := IntToString(2024), Pad2(12), Pad2(25), Pad2(14), Pad2(35), Pad2(22);
    assert y == "2024" by { IntToStringExamples(); }
    assert mo == "12" && d == "25" && h == "14" && mi == "35" && sec == "22" by { TwoDigitPads(); }
    JoinedExample();
  }

  lemma JoinedExample()
    ensures "2024" + ("-" + ("12" + ("-" + ("25" + (" " + ("14" + (":" + ("35" + (":" + "22")))))))))
      == "2024-12-25 14:35:22"
  {
    JoinedClock();
    assert "25" + " 14:35:22" == "25 14:35:22";
    assert "-" + "25 14:35:22" == "-25 14:35:22";
    assert "12" + "-25 14:35:22" == "12-25 14:35:22";
    assert "-" + "12-25 14:35:22" == "-12-25 14:35:22";
  }

  lemma JoinedClock()
    ensures " " + ("14" + (":" + ("35" + (":" + "22")))) == " 14:35:22"
  {
    assert ":" + "22" == ":22";
    assert "35" + ":22" == "35:22";
    assert ":" + "35:22" == ":35:22";
    assert "14" + ":35:22" == "14:35:22";
  }

  lemma TwoDigitPads()
    ensures Pad2(12) == "12" && Pad2(25) == "25" && Pad2(14) == "14" && Pad2(35) == "35" && Pad2(22) == "22"
  {
    assert NatToString(12) == "12" && NatToString(25) == "25" && NatToString(14) == "14";
    assert NatToString(35) == "35" && NatToString(22) == "22";
  }

  /** `formatDate(2024-12-25T14:35:22Z, "YYYY-MM-DD HH:mm:ss")` is `2024-12-25 14:35:22`. */
  lemma FormatDateTimeExample(t: Instant, names: MonthNames)
    requires ToFields(t) == Fields(2024, 11, 25, 14, 35, 22, 0)
    ensures FormatDate(t, DateTimePattern, names) == "2024-12-25 14:35:22"
  {
    DateTimeTextExample();
    FormatDateTime(t, names);
    assert UtcParts(t) == DateParts(2024, 12, 25, 14, 35, 22);
  }
}
