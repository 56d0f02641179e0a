/**
  Decimal text for integers as JavaScript's `String(n)` writes it and as
  `parseInt(digits, 10)` reads it back, with the two-digit padding the
  formatter uses.
*/
module Decimal {
  import opened JsMath

  predicate IsDigit(c: char) { '0' <= c <= '9' }

  predicate AllDigits(s: string) {
    forall i :: 0 <= i < |s| ==> IsDigit(s[i])
  }

  function DigitChar(d: int): (c: char)
    requires 0 <= d < 10
    ensures IsDigit(c)
  {
    ['0', '1', '2', '3', '4', '5', '6', '7', '8', '9'][d]
  }

  function DigitValue(c: char): (d: int)
    requires IsDigit(c)
    ensures 0 <= d < 10
  {
    c as int - '0' as int
  }

  lemma DigitInverse(d: int)
    requires 0 <= d < 10
    ensures DigitValue(DigitChar(d)) == d
  {
  }

  /** `String(n)` for a non-negative integer: shortest decimal, no leading zero. */
  function NatToString(n: nat): (s: string)
    ensures |s| >= 1 && AllDigits(s)
    ensures s[0] == '0' ==> n == 0
    decreases n
  {
    if n < 10 then [DigitChar(n)] else NatToString(n / 10) + [DigitChar(n % 10)]
  }

  /** `String(n)` for any integer: a minus sign before the magnitude. */
  function IntToString(n: int): (s: string)
    ensures n >= 0 ==> AllDigits(s)
    ensures n < 0 ==> |s| >= 2 && s[0] == '-' && AllDigits(s[1..])
  {
    if n >= 0 then NatToString(n) else "-" + NatToString(-n)
  }

  /** `parseInt(s, 10)` on a string of ASCII digits. */
  function DigitsValue(s: string): (v: nat)
    requires AllDigits(s)
    decreases |s|
  {
    if |s| == 0 then 0 else DigitsValue(s[..|s| - 1]) * 10 + DigitValue(s[|s| - 1])
  }

  /** Reading back what `String(n)` wrote gives `n`. */
  lemma {:induction false} NatToStringRoundTrip(n: nat)
    ensures DigitsValue(NatToString(n)) == n
    decreases n
  {
    var s := NatToString(n);
    if n < 10 {
      DigitInverse(n);
    } else {
      NatToStringRoundTrip(n / 10);
      assert s[..|s| - 1] == NatToString(n / 10);
      DigitInverse(n % 10);
    }
  }

  /** A digit string is a bounded number: `k` digits stay below `10^k`. */
  function Pow10(k: nat): (p: nat)
    ensures p >= 1
  {
    if k == 0 then 1 else 10 * Pow10(k - 1)
  }

  lemma {:induction false} DigitsValueBound(s: string)
    requires AllDigits(s)
    ensures DigitsValue(s) < Pow10(|s|)
    decreases |s|
  {
    if |s| > 0 {
      DigitsValueBound(s[..|s| - 1]);
    }
  }

  /** `String(n)` is as long as the number has digits: one digit below ten, one more per factor ten. */
  lemma {:induction false} NatToStringLength(n: nat, k: nat)
    requires k >= 1 && Pow10(k - 1) <= n < Pow10(k)
    ensures |NatToString(n)| == k
    decreases k
  {
    if n >= 10 {
      assert k >= 2;
      NatToStringLength(n / 10, k - 1);
    }
  }

  /** Years from 1000 to 9999 are written with exactly four digits. */
  lemma FourDigitYear(n: nat)
    requires 1000 <= n <= 9999
    ensures |NatToString(n)| == 4
  {
    assert Pow10(3) == 1000 && Pow10(4) == 10000;
    NatToStringLength(n, 4);
  }

  /** `pad2(n)`: a leading zero for values below ten. */
  function Pad2(n: int): string {
    if n < 10 then "0" + IntToString(n) else IntToString(n)
  }

  /** Values from 0 to 99 pad to two digits that read back as the value. */
  lemma Pad2RoundTrip(n: int)
    requires 0 <= n < 100
    ensures |Pad2(n)| == 2 && AllDigits(Pad2(n))
    ensures DigitsValue(Pad2(n)) == n
  {
    assert Pow10(1) == 10 && Pow10(2) == 100;
    if n < 10 {
      var s := Pad2(n);
      assert s == ['0', DigitChar(n)];
      assert s[..1] == ['0'];
      assert DigitsValue(s[..1]) == 0 by { assert s[..1][..0] == []; }
      DigitInverse(n);
    } else {
      NatToStringLength(n, 2);
      NatToStringRoundTrip(n);
    }
  }

  /** `s.slice(-2)`: the last two characters, or the whole string when shorter. */
  function LastTwo(s: string): (r: string)
    ensures |r| == if |s| < 2 then |s| else 2
    ensures |r| <= |s| && r == s[|s| - |r|..]
  {
    if |s| < 2 then s else s[|s| - 2..]
  }

  /** The last two digits of `String(n)` are `n mod 100`, padded to width two. */
  lemma LastTwoDigits(n: nat)
    requires n >= 10
    ensures LastTwo(NatToString(n)) == Pad2(n % 100)
  {
    var a, u := n / 10, n % 10;
    var t, m := a % 10, n % 100;
    var p := NatToString(a);
    assert NatToString(n) == p + [DigitChar(u)];
    LastDigit(a);
    LastTwoOf(p, DigitChar(u));
    assert LastTwo(NatToString(n)) == [DigitChar(t), DigitChar(u)];
    LowTwoDigits(n, a, u, t);
    TwoDigitString(m, t, u);
  }

  /** The last character of `String(n)` is the units digit. */
  lemma LastDigit(n: nat)
    ensures NatToString(n)[|NatToString(n)| - 1] == DigitChar(n % 10)
  {
  }

  lemma LastTwoOf(p: string, d: char)
    requires |p| >= 1
    ensures LastTwo(p + [d]) == [p[|p| - 1], d]
  {
  }

  /** `n mod 100` is made of the tens digit and the units digit of `n`. */
  lemma LowTwoDigits(n: nat, a: nat, u: nat, t: nat)
    requires a == n / 10 && u == n % 10 && t == a % 10
    ensures n % 100 == 10 * t + u
  {
    var b := a / 10;
    assert n == 100 * b + (10 * t + u);
    ModBy(n, b, 10 * t + u, 100);
  }

  /** A number below 100 with digits `t` and `u` pads to those two digits. */
  lemma TwoDigitString(m: nat, t: nat, u: nat)
    requires t < 10 && u < 10 && m == 10 * t + u
    ensures Pad2(m) == [DigitChar(t), DigitChar(u)]
  {
    if t == 0 {
      assert Pad2(m) == "0" + [DigitChar(u)];
    } else {
      DivOf(m, 10, t, u);
      ModBy(m, t, u, 10);
      assert NatToString(m) == NatToString(t) + [DigitChar(u)];
    }
  }

  /** `String(n)` for the ordinary years has no sign. */
  lemma IntToStringExamples()
    ensures IntToString(2024) == "2024"
    ensures IntToString(-5) == "-5"
    ensures Pad2(7) == "07" && Pad2(35) == "35"
  {
  }
}
