/**
  JavaScript's `%` operator on integers: the remainder of division truncated
  toward zero, so it takes the sign of the dividend. Dafny's `%` is Euclidean,
  so the library's `((x % 12) + 12) % 12` idiom is modelled through this function.
  The module also holds the facts about Euclidean division (a quotient or
  remainder is fixed by any split of the dividend) that the calendar proofs use,
  and `Math.abs`, `Math.min` and `Math.max` on integers.
*/
module JsMath {

  function Abs(x: int): nat { if x < 0 then -x else x }
  function Min(a: int, b: int): int { if a <= b then a else b }
  function Max(a: int, b: int): int { if a <= b then b else a }

  /** Division truncated toward zero, the quotient that goes with JavaScript's `%`. */
  function JsQuot(a: int, n: int): int
    requires n > 0
  {
    if a >= 0 then a / n else -((-a) / n)
  }

  /** `a % n` as JavaScript computes it for integer operands and a positive divisor. */
  function JsRem(a: int, n: int): (r: int)
    requires n > 0
    ensures a == JsQuot(a, n) * n + r
    ensures a >= 0 ==> 0 <= r < n
    ensures a < 0 ==> -n < r <= 0
  {
    if a >= 0 then a % n else -((-a) % n)
  }

  /** The `((a % 12) + 12) % 12` idiom yields the non-negative residue. */
  lemma NormalizedRem(a: int)
    ensures (JsRem(a, 12) + 12) % 12 == a % 12
  {
    var q, r := JsQuot(a, 12), JsRem(a, 12);
    if r < 0 {
      ModUnique(a, q - 1, r + 12);
      ModUnique(r + 12, 0, r + 12);
    } else {
      ModUnique(a, q, r);
      ModUnique(r + 12, 1, r);
    }
  }

  /** Euclidean remainder by 12 is determined by any quotient-remainder split. */
  lemma ModUnique(x: int, k: int, s: int)
    requires x == 12 * k + s && 0 <= s < 12
    ensures x % 12 == s
  {
  }

  /** JavaScript's `%` is zero exactly when the Euclidean one is. */
  lemma JsRemZero(a: int, n: int)
    requires n > 0
    ensures JsRem(a, n) == 0 <==> a % n == 0
  {
    if a < 0 {
      var q, r := (-a) / n, (-a) % n;
      NegatedRem(a, n, q, r);
    }
  }

  /** Negating a dividend with remainder `r` gives remainder 0 or `n - r`. */
  lemma NegatedRem(a: int, n: int, q: int, r: int)
    requires n > 0 && -a == q * n + r && 0 <= r < n
    ensures r == 0 ==> a % n == 0
    ensures r != 0 ==> a % n == n - r
  {
    if r == 0 {
      ModBy(a, -q, 0, n);
    } else {
      ModBy(a, -q - 1, n - r, n);
    }
  }

  /** Euclidean remainder is determined by any quotient-remainder split. */
  lemma ModBy(a: int, k: int, s: int, n: int)
    requires n > 0 && a == k * n + s && 0 <= s < n
    ensures a % n == s
  {
    var q := a / n;
    var r := a % n;
    assert a == q * n + r;
    if q < k {
      assert (k - q) * n >= n by { MulAtLeast(k - q, n); }
    } else if q > k {
      assert (q - k) * n >= n by { MulAtLeast(q - k, n); }
    }
  }

  /** Adding a multiple of the divisor leaves the Euclidean remainder alone. */
  lemma ShiftMod(a: int, k: int, n: int)
    requires n > 0
    ensures (a + k * n) % n == a % n
  {
    var q := a / n;
    assert a + k * n == (q + k) * n + a % n;
    ModBy(a + k * n, q + k, a % n, n);
  }

  /** The Euclidean quotient is determined by any quotient-remainder split. */
  lemma DivOf(x: int, n: int, q: int, r: int)
    requires n > 0 && x == q * n + r && 0 <= r < n
    ensures x / n == q
  {
    var p := x / n;
    assert x == p * n + x % n;
    if p < q {
      assert (q - p) * n >= n by { MulAtLeast(q - p, n); }
    } else if p > q {
      assert (p - q) * n >= n by { MulAtLeast(p - q, n); }
    }
  }

  lemma MulAtLeast(a: int, n: int)
    requires a >= 1 && n > 0
    ensures a * n >= n
  {
  }

  /** For negative dividends JavaScript's `%` differs from the Euclidean one. */
  lemma JsRemNegative()
    ensures JsRem(-13, 12) == -1 && -13 % 12 == 11
  {
  }
}
