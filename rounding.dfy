/** `Math.round(n / d)` for integers n and d > 0, evaluated exactly: the
    nearest integer, halves rounded up (towards +infinity). */
module Rounding {

  function RoundDiv(n: int, d: int): (r: int)
    requires d > 0
    ensures d * (2 * r - 1) <= 2 * n < d * (2 * r + 1)
  {
    var r := (2 * n + d) / (2 * d);
    assert 2 * d * r <= 2 * n + d < 2 * d * r + 2 * d by {
      DivBounds(2 * n + d, 2 * d);
    }
    r
  }

  lemma DivBounds(a: int, b: int)
    requires b > 0
    ensures b * (a / b) <= a < b * (a / b) + b
  {
  }

  /** The nearest integer is unique: any r with the same bounds is RoundDiv. */
  lemma RoundDivUnique(n: int, d: int, r: int)
    requires d > 0
    requires d * (2 * r - 1) <= 2 * n < d * (2 * r + 1)
    ensures r == RoundDiv(n, d)
  {
    var q := RoundDiv(n, d);
    if r < q {
      assert d * (2 * r + 1) <= d * (2 * q - 1) by { MulMono(d, 2 * r + 1, 2 * q - 1); }
    } else if r > q {
      assert d * (2 * q + 1) <= d * (2 * r - 1) by { MulMono(d, 2 * q + 1, 2 * r - 1); }
    }
  }

  lemma MulMono(d: int, a: int, b: int)
    requires d > 0 && a <= b
    ensures d * a <= d * b
  {
  }

  /** Rounding an exact quotient gives the quotient. */
  lemma RoundDivExact(q: int, d: int)
    requires d > 0
    ensures RoundDiv(q * d, d) == q
  {
    RoundDivUnique(q * d, d, q);
  }

  /** Rounding is monotone in the numerator. */
  lemma RoundDivMono(m: int, n: int, d: int)
    requires d > 0 && m <= n
    ensures RoundDiv(m, d) <= RoundDiv(n, d)
  {
    var a, b := RoundDiv(m, d), RoundDiv(n, d);
    if a > b {
      assert d * (2 * b + 1) <= d * (2 * a - 1) by { MulMono(d, 2 * b + 1, 2 * a - 1); }
    }
  }
}
