/** Small facts about natural-number multiplication and division that the
    mixed-radix and grid proofs lean on. */
module Arith {

  lemma MulLeMono(a: int, b: int, c: int)
    requires a <= b && 0 <= c
    ensures a * c <= b * c
  {
  }

  /** The quotient and remainder of `q * d + r` are `q` and `r` when `r < d`. */
  lemma DivModUnique(q: int, r: int, d: int)
    requires 0 < d && 0 <= r < d && 0 <= q
    ensures (q * d + r) / d == q
    ensures (q * d + r) % d == r
  {
    var k := q * d + r;
    var q', r' := k / d, k % d;
    assert k == q' * d + r';
    assert (q - q') * d == r' - r;
    if q' < q {
      MulLeMono(1, q - q', d);
    } else if q < q' {
      MulLeMono(1, q' - q, d);
    }
  }

  /** An index below `a * b` has a quotient by `b` below `a`. */
  lemma DivBelow(k: int, a: int, b: int)
    requires 0 <= k < a * b && 0 < b
    ensures k / b < a
  {
    if k / b >= a {
      MulLeMono(a, k / b, b);
    }
  }

  /** A lower digit never carries into a higher one: `a * inner + low` stays
      below `b * inner` when `a < b` and `low < inner`. */
  lemma DigitBelow(a: int, b: int, low: int, inner: int)
    requires 0 <= a < b && 0 <= low < inner
    ensures a * inner + low < b * inner
  {
    MulLeMono(a + 1, b, inner);
    assert (a + 1) * inner == a * inner + inner;
  }

  /** An index below `a * b` makes both factors positive. */
  lemma FactorsPositive(k: int, a: int, b: int)
    requires 0 <= a && 0 <= b && 0 <= k < a * b
    ensures 0 < a && 0 < b
  {
  }

  /** Quotient and remainder rebuild the dividend. */
  lemma DivMod(k: int, d: int)
    requires 0 <= k && 0 < d
    ensures (k / d) * d + k % d == k
    ensures 0 <= k % d < d && 0 <= k / d
  {
  }

  lemma MulSucc(a: int, b: int)
    ensures (a + 1) * b == a * b + b
  {
  }

  lemma MulSwap(a: int, b: int, c: int)
    ensures a * (b * c) == b * (a * c)
  {
  }
}
