/** Division by a positive number, as multiplication. */
module Arithmetic {
  lemma ProductSign(q: int, d: int)
    requires d > 0
    ensures q <= 0 ==> q * d <= 0
    ensures q >= 1 ==> q * d >= d
    ensures q <= -1 ==> q * d <= -d
  {
  }

  /** Quotient and remainder are determined. */
  lemma QuotientIsUnique(q: int, r: int, p: int, s: int, d: int)
    requires d > 0 && q * d + r == p * d + s && 0 <= r < d && 0 <= s < d
    ensures q == p && r == s
  {
    ProductSign(q - p, d);
    assert (q - p) * d == s - r;
  }

  lemma DividesAs(n: nat, q: int, r: int, d: int)
    requires d > 0 && 0 <= r < d && n == q * d + r
    ensures n / d == q && n % d == r
  {
    assert n == n / d * d + n % d;
    QuotientIsUnique(q, r, n / d, n % d, d);
  }
}
