/** Facts about products and quotients that the solver does not find by itself. */
module Arithmetic {
  lemma Times(a: int, b: int, n: int)
    requires a <= b && n >= 0
    ensures a * n <= b * n && a * n == (a - 1) * n + n
  {
  }

  /** A quotient and a remainder that fit are the quotient and the remainder. */
  lemma Unique(x: int, n: int, q: int, r: int)
    requires 0 <= r < n && x == q * n + r
    ensures x / n == q && x % n == r
  {
    var p := x / n;
    assert x == p * n + x % n;
    if p < q {
      Times(p + 1, q, n);
    } else if q < p {
      Times(q + 1, p, n);
    }
  }
}
