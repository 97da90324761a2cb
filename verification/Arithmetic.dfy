/** Monotonicity of products and quotients, stated once so that proofs need no nonlinear search. */
module Arithmetic {

  lemma QuotientAtLeast(x: int, d: int, q: int)
    requires d > 0 && d * q <= x
    ensures q <= x / d
  {
    assert x < d * (x / d) + d == d * (x / d + 1);
    CancelFactor(d, q, x / d + 1);
  }

  lemma CancelFactor(c: int, a: int, b: int)
    requires c > 0 && c * a < c * b
    ensures a < b
  {
    if a >= b { Scale(c, b, a); assert false; }
  }

  lemma Scale(c: int, a: int, b: int)
    requires c >= 0 && a <= b
    ensures c * a <= c * b
  {
  }

  lemma DivisionUnique(x: int, d: int, q: int, r: int)
    requires d > 0 && x == d * q + r && 0 <= r < d
    ensures x / d == q && x % d == r
  {
    QuotientAtLeast(x, d, q);
    assert d * (x / d) <= x < d * q + d == d * (q + 1);
    CancelFactor(d, x / d, q + 1);
  }
}
