/** Facts about multiplication and Euclidean division that several modules need. */
module Arithmetic {

  lemma MulGe(k: int, d: int)
    requires k >= 1 && d >= 0
    ensures k * d >= d
  {
  }

  lemma MulLess(a: int, b: int, d: int)
    requires a < b && d > 0
    ensures a * d <= b * d - d
  {
    MulGe(b - a, d);
  }

  /** Quotient and remainder are determined by the equation they satisfy. */
  lemma DivUnique(x: int, d: int, q: int, r: int)
    requires 0 <= r < d && x == q * d + r
    ensures x / d == q && x % d == r
  {
    if q < x / d { MulLess(q, x / d, d); }
    if x / d < q { MulLess(x / d, q, d); }
  }
}
