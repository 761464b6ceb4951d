/** Quotients and remainders of natural numbers. */
module Arithmetic {

  lemma Scaled(p: nat, q: nat, d: nat)
    requires p < q
    ensures p * d + d <= q * d
  {
    assert (q - p) * d == q * d - p * d;
    assert (q - p - 1) * d >= 0;
  }

  lemma DivModBack(a: nat, d: nat)
    requires d > 0
    ensures a == a / d * d + a % d && a % d < d
  {}

  /** Quotient and remainder are what they should be. */
  lemma DivMod(a: nat, d: nat, q: nat, r: nat)
    requires a == q * d + r && r < d
    ensures a / d == q && a % d == r
  {
    DivModBack(a, d);
    if a / d > q { Scaled(q, a / d, d); }
    if a / d < q { Scaled(a / d, q, d); }
  }
}
