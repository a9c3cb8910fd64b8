/** Multiplication and division where both operands vary. */
module Arithmetic {

  lemma TimesMonotone(a: nat, b: nat, p: nat)
    requires a <= b
    ensures a * p <= b * p
  {
  }

  lemma Quotient(c: nat, p: nat)
    requires p > 0
    ensures c / p * p <= c < (c / p + 1) * p
  {
    assert c == c / p * p + c % p;
  }

  /** The quotient is the only number that fits. */
  lemma DivUnique(c: nat, p: nat, q: nat)
    requires p > 0 && q * p <= c < (q + 1) * p
    ensures c / p == q
  {
    Quotient(c, p);
    if c / p > q { TimesMonotone(q + 1, c / p, p); }
    if c / p < q { TimesMonotone(c / p + 1, q, p); }
  }

  lemma DivMonotone(a: nat, b: nat, p: nat)
    requires a <= b && p > 0
    ensures a / p <= b / p
  {
    Quotient(a, p);
    Quotient(b, p);
    if a / p > b / p { TimesMonotone(b / p + 1, a / p, p); }
  }

  lemma DivAtLeast(c: nat, p: nat, q: nat)
    requires p > 0 && q * p <= c
    ensures q <= c / p
  {
    Quotient(c, p);
    if q > c / p { TimesMonotone(c / p + 1, q, p); }
  }

  lemma DivBelow(c: nat, p: nat, q: nat)
    requires p > 0 && c < q * p
    ensures c / p < q
  {
    Quotient(c, p);
    if q <= c / p { TimesMonotone(q, c / p, p); }
  }
}
