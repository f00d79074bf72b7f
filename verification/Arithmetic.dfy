/** Division and multiplication by a number that is not fixed. */
module Arithmetic {
  lemma Scale(a: int, b: int, factor: int)
    requires 0 <= factor
    ensures a <= b ==> a * factor <= b * factor
  {
    assert b * factor == a * factor + (b - a) * factor;
    if a <= b {
      assert 0 <= (b - a) * factor;
    }
  }

  lemma Multiples(p: int, q: int, b: nat)
    ensures p < q ==> p * b + b <= q * b
  {
    Scale(p + 1, q, b);
    assert (p + 1) * b == p * b + b;
  }

  lemma Division(x: int, b: int)
    requires 0 < b
    ensures x == x / b * b + x % b && 0 <= x % b < b
  {
  }

  lemma QuotientIs(x: int, b: int, q: int)
    requires 0 < b && q * b <= x < q * b + b
    ensures x / b == q
  {
    Division(x, b);
    Multiples(q, x / b, b);
    Multiples(x / b, q, b);
  }
}
