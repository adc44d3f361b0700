/** The few facts about quotients and remainders by a variable divisor that the components need. */
module Division {

  lemma MulAtLeast(d: nat, x: int)
    requires x >= 1
    ensures x * d >= d
  {
    assert (x - 1) * d >= 0;
  }

  lemma MulSpread(d: int, a: int, b: int)
    ensures (a - b) * d == a * d - b * d
  {
  }

  lemma Quotient(m: int, d: nat)
    requires d > 0
    ensures m == (m / d) * d + m % d && 0 <= m % d < d
  {
  }

  /** Quotient and remainder are unique. */
  lemma DivModUnique(m: int, d: nat, q: int, r: int)
    requires d > 0 && m == q * d + r && 0 <= r < d
    ensures m / d == q && m % d == r
  {
    Quotient(m, d);
    var p := m / d;
    if p > q {
      MulAtLeast(d, p - q);
      MulSpread(d, p, q);
    } else if p < q {
      MulAtLeast(d, q - p);
      MulSpread(d, q, p);
    }
  }

  /** Two numbers with the same remainder that lie less than `d` apart are equal. */
  lemma SameRemainder(a: int, b: int, d: nat)
    requires d > 0 && a % d == b % d && a <= b < a + d
    ensures a == b
  {
    Quotient(a, d);
    Quotient(b, d);
    MulSpread(d, b / d, a / d);
    MulBetween(d, b / d - a / d);
  }

  lemma MulBetween(d: nat, x: int)
    requires 0 <= x * d < d
    ensures x == 0
  {
    if x >= 1 {
      MulAtLeast(d, x);
    } else if x <= -1 {
      MulAtLeast(d, -x);
    }
  }

  lemma AddMultiple(m: int, d: nat, k: int)
    requires d > 0
    ensures (m + k * d) % d == m % d
  {
    Quotient(m, d);
    assert m + k * d == (m / d + k) * d + m % d;
    DivModUnique(m + k * d, d, m / d + k, m % d);
  }
}
