/** Small facts about multiplication, division and remainder that the
    solver does not find on its own. */
module Arithmetic {

  lemma MulNonNegative(x: int, y: int)
    requires x >= 0 && y >= 0
    ensures x * y >= 0
  {
  }

  /** One factor taken one step down: c * n == c * (n - 1) + c. */
  lemma MulStepDown(c: int, n: int)
    ensures c * n == c * (n - 1) + c
  {
  }

  lemma MulMonotone(m: int, a: int, b: int)
    requires m >= 0 && a <= b
    ensures m * a <= m * b
  {
    MulNonNegative(m, b - a);
    assert m * b - m * a == m * (b - a);
  }

  lemma MulSign(q: int, k: int)
    requires q > 0
    ensures k >= 1 ==> q * k >= q
    ensures k <= -1 ==> q * k <= -q
  {
    if k >= 1 {
      MulMonotone(q, 1, k);
    } else if k <= -1 {
      MulMonotone(q, k, -1);
    }
  }

  /** The remainder of m*q + t by m is t, for 0 <= t < m. */
  lemma ModOfMultiplePlus(m: int, q: int, t: int)
    requires m > 0 && 0 <= t < m
    ensures (m * q + t) % m == t
  {
    var n := m * q + t;
    var k := q - n / m;
    assert m * k == n % m - t by {
      assert n == m * (n / m) + n % m;
      assert m * k == m * q - m * (n / m);
    }
    MulSign(m, k);
  }

  /** A factor of a product divides it. */
  lemma FactorDivides(i: int, d: int, q: int)
    requires q > 0 && i == d * q
    ensures i % q == 0
  {
    ModOfMultiplePlus(q, d, 0);
    assert q * d + 0 == i;
  }
}
