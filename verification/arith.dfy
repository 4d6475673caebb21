/** Facts of integer arithmetic the histogram and framing proofs need, stated
    once: products of unknowns are beyond the solver's routine reasoning. */
module Arith {

  lemma MulLe(a: int, b: int, c: int)
    requires a <= b && c >= 0
    ensures a * c <= b * c
  {
    assert b * c - a * c == (b - a) * c;
  }

  lemma Distrib(x: int, y: int, z: int)
    ensures (x + y) * z == x * z + y * z
  {
  }

  /** Quotient and remainder are unique. */
  lemma DivModOf(x: int, d: int, q: int, m: int)
    requires 0 <= m < d && x == q * d + m
    ensures x / d == q && x % d == m
  {
    var k := x / d - q;
    assert d * k == m - x % d by {
      assert x == d * (x / d) + x % d;
      assert d * (x / d) - q * d == d * k;
    }
    MulSign(d, k);
  }

  lemma MulSign(d: int, k: int)
    requires d > 0
    ensures k >= 1 ==> d * k >= d
    ensures k <= -1 ==> d * k <= -d
  {
    if k >= 1 {
      assert d * k == d + d * (k - 1);
      MulLe(0, k - 1, d);
    }
    if k <= -1 {
      assert d * k == -d + d * (k + 1);
      MulLe(k + 1, 0, d);
    }
  }
}
