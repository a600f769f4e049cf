/** Facts about products, quotients and powers that the solver does not find by itself. */
module Arithmetic {

  /** 2^n */
  function Pow2(n: nat): nat {
    if n == 0 then 1 else 2 * Pow2(n - 1)
  }

  lemma {:induction false} Pow2Positive(n: nat)
    ensures Pow2(n) > 0
  {
    if n > 0 {
      Pow2Positive(n - 1);
    }
  }

  lemma ProductNotNegative(x: int, y: int)
    requires x >= 0 && y >= 0
    ensures x * y >= 0
  {
  }

  lemma LargeProduct(d: int, k: int)
    requires d > 0 && k != 0
    ensures d * k >= d || d * k <= -d
  {
    if k > 0 {
      ProductNotNegative(d, k - 1);
      assert d * (k - 1) == d * k - d;
    } else {
      ProductNotNegative(d, -k - 1);
      assert d * (-k - 1) == -(d * k) - d;
    }
  }

  /** Quotient and remainder are the only numbers that fit. */
  lemma DivisionIsUnique(n: int, d: int, q: int, r: int)
    requires n == d * q + r && 0 <= r < d
    ensures n / d == q && n % d == r
  {
    var f := n / d;
    assert n == d * f + n % d;
    assert d * (q - f) == d * q - d * f;
    if q != f {
      LargeProduct(d, q - f);
    }
  }
}
