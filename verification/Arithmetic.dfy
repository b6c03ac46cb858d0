/** Facts about products and quotients that the solver is not asked to find twice. */
module Arithmetic {

  lemma MulMono(d: int, a: int, b: int)
    requires d >= 0 && a <= b
    ensures d * a <= d * b
  {
  }

  lemma AtLeast(a: int, b: nat)
    requires a >= 1
    ensures a * b >= b
  {
  }

  /** Quotient and remainder are determined by their equation. */
  lemma DivMod(a: int, d: int, q: int, r: int)
    requires 0 <= r < d && a == d * q + r
    ensures a / d == q && a % d == r
  {
    var k := a / d;
    assert d * k + a % d == a;
    if k < q {
      MulMono(d, k + 1, q);
      assert false;
    } else if q < k {
      MulMono(d, q + 1, k);
      assert false;
    }
  }
}
