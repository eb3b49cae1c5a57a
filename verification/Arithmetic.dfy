/** Facts about products and quotients of variables. */
module Arithmetic {
  lemma MulLe(a: int, b: int, c: nat)
    requires a <= b
    ensures a * c <= b * c
  {
  }

  lemma MulDistributes(a: int, b: int, c: int)
    ensures (a + b) * c == a * c + b * c
  {
  }

  lemma MulCommutes(a: int, b: int)
    ensures a * b == b * a
  {
  }

  /** The quotient is the only number of whole divisors that fits. */
  lemma DivIs(x: nat, d: nat, q: nat)
    requires d > 0 && q * d <= x < q * d + d
    ensures x / d == q
  {
    var q' := x / d;
    DivBounds(x, d);
    if q' < q {
      MulLe(q' + 1, q, d);
      MulDistributes(q', 1, d);
      assert false;
    } else if q' > q {
      MulLe(q + 1, q', d);
      MulDistributes(q, 1, d);
      assert false;
    }
  }

  lemma DivBounds(x: nat, d: nat)
    requires d > 0
    ensures x / d * d <= x < x / d * d + d
    ensures x == x / d * d + x % d && 0 <= x % d < d
  {
  }
}
