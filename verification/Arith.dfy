/** Facts about integer division that the solver does not find by itself. */
module Arith {
  lemma MulMonotone(d: int, x: int, y: int)
    requires d >= 0 && x <= y
    ensures d * x <= d * y
  {
  }

  lemma DivMonotone(a: int, b: int, d: int)
    requires a <= b && d > 0
    ensures a / d <= b / d
  {
    var q, r := a / d, b / d;
    assert a == d * q + a % d && b == d * r + b % d && d * (r + 1) == d * r + d;
    if q > r {
      MulMonotone(d, r + 1, q);
      assert false;
    }
  }

  /** The quotient of a number between two multiples is between the factors. */
  lemma DivBetween(a: int, d: int, lo: int, hi: int)
    requires d > 0 && d * lo <= a <= d * hi
    ensures lo <= a / d <= hi
  {
    var q := a / d;
    assert a == d * q + a % d && d * (q + 1) == d * q + d && d * (hi + 1) == d * hi + d;
    if q < lo {
      MulMonotone(d, q + 1, lo);
      assert false;
    }
    if q > hi {
      MulMonotone(d, hi + 1, q);
      assert false;
    }
  }
}
