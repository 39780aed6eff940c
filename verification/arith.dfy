/** Small facts about products and floor division of naturals, stated
    separately so that each proof that needs one asks the solver only for it. */
module NatArith {

  lemma MulMonotone(a: nat, b: nat, q: nat)
    requires a <= b
    ensures a * q <= b * q
  {
  }

  /** A product inequality with a positive common factor cancels. */
  lemma MulCancel(a: nat, b: nat, q: nat)
    requires q > 0 && a * q <= b * q
    ensures a <= b
  {
    if a > b {
      MulMonotone(b + 1, a, q);
    }
  }

  lemma MulStrictMonotone(a: nat, b: nat, q: nat)
    requires a < b && q > 0
    ensures a * q < b * q
  {
    assert b * q == a * q + (b - a) * q;
  }

  /** A strict product inequality with a common factor cancels. */
  lemma MulCancelStrict(a: nat, b: nat, q: nat)
    requires a * q < b * q
    ensures a < b
  {
    if a >= b {
      MulMonotone(b, a, q);
    }
  }

  lemma MulLeftCommute(a: nat, b: nat, c: nat)
    ensures a * (b * c) == b * (a * c)
  {
  }

  /** Floor division by a positive divisor, stated without division. */
  lemma DivFloor(n: nat, d: nat)
    requires d > 0
    ensures 0 <= n / d
    ensures (n / d) * d <= n < (n / d + 1) * d
  {
  }
}
