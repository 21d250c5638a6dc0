/** Facts about products and floors that the solver should not have to find again. */
module Arith {
  /** Integer division of unsigned operands. */
  function Floor(x: nat, d: nat): nat
    requires d > 0
  {
    x / d
  }

  lemma {:induction false} MulMonotone(a: nat, b: nat, c: nat)
    requires a <= b
    ensures a * c <= b * c
  {
  }

  /** A floor is at least q exactly when q whole divisors fit. */
  lemma {:induction false} FloorAtLeast(x: nat, d: nat, q: nat)
    requires d > 0
    ensures q <= x / d <==> q * d <= x
  {
    var p, r := x / d, x % d;
    assert x == p * d + r;
    if q <= p {
      MulMonotone(q, p, d);
    } else {
      MulMonotone(p + 1, q, d);
      assert (p + 1) * d == p * d + d;
    }
  }

  lemma {:induction false} FloorIs(x: nat, d: nat, q: nat)
    requires d > 0 && q * d <= x < q * d + d
    ensures x / d == q
  {
    FloorAtLeast(x, d, q);
    FloorAtLeast(x, d, q + 1);
    assert (q + 1) * d == q * d + d;
  }

  lemma {:induction false} DivLess(s: nat, k: nat, d: nat)
    requires 0 < s && k < d
    ensures s * k / d < s
  {
    FloorAtLeast(s * k, d, s);
    MulMonotone(k + 1, d, s);
    assert (k + 1) * s == s * k + s && d * s == s * d;
  }
}
