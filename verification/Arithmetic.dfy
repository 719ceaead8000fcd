/** Products and quotients of natural numbers. */
module Arithmetic {

  lemma MulMonotone(x: nat, y: nat, m: nat)
    requires x <= y
    ensures x * m <= y * m
  {
  }

  lemma NextMultiple(x: nat, y: nat, m: nat)
    requires x < y
    ensures x * m + m <= y * m
  {
    MulMonotone(x + 1, y, m);
    assert (x + 1) * m == x * m + m;
  }

  lemma QuotientUnique(q: nat, r: nat, d: nat)
    requires r < d
    ensures (q * d + r) / d == q && (q * d + r) % d == r
  {
    var n := q * d + r;
    if n / d < q {
      NextMultiple(n / d, q, d);
    } else if n / d > q {
      NextMultiple(q, n / d, d);
    }
  }

  /** Go's `/` and `%` on operands that are not negative. */
  method DivMod(n: nat, d: nat) returns (q: nat, r: nat)
    requires d > 0
    ensures n == q * d + r && r < d
    ensures q == n / d && r == n % d
  {
    q, r := n / d, n % d;
  }
}
