/** Facts about products, quotients and remainders, and the units of memory. */
module Arithmetic {
  const PAGE := 4096

  lemma Division(v: nat, m: nat)
    requires m > 0
    ensures v == v / m * m + v % m && 0 <= v % m < m
  {
  }

  lemma {:induction false} Gap(a: nat, b: nat, m: nat)
    requires a > b
    ensures a * m >= b * m + m
  {
    if a > b + 1 {
      Gap(a - 1, b, m);
      assert a * m == (a - 1) * m + m;
    }
  }

  /** Quotient and remainder are unique. */
  lemma DivisionUnique(v: nat, m: nat, q: nat, r: nat)
    requires r < m && v == q * m + r
    ensures v / m == q && v % m == r
  {
    var q', r' := v / m, v % m;
    Division(v, m);
    if q > q' { Gap(q, q', m); }
    if q < q' { Gap(q', q, m); }
  }

  lemma Distribute(a: nat, b: nat, c: nat)
    ensures (a + b) * c == a * c + b * c
  {
  }

  lemma Associate(a: nat, b: nat, c: nat)
    ensures a * b * c == a * (b * c)
  {
  }

  /** Adding a multiple of the divisor. */
  lemma AddMultiple(a: nat, b: nat, k: nat)
    requires k > 0
    ensures (a * k + b) / k == a + b / k && (a * k + b) % k == b % k
  {
    Division(b, k);
    Distribute(a, b / k, k);
    DivisionUnique(a * k + b, k, a + b / k, b % k);
  }
}
