/** Products, quotients and remainders. */
module Arithmetic {
  import opened Cyclic

  lemma Product(x: nat, y: nat, d: nat)
    ensures x <= y ==> x * d <= y * d && d * x <= d * y
  {
  }

  lemma Division(a: nat, d: nat)
    requires d > 0
    ensures a / d * d <= a < (a / d + 1) * d
  {
  }

  lemma QuotientIs(k: nat, q: nat, d: nat)
    requires d > 0 && q * d <= k < (q + 1) * d
    ensures k / d == q
  {
    var e := k / d;
    assert e * d <= k < e * d + d;
    Product(e + 1, q, d);
    Product(q + 1, e, d);
  }

  lemma RemainderIs(x: nat, q: nat, r: nat, m: nat)
    requires r < m && x == q * m + r
    ensures x % m == r
  {
    assert (q + 1) * m == q * m + m;
    QuotientIs(x, q, m);
  }

  /** Counting up modulo `m` goes round. */
  lemma NextModulo(x: nat, m: nat)
    requires m > 0
    ensures (x + 1) % m == Next(x % m, m)
  {
    var q, r := x / m, x % m;
    assert x == q * m + r;
    if r + 1 == m {
      assert x + 1 == (q + 1) * m;
      RemainderIs(x + 1, q + 1, 0, m);
    } else {
      RemainderIs(x + 1, q, r + 1, m);
    }
  }
}
