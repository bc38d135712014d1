/** Facts about division that several modules need. */
module Arithmetic {

  lemma SmallMultiple(x: int, m: nat)
    requires 0 - m < x * m < m
    ensures x == 0
  {
  }

  // Quotient and remainder are unique.
  lemma DivisionUnique(a: int, m: nat, q: int, r: nat)
    requires r < m && a == q * m + r
    ensures a / m == q && a % m == r
  {
    var k := a / m;
    assert a == k * m + a % m;
    assert (k - q) * m == r - a % m;
    SmallMultiple(k - q, m);
  }

  lemma DivisionSplits(k: nat, n: nat)
    requires n > 0
    ensures k == (k / n) * n + k % n && k / n >= 0
  {
  }
}
