/** Division facts the solver does not find by itself. */
module Arithmetic {

  lemma AtLeast(k: int, m: nat)
    requires k > 0
    ensures k * m >= m
  {
    assert k * m == (k - 1) * m + m;
  }

  lemma SameQuotient(m: nat, a: int, b: nat, q: int, r: nat)
    requires b < m && r < m && a * m + b == q * m + r
    ensures a == q && b == r
  {
    var d := a - q;
    assert d * m == a * m - q * m && (-d) * m == -(d * m);
    if d > 0 {
      AtLeast(d, m);
    } else if d < 0 {
      AtLeast(-d, m);
    }
  }

  /** A quotient and a remainder in range are the quotient and the remainder. */
  lemma DivMod(m: nat, q: int, r: nat)
    requires r < m
    ensures (q * m + r) / m == q && (q * m + r) % m == r
  {
    var x := q * m + r;
    assert x == (x / m) * m + x % m;
    SameQuotient(m, x / m, x % m, q, r);
  }
}
