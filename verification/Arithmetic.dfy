/** Division facts the solver does not find by itself. */
module Arithmetic {

  lemma MulMonotone(n: nat, x: int, y: int)
    requires x <= y
    ensures n * x <= n * y
  {}

  /** Quotient and remainder are determined by n * q + r with r below n. */
  lemma DivideUnique(m: int, n: nat, q: int, r: nat)
    requires n >= 1 && m == n * q + r && r < n
    ensures m / n == q && m % n == r
  {
    var q', r' := m / n, m % n;
    assert m == n * q' + r';
    assert n * q - n * q' == r' - r;
    if q > q' {
      MulMonotone(n, q' + 1, q);
    } else if q < q' {
      MulMonotone(n, q + 1, q');
    }
  }

  /** Multiples of the divisor move straight into the quotient. */
  lemma DivideShifted(d: nat, m: int, r: int)
    requires d >= 1
    ensures (d * m + r) / d == m + r / d && (d * m + r) % d == r % d
  {
    var q := m + r / d;
    assert d * q == d * m + d * (r / d);
    DivideUnique(d * m + r, d, q, r % d);
  }
}
