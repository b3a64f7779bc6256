/**
 Facts about products and quotients.
 */
module Arithmetic {

  lemma ProductMonotone(a: nat, b: nat, c: nat)
    requires a <= b
    ensures a * c <= b * c
  {
  }

  lemma QuotientBelow(n: nat, d: nat, m: nat)
    requires 0 < d && n < m * d
    ensures n / d < m
  {
  }

  lemma ZeroMultiple(k: int, d: nat)
    requires 0 <= k * d < d
    ensures k == 0
  {
  }

  lemma QuotientExact(d: nat, m: nat)
    requires 0 < d
    ensures d * m / d == m
  {
    var q, r := d * m / d, d * m % d;
    assert (m - q) * d == r;
    ZeroMultiple(m - q, d);
  }

  lemma ProductBelow(x: nat, d: nat, m: nat)
    requires x < d && 0 < m
    ensures x * m < m * d
  {
  }

  /** Taking away a multiple of the divisor leaves the remainder. */
  lemma WholeMultiple(x: int, q: nat, m: nat)
    requires m > 0
    ensures (x - q * m) % m == x % m
  {
    var a, b := x / m, (x - q * m) / m;
    var k := b + q - a;
    assert x == a * m + x % m && x - q * m == b * m + (x - q * m) % m;
    assert k * m == b * m + q * m - a * m == x % m - (x - q * m) % m;
    if k >= 0 {
      ZeroMultiple(k, m);
    } else {
      assert -k * m == -(k * m);
      ZeroMultiple(-k, m);
    }
  }

  /** Halving and then dividing is dividing by twice as much. */
  lemma HalvedQuotient(x: nat, n: nat)
    requires n > 0
    ensures x / 2 / n == x / (2 * n)
  {
    var a, b := x / 2, x / 2 / n;
    assert a == n * b + a % n;
    assert 2 * n * b == 2 * (n * b);
    QuotientIs(x, 2 * n, b);
  }

  lemma QuotientIs(x: nat, d: nat, q: nat)
    requires 0 < d && d * q <= x < d * q + d
    ensures x / d == q
  {
    var k := x / d - q;
    assert x == d * (x / d) + x % d;
    assert k * d == x - x % d - d * q;
    if k >= 0 {
      ZeroMultiple(k, d);
    } else {
      assert -k * d == -(k * d);
      ZeroMultiple(-k, d);
    }
  }

  lemma SmallRemainder(v: int, m: nat)
    requires 0 <= v < m
    ensures v % m == v && (v - m) % m == v
  {
    assert (v - 1 * m) % m == v % m by {
      WholeMultiple(v, 1, m);
    }
  }
}
