/** Floor division by one divisor after another, and the bounds that pin a quotient down. */
module Quotients {

  /** The quotient of natural numbers, rounded down. */
  function Floor(n: nat, d: nat): (q: nat)
    requires d > 0
    ensures q == n / d
  {
    n / d
  }

  lemma ProductPositive(a: nat, b: nat)
    requires a > 0 && b > 0
    ensures a * b > 0
  {
  }

  lemma DivideTwice(n: nat, a: nat, b: nat)
    requires a > 0 && b > 0
    ensures a * b > 0
    ensures n / a / b == n / (a * b)
  {
    ProductPositive(a, b);
    var q, s := n / a, n / a / b;
    QuotientBounds(n, a);
    QuotientBounds(q, b);
    TwoFloors(n, a, b, q, s);
    QuotientUnique(n, a * b, s);
  }

  lemma QuotientBounds(n: nat, d: nat)
    requires d > 0
    ensures d * (n / d) <= n < d * (n / d) + d
  {
  }

  lemma ProductLe(a: nat, m: nat, n: nat)
    requires m <= n
    ensures a * m <= a * n
  {
    assert a * n == a * m + a * (n - m);
  }

  lemma TwoFloors(n: nat, a: nat, b: nat, q: nat, s: nat)
    requires a * q <= n < a * q + a && b * s <= q < b * s + b
    ensures (a * b) * s <= n < (a * b) * s + a * b
  {
    ProductLe(a, b * s, q);
    ProductLe(a, q + 1, b * s + b);
    Regroup(a, b, s, q);
  }

  lemma Regroup(a: nat, b: nat, s: nat, q: nat)
    ensures a * (b * s) == (a * b) * s && a * (b * s + b) == (a * b) * s + a * b && a * (q + 1) == a * q + a
  {
  }

  lemma ProductStep(d: nat, m: nat, n: nat)
    ensures m < n ==> d * m + d <= d * n
  {
    if m < n {
      ProductLe(d, m + 1, n);
      assert d * (m + 1) == d * m + d;
    }
  }

  lemma QuotientUnique(n: nat, d: nat, q: nat)
    requires d > 0 && d * q <= n < d * q + d
    ensures n / d == q
  {
    QuotientBounds(n, d);
    var k: nat := n / d;
    ProductStep(d, q, k);
    ProductStep(d, k, q);
  }
}
