/** A few facts of non-linear arithmetic. */
module Arithmetic {

  const U64_MAX: nat := 0xffff_ffff_ffff_ffff

  lemma QuotientBounds(n: int, d: int)
    requires d > 0
    ensures (n / d) * d <= n < (n / d) * d + d
  {
  }

  lemma MultipleOrder(d: int, a: int, b: int)
    requires d > 0
    ensures a * d < b * d + d ==> a <= b
    ensures a * d <= b * d ==> a <= b
  {
    if a >= b + 1 {
      ProductOfDifference(a, b + 1, d);
      ProductOfDifference(b + 1, b, d);
      NonNegativeProduct(a - b - 1, d);
    }
  }

  lemma NonNegativeProduct(a: int, b: int)
    requires a >= 0 && b >= 0
    ensures a * b >= 0
  {
  }

  lemma Quotient(n: int, d: int, q: int)
    requires d > 0 && q * d <= n < q * d + d
    ensures n / d == q
  {
    QuotientBounds(n, d);
    MultipleOrder(d, q, n / d);
    MultipleOrder(d, n / d, q);
  }

  lemma QuotientIsBetween(n: int, d: int, low: int, high: int)
    requires d > 0
    ensures low * d <= n <= high * d ==> low <= n / d <= high
  {
    QuotientBounds(n, d);
    MultipleOrder(d, low, n / d);
    MultipleOrder(d, n / d, high);
  }

  lemma QuotientStep(n: nat, d: nat)
    requires d > 0
    ensures (n + 1) / d == n / d + (if (n + 1) % d == 0 then 1 else 0)
  {
    var q, r := n / d, n % d;
    assert n == q * d + r;
    ProductOfDifference(q + 1, q, d);
    if r + 1 == d {
      Quotient(n + 1, d, q + 1);
      assert n + 1 == (q + 1) * d;
    } else {
      Quotient(n + 1, d, q);
    }
  }

  lemma SelfModulo(d: nat)
    requires d > 0
    ensures d % d == 0
  {
  }

  lemma ProductOfDifference(a: int, b: int, d: int)
    ensures (a - b) * d == a * d - b * d == d * a - d * b
  {
  }

  lemma OneMoreTimes(n: int, d: int)
    ensures (n + 1) * d == n * d + d
  {
  }

  lemma AtLeastDouble(a: nat, d: int)
    requires d >= 2
    ensures a * d >= a + a
  {
    if d > 2 {
      ProductOfDifference(d, 2, a);
    }
  }

  lemma ProductBound(a: nat, b: nat, c: nat, d: nat)
    requires a <= c && b <= d
    ensures a * b <= c * d
  {
    assert a * b <= a * d;
    assert a * d <= c * d;
  }
}
