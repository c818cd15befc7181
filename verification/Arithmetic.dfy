/**
 Products and quotients of natural numbers, for the proofs that need them.
 */
module Arithmetic {
  lemma ProductMonotone(a: nat, b: nat, c: nat)
    requires a <= b
    ensures a * c <= b * c
  {
  }

  lemma QuotientBounds(a: nat, d: nat)
    requires d > 0
    ensures a / d * d <= a < (a / d + 1) * d
  {
    assert a == a / d * d + a % d;
  }

  lemma QuotientBelow(a: nat, b: nat, d: nat)
    requires d > 0 && a < b * d
    ensures a / d < b
  {
    QuotientBounds(a, d);
    var q := a / d;
    if b <= q {
      ProductMonotone(b, q, d);
    }
  }

  lemma QuotientMonotone(a: nat, b: nat, d: nat)
    requires d > 0 && a <= b
    ensures a / d <= b / d
  {
    QuotientBounds(b, d);
    QuotientBelow(a, b / d + 1, d);
  }

  lemma QuotientRises(a: nat, b: nat, d: nat)
    requires d > 0 && a + d <= b
    ensures a / d < b / d
  {
    QuotientBounds(b, d);
    assert (b / d + 1) * d == b / d * d + d;
    QuotientBelow(a, b / d, d);
  }

  lemma DivisionIsUnique(q: nat, r: nat, d: nat)
    requires r < d
    ensures (q * d + r) / d == q && (q * d + r) % d == r
  {
    var n: nat := q * d + r;
    QuotientBounds(n, d);
    var p := n / d;
    if p < q {
      ProductMonotone(p + 1, q, d);
    } else if q < p {
      ProductMonotone(q + 1, p, d);
    }
    assert n == n / d * d + n % d;
  }

  lemma RealProductRises(a: real, b: real, c: real)
    requires a < b && c > 0.0
    ensures a * c < b * c
  {
  }

  /** A quotient of naturals against a whole number. */
  lemma RatioBounded(a: nat, b: nat, limit: nat)
    requires b > 0 && a <= limit * b
    ensures 0.0 <= a as real / b as real <= limit as real
  {
    var q := a as real / b as real;
    assert q * b as real == a as real;
    assert (limit * b) as real == limit as real * b as real;
    if limit as real < q {
      RealProductRises(limit as real, q, b as real);
    } else if q < 0.0 {
      RealProductRises(q, 0.0, b as real);
    }
  }

  lemma RatioIsOne(a: nat, b: nat)
    requires b > 0
    ensures a as real / b as real == 1.0 <==> a == b
  {
    assert a as real / b as real * b as real == a as real;
  }
}
