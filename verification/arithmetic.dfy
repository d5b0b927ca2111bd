/** Small facts of integer and rational arithmetic that the solver does not find unaided. */
module Arithmetic {

  lemma MulAdd(a: int, b: int, c: int)
    ensures a * (b + c) == a * b + a * c
  {
  }

  lemma MulMonotone(a: int, b: int, p: nat)
    requires a <= b
    ensures a * p <= b * p
  {
    MulAdd(p, a, b - a);
    assert p * (b - a) >= 0;
  }

  /** The remainder is the r of any division x == q * p + r with 0 <= r < p. */
  lemma ModUnique(x: int, p: int, q: int, r: int)
    requires p > 0 && 0 <= r < p && x == q * p + r
    ensures x % p == r
  {
    var q', r' := x / p, x % p;
    assert x == q' * p + r';
    if q' < q {
      MulMonotone(q' + 1, q, p);
      MulAdd(p, q', 1);
    } else if q' > q {
      MulMonotone(q + 1, q', p);
      MulAdd(p, q, 1);
    }
  }

  /** A sum between lo * n and hi * n has its mean over n between lo and hi. */
  lemma MeanBounds(sum: int, n: nat, lo: int, hi: int)
    requires n > 0 && lo * n <= sum <= hi * n
    ensures lo as real <= sum as real / n as real <= hi as real
  {
    var q := sum as real / n as real;
    assert q * n as real == sum as real;
    assert (lo * n) as real == lo as real * n as real;
    assert (hi * n) as real == hi as real * n as real;
  }
}
