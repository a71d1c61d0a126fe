/** Facts about Euclidean division used by the calendar and the string hash. */
module Arith {

  /** Adding a multiple of m does not change the remainder. */
  lemma ModAddMultiple(a: int, k: int, m: int)
    requires m > 0
    ensures (a + k * m) % m == a % m
  {
    var r := a % m;
    var q := a / m;
    assert a + k * m == (q + k) * m + r;
    DivModUnique(a + k * m, m, q + k, r);
  }

  /** Euclidean division has a unique quotient and remainder. */
  lemma DivModUnique(a: int, m: int, q: int, r: int)
    requires m > 0 && 0 <= r < m && a == q * m + r
    ensures a / m == q && a % m == r
  {
    var q', r' := a / m, a % m;
    assert q' * m + r' == q * m + r;
    if q' < q {
      assert (q - q') * m == r' - r;
      MulAtLeast(q - q', m);
    } else if q' > q {
      assert (q' - q) * m == r - r';
      MulAtLeast(q' - q, m);
    }
  }

  lemma MulAtLeast(k: int, m: int)
    requires k >= 1 && m > 0
    ensures k * m >= m
  {
  }

  /** Two distinct numbers congruent modulo n lie at least n apart. */
  lemma CongruentGap(x: int, y: int, s: int, n: int)
    requires n > 0 && (x - s) % n == 0 && (y - s) % n == 0 && x < y
    ensures y - x >= n
  {
    var p, q := (x - s) / n, (y - s) / n;
    assert x - s == p * n && y - s == q * n;
    assert y - x == (q - p) * n;
    PositiveFactor(q - p, n);
    MulAtLeast(q - p, n);
  }

  /** Stepping a number congruent to s modulo n by n keeps it congruent. */
  lemma CongruentStep(x: int, s: int, n: int)
    requires n > 0 && (x - s) % n == 0
    ensures (x + n - s) % n == 0
  {
    ModAddMultiple(x - s, 1, n);
  }

  /** The largest multiple of n not above a non-negative k. */
  lemma RoundDown(k: int, n: int)
    requires k >= 0 && n > 0
    ensures 0 <= (k / n) * n <= k < (k / n) * n + n
    ensures ((k / n) * n) % n == 0
  {
    var q := k / n;
    assert k == q * n + k % n;
    assert q >= 0;
    ModAddMultiple(0, q, n);
  }

  /** A positive product with a positive factor has a positive other factor. */
  lemma PositiveFactor(k: int, n: int)
    requires n > 0 && k * n > 0
    ensures k >= 1
  {
    if k <= 0 {
      NonPositiveProduct(k, n);
    }
  }

  lemma NonPositiveProduct(k: int, n: int)
    requires k <= 0 && n > 0
    ensures k * n <= 0
  {
  }
}
