/** Signed 64-bit integers and C++ integer division.
    The time-span type stores an `s64`; signed overflow is undefined behaviour in C++,
    so operations that could overflow carry a precondition that the exact result fits.
    C++ `/` truncates toward zero, whereas Dafny's `/` on `int` is Euclidean: `TDiv`
    models the C++ operator for a positive divisor, which is the only kind the source uses. */
module Int64 {

  const MIN: int := -0x8000_0000_0000_0000
  const MAX: int := 0x7FFF_FFFF_FFFF_FFFF

  /** The C++ type `s64` (`int64_t`). */
  type s64 = x: int | MIN <= x <= MAX

  predicate InS64(x: int) {
    MIN <= x <= MAX
  }

  /** `q` is the quotient of `a` by `d` rounded toward zero: the remainder `a - q * d`
      has the sign of `a` and is smaller than `d` in magnitude. */
  predicate IsTruncQuotient(a: int, d: int, q: int) {
    d > 0 &&
    (a >= 0 ==> 0 <= q * d <= a < q * d + d) &&
    (a < 0 ==> q * d - d < a <= q * d <= 0)
  }

  /** C++ `a / d` for `d > 0`. The result is never larger in magnitude than `a`,
      so it stays in the range of `a`'s type. */
  function TDiv(a: int, d: int): (q: int)
    requires d > 0
    ensures IsTruncQuotient(a, d, q)
    ensures a >= 0 ==> 0 <= q <= a
    ensures a < 0 ==> a <= q <= 0
  {
    if a >= 0 then
      EuclideanQuotient(a, d);
      a / d
    else
      EuclideanQuotient(-a, d);
      NegMul(a / d, d);
      -((-a) / d)
  }

  /** Helper: for a non-negative dividend, Euclidean and truncating division agree. */
  lemma EuclideanQuotient(a: int, d: int)
    requires a >= 0 && d > 0
    ensures IsTruncQuotient(a, d, a / d) && 0 <= a / d <= a
  {
    var p, m := a / d, a % d;
    assert a == d * p + m && 0 <= m < d;
    assert p * d == d * p;
    MulSign(p, d);
  }

  /** Helper: negation commutes with multiplication. */
  lemma NegMul(p: int, d: int)
    ensures (-p) * d == -(p * d)
  {
  }

  /** Helper: multiplying by a positive number keeps the sign and never shrinks the magnitude. */
  lemma MulSign(k: int, d: int)
    requires d > 0
    ensures k >= 0 ==> k * d >= k
    ensures k < 0 ==> k * d <= k
  {
    if k >= 0 {
      var j := d - 1;
      assert k * d == k * j + k;
    } else {
      var j := d - 1;
      assert k * d == k * j + k;
      assert k * j <= 0 by { NegMul(k, j); MulNonNeg(-k, j); }
    }
  }

  /** Helper: product of non-negative numbers. */
  lemma MulNonNeg(x: int, y: int)
    requires x >= 0 && y >= 0
    ensures x * y >= 0
  {
  }

  /** Helper: multiplying by a positive number preserves order. */
  lemma MulMonotone(x: int, y: int, d: int)
    requires x <= y && d > 0
    ensures x * d <= y * d
  {
    MulSign(y - x, d);
    assert y * d - x * d == (y - x) * d;
  }

  /** Helper: if `x * d` lies below `y * d + d`, then `x <= y`. */
  lemma MulBelowNext(x: int, y: int, d: int)
    requires d > 0 && x * d < y * d + d
    ensures x <= y
  {
    assert (x - y - 1) * d == x * d - y * d - d;
    MulSign(x - y - 1, d);
  }

  /** The truncated quotient is unique: two candidates satisfying the characterisation agree. */
  lemma TruncQuotientUnique(a: int, d: int, q1: int, q2: int)
    requires IsTruncQuotient(a, d, q1) && IsTruncQuotient(a, d, q2)
    ensures q1 == q2
  {
    if a >= 0 {
      MulBelowNext(q1, q2, d);
      MulBelowNext(q2, q1, d);
    } else {
      MulBelowNext(q1, q2, d);
      MulBelowNext(q2, q1, d);
    }
  }

  /** Any number satisfying the characterisation is what `TDiv` computes. */
  lemma TDivIs(a: int, d: int, q: int)
    requires IsTruncQuotient(a, d, q)
    ensures TDiv(a, d) == q
  {
    TruncQuotientUnique(a, d, TDiv(a, d), q);
  }

  /** Dividing an exact multiple gives back the factor, whatever its sign. */
  lemma TDivExact(v: int, d: int)
    requires d > 0
    ensures TDiv(v * d, d) == v
  {
    MulSign(v, d);
    TDivIs(v * d, d, v);
  }

  /** Truncation is symmetric under negation; flooring is not (`-3 / 2` is `-2` in Dafny, `-1` in C++). */
  lemma TDivNegate(a: int, d: int)
    requires d > 0
    ensures TDiv(-a, d) == -TDiv(a, d)
  {
  }

  /** Truncating division preserves order. */
  lemma TDivMonotone(a: int, b: int, d: int)
    requires a <= b && d > 0
    ensures TDiv(a, d) <= TDiv(b, d)
  {
    var qa, qb := TDiv(a, d), TDiv(b, d);
    MulBelowNext(qa, qb, d);
  }

  /** Dividing in two steps is dividing once by the product of the divisors. */
  lemma TDivNested(a: int, d1: int, d2: int)
    requires d1 > 0 && d2 > 0
    ensures TDiv(TDiv(a, d1), d2) == TDiv(a, d1 * d2)
  {
    var q1 := TDiv(a, d1);
    var q := TDiv(q1, d2);
    var m := q * d2;
    MulSign(d2, d1);
    MulSign(q, d1 * d2);
    Associate(q, d2, d1);
    Distribute(m, d2, d1);
    if a >= 0 {
      // m <= q1 <= m + d2 - 1, so m * d1 <= q1 * d1 <= a < q1 * d1 + d1 <= m * d1 + d2 * d1
      MulMonotone(m, q1, d1);
      MulMonotone(q1, m + d2 - 1, d1);
    } else {
      // m - d2 + 1 <= q1 <= m, so m * d1 - d2 * d1 + d1 <= q1 * d1 - d1 + d1 and q1 * d1 <= m * d1
      MulMonotone(q1, m, d1);
      MulMonotone(m - d2 + 1, q1, d1);
    }
    TDivIs(a, d1 * d2, q);
  }

  /** Helper: `(q * d2) * d1 == q * (d1 * d2)`. */
  lemma Associate(q: int, d2: int, d1: int)
    ensures (q * d2) * d1 == q * (d1 * d2)
  {
  }

  /** Helper: `(m + d2 - 1) * d1` and `(m - d2 + 1) * d1` expanded. */
  lemma Distribute(m: int, d2: int, d1: int)
    ensures (m + d2 - 1) * d1 == m * d1 + d1 * d2 - d1
    ensures (m - d2 + 1) * d1 == m * d1 - d1 * d2 + d1
  {
  }
}
