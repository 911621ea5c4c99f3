/** Facts about the percentages the components report and about the
    Euclidean remainder the round-robin cursor is reduced by, kept apart so
    that the proofs that use them stay small. */
module Arithmetic {

  /** Multiplying both sides by a positive number keeps a strict comparison. */
  lemma ScaledGreater(u: real, m: real, c: real)
    requires m > 0.0
    ensures (u > c) == (u * m > c * m)
  {
    if u > c {
      assert (u - c) * m > 0.0;
    } else {
      assert (c - u) * m >= 0.0;
    }
  }

  /** A percentage (z / m) * 100, scaled back by m, is 100 * z. */
  lemma PercentTimesWhole(z: real, m: real, u: real)
    requires m != 0.0
    requires u == (z / m) * 100.0
    ensures u * m == 100.0 * z
  {
    var f := z / m;
    assert f * m == z;
    calc {
      u * m;
    ==
      (f * 100.0) * m;
    ==
      (f * m) * 100.0;
    }
  }

  /** The percentage a part 0 <= z <= m makes of a positive whole m lies in
      [0, 100], and it is above a bound c exactly when 100 * z > c * m. */
  lemma PercentFacts(z: real, m: real, u: real, c: real)
    requires m > 0.0
    requires u == (z / m) * 100.0
    ensures 0.0 <= z <= m ==> 0.0 <= u <= 100.0
    ensures (u > c) == (100.0 * z > c * m)
  {
    PercentTimesWhole(z, m, u);
    ScaledGreater(u, m, c);
    ScaledGreater(u, m, 100.0);
    ScaledGreater(0.0, m, u);
  }

  /** A mean of values in [0, hi] lies in [0, hi]. */
  lemma MeanBounds(sum: real, count: real, hi: real)
    requires count > 0.0 && 0.0 <= sum <= hi * count
    ensures 0.0 <= sum / count <= hi
  {
    var m := sum / count;
    assert m * count == sum;
    ScaledGreater(m, count, hi);
    ScaledGreater(0.0, count, m);
  }

  /** A mean above x means a sum above x times the count. */
  lemma MeanAbove(sum: real, count: real, x: real)
    requires count > 0.0 && sum / count > x
    ensures sum > x * count
  {
    var m := sum / count;
    assert m * count == sum;
    ScaledGreater(m, count, x);
  }

  /** Quotient and remainder are unique: a == q * n + r with 0 <= r < n
      pins down a / n and a % n. */
  lemma ModUnique(a: int, n: int, q: int, r: int)
    requires n > 0 && 0 <= r < n && a == q * n + r
    ensures a % n == r && a / n == q
  {
    var q', r' := a / n, a % n;
    assert a == q' * n + r';
    assert (q - q') * n == r' - r;
    assert q - q' >= 1 ==> (q - q' - 1) * n >= 0;
    assert q - q' <= -1 ==> (q' - q - 1) * n >= 0;
  }
}
