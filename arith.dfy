/** Facts about row-major index arithmetic that the solver does not find alone. */
module Arith {

  /** Euclidean division is unique: a quotient and remainder in range are n / d and n % d. */
  lemma DivModUnique(n: int, d: int, q: int, r: int)
    requires 0 < d && 0 <= r < d && n == q * d + r
    ensures n / d == q && n % d == r
  {
    var q', r' := n / d, n % d;
    assert n == q' * d + r';
    if q' < q {
      assert (q - q') * d == q * d - q' * d;
      MulAtLeast(q - q', d);
      assert false;
    } else if q' > q {
      assert (q' - q) * d == q' * d - q * d;
      MulAtLeast(q' - q, d);
      assert false;
    }
  }

  lemma MulAtLeast(a: int, d: int)
    requires 1 <= a && 0 < d
    ensures a * d >= d
  {
    assert a * d == (a - 1) * d + d;
    MulNonNegative(a - 1, d);
  }

  lemma MulNonNegative(a: int, b: int)
    requires 0 <= a && 0 <= b
    ensures 0 <= a * b
  {
  }

  lemma MulMonotone(a: int, b: int, d: int)
    requires a <= b && 0 <= d
    ensures a * d <= b * d
  {
    MulNonNegative(b - a, d);
    assert b * d - a * d == (b - a) * d;
  }

  /** A cell number below w*h has its row below h. */
  lemma RowBelowHeight(n: int, w: int, h: int)
    requires 0 < w && 0 <= n < w * h
    ensures 0 <= n / w < h
  {
    assert n == (n / w) * w + n % w;
    if n / w >= h {
      MulMonotone(h, n / w, w);
      assert false;
    }
  }
}
