/** Facts about products and quotients that the solver does not find by itself, for the modules that divide and count. */
module Arithmetic {
  lemma ScaleMonotone(a: int, b: int, k: int)
    requires a <= b && k > 0
    ensures a * k <= b * k
  {
  }

  lemma Scaled(a: int, b: int, k: int)
    requires k > 0
    ensures a <= b <==> a * k <= b * k
  {
    if a <= b {
      ScaleMonotone(a, b, k);
    } else {
      ScaleMonotone(b + 1, a, k);
      assert (b + 1) * k == b * k + k;
    }
  }

  /** The quotient is the greatest factor whose product stays within the number. */
  lemma Quotients(q: int, step: int, n: int)
    requires step > 0
    ensures q * step <= n <==> q <= n / step
  {
    var d := n / step;
    assert n == d * step + n % step;
    if q <= d {
      ScaleMonotone(q, d, step);
    } else {
      ScaleMonotone(d + 1, q, step);
      assert (d + 1) * step == d * step + step;
    }
  }

  /** Quotient and remainder are determined by the division equation. */
  lemma DivisionUnique(n: int, step: int, q: int, r: int)
    requires step > 0 && n == q * step + r && 0 <= r < step
    ensures n / step == q && n % step == r
  {
    Quotients(q, step, n);
    Quotients(q + 1, step, n);
    assert (q + 1) * step == q * step + step;
    assert n == n / step * step + n % step;
  }

  lemma MultipleOf(q: int, step: int)
    requires step > 0
    ensures q * step % step == 0 && q * step / step == q
  {
    DivisionUnique(q * step, step, q, 0);
  }
}
