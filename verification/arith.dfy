/** Integer facts the calendar and the progress bar rely on. Dafny's `/`
    and `%` are Euclidean; for the positive divisors used here that is
    floor division, as in the calendar arithmetic being modelled. */
module Arith {

  /** Multiplying by a non-negative number keeps order. */
  lemma MulLe(a: int, b: int, t: int)
    requires 0 <= t && a <= b
    ensures a * t <= b * t
  {
    assert b * t - a * t == (b - a) * t;
  }

  /** Quotient and remainder are unique. */
  lemma DivUnique(y: int, d: int, q: int, r: int)
    requires d > 0 && 0 <= r < d && y == d * q + r
    ensures y / d == q && y % d == r
  {
    var q', r' := y / d, y % d;
    assert d * q' + r' == d * q + r;
    if q' < q {
      MulLe(1, q - q', d);
    } else if q < q' {
      MulLe(1, q' - q, d);
    }
  }

  /** Going from `y - 1` to `y` adds one to the quotient by `d` exactly when
      `y` is a multiple of `d`. */
  lemma DivStep(y: int, d: int)
    requires d > 0
    ensures y / d == (y - 1) / d + (if y % d == 0 then 1 else 0)
  {
    var q, r := (y - 1) / d, (y - 1) % d;
    if r + 1 == d {
      assert y == d * (q + 1) + 0;
      DivUnique(y, d, q + 1, 0);
    } else {
      DivUnique(y, d, q, r + 1);
    }
  }

  /** A multiple of `a * b` is a multiple of `a`. */
  lemma MultipleOfFactor(y: int, a: int, b: int)
    requires a > 0 && b > 0 && y % (a * b) == 0
    ensures y % a == 0
  {
    var q := y / (a * b);
    assert y == (a * b) * q;
    assert y == a * (b * q) + 0;
    DivUnique(y, a, b * q, 0);
  }
}
