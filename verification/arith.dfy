/** Facts about integer division and remainder (Euclidean, as in Dafny;
    they coincide with Python's `//`, `%` and `int()` for the non-negative
    operands the renderer uses). */
module Arith {

  lemma MulMonotone(a: int, b: int, m: int)
    requires a <= b && 0 <= m
    ensures a * m <= b * m
  {
  }

  /** The quotient and remainder of a by d are the only q, r with
      a == d·q + r and 0 <= r < d. */
  lemma DivModUnique(a: int, d: int, q: int, r: int)
    requires 0 < d && a == d * q + r && 0 <= r < d
    ensures a / d == q && a % d == r
  {
    var q0, r0 := a / d, a % d;
    assert d * q0 + r0 == d * q + r;
    if q0 > q {
      MulMonotone(1, q0 - q, d);
    } else if q0 < q {
      MulMonotone(1, q - q0, d);
    }
  }

  lemma DivMonotone(a: int, b: int, d: int)
    requires a <= b && 0 < d
    ensures a / d <= b / d
  {
    var qa, qb := a / d, b / d;
    if qa > qb {
      MulMonotone(qb + 1, qa, d);
    }
  }

  /** A positive factor can be cancelled from both sides of ≤. */
  lemma MulCancel(c: int, x: int, y: int)
    requires 0 < c && c * x <= c * y
    ensures x <= y
  {
    if x > y {
      MulMonotone(y + 1, x, c);
    }
  }

  /** The floor quotient a / d is the largest x with x·d <= a. */
  lemma FloorIsMax(x: int, a: int, d: int)
    requires 0 < d && x * d <= a
    ensures x <= a / d
  {
    if x > a / d {
      MulMonotone(a / d + 1, x, d);
    }
  }

  /** The remainder of o + d by step is d when o is a multiple of step and
      0 <= d < step. */
  lemma ModOfOffset(o: int, d: int, step: int)
    requires 0 < step && o % step == 0 && 0 <= d < step
    ensures (o + d) % step == d
    ensures (o + d) / step == o / step
  {
    DivModUnique(o + d, step, o / step, d);
  }

  /** Adding step to a multiple of step gives the next multiple. */
  lemma NextMultiple(o: int, step: int)
    requires 0 < step && o % step == 0
    ensures (o + step) % step == 0
  {
    DivModUnique(o + step, step, o / step + 1, 0);
  }

  /** x − x mod step is a multiple of step. */
  lemma RoundDownIsMultiple(x: int, step: int)
    requires 0 < step
    ensures (x - x % step) % step == 0
  {
    DivModUnique(x - x % step, step, x / step, 0);
  }

  /** Two distinct multiples of step are at least step apart. */
  lemma MultiplesApart(a: int, b: int, step: int)
    requires 0 < step && a % step == 0 && b % step == 0 && a < b
    ensures a + step <= b
  {
    if b < a + step {
      ModOfOffset(a, b - a, step);
    }
  }

  /** Dividing a non-negative a by a positive d exactly and rounding down
      gives the integer quotient. */
  lemma RealFloorOfQuotient(a: int, d: int)
    requires 0 <= a && 0 < d
    ensures (a as real / d as real).Floor == a / d
  {
    var q, r := a / d, a % d;
    assert a == d * q + r;
    assert a as real == d as real * q as real + r as real;
    assert a as real / d as real == q as real + r as real / d as real;
    assert 0.0 <= r as real / d as real < 1.0;
  }

  /** 255 − a/c, taken over the rationals, is (255·c − a)/c. */
  lemma RealComplement(a: int, c: int)
    requires 0 < c
    ensures 255.0 - a as real / c as real == (255 * c - a) as real / c as real
  {
    var cr, ar := c as real, a as real;
    var q1, q2 := 255.0 - ar / cr, (255 * c - a) as real / cr;
    assert (255 * c - a) as real == 255.0 * cr - ar;
    assert q2 * cr == 255.0 * cr - ar;
    assert (ar / cr) * cr == ar;
    assert q1 * cr == 255.0 * cr - ar;
    assert (q1 - q2) * cr == 0.0;
    if q1 != q2 {
      assert false;
    }
  }

  /** ((v/c)/255)·m over the rationals is (v·m)/(c·255). */
  lemma RealScale(v: int, c: int, m: int)
    requires 0 < c
    ensures ((v as real / c as real) / 255.0) * m as real == (v * m) as real / (c * 255) as real
  {
    var vr, cr, mr := v as real, c as real, m as real;
    assert (v * m) as real == vr * mr;
    assert (c * 255) as real == cr * 255.0;
    assert ((vr / cr) / 255.0) * mr == (vr * mr) / (cr * 255.0);
  }
}
