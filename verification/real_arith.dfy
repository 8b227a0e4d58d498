/**
 Facts about multiplying reals that the solver does not find on its own.
 Products are always written with the scaling factor on the right
 (`x * k`), so that the same product is the same term everywhere.
 */
module RealArith {

  /** The product of two non-negative reals is non-negative. */
  lemma MulNonNegative(x: real, k: real)
    ensures 0.0 <= x && 0.0 <= k ==> 0.0 <= x * k
  {
  }

  /** Multiplying by a non-negative factor preserves `<=`. */
  lemma MulMonotone(x: real, y: real, k: real)
    requires x <= y && 0.0 <= k
    ensures x * k <= y * k
  {
    MulNonNegative(y - x, k);
    assert y * k - x * k == (y - x) * k;
  }

  /** Multiplying by a positive factor preserves `<`. */
  lemma MulStrict(x: real, y: real, k: real)
    requires x < y && 0.0 < k
    ensures x * k < y * k
  {
    assert y * k - x * k == (y - x) * k;
  }

  /** Multiplication distributes over a difference. */
  lemma MulSub(x: real, y: real, k: real)
    ensures (x - y) * k == x * k - y * k
  {
  }

  /** Paying one `a` out of `t` lowers the quotient `t / a` by one. */
  lemma QuotientOfDifference(t: real, rest: real, a: real)
    requires 0.0 < a && rest == t - a
    ensures rest / a == t / a - 1.0
  {
    var q := t / a;
    var r := rest / a;
    assert r * a == rest;
    assert q * a == t;
    MulSub(q, 1.0, a);
    if r < q - 1.0 {
      MulStrict(r, q - 1.0, a);
    } else if q - 1.0 < r {
      MulStrict(q - 1.0, r, a);
    }
  }

  /** The quotient `t / a` reaches one exactly when `a` fits in `t`, and is
      non-negative when `t` is. */
  lemma QuotientAgainstOne(t: real, a: real)
    requires 0.0 < a
    ensures a <= t <==> 1.0 <= t / a
    ensures 0.0 <= t ==> 0.0 <= t / a
  {
    var q := t / a;
    assert q * a == t;
    if q < 1.0 {
      MulStrict(q, 1.0, a);
    } else {
      MulMonotone(1.0, q, a);
    }
    if q < 0.0 {
      MulStrict(q, 0.0, a);
    }
  }
}
