/**
 * Scaling a real by a power of the radix 10: `Scale(x, e)` is x·10^e for an integer e of
 * either sign. It is defined one decimal place at a time, the way the number type shifts a
 * mantissa, and is linear in x; the lemmas below collect the algebra the rest of the model needs.
 */
module Powers {

  /** x·10^e, one factor of ten per unit of e. */
  function Scale(x: real, e: int): real
    decreases if e >= 0 then e else -e
  {
    if e == 0 then x
    else if e > 0 then Scale(10.0 * x, e - 1)
    else Scale(x / 10.0, e + 1)
  }

  /** Scaling distributes over a sum. */
  lemma {:induction false} ScaleAdd(x: real, y: real, e: int)
    ensures Scale(x + y, e) == Scale(x, e) + Scale(y, e)
    decreases if e >= 0 then e else -e
  {
    if e > 0 {
      ScaleAdd(10.0 * x, 10.0 * y, e - 1);
      assert 10.0 * (x + y) == 10.0 * x + 10.0 * y;
    } else if e < 0 {
      ScaleAdd(x / 10.0, y / 10.0, e + 1);
      assert (x + y) / 10.0 == x / 10.0 + y / 10.0;
    }
  }

  /** A constant factor can be taken out of a scaling. */
  lemma {:induction false} ScaleHomogeneous(c: real, x: real, e: int)
    ensures Scale(c * x, e) == c * Scale(x, e)
    decreases if e >= 0 then e else -e
  {
    var cx := c * x;
    if e > 0 {
      var x1, cx1 := 10.0 * x, 10.0 * cx;
      Regroup(c, x, cx, 10.0, x1, cx1);
      ScaleHomogeneous(c, x1, e - 1);
      assert Scale(cx1, e - 1) == c * Scale(x1, e - 1);
    } else if e < 0 {
      var x1, cx1 := x / 10.0, cx / 10.0;
      Regroup(c, x, cx, 0.1, x1, cx1);
      ScaleHomogeneous(c, x1, e + 1);
      assert Scale(cx1, e + 1) == c * Scale(x1, e + 1);
    }
  }

  lemma Regroup(c: real, x: real, cx: real, k: real, x1: real, cx1: real)
    requires cx == c * x && x1 == k * x && cx1 == k * cx
    ensures cx1 == c * x1
  {
  }

  lemma Commute(x: real, y: real)
    ensures x * y == y * x
  {
  }

  /** Multiplying the mantissa by ten is the same as raising the exponent by one. */
  lemma ScaleStep(x: real, e: int)
    ensures Scale(10.0 * x, e) == Scale(x, e + 1)
    ensures Scale(x, e + 1) == 10.0 * Scale(x, e)
  {
    var tx := 10.0 * x;
    if e < 0 {
      assert tx / 10.0 == x;
      assert Scale(tx, e) == Scale(tx / 10.0, e + 1);
    } else {
      assert Scale(x, e + 1) == Scale(tx, e);
    }
    ScaleHomogeneous(10.0, x, e);
    assert Scale(tx, e) == 10.0 * Scale(x, e);
  }

  /** Dividing the mantissa by ten is the same as lowering the exponent by one. */
  lemma ScaleStepDown(x: real, e: int)
    ensures Scale(x / 10.0, e) == Scale(x, e - 1)
    ensures Scale(x, e - 1) == Scale(x, e) / 10.0
  {
    var dx := x / 10.0;
    ScaleStep(dx, e - 1);
    assert 10.0 * dx == x;
    ScaleStep(x, e - 1);
  }

  /** Two scalings compose by adding their exponents. */
  lemma {:induction false} ScaleCompose(x: real, a: int, b: int)
    ensures Scale(Scale(x, a), b) == Scale(x, a + b)
    decreases if a >= 0 then a else -a
  {
    if a > 0 {
      ScaleCompose(10.0 * x, a - 1, b);
    } else if a < 0 {
      ScaleCompose(x / 10.0, a + 1, b);
    }
  }

  /** Scalings multiply: x·10^a · y·10^b = (x·y)·10^(a+b). */
  lemma ScaleMul(x: real, y: real, a: int, b: int)
    ensures Scale(x * y, a + b) == Scale(x, a) * Scale(y, b)
  {
    var xy, sx, sy := x * y, Scale(x, a), Scale(y, b);
    ScaleCompose(xy, a, b);
    Commute(x, y);
    ScaleHomogeneous(y, x, a);
    var t := Scale(xy, a);
    assert t == y * sx;
    Commute(y, sx);
    ScaleHomogeneous(sx, y, b);
    assert Scale(t, b) == sx * sy;
  }

  /** Scalings divide: (x·10^a) / (y·10^b) = (x/y)·10^(a-b). */
  lemma ScaleDiv(x: real, y: real, a: int, b: int)
    requires y != 0.0
    ensures Scale(y, b) != 0.0
    ensures Scale(x / y, a - b) == Scale(x, a) / Scale(y, b)
  {
    var q := x / y;
    assert q * y == x;
    ScaleMul(q, y, a - b, b);
    ScaleSign(y, b);
  }

  /** Multiplying a quotient back by its scaled divisor cancels the division. */
  lemma ScaleDivCancel(x: real, y: real, a: int, b: int)
    requires y != 0.0
    ensures Scale(y, b) * Scale(x / y, a - b) == Scale(x, a)
  {
    var q := x / y;
    assert y * q == x;
    ScaleMul(y, q, b, a - b);
  }

  /** Scaling keeps the sign, and only zero scales to zero. */
  lemma {:induction false} ScaleSign(x: real, e: int)
    ensures (Scale(x, e) > 0.0) == (x > 0.0)
    ensures (Scale(x, e) < 0.0) == (x < 0.0)
    ensures (Scale(x, e) == 0.0) == (x == 0.0)
    decreases if e >= 0 then e else -e
  {
    if e > 0 {
      ScaleSign(10.0 * x, e - 1);
    } else if e < 0 {
      ScaleSign(x / 10.0, e + 1);
    }
  }

  /** Scaling by a fixed exponent is strictly increasing in the mantissa. */
  lemma ScaleMonotone(x: real, y: real, e: int)
    requires x < y
    ensures Scale(x, e) < Scale(y, e)
  {
    ScaleAdd(y - x, x, e);
    ScaleSign(y - x, e);
    assert (y - x) + x == y;
  }

  /** A nonnegative exponent never shrinks a positive value. */
  lemma {:induction false} ScaleGrows(x: real, n: nat)
    requires x > 0.0
    ensures Scale(x, n) >= x
  {
    if n > 0 {
      ScaleStep(x, n - 1);
      ScaleGrows(x, n - 1);
    }
  }

  /**
   * A mantissa below ten at a smaller exponent is below any mantissa of at least one at a
   * larger exponent: the fact that makes the exponent dominate the order of normalised values.
   */
  lemma ScaleDominates(x: real, a: int, y: real, b: int)
    requires 0.0 <= x < 10.0 && 1.0 <= y && a < b
    ensures Scale(x, a) < Scale(y, b)
  {
    ScaleMonotone(x, 10.0, a);
    ScaleStep(1.0, a);
    assert Scale(10.0, a) == Scale(1.0, a + 1);
    ScaleCompose(1.0, a + 1, b - a - 1);
    ScaleSign(1.0, a + 1);
    ScaleGrows(Scale(1.0, a + 1), b - a - 1);
    if y > 1.0 {
      ScaleMonotone(1.0, y, b);
    }
  }

  /** Scaling by zero places is the identity and scaling zero gives zero. */
  lemma ScaleTrivial(x: real, e: int)
    ensures Scale(x, 0) == x
    ensures Scale(0.0, e) == 0.0
  {
    ScaleSign(0.0, e);
    assert Scale(0.0, e) == 0.0;
  }

  /** Negation commutes with scaling. */
  lemma {:induction false} ScaleNeg(x: real, e: int)
    ensures Scale(-x, e) == -Scale(x, e)
    decreases if e >= 0 then e else -e
  {
    if e > 0 {
      ScaleNeg(10.0 * x, e - 1);
      assert 10.0 * -x == -(10.0 * x);
    } else if e < 0 {
      ScaleNeg(x / 10.0, e + 1);
      assert -x / 10.0 == -(x / 10.0);
    }
  }
}
