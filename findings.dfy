/**
 * Three places where the code does not do what the members' own names promise (`IsFinite`,
 * `CompareTo`, the remainder operator `%`), each as written (in the modules that model the source) next to the evidently intended
 * definition with its property proved:
 *
 *  - `IsFinite` returns the `isInfinity` flag, so it answers the opposite question;
 *  - `CompareTo` lets the exponent decide between two numbers of the same sign, which reverses
 *    the order for negative numbers (and makes the comparator intransitive);
 *  - `%` computes `left - right * (left / right)` without truncating the quotient, so with
 *    exact mantissas every remainder of nonzero operands is zero.
 */
module Findings {
  import opened Doubles
  import opened Powers
  import opened Numbers
  import opened Arithmetic
  import opened Comparison
  import Classification

  // ---------------------------------------------------------------------------------------
  // IsFinite

  /** `IsFinite` as intended: neither infinite nor NaN. */
  predicate IsFiniteIntended(v: Number) {
    !v.isInfinity && !v.isNaN
  }

  /** On every constructed number the intended `IsFinite` holds exactly for a finite mantissa. */
  lemma IsFiniteIntendedSpec(v: Number)
    requires WellFormed(v)
    ensures IsFiniteIntended(v) <==> FiniteValued(v)
    ensures IsFiniteIntended(v) <==> !Classification.IsInfinity(v) && !Classification.IsNaN(v)
  {
  }

  /** As written, `IsFinite(One)` is false and `IsFinite` of an infinity is true. */
  lemma IsFiniteCounterexample()
    ensures !Classification.IsFinite(One()) && IsFiniteIntended(One())
    ensures Classification.IsFinite(New(PositiveInfinity, 0)) && !IsFiniteIntended(New(PositiveInfinity, 0))
  {
    NormalizeExamples();
  }

  // ---------------------------------------------------------------------------------------
  // CompareTo

  /**
   * The comparator as intended: the source's four rules, except that numbers of opposite signs
   * are ordered by their mantissas and, between two negative numbers, the larger exponent
   * means the smaller number.
   */
  function CompareByValue(x: Number, y: Number): (c: int)
    ensures -1 <= c <= 1
  {
    if IsZero(x.mantissa) && IsZero(y.mantissa) then 0
    else if IsZero(x.mantissa) != IsZero(y.mantissa) then Doubles.CompareTo(x.mantissa, y.mantissa)
    else if x.exponent == y.exponent then Doubles.CompareTo(x.mantissa, y.mantissa)
    else if Doubles.Less(x.mantissa, Finite(0.0)) != Doubles.Less(y.mantissa, Finite(0.0)) then
      Doubles.CompareTo(x.mantissa, y.mantissa)
    else if Doubles.Less(x.mantissa, Finite(0.0)) then IntCompare(y.exponent, x.exponent)
    else IntCompare(x.exponent, y.exponent)
  }

  /** On normalised finite numbers the intended comparator is the order of values. */
  lemma CompareByValueSpec(x: Number, y: Number)
    requires Normalized(x) && Normalized(y) && FiniteValued(x) && FiniteValued(y)
    ensures CompareByValue(x, y) == RealCompare(Value(x), Value(y))
  {
    var a, b := x.mantissa.r, y.mantissa.r;
    ScaleSign(a, x.exponent);
    ScaleSign(b, y.exponent);
    if IsZero(x.mantissa) || IsZero(y.mantissa) {
      CompareWithZero(x, y);
    } else if x.exponent == y.exponent {
      CompareSameExponent(x, y);
    } else if (a < 0.0) != (b < 0.0) {
      CompareToFinite(a, b);
    } else if a < 0.0 {
      CompareNegativeReversed(x, y);
    } else {
      CompareNonnegative(x, y);
    }
  }

  /** Hence the intended comparator is transitive on normalised finite numbers. */
  lemma CompareByValueTransitive(x: Number, y: Number, z: Number)
    requires Normalized(x) && Normalized(y) && Normalized(z)
    requires FiniteValued(x) && FiniteValued(y) && FiniteValued(z)
    requires CompareByValue(x, y) < 0 && CompareByValue(y, z) < 0
    ensures CompareByValue(x, z) < 0
  {
    CompareByValueSpec(x, y);
    CompareByValueSpec(y, z);
    CompareByValueSpec(x, z);
  }

  /**
   * As written, -1E+005 compares greater than -1E+003, and greater than 1E+003; the intended
   * comparator puts it below both.
   */
  lemma CompareToCounterexample()
    ensures var a, b, c := Number(Finite(-1.0), 5, false, false), Number(Finite(-1.0), 3, false, false),
                          Number(Finite(1.0), 3, false, false);
      && Greater(a, b) && Greater(a, c)
      && CompareByValue(a, b) < 0 && CompareByValue(a, c) < 0
  {
  }

  // ---------------------------------------------------------------------------------------
  // The remainder operator

  /** Truncation toward zero, as C# integer division rounds its quotient. */
  function Trunc(q: real): (t: int)
    ensures q >= 0.0 ==> 0.0 <= q - t as real < 1.0
    ensures q < 0.0 ==> -1.0 < q - t as real <= 0.0
  {
    if q >= 0.0 then q.Floor else -((-q).Floor)
  }

  /** The truncated remainder of two reals: `x - y * truncate(x / y)`. */
  function TruncRem(x: real, y: real): real
    requires y != 0.0
  {
    x - y * Trunc(x / y) as real
  }

  /**
   * `%` as intended: the same two guards, then the truncated remainder of the values of
   * finite operands; ±∞ and NaN operands keep the source's formula.
   */
  function RemainderIntended(a: Number, b: Number): (r: Number)
    ensures Normalized(r)
  {
    if IsZero(a.mantissa) then Zero()
    else if IsZero(b.mantissa) then New(NaN, 0)
    else if FiniteValued(a) && FiniteValued(b) then
      ScaleSign(b.mantissa.r, b.exponent);
      New(Finite(TruncRem(Value(a), Value(b))), 0)
    else Remainder(a, b)
  }

  /**
   * The truncated remainder of reals is smaller in magnitude than the divisor, and zero or of
   * the dividend's sign.
   */
  lemma TruncatedRemainder(x: real, y: real)
    requires y != 0.0
    ensures RealAbs(TruncRem(x, y)) < RealAbs(y)
    ensures TruncRem(x, y) == 0.0 || (TruncRem(x, y) > 0.0) == (x > 0.0)
  {
    var q := x / y;
    var t := Trunc(q) as real;
    var d := q - t;
    assert y * q == x;
    assert x - y * t == y * d;
    SignOfQuotient(x, y, q);
    ProductBound(y, d);
  }

  /** The quotient of `x` by `y` is zero exactly when `x` is, and otherwise has the sign rule of division. */
  lemma SignOfQuotient(x: real, y: real, q: real)
    requires y != 0.0 && y * q == x
    ensures (q > 0.0) == ((x > 0.0) == (y > 0.0)) || x == 0.0
    ensures (q == 0.0) == (x == 0.0)
  {
  }

  /** Multiplying by a fraction strictly between -1 and 1 shrinks the magnitude and keeps the sign rule. */
  lemma ProductBound(y: real, d: real)
    requires y != 0.0 && -1.0 < d < 1.0
    ensures RealAbs(y * d) < RealAbs(y)
    ensures d == 0.0 || (y * d > 0.0) == ((y > 0.0) == (d > 0.0))
    ensures (y * d == 0.0) == (d == 0.0)
  {
    if d == 0.0 {
      assert y * d == 0.0;
    } else if y > 0.0 {
      FractionOfPositive(y, d);
    } else {
      FractionOfNegative(y, d);
    }
  }

  /** A positive number times a fraction strictly between -1 and 1 is smaller in magnitude. */
  lemma FractionOfPositive(y: real, d: real)
    requires y > 0.0 && -1.0 < d < 1.0 && d != 0.0
    ensures -y < y * d < y
    ensures (y * d > 0.0) == (d > 0.0) && (y * d < 0.0) == (d < 0.0)
  {
    if d > 0.0 {
      PositiveProduct(y, d);
      PositiveProduct(y, 1.0 - d);
      assert y * (1.0 - d) == y - y * d;
    } else {
      PositiveProduct(y, -d);
      PositiveProduct(y, 1.0 + d);
      assert y * (-d) == -(y * d);
      assert y * (1.0 + d) == y + y * d;
    }
  }

  /** A negative number times a fraction strictly between -1 and 1 is smaller in magnitude. */
  lemma FractionOfNegative(y: real, d: real)
    requires y < 0.0 && -1.0 < d < 1.0 && d != 0.0
    ensures y < y * d < -y && RealAbs(y * d) < RealAbs(y)
    ensures (y * d > 0.0) == (d < 0.0) && (y * d < 0.0) == (d > 0.0)
  {
    FractionOfPositive(-y, -d);
    assert (-y) * (-d) == y * d;
  }

  /** The product of two positive reals is positive. */
  lemma PositiveProduct(a: real, b: real)
    requires a > 0.0 && b > 0.0
    ensures a * b > 0.0
  {
  }

  /**
   * For nonzero finite operands the intended remainder has the value
   * `left - right * truncate(left / right)`: below the divisor in magnitude and zero or of the
   * dividend's sign. The zero-dividend and zero-divisor guards are the source's.
   */
  lemma RemainderIntendedSpec(a: Number, b: Number)
    requires FiniteValued(a) && FiniteValued(b) && !IsZero(b.mantissa)
    ensures Value(b) != 0.0
    ensures var r := RemainderIntended(a, b);
      && FiniteValued(r)
      && Value(r) == TruncRem(Value(a), Value(b))
      && RealAbs(Value(r)) < RealAbs(Value(b))
      && (Value(r) == 0.0 || (Value(r) > 0.0) == (Value(a) > 0.0))
  {
    ScaleSign(b.mantissa.r, b.exponent);
    ScaleSign(a.mantissa.r, a.exponent);
    TruncatedRemainder(Value(a), Value(b));
    ScaleTrivial(TruncRem(Value(a), Value(b)), 0);
    if IsZero(a.mantissa) {
      ScaleTrivial(0.0, 0);
      assert TruncRem(Value(a), Value(b)) == 0.0;
    }
  }

  /** As written 7 % 2 is zero; the intended remainder is one. */
  lemma RemainderCounterexample()
    ensures var seven, two := Number(Finite(7.0), 0, false, false), Number(Finite(2.0), 0, false, false);
      Remainder(seven, two) == Zero() && RemainderIntended(seven, two) == One()
  {
    var seven, two := Number(Finite(7.0), 0, false, false), Number(Finite(2.0), 0, false, false);
    RemainderCollapses(seven, two);
    ScaleTrivial(7.0, 0);
    ScaleTrivial(2.0, 0);
    assert Trunc(7.0 / 2.0) == 3;
    NormalizeExamples();
  }
}
