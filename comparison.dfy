/**
 * The comparator `CompareTo(other)` and everything derived from it: the relational operators,
 * `Equals`, and `MaxMagnitude`/`MinMagnitude` (with their `...Number` twins).
 *
 * The comparator is a four-rule decision tree in which the exponent dominates the mantissa
 * whenever neither mantissa is zero. It therefore agrees with the order of values for
 * normalised nonnegative numbers and for equal exponents, but reverses it for two negative
 * numbers with different exponents, and it is not transitive.
 */
module Comparison {
  import opened Doubles
  import opened Powers
  import opened Numbers

  /** The sign of `a - b`: the order of values the comparator is measured against. */
  function RealCompare(a: real, b: real): (c: int)
    ensures -1 <= c <= 1
    ensures c < 0 <==> a < b
    ensures c == 0 <==> a == b
  {
    if a < b then -1 else if a > b then 1 else 0
  }

  /** `long.CompareTo` / `Int128.CompareTo` on the exponents: the same sign test on integers. */
  function IntCompare(a: int, b: int): (c: int)
    ensures -1 <= c <= 1
    ensures c < 0 <==> a < b
    ensures c == 0 <==> a == b
  {
    RealCompare(a as real, b as real)
  }

  /**
   * `CompareTo(other)`: both mantissas zero gives 0; exactly one zero compares the mantissas;
   * equal exponents compare the mantissas; otherwise the exponents decide.
   */
  function CompareTo(x: Number, y: Number): (c: int)
    ensures -1 <= c <= 1
  {
    if IsZero(x.mantissa) && IsZero(y.mantissa) then 0
    else if IsZero(x.mantissa) != IsZero(y.mantissa) then Doubles.CompareTo(x.mantissa, y.mantissa)
    else if x.exponent == y.exponent then Doubles.CompareTo(x.mantissa, y.mantissa)
    else IntCompare(x.exponent, y.exponent)
  }

  /** A normalised number with a finite, nonnegative mantissa. */
  predicate NonnegativeNormalized(v: Number) {
    Normalized(v) && FiniteValued(v) && v.mantissa.r >= 0.0
  }

  /** `operator ==` (and `Equals(other)`, which calls it). */
  function Equal(x: Number, y: Number): (b: bool)
    ensures WellFormed(x) && WellFormed(y) ==> (b <==> x == y)
  {
    CompareTo(x, y) == 0
  }

  /** `operator !=` */
  function NotEqual(x: Number, y: Number): (b: bool)
    ensures b <==> !Equal(x, y)
  {
    CompareTo(x, y) != 0
  }

  /** `operator >` */
  function Greater(x: Number, y: Number): (b: bool)
    ensures b <==> CompareTo(y, x) < 0
    ensures b ==> !Equal(x, y)
  {
    CompareToAntisymmetric(x.mantissa, y.mantissa);
    CompareTo(x, y) > 0
  }

  /** `operator <` */
  function Less(x: Number, y: Number): (b: bool)
    ensures b ==> !Equal(x, y) && !Greater(x, y)
    ensures NonnegativeNormalized(x) && NonnegativeNormalized(y) ==> (b <==> Value(x) < Value(y))
  {
    CompareNonnegative(x, y);
    CompareTo(x, y) < 0
  }

  /** `operator >=`: `left == right || left > right`. */
  function GreaterOrEqual(x: Number, y: Number): (b: bool)
    ensures b <==> !Less(x, y)
  {
    Equal(x, y) || Greater(x, y)
  }

  /** `operator <=`: `left < right || left == right`. */
  function LessOrEqual(x: Number, y: Number): (b: bool)
    ensures b <==> !Greater(x, y)
    ensures b <==> GreaterOrEqual(y, x)
  {
    CompareToAntisymmetric(x.mantissa, y.mantissa);
    Less(x, y) || Equal(x, y)
  }

  /** `MaxMagnitude(x, y)`: `x > y ? x : y`, by the comparator rather than by magnitude. */
  function MaxMagnitude(x: Number, y: Number): (r: Number)
    ensures r == x || r == y
    ensures !Less(r, x) && !Less(r, y)
    ensures Equal(x, y) ==> r == y
  {
    CompareAntisymmetric(x, y);
    if Greater(x, y) then x else y
  }

  /** `MinMagnitude(x, y)`: `x < y ? x : y`. */
  function MinMagnitude(x: Number, y: Number): (r: Number)
    ensures r == x || r == y
    ensures !Greater(r, x) && !Greater(r, y)
    ensures Equal(x, y) ==> r == y
  {
    CompareAntisymmetric(x, y);
    if Less(x, y) then x else y
  }

  /** `MaxMagnitudeNumber` delegates to `MaxMagnitude`. */
  function MaxMagnitudeNumber(x: Number, y: Number): (r: Number)
    ensures r == x || r == y
    ensures !Less(r, x) && !Less(r, y)
  {
    MaxMagnitude(x, y)
  }

  /** `MinMagnitudeNumber` delegates to `MinMagnitude`. */
  function MinMagnitudeNumber(x: Number, y: Number): (r: Number)
    ensures r == x || r == y
    ensures !Greater(r, x) && !Greater(r, y)
  {
    MinMagnitude(x, y)
  }

  // ---------------------------------------------------------------------------------------
  // Properties of the decision tree

  /** The comparator is reflexive and antisymmetric, for every pair (NaN included). */
  lemma CompareAntisymmetric(x: Number, y: Number)
    ensures CompareTo(x, x) == 0
    ensures CompareTo(x, y) == -CompareTo(y, x)
    ensures Greater(x, y) <==> Less(y, x)
  {
    CompareToAntisymmetric(x.mantissa, y.mantissa);
  }

  /**
   * On well-formed numbers `==` is structural equality: it is true exactly when mantissa,
   * exponent and flags all agree. So two well-formed numbers with the same value but different
   * exponents (a raw `AlignDigit` result and its normalised form) are not `==`.
   */
  lemma EqualIsStructural(x: Number, y: Number)
    requires WellFormed(x) && WellFormed(y)
    ensures Equal(x, y) <==> x == y
  {
  }

  /** `1E+005` aligned to exponent 3 is `(100, 3)`: the same value, yet not `==` to `1E+005`. */
  lemma EqualIsNotValueEquality()
    ensures var x := Number(Finite(1.0), 5, false, false);
      Value(AlignDigit(x, 3)) == Value(x) && !Equal(AlignDigit(x, 3), x)
  {
    var x := Number(Finite(1.0), 5, false, false);
    AlignDigitNotNormalized();
    AlignDigitSpec(x, 3);
  }

  /** With equal exponents the comparator is the order of values, for any signs. */
  lemma CompareSameExponent(x: Number, y: Number)
    requires FiniteValued(x) && FiniteValued(y) && x.exponent == y.exponent
    ensures CompareTo(x, y) == RealCompare(Value(x), Value(y))
  {
    var a, b := x.mantissa.r, y.mantissa.r;
    CompareToFinite(a, b);
    if a < b {
      ScaleMonotone(a, b, x.exponent);
    } else if b < a {
      ScaleMonotone(b, a, x.exponent);
    }
  }

  /**
   * When one mantissa is zero the comparator is the order of values: the zero side has value
   * 0 and the other the sign of its mantissa.
   */
  lemma CompareWithZero(x: Number, y: Number)
    requires FiniteValued(x) && FiniteValued(y) && (IsZero(x.mantissa) || IsZero(y.mantissa))
    ensures CompareTo(x, y) == RealCompare(Value(x), Value(y))
  {
    ScaleSign(x.mantissa.r, x.exponent);
    ScaleSign(y.mantissa.r, y.exponent);
    CompareToFinite(x.mantissa.r, y.mantissa.r);
  }

  /** For normalised nonnegative numbers the comparator agrees with the order of values. */
  lemma CompareNonnegative(x: Number, y: Number)
    ensures NonnegativeNormalized(x) && NonnegativeNormalized(y) ==>
      CompareTo(x, y) == RealCompare(Value(x), Value(y))
  {
    if !(NonnegativeNormalized(x) && NonnegativeNormalized(y)) {
    } else if IsZero(x.mantissa) || IsZero(y.mantissa) {
      CompareWithZero(x, y);
    } else if x.exponent == y.exponent {
      CompareSameExponent(x, y);
    } else if x.exponent < y.exponent {
      ScaleDominates(x.mantissa.r, x.exponent, y.mantissa.r, y.exponent);
    } else {
      ScaleDominates(y.mantissa.r, y.exponent, x.mantissa.r, x.exponent);
    }
  }

  /**
   * For two normalised negative numbers with different exponents the comparator reverses the
   * order of values: the one with the larger exponent compares greater although it is the
   * smaller value.
   */
  lemma CompareNegativeReversed(x: Number, y: Number)
    requires Normalized(x) && Normalized(y) && FiniteValued(x) && FiniteValued(y)
    requires x.mantissa.r < 0.0 && y.mantissa.r < 0.0 && x.exponent != y.exponent
    ensures CompareTo(x, y) == -RealCompare(Value(x), Value(y))
    ensures CompareTo(x, y) != 0
  {
    var a, b := -x.mantissa.r, -y.mantissa.r;
    ScaleNeg(a, x.exponent);
    ScaleNeg(b, y.exponent);
    assert -a == x.mantissa.r && -b == y.mantissa.r;
    if x.exponent < y.exponent {
      ScaleDominates(a, x.exponent, b, y.exponent);
    } else {
      ScaleDominates(b, y.exponent, a, x.exponent);
    }
  }

  /** The comparator is not transitive: (-1, 5) < 0 < (1, 3), yet (-1, 5) > (1, 3). */
  lemma CompareNotTransitive()
    ensures var a, b := Number(Finite(-1.0), 5, false, false), Number(Finite(1.0), 3, false, false);
      && Normalized(a) && Normalized(b)
      && Less(a, Zero()) && Less(Zero(), b) && Greater(a, b)
      && Value(a) < Value(b)
  {
    var a, b := Number(Finite(-1.0), 5, false, false), Number(Finite(1.0), 3, false, false);
    ScaleSign(-1.0, 5);
    ScaleSign(1.0, 3);
  }

  /**
   * For a negative and a positive number with different exponents the exponents decide, so
   * the comparator agrees with the order of values exactly when the negative one has the
   * smaller exponent.
   */
  lemma CompareOppositeSigns(x: Number, y: Number)
    requires Normalized(x) && Normalized(y) && FiniteValued(x) && FiniteValued(y)
    requires x.mantissa.r < 0.0 < y.mantissa.r && x.exponent != y.exponent
    ensures CompareTo(x, y) == IntCompare(x.exponent, y.exponent)
    ensures CompareTo(x, y) == RealCompare(Value(x), Value(y)) <==> x.exponent < y.exponent
  {
    ScaleSign(x.mantissa.r, x.exponent);
    ScaleSign(y.mantissa.r, y.exponent);
  }

  /**
   * The derived operators: `>=` and `<=` are the comparator's sign tests, `!=` is the negation
   * of `==`, and `>` and `<` are mirror images.
   */
  lemma DerivedComparisons(x: Number, y: Number)
    ensures GreaterOrEqual(x, y) <==> CompareTo(x, y) >= 0
    ensures LessOrEqual(x, y) <==> CompareTo(x, y) <= 0
    ensures NotEqual(x, y) <==> !Equal(x, y)
    ensures GreaterOrEqual(x, y) <==> LessOrEqual(y, x)
    ensures Equal(x, y) <==> Equal(y, x)
  {
    CompareAntisymmetric(x, y);
  }

  /**
   * `MaxMagnitude` returns an argument that is not below either argument by the comparator,
   * and `y` on a tie; `MinMagnitude` dually. The `...Number` variants return the same.
   */
  lemma MagnitudeByComparator(x: Number, y: Number)
    ensures !Less(MaxMagnitude(x, y), x) && !Less(MaxMagnitude(x, y), y)
    ensures !Greater(MinMagnitude(x, y), x) && !Greater(MinMagnitude(x, y), y)
    ensures Equal(x, y) ==> MaxMagnitude(x, y) == y && MinMagnitude(x, y) == y
    ensures MaxMagnitudeNumber(x, y) == MaxMagnitude(x, y)
    ensures MinMagnitudeNumber(x, y) == MinMagnitude(x, y)
  {
    CompareAntisymmetric(x, y);
    CompareAntisymmetric(y, x);
  }

  /**
   * Not by magnitude: of -5 and 1, `MaxMagnitude` returns 1 and `MinMagnitude` returns -5,
   * although |-5| > |1|.
   */
  lemma MagnitudeIsNotMagnitude()
    ensures var x, y := Number(Finite(-5.0), 0, false, false), Number(Finite(1.0), 0, false, false);
      MaxMagnitude(x, y) == y && MinMagnitude(x, y) == x
  {
  }
}
