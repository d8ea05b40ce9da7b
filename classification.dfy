/**
 * The classification predicates of the number type. Each reads a flag or tests the signed
 * mantissa; several are constants. `IsFinite` returns the `isInfinity` flag itself, so it is
 * true exactly for the infinite numbers (see `Findings` for the intended predicate).
 */
module Classification {
  import opened Doubles
  import opened Powers
  import opened Numbers

  /** `IsFinite(value)`: returns `isInfinity`, unnegated. */
  function IsFinite(v: Number): (b: bool)
    ensures b == IsInfinity(v)
    ensures WellFormed(v) && FiniteValued(v) ==> !b
  {
    v.isInfinity
  }

  /** `IsInfinity(value)`: the `isInfinity` flag. */
  function IsInfinity(v: Number): (b: bool)
    ensures WellFormed(v) ==> (b <==> v.mantissa.PositiveInfinity? || v.mantissa.NegativeInfinity?)
  {
    v.isInfinity
  }

  /** `IsNaN(value)`: the `isNaN` flag. */
  function IsNaN(v: Number): (b: bool)
    ensures WellFormed(v) ==> (b <==> v.mantissa.NaN?)
  {
    v.isNaN
  }

  /** `IsZero(value)`: `Mantissa == 0`. */
  function IsZero(v: Number): (b: bool)
    ensures FiniteValued(v) ==> (b <==> Value(v) == 0.0)
    ensures WellFormed(v) ==> (b <==> v == Zero())
  {
    var x := if v.mantissa.Finite? then v.mantissa.r else 0.0;
    ScaleSign(x, v.exponent);
    Doubles.IsZero(v.mantissa)
  }

  /** `IsNegative(value)`: `Mantissa < 0`. */
  function IsNegative(v: Number): (b: bool)
    ensures FiniteValued(v) ==> (b <==> Value(v) < 0.0)
    ensures !FiniteValued(v) ==> (b <==> v.mantissa.NegativeInfinity?)
  {
    var x := if v.mantissa.Finite? then v.mantissa.r else 0.0;
    ScaleSign(x, v.exponent);
    Doubles.Less(v.mantissa, Finite(0.0))
  }

  /** `IsPositive(value)`: `Mantissa > 0`. */
  function IsPositive(v: Number): (b: bool)
    ensures FiniteValued(v) ==> (b <==> Value(v) > 0.0)
    ensures !FiniteValued(v) ==> (b <==> v.mantissa.PositiveInfinity?)
  {
    var x := if v.mantissa.Finite? then v.mantissa.r else 0.0;
    ScaleSign(x, v.exponent);
    Doubles.Less(Finite(0.0), v.mantissa)
  }

  /** `IsNegativeInfinity(value)`: `double.IsNegativeInfinity(Mantissa)`. */
  function IsNegativeInfinity(v: Number): (b: bool)
    ensures b ==> !FiniteValued(v) && IsNegative(v) && !IsPositive(v)
    ensures WellFormed(v) && b ==> v.isInfinity && !v.isNaN
  {
    v.mantissa.NegativeInfinity?
  }

  /** `IsPositiveInfinity(value)`: `double.IsPositiveInfinity(Mantissa)`. */
  function IsPositiveInfinity(v: Number): (b: bool)
    ensures b ==> !FiniteValued(v) && IsPositive(v) && !IsNegative(v)
    ensures WellFormed(v) && b ==> v.isInfinity && !v.isNaN
  {
    v.mantissa.PositiveInfinity?
  }

  /** `IsNormal(value)`: `Mantissa >= 1 && Mantissa < 10`, on the signed mantissa. */
  function IsNormal(v: Number): (b: bool)
    ensures b ==> FiniteValued(v) && Value(v) > 0.0
    ensures Normalized(v) && FiniteValued(v) && Value(v) > 0.0 ==> b
  {
    var x := if v.mantissa.Finite? then v.mantissa.r else 0.0;
    ScaleSign(x, v.exponent);
    AtLeast(v.mantissa, Finite(1.0)) && Doubles.Less(v.mantissa, Finite(10.0))
  }

  /** `IsCanonical(value)`: the source repeats the test of `IsNormal`. */
  function IsCanonical(v: Number): (b: bool)
    ensures b == IsNormal(v)
  {
    IsNormal(v)
  }

  /** `IsSubnormal(value)`: `!IsNormal(value)`. */
  function IsSubnormal(v: Number): (b: bool)
    ensures Normalized(v) ==> (b <==> !FiniteValued(v) || Value(v) <= 0.0)
  {
    !IsNormal(v)
  }

  /** `IsComplexNumber`, `IsEvenInteger`, `IsImaginaryNumber`, `IsInteger`, `IsOddInteger`. */
  predicate IsComplexNumber(v: Number) { false }
  predicate IsEvenInteger(v: Number) { false }
  predicate IsImaginaryNumber(v: Number) { false }
  predicate IsInteger(v: Number) { false }
  predicate IsOddInteger(v: Number) { false }

  /** `IsRealNumber`: always true. */
  predicate IsRealNumber(v: Number) { true }

  // ---------------------------------------------------------------------------------------

  /**
   * On every constructed number the flag readers agree with the mantissa: `IsInfinity` holds
   * exactly for an infinite mantissa (one of the two signed infinity tests), `IsNaN` exactly
   * for a NaN mantissa.
   */
  lemma FlagsMatchMantissa(v: Number)
    requires WellFormed(v)
    ensures IsInfinity(v) <==> IsNegativeInfinity(v) || IsPositiveInfinity(v)
    ensures IsNaN(v) <==> v.mantissa.NaN?
    ensures !(IsNegativeInfinity(v) && IsPositiveInfinity(v))
    ensures !(IsInfinity(v) && IsNaN(v))
  {
  }

  /**
   * `IsFinite` is inverted: on every constructed number it holds exactly for the infinities,
   * so it is false for every ordinary number (`One` included) and for NaN.
   */
  lemma IsFiniteIsInverted(v: Number)
    requires WellFormed(v)
    ensures IsFinite(v) <==> IsNegativeInfinity(v) || IsPositiveInfinity(v)
    ensures FiniteValued(v) ==> !IsFinite(v)
    ensures IsFinite(v) == IsInfinity(v)
  {
  }

  /**
   * The sign tests read the value's sign: for a finite mantissa `IsNegative`, `IsZero` and
   * `IsPositive` hold exactly when the value is below, at or above zero. On a constructed
   * number `IsZero` holds only for the canonical zero.
   */
  lemma SignTestsMatchValue(v: Number)
    requires FiniteValued(v)
    ensures IsNegative(v) <==> Value(v) < 0.0
    ensures IsZero(v) <==> Value(v) == 0.0
    ensures IsPositive(v) <==> Value(v) > 0.0
    ensures WellFormed(v) ==> (IsZero(v) <==> v == Zero())
  {
    ScaleSign(v.mantissa.r, v.exponent);
  }

  /** NaN is neither negative, zero nor positive; any other mantissa is exactly one of them. */
  lemma SignTestsPartition(v: Number)
    ensures v.mantissa.NaN? ==> !IsNegative(v) && !IsZero(v) && !IsPositive(v)
    ensures !v.mantissa.NaN? ==>
      (IsNegative(v) || IsZero(v) || IsPositive(v))
      && !(IsNegative(v) && IsZero(v)) && !(IsNegative(v) && IsPositive(v)) && !(IsZero(v) && IsPositive(v))
  {
  }

  /**
   * Because the test is on the signed mantissa, a normalised number is normal exactly when it
   * is finite and positive: zero, every negative number and both infinities are subnormal.
   */
  lemma NormalMeansPositive(v: Number)
    requires Normalized(v)
    ensures IsNormal(v) <==> FiniteValued(v) && IsPositive(v)
    ensures IsSubnormal(v) <==> !FiniteValued(v) || !IsPositive(v)
    ensures IsCanonical(v) <==> IsNormal(v)
  {
  }

  /** Examples: 1 is normal, -1 and zero are subnormal. */
  lemma NormalExamples()
    ensures IsNormal(One())
    ensures IsSubnormal(New(Finite(-1.0), 0)) && IsSubnormal(Zero())
  {
    NormalizeExamples();
    NormalizeFinite(-1.0, 0);
  }

  /** The constant predicates. */
  lemma ConstantPredicates(v: Number)
    ensures !IsComplexNumber(v) && !IsEvenInteger(v) && !IsImaginaryNumber(v)
    ensures !IsInteger(v) && !IsOddInteger(v) && IsRealNumber(v)
  {
  }
}
