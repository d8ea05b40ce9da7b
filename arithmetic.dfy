/**
 * The arithmetic operators: `+` (align the right operand to the left operand's exponent, add
 * mantissas, renormalise), unary `-` and `+`, binary `-` (add the negation), `*` and `/`
 * (mantissas multiply or divide, exponents add or subtract), `%`, `++`, `--` and `Abs`.
 * The operators are total: on ±∞ and NaN mantissas they follow IEEE 754 on exact reals; the
 * lemmas state what they compute on finite operands.
 */
module Arithmetic {
  import opened Doubles
  import opened Powers
  import opened Numbers

  /** `operator +(left, right)` */
  function Add(left: Number, right: Number): (r: Number)
    ensures Normalized(r)
  {
    var tRight := if left.exponent != right.exponent then AlignDigit(right, left.exponent) else right;
    New(Doubles.Add(left.mantissa, tRight.mantissa), left.exponent)
  }

  /** unary `operator -(value)`: the mantissa's sign flips, the exponent is kept, then normalise. */
  function Negate(value: Number): (r: Number)
    ensures Normalized(r)
  {
    New(Neg(value.mantissa), value.exponent)
  }

  /** unary `operator +(value)`: the same mantissa and exponent through the normalising constructor. */
  function UnaryPlus(value: Number): (r: Number)
    ensures Normalized(r)
  {
    New(value.mantissa, value.exponent)
  }

  /** `operator -(left, right)`: `left + -right`. */
  function Subtract(left: Number, right: Number): (r: Number)
    ensures Normalized(r)
  {
    Add(left, Negate(right))
  }

  /** `operator *(left, right)` */
  function Multiply(left: Number, right: Number): (r: Number)
    ensures Normalized(r)
  {
    New(Mul(left.mantissa, right.mantissa), left.exponent + right.exponent)
  }

  /**
   * `operator /(left, right)`: a zero dividend gives zero (checked first, so 0/0 is zero); a zero
   * divisor gives NaN with exponent 0.
   */
  function Divide(left: Number, right: Number): (r: Number)
    ensures Normalized(r)
  {
    if IsZero(left.mantissa) then Zero()
    else if IsZero(right.mantissa) then New(NaN, 0)
    else New(Div(left.mantissa, right.mantissa), left.exponent - right.exponent)
  }

  /** `operator %(left, right)`: the same two guards, then `left - right * (left / right)`. */
  function Remainder(left: Number, right: Number): (r: Number)
    ensures Normalized(r)
  {
    if IsZero(left.mantissa) then Zero()
    else if IsZero(right.mantissa) then New(NaN, 0)
    else Subtract(left, Multiply(right, Divide(left, right)))
  }

  /** `operator ++(value)`: `value + One`. */
  function Increment(value: Number): (r: Number)
    ensures Normalized(r)
  {
    Add(value, One())
  }

  /** `operator --(value)`: `value - One`. */
  function Decrement(value: Number): (r: Number)
    ensures Normalized(r)
  {
    Subtract(value, One())
  }

  /** `Abs(value)`: the magnitude of the mantissa, through the normalising constructor. */
  function Abs(value: Number): (r: Number)
    ensures Normalized(r)
  {
    New(Doubles.Abs(value.mantissa), value.exponent)
  }

  predicate BothFinite(a: Number, b: Number) {
    FiniteValued(a) && FiniteValued(b)
  }

  // ---------------------------------------------------------------------------------------
  // Values of the results

  /** With exact mantissas, the sum's value is the sum of the values. */
  lemma AddValue(a: Number, b: Number)
    requires BothFinite(a, b)
    ensures FiniteValued(Add(a, b)) && Value(Add(a, b)) == Value(a) + Value(b)
  {
    var t := if a.exponent != b.exponent then AlignDigit(b, a.exponent) else b;
    AlignDigitSpec(b, a.exponent);
    assert t.mantissa.Finite?;
    if b.mantissa.r == 0.0 {
      ScaleTrivial(0.0, a.exponent);
      ScaleTrivial(0.0, b.exponent);
    }
    assert Scale(t.mantissa.r, a.exponent) == Value(b);
    ScaleAdd(a.mantissa.r, t.mantissa.r, a.exponent);
  }

  /** Negation negates the value. */
  lemma NegateValue(a: Number)
    requires FiniteValued(a)
    ensures FiniteValued(Negate(a)) && Value(Negate(a)) == -Value(a)
  {
    ScaleNeg(a.mantissa.r, a.exponent);
  }

  /** The difference's value is the difference of the values. */
  lemma SubtractValue(a: Number, b: Number)
    requires BothFinite(a, b)
    ensures FiniteValued(Subtract(a, b)) && Value(Subtract(a, b)) == Value(a) - Value(b)
  {
    NegateValue(b);
    AddValue(a, Negate(b));
  }

  /** The product's value is the product of the values. */
  lemma MultiplyValue(a: Number, b: Number)
    requires BothFinite(a, b)
    ensures FiniteValued(Multiply(a, b)) && Value(Multiply(a, b)) == Value(a) * Value(b)
  {
    ProductScale(a, b);
  }

  /** The mantissa-level product behind `MultiplyValue`. */
  lemma ProductScale(a: Number, b: Number)
    requires BothFinite(a, b)
    ensures Mul(a.mantissa, b.mantissa).Finite?
    ensures Scale(Mul(a.mantissa, b.mantissa).r, a.exponent + b.exponent) == Value(a) * Value(b)
  {
    var x, y := a.mantissa.r, b.mantissa.r;
    ScaleMul(x, y, a.exponent, b.exponent);
    assert Mul(a.mantissa, b.mantissa) == Finite(x * y);
  }

  /** For a nonzero divisor, the quotient's value is the quotient of the values. */
  lemma DivideValue(a: Number, b: Number)
    requires BothFinite(a, b) && b.mantissa.r != 0.0
    ensures Value(b) != 0.0
    ensures FiniteValued(Divide(a, b)) && Value(Divide(a, b)) == Value(a) / Value(b)
  {
    ScaleDiv(a.mantissa.r, b.mantissa.r, a.exponent, b.exponent);
    if a.mantissa.r == 0.0 {
      ScaleTrivial(0.0, a.exponent);
    }
  }

  /** `++` adds one and `--` subtracts one. */
  lemma IncrementDecrementValue(a: Number)
    requires FiniteValued(a)
    ensures FiniteValued(Increment(a)) && Value(Increment(a)) == Value(a) + 1.0
    ensures FiniteValued(Decrement(a)) && Value(Decrement(a)) == Value(a) - 1.0
  {
    NormalizeExamples();
    ScaleTrivial(1.0, 0);
    AddValue(a, One());
    SubtractValue(a, One());
  }

  /** The absolute value's value is the magnitude of the value. */
  lemma AbsValue(a: Number)
    requires FiniteValued(a)
    ensures FiniteValued(Abs(a)) && Value(Abs(a)) == RealAbs(Value(a))
  {
    ScaleNeg(a.mantissa.r, a.exponent);
    ScaleSign(a.mantissa.r, a.exponent);
  }

  // ---------------------------------------------------------------------------------------
  // Algebraic laws that exact mantissas make hold

  /** Addition commutes, although the source always aligns the right operand to the left. */
  lemma AddCommutative(a: Number, b: Number)
    requires BothFinite(a, b)
    ensures Add(a, b) == Add(b, a)
  {
    AddValue(a, b);
    AddValue(b, a);
    SameValueSameNumber(Add(a, b), Add(b, a));
  }

  /** Addition is associative. */
  lemma AddAssociative(a: Number, b: Number, c: Number)
    requires FiniteValued(a) && FiniteValued(b) && FiniteValued(c)
    ensures Add(Add(a, b), c) == Add(a, Add(b, c))
  {
    AddValue(a, b);
    AddValue(Add(a, b), c);
    AddValue(b, c);
    AddValue(a, Add(b, c));
    SameValueSameNumber(Add(Add(a, b), c), Add(a, Add(b, c)));
  }

  /**
   * Zero is a right identity up to normalisation: `x + Zero` is `new(x.Mantissa, x.Exponent)`
   * for every x (±∞ and NaN included), which is x itself when x is normalised.
   */
  lemma AddZeroRight(x: Number)
    ensures Add(x, Zero()) == UnaryPlus(x)
    ensures Normalized(x) ==> Add(x, Zero()) == x
  {
    ZeroIsCanonical(x.exponent, false);
    ScaleTrivial(0.0, -x.exponent);
    AlignDigitSpec(Zero(), x.exponent);
    if Normalized(x) {
      NewOfNormalized(x);
    }
  }

  /** Zero is a left identity on finite values, up to normalisation. */
  lemma AddZeroLeft(x: Number)
    requires FiniteValued(x)
    ensures Add(Zero(), x) == UnaryPlus(x)
    ensures Normalized(x) ==> Add(Zero(), x) == x
  {
    ZeroIsCanonical(0, true);
    AddValue(Zero(), x);
    ScaleTrivial(0.0, 0);
    SameValueSameNumber(Add(Zero(), x), UnaryPlus(x));
    if Normalized(x) {
      NewOfNormalized(x);
    }
  }

  /** `x - x` is the canonical zero for every finite x. */
  lemma SubtractSelf(x: Number)
    requires FiniteValued(x)
    ensures Subtract(x, x) == Zero()
  {
    SubtractValue(x, x);
    ValueZero(Subtract(x, x));
  }

  /**
   * Negation of a normalised finite number flips only the mantissa's sign and keeps the
   * exponent; negating twice gives the number back.
   */
  lemma NegateSpec(x: Number)
    requires Normalized(x)
    ensures FiniteValued(x) ==> Negate(x) == Number(Finite(-x.mantissa.r), x.exponent, false, false)
    ensures Negate(Negate(x)) == x
  {
    assert FiniteValued(x) ==> Negate(x) == Number(Finite(-x.mantissa.r), x.exponent, false, false) by {
      NegateNormalized(x);
    }
    NegateTwice(x);
  }

  /** Negation is an involution on normalised numbers. */
  lemma NegateTwice(x: Number)
    requires Normalized(x)
    ensures Negate(Negate(x)) == x
  {
    NegateNormalized(x);
    var y := x.(mantissa := Neg(x.mantissa));
    assert Normalized(y);
    NegateNormalized(y);
    assert y.(mantissa := Neg(y.mantissa)) == x;
  }

  /** Negating a normalised number only negates its mantissa. */
  lemma NegateNormalized(x: Number)
    requires Normalized(x)
    ensures Negate(x) == x.(mantissa := Neg(x.mantissa))
  {
    NewOfNormalized(x.(mantissa := Neg(x.mantissa)));
  }

  /** One is a multiplicative identity on normalised numbers, on either side. */
  lemma MultiplyOne(x: Number)
    requires Normalized(x)
    ensures Multiply(x, One()) == x
    ensures Multiply(One(), x) == x
  {
    NormalizeExamples();
    NewOfNormalized(x);
  }

  /** Zero absorbs every finite number; an infinite one times zero is NaN. */
  lemma MultiplyZero(x: Number)
    ensures FiniteValued(x) ==> Multiply(x, Zero()) == Zero()
    ensures IsInfinity(x.mantissa) ==> Multiply(x, Zero()).isNaN
  {
  }

  /** Multiplication commutes. */
  lemma MultiplyCommutative(a: Number, b: Number)
    ensures Multiply(a, b) == Multiply(b, a)
  {
    if BothFinite(a, b) {
      Commute(a.mantissa.r, b.mantissa.r);
    }
  }

  /**
   * Division's guards: a zero dividend gives zero even over a zero divisor; otherwise a zero
   * divisor gives NaN (never infinity) with exponent 0.
   */
  lemma DivideGuards(a: Number, b: Number)
    ensures IsZero(a.mantissa) ==> Divide(a, b) == Zero()
    ensures !IsZero(a.mantissa) && IsZero(b.mantissa) ==>
      Divide(a, b) == Number(NaN, 0, false, true) && !Divide(a, b).isInfinity
  {
  }

  /** `x / Zero` is NaN-tagged for every nonzero x, and `Zero / Zero` is zero. */
  lemma DivideByZero(x: Number)
    ensures IsZero(x.mantissa) <==> Divide(x, Zero()) == Zero()
    ensures !IsZero(x.mantissa) <==> Divide(x, Zero()).isNaN
  {
  }

  /**
   * With exact mantissas `%` never yields a remainder: for nonzero finite operands
   * `left - right * (left / right)` is the canonical zero. A zero dividend gives zero and a zero
   * divisor NaN.
   */
  lemma RemainderCollapses(a: Number, b: Number)
    requires BothFinite(a, b)
    ensures !IsZero(b.mantissa) ==> Remainder(a, b) == Zero()
    ensures !IsZero(a.mantissa) && IsZero(b.mantissa) ==> Remainder(a, b).isNaN
  {
    if !IsZero(a.mantissa) && !IsZero(b.mantissa) {
      RemainderValue(a, b);
      assert Remainder(a, b) == Subtract(a, Multiply(b, Divide(a, b)));
    }
  }

  /** For nonzero finite operands, `right * (left / right)` is `left` again, normalised. */
  lemma RemainderValue(a: Number, b: Number)
    requires BothFinite(a, b) && a.mantissa.r != 0.0 && b.mantissa.r != 0.0
    ensures Subtract(a, Multiply(b, Divide(a, b))) == Zero()
  {
    var q := Divide(a, b);
    assert FiniteValued(q) && Value(q) == Scale(Div(a.mantissa, b.mantissa).r, a.exponent - b.exponent);
    ProductOfQuotient(b.mantissa, a.mantissa, q.mantissa, b.exponent, a.exponent, q.exponent);
    var p := Multiply(b, q);
    assert FiniteValued(p) && Value(p) == Value(a);
    SubtractValue(a, p);
    ValueZero(Subtract(a, p));
  }

  /** The mantissa-level cancellation behind `RemainderValue`, kept apart from the numbers. */
  lemma ProductOfQuotient(bm: Double, am: Double, qm: Double, be: int, ae: int, qe: int)
    requires bm.Finite? && am.Finite? && qm.Finite? && bm.r != 0.0
    requires Scale(qm.r, qe) == Scale(Div(am, bm).r, ae - be)
    ensures Mul(bm, qm).Finite? && Scale(Mul(bm, qm).r, be + qe) == Scale(am.r, ae)
  {
    var x, y, z := am.r, bm.r, qm.r;
    assert Div(am, bm).r == x / y;
    assert Mul(bm, qm).r == y * z;
    ScaleMul(y, z, be, qe);
    ScaleDivCancel(x, y, ae, be);
    var sb, sq, sd := Scale(y, be), Scale(z, qe), Scale(x / y, ae - be);
    assert sb * sq == sb * sd;
  }

  /** `--` undoes `++` and `++` undoes `--` on normalised finite numbers. */
  lemma IncrementDecrementInverse(x: Number)
    requires Normalized(x) && FiniteValued(x)
    ensures Decrement(Increment(x)) == x
    ensures Increment(Decrement(x)) == x
  {
    IncrementDecrementValue(x);
    IncrementDecrementValue(Increment(x));
    IncrementDecrementValue(Decrement(x));
    SameValueSameNumber(Decrement(Increment(x)), x);
    SameValueSameNumber(Increment(Decrement(x)), x);
  }

  /**
   * Unary `+` renormalises: it is the identity on normalised numbers and turns the raw output
   * of `AlignDigit` back into the normalised number of the same value.
   */
  lemma UnaryPlusRenormalizes(x: Number, d: int)
    ensures Normalized(x) ==> UnaryPlus(x) == x
    ensures Normalized(x) && FiniteValued(x) ==> UnaryPlus(AlignDigit(x, d)) == x
  {
    if Normalized(x) {
      NewOfNormalized(x);
      if FiniteValued(x) {
        AlignDigitSpec(x, d);
        SameValueSameNumber(UnaryPlus(AlignDigit(x, d)), x);
      }
    }
  }

  /** Adding aligned mantissas can carry into the exponent: 5 + 5 is 1E+001. */
  lemma AddCarryExample()
    ensures Add(Number(Finite(5.0), 0, false, false), Number(Finite(5.0), 0, false, false))
         == Number(Finite(1.0), 1, false, false)
  {
    NormalizeExamples();
  }

  /** The right operand is aligned to the left one's exponent: 1E+001 + 5 is 1.5E+001. */
  lemma AddAlignExample()
    ensures Add(Number(Finite(1.0), 1, false, false), Number(Finite(5.0), 0, false, false))
         == Number(Finite(1.5), 1, false, false)
  {
    var five := Number(Finite(5.0), 0, false, false);
    assert Scale(5.0, -1) == 0.5;
    assert AlignDigit(five, 1) == Number(Finite(0.5), 1, false, false);
    NewOfNormalized(Number(Finite(1.5), 1, false, false));
  }

  /** Exponents subtract under division: 8E-010 / 5E-012 is 1.6E+002. */
  lemma DivideExample()
    ensures Divide(Number(Finite(8.0), -10, false, false), Number(Finite(5.0), -12, false, false))
         == Number(Finite(1.6), 2, false, false)
  {
    NewOfNormalized(Number(Finite(1.6), 2, false, false));
  }
}
