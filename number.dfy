/**
 * The scientific-notation number shared by `Huge` (a `long` exponent) and `Humongous` (an
 * `Int128` exponent): a `double` mantissa, an integer exponent and two flags. The two source
 * structs differ only in the width of the exponent, which this model keeps unbounded; the
 * widths appear as range predicates where they matter (see the `Surface` module).
 *
 * This module holds the representation, its private constructor (the normalising and the raw
 * path), and the digit alignment used by addition.
 */
module Numbers {
  import opened Doubles
  import opened Powers

  /** `BASE`: the radix; also what `Radix` returns. */
  const BASE: int := 10

  /** A number: its value is mantissa·10^exponent when the mantissa is finite. */
  datatype Number = Number(mantissa: Double, exponent: int, isInfinity: bool, isNaN: bool)

  /** `new()` (and `default`): mantissa 0, exponent 0, both flags clear. */
  function Zero(): (r: Number)
    ensures Normalized(r) && FiniteValued(r) && Value(r) == 0.0
  {
    Number(Finite(0.0), 0, false, false)
  }

  /** The mantissa is an ordinary number (neither infinite nor NaN). */
  predicate FiniteValued(v: Number) {
    v.mantissa.Finite?
  }

  /** mantissa·10^exponent, for a finite mantissa. */
  function Value(v: Number): real
    requires FiniteValued(v)
  {
    Scale(v.mantissa.r, v.exponent)
  }

  function RealAbs(x: real): real {
    if x < 0.0 then -x else x
  }

  /**
   * What every constructor guarantees: the flags tag exactly the special mantissas, and a zero
   * mantissa comes with exponent zero.
   */
  predicate WellFormed(v: Number) {
    && v.isInfinity == IsInfinity(v.mantissa)
    && v.isNaN == v.mantissa.NaN?
    && (IsZero(v.mantissa) ==> v.exponent == 0)
  }

  /** The canonical form: well formed, and a finite nonzero mantissa has 1 <= |mantissa| < 10. */
  predicate Normalized(v: Number) {
    && WellFormed(v)
    && (v.mantissa.Finite? && v.mantissa.r != 0.0 ==> 1.0 <= RealAbs(v.mantissa.r) < 10.0)
  }

  lemma FloorShrinks(a: real)
    requires a >= 10.0
    ensures 0 <= (a / 10.0).Floor < a.Floor
  {
    assert (a / 10.0).Floor as real <= a / 10.0;
    assert a - 1.0 < a.Floor as real;
  }

  lemma ReciprocalFloorShrinks(a: real)
    requires 0.0 < a < 1.0
    ensures 0 <= (1.0 / (10.0 * a)).Floor < (1.0 / a).Floor
  {
    var b := 1.0 / a;
    assert b * a == 1.0;
    assert b > 1.0;
    assert 1.0 / (10.0 * a) == b / 10.0;
    assert b - 1.0 < b.Floor as real;
  }

  /**
   * The constructor's first loop: while |m| >= 10, divide m by ten and raise the exponent.
   * The pair's value never changes, and it ends below ten in magnitude.
   */
  function ScaleDown(m: real, e: int): (r: (real, int))
    ensures Scale(r.0, r.1) == Scale(m, e)
    ensures RealAbs(r.0) < 10.0
    ensures RealAbs(m) >= 1.0 ==> RealAbs(r.0) >= 1.0
    ensures (r.0 == 0.0) == (m == 0.0)
    decreases RealAbs(m).Floor
  {
    if RealAbs(m) >= 10.0 then
      FloorShrinks(RealAbs(m));
      assert RealAbs(m / 10.0) == RealAbs(m) / 10.0;
      ScaleStepDown(m, e + 1);
      ScaleDown(m / 10.0, e + 1)
    else
      (m, e)
  }

  /**
   * The constructor's second loop: while |m| < 1, multiply m by ten and lower the exponent.
   * It only runs on a nonzero mantissa; from below ten it ends in [1, 10).
   */
  function ScaleUp(m: real, e: int): (r: (real, int))
    requires m != 0.0
    ensures Scale(r.0, r.1) == Scale(m, e)
    ensures RealAbs(r.0) >= 1.0
    ensures RealAbs(m) < 10.0 ==> RealAbs(r.0) < 10.0
    ensures r.0 != 0.0
    decreases (1.0 / RealAbs(m)).Floor
  {
    if RealAbs(m) < 1.0 then
      ReciprocalFloorShrinks(RealAbs(m));
      assert RealAbs(m * 10.0) == 10.0 * RealAbs(m);
      ScaleStep(m, e - 1);
      assert m * 10.0 == 10.0 * m;
      ScaleUp(m * 10.0, e - 1)
    else
      (m, e)
  }

  /**
   * The private constructor `(mantissa, exponent, normalize)`: an infinite mantissa sets only
   * `isInfinity`, a NaN only `isNaN`, both keeping mantissa and exponent as given; a zero
   * mantissa gives the canonical zero whatever the exponent and whatever `normalize` says;
   * otherwise the normalising path runs the two scaling loops and the raw path stores the pair.
   */
  function Make(m: Double, e: int, normalize: bool): (v: Number)
    ensures WellFormed(v)
    ensures normalize ==> Normalized(v)
    ensures m.Finite? ==> v.mantissa.Finite? && Value(v) == Scale(m.r, e)
  {
    if IsInfinity(m) then Number(m, e, true, false)
    else if m.NaN? then Number(m, e, false, true)
    else if m.r == 0.0 then
      ScaleTrivial(0.0, e);
      Zero()
    else if normalize then
      var (m1, e1) := ScaleDown(m.r, e);
      var (m2, e2) := ScaleUp(m1, e1);
      Number(Finite(m2), e2, false, false)
    else
      Number(m, e, false, false)
  }

  /** The public constructor `new(mantissa, exponent)`: the normalising path. */
  function New(m: Double, e: int): (r: Number)
    ensures Normalized(r)
    ensures m.Finite? ==> FiniteValued(r) && Value(r) == Scale(m.r, e)
    ensures !m.Finite? ==> r == Number(m, e, IsInfinity(m), m.NaN?)
  {
    Make(m, e, true)
  }

  /** `One`: `new(1, 0)`, which normalisation leaves as it is. */
  function One(): (r: Number)
    ensures r == Number(Finite(1.0), 0, false, false)
    ensures Value(r) == 1.0
  {
    ScaleTrivial(1.0, 0);
    New(Finite(1.0), 0)
  }

  /**
   * The private constructor as the source runs it, with its two `while` loops over a local
   * mantissa and exponent; it builds exactly the number `Make` describes.
   */
  method Construct(mantissa: Double, exponent: int, normalize: bool) returns (v: Number)
    ensures v == Make(mantissa, exponent, normalize)
  {
    if IsInfinity(mantissa) {
      return Number(mantissa, exponent, true, false);
    }
    if mantissa.NaN? {
      return Number(mantissa, exponent, false, true);
    }
    if mantissa.r == 0.0 {
      return Number(Finite(0.0), 0, false, false);
    }
    if normalize {
      var tmpMantissa := mantissa.r;
      var tmpExponent := exponent;
      // The source re-tests `tmp_mantissa != 0` here; it always holds after the zero case.
      while RealAbs(tmpMantissa) >= 10.0
        invariant ScaleDown(tmpMantissa, tmpExponent) == ScaleDown(mantissa.r, exponent)
        decreases RealAbs(tmpMantissa).Floor
      {
        FloorShrinks(RealAbs(tmpMantissa));
        assert RealAbs(tmpMantissa / 10.0) == RealAbs(tmpMantissa) / 10.0;
        tmpMantissa := tmpMantissa / 10.0;
        tmpExponent := tmpExponent + 1;
      }
      ghost var down := ScaleDown(mantissa.r, exponent);
      assert (tmpMantissa, tmpExponent) == down;
      while RealAbs(tmpMantissa) < 1.0
        invariant tmpMantissa != 0.0
        invariant ScaleUp(tmpMantissa, tmpExponent) == ScaleUp(down.0, down.1)
        decreases (1.0 / RealAbs(tmpMantissa)).Floor
      {
        ReciprocalFloorShrinks(RealAbs(tmpMantissa));
        assert RealAbs(tmpMantissa * 10.0) == 10.0 * RealAbs(tmpMantissa);
        tmpMantissa := tmpMantissa * 10.0;
        tmpExponent := tmpExponent - 1;
      }
      v := Number(Finite(tmpMantissa), tmpExponent, false, false);
    } else {
      v := Number(mantissa, exponent, false, false);
    }
  }

  /** The mantissa after the alignment loops: shifted k decimal places; ±∞ and NaN stay put. */
  function Shifted(m: Double, k: int): Double {
    if m.Finite? then Finite(Scale(m.r, k)) else m
  }

  /**
   * `AlignDigit(value, digit)`: rewrites the value at exponent `digit` by shifting the mantissa
   * one decimal place per unit of exponent difference, and builds the result through the raw
   * (non-normalising) constructor.
   */
  function AlignDigit(v: Number, digit: int): (r: Number)
    ensures WellFormed(r)
    ensures FiniteValued(v) ==> FiniteValued(r) && Value(r) == Value(v)
    ensures !IsZero(v.mantissa) ==> r.exponent == digit
  {
    var x := if v.mantissa.Finite? then v.mantissa.r else 0.0;
    ScaleCompose(x, v.exponent - digit, digit);
    ScaleSign(x, v.exponent - digit);
    Make(Shifted(v.mantissa, v.exponent - digit), digit, false)
  }

  /**
   * `AlignDigit` as the source runs it: one `for` loop multiplying by ten (and counting the
   * exponent down) or dividing by ten (and counting it up), once per unit of difference.
   * `steps` counts the iterations.
   */
  method AlignDigitLoop(value: Number, digit: int) returns (r: Number, steps: nat)
    ensures r == AlignDigit(value, digit)
    ensures steps == if value.exponent >= digit then value.exponent - digit else digit - value.exponent
  {
    var mantissa := value.mantissa;
    var exponent := value.exponent;
    var digitDiff := value.exponent - digit;
    var digitDiffAbs := if digitDiff < 0 then -digitDiff else digitDiff;
    steps := 0;
    if digitDiff > 0 {
      for i := 1 to digitDiffAbs + 1
        invariant mantissa == Shifted(value.mantissa, i - 1)
        invariant exponent == value.exponent - (i - 1)
        invariant steps == i - 1
      {
        if mantissa.Finite? {
          ScaleStep(value.mantissa.r, i - 1);
        }
        mantissa := Mul(mantissa, Finite(10.0));
        exponent := exponent - 1;
        steps := steps + 1;
      }
    } else if digitDiff < 0 {
      for i := 1 to digitDiffAbs + 1
        invariant mantissa == Shifted(value.mantissa, -(i - 1))
        invariant exponent == value.exponent + (i - 1)
        invariant steps == i - 1
      {
        if mantissa.Finite? {
          ScaleStepDown(value.mantissa.r, -(i - 1));
        }
        mantissa := Div(mantissa, Finite(10.0));
        exponent := exponent + 1;
        steps := steps + 1;
      }
    }
    r := Construct(mantissa, exponent, false);
  }

  // ---------------------------------------------------------------------------------------
  // Properties of the constructor

  /**
   * A finite nonzero mantissa is normalised into 1 <= |mantissa| < 10 with the value
   * mantissa·10^exponent unchanged; the raw path stores a finite nonzero pair verbatim.
   */
  lemma NormalizeFinite(m: real, e: int)
    requires m != 0.0
    ensures var v := New(Finite(m), e);
      && v.mantissa.Finite? && !v.isInfinity && !v.isNaN
      && 1.0 <= RealAbs(v.mantissa.r) < 10.0
      && Value(v) == Scale(m, e)
      && (v.mantissa.r > 0.0) == (m > 0.0)
    ensures Make(Finite(m), e, false) == Number(Finite(m), e, false, false)
  {
    var v := New(Finite(m), e);
    ScaleSign(m, e);
    ScaleSign(v.mantissa.r, v.exponent);
  }

  /** A zero mantissa gives the canonical zero, whatever the exponent, on either path. */
  lemma ZeroIsCanonical(e: int, normalize: bool)
    ensures Make(Finite(0.0), e, normalize) == Zero()
    ensures Normalized(Zero()) && Value(Zero()) == 0.0
  {
  }

  /**
   * Infinite and NaN mantissas are tagged and kept as given, exponent included, on both paths;
   * no scaling is attempted.
   */
  lemma SpecialValuesTagged(m: Double, e: int, normalize: bool)
    requires !m.Finite?
    ensures var v := Make(m, e, normalize);
      && v.mantissa == m && v.exponent == e
      && v.isInfinity == IsInfinity(m) && v.isNaN == m.NaN?
      && !(v.isInfinity && v.isNaN)
  {
  }

  /** Only the zero number has value zero. */
  lemma ValueZero(v: Number)
    requires WellFormed(v) && FiniteValued(v)
    ensures Value(v) == 0.0 <==> v == Zero()
  {
    ScaleSign(v.mantissa.r, v.exponent);
  }

  /**
   * A normalised number is determined by its value: two normalised finite numbers with the
   * same value are the same number. So the normalising constructor has one possible outcome
   * for each value.
   */
  lemma SameValueSameNumber(x: Number, y: Number)
    requires Normalized(x) && Normalized(y) && FiniteValued(x) && FiniteValued(y)
    requires Value(x) == Value(y)
    ensures x == y
  {
    ValueZero(x);
    ValueZero(y);
    if Value(x) != 0.0 {
      var a, b := x.mantissa.r, y.mantissa.r;
      ScaleSign(a, x.exponent);
      ScaleSign(b, y.exponent);
      if a < 0.0 {
        ScaleNeg(a, x.exponent);
        ScaleNeg(b, y.exponent);
        PositiveSameScale(-a, x.exponent, -b, y.exponent);
      } else {
        PositiveSameScale(a, x.exponent, b, y.exponent);
      }
    }
  }

  lemma PositiveSameScale(a: real, ea: int, b: real, eb: int)
    requires 1.0 <= a < 10.0 && 1.0 <= b < 10.0
    requires Scale(a, ea) == Scale(b, eb)
    ensures a == b && ea == eb
  {
    if ea < eb {
      ScaleDominates(a, ea, b, eb);
    } else if eb < ea {
      ScaleDominates(b, eb, a, ea);
    } else if a < b {
      ScaleMonotone(a, b, ea);
    } else if b < a {
      ScaleMonotone(b, a, ea);
    }
  }

  /**
   * Normalising is idempotent: passing a normalised number back through the public
   * constructor gives the same number (for ±∞ and NaN too).
   */
  lemma NewOfNormalized(v: Number)
    ensures Normalized(v) ==> New(v.mantissa, v.exponent) == v
  {
  }

  /**
   * The normalising constructor yields the normalised number with the value of its input:
   * any normalised number of that value is the constructor's result.
   */
  lemma NewIsUnique(m: real, e: int, w: Number)
    requires Normalized(w) && FiniteValued(w) && Value(w) == Scale(m, e)
    ensures New(Finite(m), e) == w
  {
    SameValueSameNumber(New(Finite(m), e), w);
  }

  /** Examples of normalisation: (0.5, 2) is 5E+001, (10, 4) is 1E+005, (0, 1) is zero. */
  lemma NormalizeExamples()
    ensures New(Finite(0.5), 2) == Number(Finite(5.0), 1, false, false)
    ensures New(Finite(10.0), 4) == Number(Finite(1.0), 5, false, false)
    ensures New(Finite(-254.5), 4) == Number(Finite(-2.545), 6, false, false)
    ensures New(Finite(0.0), 1) == Zero()
    ensures One() == Number(Finite(1.0), 0, false, false)
  {
  }

  // ---------------------------------------------------------------------------------------
  // Properties of digit alignment

  /**
   * For a finite nonzero mantissa, `AlignDigit(v, d)` has exponent d and mantissa
   * mantissa·10^(exponent - d): the same value, not renormalised. A zero aligns to the
   * canonical zero; ±∞ and NaN keep their mantissa and take exponent d.
   */
  lemma AlignDigitSpec(v: Number, d: int)
    ensures var r := AlignDigit(v, d);
      && WellFormed(r)
      && (FiniteValued(v) && v.mantissa.r != 0.0 ==>
            && r == Number(Finite(Scale(v.mantissa.r, v.exponent - d)), d, false, false)
            && Value(r) == Value(v))
      && (IsZero(v.mantissa) ==> r == Zero())
      && (!FiniteValued(v) ==> r.mantissa == v.mantissa && r.exponent == d)
  {
    if FiniteValued(v) {
      ScaleCompose(v.mantissa.r, v.exponent - d, d);
      ScaleSign(v.mantissa.r, v.exponent - d);
      ScaleTrivial(v.mantissa.r, v.exponent - d);
    }
  }

  /** The raw path really skips normalisation: aligning 1E+005 to exponent 3 gives (100, 3). */
  lemma AlignDigitNotNormalized()
    ensures AlignDigit(Number(Finite(1.0), 5, false, false), 3) == Number(Finite(100.0), 3, false, false)
    ensures !Normalized(AlignDigit(Number(Finite(1.0), 5, false, false), 3))
  {
  }
}
