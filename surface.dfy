/**
 * What the two structs add around the shared core: the exponent ranges of `Huge` (`long`) and
 * `Humongous` (`Int128`), the static properties set by the static constructors, the casts into
 * the number type (each is `new(value, 0)`), the widening of a `Huge` into a `Humongous`, and
 * the parsing, formatting and conversion members that only throw.
 */
module Surface {
  import opened Doubles
  import opened Powers
  import opened Numbers
  import opened Arithmetic
  import opened Comparison
  import opened Format

  const LongMin: int := -0x8000_0000_0000_0000
  const LongMax: int := 0x7FFF_FFFF_FFFF_FFFF
  const Int128Min: int := -0x8000_0000_0000_0000_0000_0000_0000_0000
  const Int128Max: int := 0x7FFF_FFFF_FFFF_FFFF_FFFF_FFFF_FFFF_FFFF

  /** The exponent is a `long`: the numbers a `Huge` can hold. */
  predicate FitsHuge(v: Number) {
    LongMin <= v.exponent <= LongMax
  }

  /** The exponent is an `Int128`: the numbers a `Humongous` can hold. */
  predicate FitsHumongous(v: Number) {
    Int128Min <= v.exponent <= Int128Max
  }

  /** `Radix`: set to `BASE` by the static constructor. */
  function Radix(): (r: int)
    ensures r == 10
  {
    BASE
  }

  /** `AdditiveIdentity`: set to `Zero`. */
  function AdditiveIdentity(): (r: Number)
    ensures r == Number(Finite(0.0), 0, false, false)
    ensures FiniteValued(r) && Value(r) == 0.0
  {
    Zero()
  }

  /** `MultiplicativeIdentity`: set to `One`. */
  function MultiplicativeIdentity(): (r: Number)
    ensures r == Number(Finite(1.0), 0, false, false)
    ensures FiniteValued(r) && Value(r) == 1.0
  {
    One()
  }

  /** `Huge.MaxValue` and `Huge.MinValue`: never assigned, so the default value, mantissa 0 and exponent 0. */
  function HugeMaxValue(): (r: Number)
    ensures Normalized(r) && FiniteValued(r) && Value(r) == 0.0
  {
    Zero()
  }

  function HugeMinValue(): (r: Number)
    ensures r == HugeMaxValue()
  {
    Zero()
  }

  /** `Humongous.MaxValue`: `new(9.9999999, Int128.MaxValue)`. */
  function HumongousMaxValue(): (r: Number)
    ensures r == Number(Finite(9.9999999), Int128Max, false, false)
    ensures FitsHumongous(r) && !FitsHuge(r)
  {
    NewOfNormalized(Number(Finite(9.9999999), Int128Max, false, false));
    New(Finite(9.9999999), Int128Max)
  }

  /** `Humongous.MinValue`: `new(-9.9999999, Int128.MaxValue)`, the same exponent as `MaxValue`. */
  function HumongousMinValue(): (r: Number)
    ensures r == Number(Finite(-9.9999999), Int128Max, false, false)
    ensures r.exponent == HumongousMaxValue().exponent
  {
    NewOfNormalized(Number(Finite(-9.9999999), Int128Max, false, false));
    New(Finite(-9.9999999), Int128Max)
  }

  /** The casts from the primitive number types: `new(value, 0)` on the value as a `double`. */
  function FromDouble(d: Double): (r: Number)
    ensures Normalized(r)
    ensures d.Finite? ==> FiniteValued(r) && Value(r) == d.r
    ensures !d.Finite? ==> r == Number(d, 0, IsInfinity(d), d.NaN?)
  {
    ScaleTrivial(if d.Finite? then d.r else 0.0, 0);
    New(d, 0)
  }

  /** The implicit conversion `Humongous(Huge value)`: `new(value.Mantissa, value.Exponent)`. */
  function Widen(h: Number): (r: Number)
    ensures Normalized(r)
    ensures Normalized(h) ==> r == h
    ensures FiniteValued(h) ==> FiniteValued(r) && Value(r) == Value(h)
  {
    NewOfNormalized(h);
    New(h.mantissa, h.exponent)
  }

  /** The `Parse` overloads: every one throws `NotSupportedException`. */
  function Parse(s: string): (r: Result<Number>)
    ensures r.Err? && r.error == NotSupportedException
  {
    Err(NotSupportedException)
  }

  /**
   * `TryParse(string? s, provider, out result)`: a null string returns false with the default
   * result; any other string reaches the span overload, which throws `NotSupportedException`.
   */
  function TryParse(s: Option<string>): (r: Result<(bool, Number)>)
    ensures r.Ok? <==> s.None?
    ensures r.Ok? ==> r.value == (false, Zero())
    ensures r.Err? ==> r.error == NotSupportedException
  {
    if s.None? then Ok((false, Number(Finite(0.0), 0, false, false)))
    else Err(NotSupportedException)
  }

  /**
   * `TryParse(string? s, style, provider, out result)` and the span overloads: they throw
   * `NotSupportedException`, a null string included.
   */
  function TryParseWithStyle(s: Option<string>): (r: Result<(bool, Number)>)
    ensures r.Err? && r.error == NotSupportedException
  {
    Err(NotSupportedException)
  }

  /** `TryFormat`: throws `NotSupportedException`. */
  function TryFormat(v: Number): (r: Result<(bool, nat)>)
    ensures r.Err? && r.error == NotSupportedException
  {
    Err(NotSupportedException)
  }

  /** The six generic conversions `TryConvertFrom...`/`TryConvertTo...`. */
  datatype Conversion =
    | FromChecked | FromSaturating | FromTruncating
    | ToChecked | ToSaturating | ToTruncating

  /** Every `TryConvert...` member throws `NotImplementedException`. */
  function TryConvert(kind: Conversion, v: Number): (r: Result<bool>)
    ensures r.Err? && r.error == NotImplementedException
  {
    Err(NotImplementedException)
  }

  // ---------------------------------------------------------------------------------------

  /** The static properties: the radix is ten and the identities are zero and one. */
  lemma StaticProperties(x: Number)
    requires Normalized(x)
    ensures Radix() == 10
    ensures AdditiveIdentity() == Number(Finite(0.0), 0, false, false)
    ensures MultiplicativeIdentity() == Number(Finite(1.0), 0, false, false)
    ensures Arithmetic.Add(x, AdditiveIdentity()) == x
    ensures Multiply(x, MultiplicativeIdentity()) == x
  {
    NormalizeExamples();
    AddZeroRight(x);
    MultiplyOne(x);
  }

  /**
   * `Huge`'s bounds are the default value, zero; `Humongous`'s pass through the normalising
   * constructor unchanged and both sit at the largest `Int128` exponent.
   */
  lemma MaxMinValues()
    ensures HugeMaxValue() == Zero() && HugeMinValue() == Zero()
    ensures HumongousMaxValue() == Number(Finite(9.9999999), Int128Max, false, false)
    ensures HumongousMinValue() == Number(Finite(-9.9999999), Int128Max, false, false)
    ensures FitsHumongous(HumongousMaxValue()) && !FitsHuge(HumongousMaxValue())
    ensures Normalized(HumongousMaxValue()) && Normalized(HumongousMinValue())
  {
    NewOfNormalized(Number(Finite(9.9999999), Int128Max, false, false));
    NewOfNormalized(Number(Finite(-9.9999999), Int128Max, false, false));
  }

  /**
   * Because the exponent dominates the comparator, `Humongous.MinValue` compares greater than
   * `One` although its value is smaller.
   */
  lemma MinValueAboveOne()
    ensures Greater(HumongousMinValue(), One())
    ensures Value(HumongousMinValue()) < Value(One())
  {
    MaxMinValues();
    NormalizeExamples();
    ScaleSign(-9.9999999, Int128Max);
    ScaleTrivial(1.0, 0);
  }

  /** A cast stores the value itself, normalised, with flags set for ±∞ and NaN. */
  lemma FromDoubleValue(d: Double)
    ensures Normalized(FromDouble(d))
    ensures d.Finite? ==> FiniteValued(FromDouble(d)) && Value(FromDouble(d)) == d.r
    ensures !d.Finite? ==> FromDouble(d) == Number(d, 0, IsInfinity(d), d.NaN?)
  {
    ScaleTrivial(if d.Finite? then d.r else 0.0, 0);
  }

  /**
   * Widening copies a normalised `Huge` exactly, its exponent promoted (and still in range);
   * any other `Huge` is renormalised with its value kept and its flags recomputed from the
   * mantissa.
   */
  lemma WidenSpec(h: Number)
    ensures Normalized(Widen(h))
    ensures Normalized(h) ==> Widen(h) == h
    ensures Normalized(h) && FitsHuge(h) ==> FitsHumongous(Widen(h))
    ensures FiniteValued(h) ==> FiniteValued(Widen(h)) && Value(Widen(h)) == Value(h)
    ensures Widen(h).isInfinity == IsInfinity(h.mantissa) && Widen(h).isNaN == h.mantissa.NaN?
  {
    if Normalized(h) {
      NewOfNormalized(h);
    }
  }

  /** Widening the raw result of `AlignDigit` gives back the normalised number it came from. */
  lemma WidenAlignDigit(x: Number, d: int)
    requires Normalized(x) && FiniteValued(x)
    ensures Widen(AlignDigit(x, d)) == x
  {
    UnaryPlusRenormalizes(x, d);
  }

  /** The stubs: only a null string given to `TryParse(s, provider)` returns without throwing. */
  lemma StubsThrow(s: string, v: Number, kind: Conversion)
    ensures Parse(s) == Err(NotSupportedException)
    ensures TryParse(None) == Ok((false, Zero()))
    ensures TryParse(Some(s)) == Err(NotSupportedException)
    ensures TryParseWithStyle(None) == Err(NotSupportedException)
    ensures TryFormat(v) == Err(NotSupportedException)
    ensures TryConvert(kind, v) == Err(NotImplementedException)
  {
  }
}
