/**
 * The `double` that carries a mantissa: a finite value, taken as an exact real (no binary
 * rounding), or one of the three special values. Zero has a single representative: the
 * constructor of the number type always writes the literal `0`, so a signed zero is never stored.
 */
module Doubles {

  datatype Double = Finite(r: real) | PositiveInfinity | NegativeInfinity | NaN

  /** `double.IsInfinity` */
  predicate IsInfinity(x: Double) {
    x.PositiveInfinity? || x.NegativeInfinity?
  }

  /** `x == 0`; false for NaN and for both infinities. */
  predicate IsZero(x: Double) {
    x == Finite(0.0)
  }

  /** `x < y` under IEEE 754: every comparison involving NaN is false. */
  predicate Less(x: Double, y: Double) {
    if x.NaN? || y.NaN? then false
    else if x.NegativeInfinity? then !y.NegativeInfinity?
    else if y.PositiveInfinity? then !x.PositiveInfinity?
    else if x.Finite? && y.Finite? then x.r < y.r
    else false
  }

  /** `x >= y` under IEEE 754 (false when either side is NaN). */
  predicate AtLeast(x: Double, y: Double) {
    !x.NaN? && !y.NaN? && !Less(x, y)
  }

  /** `double.CompareTo`: the IEEE order, with NaN below everything and equal to itself. */
  function CompareTo(x: Double, y: Double): (c: int)
    ensures -1 <= c <= 1
    ensures c == 0 <==> x == y
    ensures c < 0 <==> Less(x, y) || (x.NaN? && !y.NaN?)
  {
    if Less(x, y) then -1
    else if Less(y, x) then 1
    else if !x.NaN? && !y.NaN? then 0
    else if x.NaN? then (if y.NaN? then 0 else -1)
    else 1
  }

  /** Unary minus. */
  function Neg(x: Double): Double {
    match x
    case Finite(r) => Finite(-r)
    case PositiveInfinity => NegativeInfinity
    case NegativeInfinity => PositiveInfinity
    case NaN => NaN
  }

  /** `Math.Abs` */
  function Abs(x: Double): Double {
    match x
    case Finite(r) => Finite(if r < 0.0 then -r else r)
    case NaN => NaN
    case _ => PositiveInfinity
  }

  /** The sign of a non-NaN value: -1, 0 or 1. */
  function Sign(x: Double): int {
    match x
    case Finite(r) => if r > 0.0 then 1 else if r < 0.0 then -1 else 0
    case PositiveInfinity => 1
    case NegativeInfinity => -1
    case NaN => 0
  }

  /** An infinity of the given sign. */
  function InfinityOfSign(s: int): Double {
    if s > 0 then PositiveInfinity else NegativeInfinity
  }

  /** `x + y`: opposite infinities give NaN, an infinity absorbs any finite value. */
  function Add(x: Double, y: Double): Double {
    if x.NaN? || y.NaN? then NaN
    else if x.Finite? && y.Finite? then Finite(x.r + y.r)
    else if x.Finite? then y
    else if y.Finite? then x
    else if x == y then x
    else NaN
  }

  /** `x * y`: an infinity times zero is NaN. */
  function Mul(x: Double, y: Double): Double {
    if x.NaN? || y.NaN? then NaN
    else if x.Finite? && y.Finite? then Finite(x.r * y.r)
    else if IsZero(x) || IsZero(y) then NaN
    else InfinityOfSign(Sign(x) * Sign(y))
  }

  /**
   * `x / y` for a nonzero divisor; every division of the number type happens after its
   * divisor was compared with zero (or is a division by the radix).
   */
  function Div(x: Double, y: Double): Double
    requires !IsZero(y)
  {
    if x.NaN? || y.NaN? then NaN
    else if x.Finite? && y.Finite? then Finite(x.r / y.r)
    else if x.Finite? then Finite(0.0)
    else if y.Finite? then InfinityOfSign(Sign(x) * Sign(y))
    else NaN
  }

  /** CompareTo is antisymmetric. */
  lemma CompareToAntisymmetric(x: Double, y: Double)
    ensures CompareTo(x, y) == -CompareTo(y, x)
  {
  }

  /** On finite values CompareTo is the sign of the difference. */
  lemma CompareToFinite(a: real, b: real)
    ensures CompareTo(Finite(a), Finite(b)) == (if a < b then -1 else if a > b then 1 else 0)
  {
  }
}
