/**
 * The text forms of a number: `ToString(significantDigits, eNotationChar)`, `ToString()` and
 * `ToString(format, provider)`.
 *
 * The output is the mantissa written with a fixed number of decimals, the marker character,
 * a `+` for a nonnegative exponent, and the exponent in the custom format `000` (a `-` for a
 * negative exponent, then at least three digits, more when needed). Writing the `double`
 * mantissa with `F{n}` belongs to the runtime's number formatting; the model takes it as the
 * parameter `fixed`, a function from a mantissa and a count of decimals to its text.
 */
module Format {
  import opened Doubles
  import opened Numbers

  /** The exceptions the text members and the stubs throw. */
  datatype Error = ArgumentException | NotSupportedException | NotImplementedException

  datatype Result<T> = Ok(value: T) | Err(error: Error)

  datatype Option<T> = None | Some(value: T)

  /** The `F{n}` rendering of a mantissa with n decimals, supplied by the runtime. */
  type FixedRendering = (Double, nat) -> string

  predicate IsDigit(c: char) {
    '0' <= c <= '9'
  }

  predicate AllDigits(s: string) {
    forall i :: 0 <= i < |s| ==> IsDigit(s[i])
  }

  function DigitChar(d: nat): (c: char)
    requires d < 10
    ensures IsDigit(c) && c as int - '0' as int == d
  {
    ('0' as int + d) as char
  }

  /** The decimal digits of n, most significant first, without leading zeros. */
  function Digits(n: nat): (s: string)
    ensures |s| >= 1 && AllDigits(s)
    ensures |s| > 1 ==> s[0] != '0'
    ensures n < 10 ==> |s| == 1
    ensures n < 100 ==> |s| <= 2
    ensures n < 1000 ==> |s| <= 3
  {
    if n < 10 then [DigitChar(n)] else Digits(n / 10) + [DigitChar(n % 10)]
  }

  /** The number a string of decimal digits denotes (leading zeros allowed). */
  function DigitsValue(s: string): nat
    requires AllDigits(s)
  {
    if s == [] then 0
    else
      assert IsDigit(s[|s| - 1]);
      10 * DigitsValue(s[..|s| - 1]) + (s[|s| - 1] as int - '0' as int)
  }

  function Zeros(k: nat): (s: string)
    ensures |s| == k && AllDigits(s)
    ensures forall i :: 0 <= i < k ==> s[i] == '0'
  {
    if k == 0 then [] else Zeros(k - 1) + ['0']
  }

  /** Left-pads a digit string with zeros to at least `width` characters. */
  function PadZeros(s: string, width: nat): (r: string)
    requires AllDigits(s)
    ensures AllDigits(r)
    ensures |r| == if |s| >= width then |s| else width
  {
    if |s| >= width then s else Zeros(width - |s|) + s
  }

  /**
   * `Exponent.ToString("000")`: a `-` for a negative exponent, then at least three digits, as
   * written for a culture whose negative sign is `-` and whose digits are ASCII.
   */
  function ExponentText(e: int): (s: string)
    ensures |s| >= 3
    ensures (s[0] == '-') <==> e < 0
    ensures e < 0 ==> AllDigits(s[1..]) && DigitsValue(s[1..]) == -e
    ensures e >= 0 ==> AllDigits(s) && DigitsValue(s) == e
  {
    var n: nat := if e < 0 then -e else e;
    DigitsValueOfDigits(n);
    PadZerosValue(Digits(n), 3);
    if e < 0 then
      var s := "-" + PadZeros(Digits(-e), 3);
      assert s[1..] == PadZeros(Digits(-e), 3);
      s
    else
      PadZeros(Digits(e), 3)
  }

  /** What follows the marker: `+` for a nonnegative exponent, then the `000` text. */
  function ExponentSuffix(e: int): (s: string)
    ensures |s| >= 4
    ensures s[0] == (if e >= 0 then '+' else '-')
  {
    (if e >= 0 then "+" else "") + ExponentText(e)
  }

  /**
   * `ToString(significantDigits, eNotationChar)`: `ArgumentException` for a negative count of
   * decimals, otherwise mantissa text, marker and exponent suffix.
   */
  function ToString(v: Number, significantDigits: int, marker: char, fixed: FixedRendering): (r: Result<string>)
    ensures r.Err? <==> significantDigits < 0
    ensures r.Err? ==> r.error == ArgumentException
  {
    if significantDigits < 0 then Err(ArgumentException)
    else Ok(fixed(v.mantissa, significantDigits) + [marker] + ExponentSuffix(v.exponent))
  }

  /** `ToString()`: `ToString(6, 'E')`, which cannot fail. */
  function DefaultString(v: Number, fixed: FixedRendering): (s: string)
    ensures ToString(v, 6, 'E', fixed) == Ok(s)
  {
    ToString(v, 6, 'E', fixed).value
  }

  /**
   * `ToString(format, provider)`: a null format gives `ToString()`; otherwise the first
   * character is parsed as one decimal digit (the count of decimals) and the second is the
   * marker; any failure, a missing character or a non-digit, becomes `ArgumentException`.
   * Characters after the second are ignored.
   */
  function ToStringFormat(v: Number, format: Option<string>, fixed: FixedRendering): (r: Result<string>)
    ensures format.None? ==> r == Ok(DefaultString(v, fixed))
  {
    match format
    case None => Ok(DefaultString(v, fixed))
    case Some(f) =>
      if |f| >= 1 && IsDigit(f[0]) && |f| >= 2 then ToString(v, f[0] as int - '0' as int, f[1], fixed)
      else Err(ArgumentException)
  }

  /**
   * `ToString` as the source runs it: it appends the pieces to a string builder one after
   * the other.
   */
  method BuildString(v: Number, significantDigits: int, marker: char, fixed: FixedRendering)
    returns (r: Result<string>)
    ensures r == ToString(v, significantDigits, marker, fixed)
  {
    if significantDigits < 0 {
      return Err(ArgumentException);
    }
    var sb: string := [];
    sb := sb + fixed(v.mantissa, significantDigits);
    sb := sb + [marker];
    ghost var prefix := sb;
    assert prefix == fixed(v.mantissa, significantDigits) + [marker];
    if v.exponent >= 0 {
      sb := sb + "+";
    }
    assert sb == prefix + (if v.exponent >= 0 then "+" else "");
    sb := sb + ExponentText(v.exponent);
    assert sb == prefix + ExponentSuffix(v.exponent);
    return Ok(sb);
  }

  // ---------------------------------------------------------------------------------------
  // Reading the exponent back

  /** Reads a signed exponent suffix: a sign character followed by decimal digits. */
  function ParseExponentSuffix(t: string): Option<int> {
    if |t| < 2 || !(t[0] == '+' || t[0] == '-') || !AllDigits(t[1..]) then None
    else
      var n: int := DigitsValue(t[1..]);
      Some(if t[0] == '-' then -n else n)
  }

  lemma {:induction false} DigitsValueOfDigits(n: nat)
    ensures DigitsValue(Digits(n)) == n
  {
    if n >= 10 {
      var s := Digits(n);
      assert s[..|s| - 1] == Digits(n / 10);
      DigitsValueOfDigits(n / 10);
    }
  }

  lemma {:induction false} DigitsValueOfZeros(k: nat)
    ensures DigitsValue(Zeros(k)) == 0
  {
    if k > 0 {
      assert Zeros(k)[..k - 1] == Zeros(k - 1);
      DigitsValueOfZeros(k - 1);
    }
  }

  /** Leading zeros do not change the number a digit string denotes. */
  lemma {:induction false} DigitsValueLeadingZeros(k: nat, s: string)
    requires AllDigits(s)
    ensures AllDigits(Zeros(k) + s) && DigitsValue(Zeros(k) + s) == DigitsValue(s)
    decreases |s|
  {
    var t := Zeros(k) + s;
    if s == [] {
      assert t == Zeros(k);
      DigitsValueOfZeros(k);
    } else {
      assert t[..|t| - 1] == Zeros(k) + s[..|s| - 1];
      DigitsValueLeadingZeros(k, s[..|s| - 1]);
    }
  }

  lemma PadZerosValue(s: string, width: nat)
    requires AllDigits(s)
    ensures DigitsValue(PadZeros(s, width)) == DigitsValue(s)
  {
    if |s| < width {
      var k := width - |s|;
      DigitsValueLeadingZeros(k, s);
      assert DigitsValue(PadZeros(s, width)) == DigitsValue(Zeros(k) + s);
    }
  }

  /**
   * The exponent suffix reads back as the exponent: its sign character is `+` or `-` as the
   * exponent is nonnegative or negative, and its digits, however many, denote |exponent|.
   */
  lemma ExponentSuffixRoundTrip(e: int)
    ensures ParseExponentSuffix(ExponentSuffix(e)) == Some(e)
  {
    var n: nat := if e < 0 then -e else e;
    var p := PadZeros(Digits(n), 3);
    DigitsValueOfDigits(n);
    PadZerosValue(Digits(n), 3);
    var sign := if e >= 0 then '+' else '-';
    assert ExponentSuffix(e) == [sign] + p;
    ParseSigned(sign, p);
  }

  lemma ParseSigned(sign: char, p: string)
    requires sign == '+' || sign == '-'
    requires AllDigits(p) && |p| >= 1
    ensures ParseExponentSuffix([sign] + p)
         == Some(if sign == '-' then -(DigitsValue(p) as int) else DigitsValue(p))
  {
    assert ([sign] + p)[1..] == p;
  }

  /**
   * The exponent is written with exactly three digits while |exponent| < 1000 and with
   * exactly its own digits (no zero padding, no truncation) from 1000 on.
   */
  lemma ExponentDigitCount(e: int)
    ensures var n: nat := if e < 0 then -e else e;
      |ExponentSuffix(e)| == 1 + (if n < 1000 then 3 else |Digits(n)|)
  {
    var n: nat := if e < 0 then -e else e;
    if n >= 1000 {
      DigitsAtLeastFour(n);
    }
  }

  lemma {:induction false} DigitsAtLeastFour(n: nat)
    requires n >= 1000
    ensures |Digits(n)| >= 4
  {
    if n >= 10000 {
      DigitsAtLeastFour(n / 10);
    } else {
      var a := n / 10;
      var b := a / 10;
      assert |Digits(n)| == |Digits(a)| + 1;
      assert |Digits(a)| == |Digits(b)| + 1;
      assert |Digits(b)| == |Digits(b / 10)| + 1;
    }
  }

  /**
   * The whole text splits back into its pieces: the mantissa text, then the marker, then a
   * suffix that reads back as the exponent.
   */
  lemma ToStringParts(v: Number, significantDigits: nat, marker: char, fixed: FixedRendering)
    ensures var r := ToString(v, significantDigits, marker, fixed);
      var m := fixed(v.mantissa, significantDigits);
      && r.Ok?
      && r.value[..|m|] == m
      && r.value[|m|] == marker
      && ParseExponentSuffix(r.value[|m| + 1..]) == Some(v.exponent)
  {
    var m := fixed(v.mantissa, significantDigits);
    var s := ToString(v, significantDigits, marker, fixed).value;
    assert s[|m| + 1..] == ExponentSuffix(v.exponent);
    ExponentSuffixRoundTrip(v.exponent);
  }

  /**
   * The two overloads agree: the format `d c rest` with a decimal digit `d` is exactly
   * `ToString(d, c)`, which succeeds, and the characters after the marker do not matter. A
   * non-digit first character, or a format shorter than two characters, is `ArgumentException`.
   */
  lemma FormatProtocol(v: Number, d: char, c: char, rest: string, fixed: FixedRendering)
    ensures IsDigit(d) ==>
      && ToStringFormat(v, Some([d, c] + rest), fixed) == ToString(v, d as int - '0' as int, c, fixed)
      && ToStringFormat(v, Some([d, c] + rest), fixed).Ok?
    ensures !IsDigit(d) ==> ToStringFormat(v, Some([d, c] + rest), fixed) == Err(ArgumentException)
    ensures ToStringFormat(v, Some([d]), fixed) == Err(ArgumentException)
    ensures ToStringFormat(v, Some([]), fixed) == Err(ArgumentException)
  {
  }

  /**
   * Examples with the runtime's mantissa text given: 1.25E+010 with four decimals, through
   * both overloads, and a format string the protocol rejects.
   */
  lemma ToStringExample(fixed: FixedRendering)
    requires fixed(Finite(1.25), 4) == "1.2500"
    ensures ToString(Number(Finite(1.25), 10, false, false), 4, 'E', fixed) == Ok("1.2500E+010")
    ensures ToStringFormat(Number(Finite(1.25), 10, false, false), Some("4E"), fixed) == Ok("1.2500E+010")
    ensures ToStringFormat(Number(Finite(1.25), 10, false, false), Some("E4"), fixed) == Err(ArgumentException)
  {
    var v := Number(Finite(1.25), 10, false, false);
    assert Zeros(1) == "0";
    assert ExponentSuffix(10) == "+010" by {
      assert Digits(10) == "10";
      assert PadZeros("10", 3) == "010";
    }
    var m := fixed(v.mantissa, 4);
    assert m == "1.2500";
    assert ToString(v, 4, 'E', fixed) == Ok(m + ['E'] + ExponentSuffix(10));
    assert m + ['E'] + "+010" == "1.2500E+010";
    assert "4E"[0] as int - '0' as int == 4;
  }

  /** A negative exponent is written with its `-` and no `+`: -2E-003 as `-2.000e-003`. */
  lemma NegativeExponentExample(fixed: FixedRendering)
    requires fixed(Finite(-2.0), 3) == "-2.000"
    ensures ToString(Number(Finite(-2.0), -3, false, false), 3, 'e', fixed) == Ok("-2.000e-003")
  {
    var v := Number(Finite(-2.0), -3, false, false);
    assert Zeros(2) == "00" by {
      assert Zeros(1) == "0";
    }
    assert ExponentSuffix(-3) == "-003" by {
      assert Digits(3) == "3";
      assert PadZeros("3", 3) == "003";
    }
    var m := fixed(v.mantissa, 3);
    assert m == "-2.000";
    assert ToString(v, 3, 'e', fixed) == Ok(m + ['e'] + ExponentSuffix(-3));
    assert m + ['e'] + "-003" == "-2.000e-003";
  }

  /** An exponent of four digits is written in full: 1.1E+1001 as `1.100000E+1001`. */
  lemma WideExponentExample(fixed: FixedRendering)
    requires fixed(Finite(1.1), 6) == "1.100000"
    ensures DefaultString(Number(Finite(1.1), 1001, false, false), fixed) == "1.100000E+1001"
  {
    assert Digits(1) == "1";
    assert Digits(10) == "10";
    assert Digits(100) == "100";
    assert Digits(1001) == "1001";
    assert ExponentSuffix(1001) == "+1001";
    assert "1.100000" + ['E'] + "+1001" == "1.100000E+1001";
  }
}
