# Caluminous numbers in Dafny

Caluminous provides two immutable scientific-notation number types, `Huge` and `Humongous`.
Each holds a decimal mantissa (a `double`) and an integer exponent, and stands for
`mantissa · 10^exponent`. `Huge` has a `long` exponent and `Humongous` an `Int128` exponent.
Apart from that, the two structs are line-for-line the same. `Humongous` adds `MaxValue`/`MinValue`
and an implicit widening from `Huge`.

This project models the shared core once, as the datatype `Numbers.Number`. It holds a
mantissa, an unbounded exponent, and the two flags `isInfinity` and `isNaN`. The exponent
ranges of the two structs are predicates (`Surface.FitsHuge`, `Surface.FitsHumongous`).

The modules:

- `Doubles`: the mantissa as an exact real, or ±∞, or NaN. It also holds the few `double`
  operations the core uses: `==`, `<`, `CompareTo`, negation, `Math.Abs`, `+`, `*`, `/`.
- `Powers`: `Scale(x, e) = x · 10^e`, defined one decimal place at a time, with its algebra.
- `Numbers`: the private constructor, in two forms.
  - `Make` is the recursive specification and `New` its normalising form.
  - `Construct` is the method with the constructor's two `while` loops.
  - The file also has `AlignDigit` and its `for`-loop method `AlignDigitLoop`.
- `Arithmetic`: the operators `+ - * / %`, unary `-`/`+`, `++`, `--` and `Abs`.
- `Comparison`: `CompareTo`, the relational operators, `Equals`, and
  `MaxMagnitude`/`MinMagnitude`.
- `Classification`: the `Is...` predicates.
- `Format`: the three `ToString` overloads, and the string-builder form of `ToString(d, c)`.
  The `F{n}` text of the mantissa is a parameter.
- `Surface`:
  - the static properties, `MaxValue`/`MinValue` and the casts;
  - the widening of a `Huge`;
  - the `Parse`/`TryParse`/`TryFormat`/`TryConvert...` members, which only throw.
- `Findings`: three defects, each shown as written and next to the corrected definition.

The same line numbers are valid in `Humongous.cs` up to the static constructor. After it,
`Humongous.cs` runs about eleven lines later. The table cites `Huge.cs` except for members
that only `Humongous` has.

## Model

| member | source | states |
|---|---|---|
| Numbers.Make | Caluminous/Caluminous.Number/Huge.cs:103-152 | The private constructor always builds a well-formed number. With `normalize` the result is canonical: a finite nonzero mantissa has 1 ≤ \|m\| < 10, and zero is (0, 0). A finite input keeps its value `m·10^e`. |
| Numbers.Zero | Caluminous/Caluminous.Number/Huge.cs:81-85 | `new()` is the canonical zero: normalised, finite, value 0. |
| Numbers.New | Caluminous/Caluminous.Number/Huge.cs:92-95 | The public constructor always normalises. A finite mantissa keeps its value `m·10^e`; ±∞ and NaN are tagged and keep mantissa and exponent. |
| Numbers.One | Caluminous/Caluminous.Number/Huge.cs:156 | `One` is `new(1, 0)`, which normalisation leaves as (1, 0), of value 1. |
| Numbers.Construct | Caluminous/Caluminous.Number/Huge.cs:103-152 | The constructor as written, with a loop dividing by 10 while \|m\| ≥ 10 and a loop multiplying by 10 while \|m\| < 1. It returns exactly `Make`'s number, so it keeps the value and ends in the canonical range. |
| Numbers.ScaleDown | Caluminous/Caluminous.Number/Huge.cs:132-136 | The divide loop keeps `m·10^e`, ends with \|m\| < 10, and does not go below 1 when it starts at or above 1. |
| Numbers.ScaleUp | Caluminous/Caluminous.Number/Huge.cs:138-142 | The multiply loop on a nonzero mantissa keeps `m·10^e`, ends with \|m\| ≥ 1, and stays below 10 when it starts below 10. |
| Numbers.NormalizeFinite | Caluminous/Caluminous.Number/Huge.cs:125-151 | A nonzero finite mantissa is normalised to 1 ≤ \|m\| < 10 with the same value. The raw path stores the pair verbatim. |
| Numbers.ZeroIsCanonical | Caluminous/Caluminous.Number/Huge.cs:119-124 | A zero mantissa gives (0, 0) whatever the exponent, on the raw path as well. |
| Numbers.SpecialValuesTagged | Caluminous/Caluminous.Number/Huge.cs:105-118 | ±∞ sets only `isInfinity` and NaN sets only `isNaN`. Both keep mantissa and exponent unscaled. |
| Numbers.ValueZero | Caluminous/Caluminous.Number/Huge.cs:119-124 | A constructed number has value 0 exactly when it is the canonical zero. |
| Numbers.SameValueSameNumber | Caluminous/Caluminous.Number/Huge.cs:125-146 | Two normalised finite numbers with the same value are identical: the canonical form is unique. |
| Numbers.PositiveSameScale | Caluminous/Caluminous.Number/Huge.cs:132-142 | Two mantissas in [1, 10) with the same scaled value have equal mantissas and equal exponents. |
| Numbers.NewOfNormalized | Caluminous/Caluminous.Number/Huge.cs:91-94 | The public constructor leaves a normalised number unchanged. |
| Numbers.NewIsUnique | Caluminous/Caluminous.Number/Huge.cs:91-94 | The public constructor returns the one normalised number whose value is `m·10^e`. |
| Numbers.NormalizeExamples | Caluminous/Tests.Number/HugeTest.cs:13-22 | (0.5, 2) → (5, 1), (10, 4) → (1, 5), (−254.5, 4) → (−2.545, 6), (0, 1) → (0, 0), and `One` is (1, 0). |
| Numbers.AlignDigitLoop | Caluminous/Caluminous.Number/Huge.cs:998-1021 | The `for` loops, as written. They run exactly \|exponent − digit\| times and return `AlignDigit`'s number. |
| Numbers.AlignDigit | Caluminous/Caluminous.Number/Huge.cs:998-1021 | The result is well formed and keeps a finite value. Its exponent is the requested digit unless the mantissa is zero. |
| Numbers.AlignDigitSpec | Caluminous/Caluminous.Number/Huge.cs:998-1021 | For a nonzero finite mantissa, `AlignDigit(v, d)` has exponent `d`, mantissa `m·10^(e−d)`, and the same value; the result is not renormalised. A zero aligns to the canonical zero; ±∞ and NaN keep their mantissa and take exponent `d`. |
| Numbers.AlignDigitNotNormalized | Caluminous/Caluminous.Number/Huge.cs:1020 | (1, 5) aligned to 3 is the raw (100, 3), which is not normalised. |
| Arithmetic.Add | Caluminous/Caluminous.Number/Huge.cs:859-868 | `+` always returns a canonical number. |
| Arithmetic.AddValue | Caluminous/Caluminous.Number/Huge.cs:859-868 | For finite operands, `a + b` has value `value(a) + value(b)`. |
| Arithmetic.AddCommutative | Caluminous/Caluminous.Number/Huge.cs:859-868 | `+` commutes on finite operands, although it aligns the right operand to the left one's exponent. |
| Arithmetic.AddAssociative | Caluminous/Caluminous.Number/Huge.cs:859-868 | `+` is associative on finite operands. |
| Arithmetic.AddZeroRight | Caluminous/Caluminous.Number/Huge.cs:859-868 | `x + Zero` is `+x`, and equals `x` when `x` is normalised. |
| Arithmetic.AddZeroLeft | Caluminous/Caluminous.Number/Huge.cs:859-868 | `Zero + x` is `+x` for finite `x`, and equals `x` when `x` is normalised. |
| Arithmetic.AddCarryExample | Caluminous/Caluminous.Number/Huge.cs:859-868 | 5 + 5 is (1, 1). |
| Arithmetic.AddAlignExample | Caluminous/Caluminous.Number/Huge.cs:859-868 | (1, 1) + (5, 0) aligns to exponent 1 and gives (1.5, 1). |
| Arithmetic.Negate | Caluminous/Caluminous.Number/Huge.cs:954-957 | Unary `-` returns a canonical number. |
| Arithmetic.NegateValue | Caluminous/Caluminous.Number/Huge.cs:954-957 | Unary `-` negates the value. |
| Arithmetic.NegateNormalized | Caluminous/Caluminous.Number/Huge.cs:954-957 | On a normalised number, unary `-` changes only the mantissa's sign. |
| Arithmetic.NegateSpec | Caluminous/Caluminous.Number/Huge.cs:954-957 | On a normalised finite number, negation flips the mantissa and keeps the exponent. Negating twice gives the number back. |
| Arithmetic.NegateTwice | Caluminous/Caluminous.Number/Huge.cs:954-957 | Negation is an involution on normalised numbers, the special values included. |
| Arithmetic.UnaryPlus | Caluminous/Caluminous.Number/Huge.cs:964-967 | Unary `+` returns a canonical number. |
| Arithmetic.UnaryPlusRenormalizes | Caluminous/Caluminous.Number/Huge.cs:964-967 | Unary `+` is the identity on normalised numbers. It turns the raw result of `AlignDigit` back into the number it came from. |
| Arithmetic.Subtract | Caluminous/Caluminous.Number/Huge.cs:944-947 | Binary `-` returns a canonical number. |
| Arithmetic.SubtractValue | Caluminous/Caluminous.Number/Huge.cs:944-947 | `a − b` has value `value(a) − value(b)`. |
| Arithmetic.SubtractSelf | Caluminous/Caluminous.Number/Huge.cs:944-947 | `x − x` is the canonical zero (0, 0) for every finite `x`. |
| Arithmetic.Multiply | Caluminous/Caluminous.Number/Huge.cs:933-936 | `*` returns a canonical number. |
| Arithmetic.MultiplyValue | Caluminous/Caluminous.Number/Huge.cs:933-936 | `a * b` has value `value(a) · value(b)`. |
| Arithmetic.ProductScale | Caluminous/Caluminous.Number/Huge.cs:935 | `(m1·m2)·10^(e1+e2)` is the product of the operands' values. |
| Arithmetic.MultiplyOne | Caluminous/Caluminous.Number/Huge.cs:933-936 | `One` is a two-sided multiplicative identity on normalised numbers. |
| Arithmetic.MultiplyZero | Caluminous/Caluminous.Number/Huge.cs:933-936 | A finite number times zero is zero, and an infinite number times zero is NaN. |
| Arithmetic.MultiplyCommutative | Caluminous/Caluminous.Number/Huge.cs:933-936 | `*` commutes. |
| Arithmetic.Divide | Caluminous/Caluminous.Number/Huge.cs:886-893 | `/` returns a canonical number. |
| Arithmetic.DivideValue | Caluminous/Caluminous.Number/Huge.cs:886-893 | For a nonzero divisor, `a / b` has value `value(a) / value(b)`. |
| Arithmetic.DivideGuards | Caluminous/Caluminous.Number/Huge.cs:888-891 | A zero dividend gives zero, even over a zero divisor. Otherwise a zero divisor gives NaN with exponent 0. |
| Arithmetic.DivideByZero | Caluminous/Caluminous.Number/Huge.cs:888-891 | `x / 0` is zero exactly when `x`'s mantissa is zero and NaN otherwise; it is never infinite. |
| Arithmetic.DivideExample | Caluminous/Tests.Number/HugeTest.cs:96 | (8, −10) / (5, −12) is (1.6, 2). |
| Arithmetic.Remainder | Caluminous/Caluminous.Number/Huge.cs:844-851 | `%` returns a canonical number. |
| Arithmetic.RemainderValue | Caluminous/Caluminous.Number/Huge.cs:850 | For nonzero finite operands, `a − b·(a/b)` is the canonical zero. |
| Arithmetic.ProductOfQuotient | Caluminous/Caluminous.Number/Huge.cs:850 | Multiplying the divisor by the quotient gives back the dividend's value. |
| Arithmetic.RemainderCollapses | Caluminous/Caluminous.Number/Huge.cs:844-851 | For finite operands and a nonzero divisor, `%` is always zero. A zero divisor under a nonzero dividend gives NaN. |
| Arithmetic.Increment | Caluminous/Caluminous.Number/Huge.cs:922-925 | `++` returns a canonical number. |
| Arithmetic.Decrement | Caluminous/Caluminous.Number/Huge.cs:875-878 | `--` returns a canonical number. |
| Arithmetic.IncrementDecrementValue | Caluminous/Caluminous.Number/Huge.cs:875-878 | `++` adds one to the value and `--` subtracts one. |
| Arithmetic.IncrementDecrementInverse | Caluminous/Caluminous.Number/Huge.cs:922-925 | On normalised finite numbers, `++` and `--` undo each other. |
| Arithmetic.Abs | Caluminous/Caluminous.Number/Huge.cs:372-375 | `Abs` returns a canonical number. |
| Arithmetic.AbsValue | Caluminous/Caluminous.Number/Huge.cs:372-375 | `Abs` has the absolute value of its argument. |
| Doubles.CompareTo | Caluminous/Caluminous.Number/Huge.cs:352 | The mantissa comparison is −1, 0 or 1, zero exactly on equal mantissas, and negative for a smaller mantissa (NaN sorts first). |
| Doubles.CompareToAntisymmetric | Caluminous/Caluminous.Number/Huge.cs:352 | The mantissa comparison is antisymmetric. |
| Doubles.CompareToFinite | Caluminous/Caluminous.Number/Huge.cs:352 | On finite mantissas, the comparison is the order of reals. |
| Comparison.IntCompare | Caluminous/Caluminous.Number/Huge.cs:363 | The exponent comparison is −1, 0 or 1, with the sign of `a − b`. |
| Comparison.CompareTo | Caluminous/Caluminous.Number/Huge.cs:342-365 | The four-rule comparator returns −1, 0 or 1. |
| Comparison.CompareAntisymmetric | Caluminous/Caluminous.Number/Huge.cs:342-365 | The comparator is reflexive and antisymmetric, and `>` is `<` with the arguments swapped. |
| Comparison.EqualIsStructural | Caluminous/Caluminous.Number/Huge.cs:901-904 | On well-formed numbers `==` holds exactly when mantissa, exponent and flags agree. |
| Comparison.EqualIsNotValueEquality | Caluminous/Caluminous.Number/Huge.cs:650-653 | A raw aligned number and its normalised form have the same value but are not `==`, so neither `==` nor `Equals` is value equality. |
| Comparison.CompareSameExponent | Caluminous/Caluminous.Number/Huge.cs:355-359 | With equal exponents the comparator is the order of values. |
| Comparison.CompareWithZero | Caluminous/Caluminous.Number/Huge.cs:344-353 | When a mantissa is zero the comparator is the order of values. |
| Comparison.CompareNonnegative | Caluminous/Caluminous.Number/Huge.cs:342-365 | For normalised nonnegative numbers, the comparator's sign is the order of values. |
| Comparison.CompareNegativeReversed | Caluminous/Caluminous.Number/Huge.cs:360-364 | For two normalised negative numbers with different exponents, the comparator's sign is the reverse of the order of values. |
| Comparison.CompareNotTransitive | Caluminous/Caluminous.Number/Huge.cs:342-365 | (−1, 5) < 0 < (1, 3), yet (−1, 5) > (1, 3), although value(−1, 5) < value(1, 3). |
| Comparison.Equal | Caluminous/Caluminous.Number/Huge.cs:901-904 | On well-formed numbers `==` holds exactly when the two are structurally equal. |
| Comparison.NotEqual | Caluminous/Caluminous.Number/Huge.cs:911-914 | `!=` is the negation of `==`. |
| Comparison.Greater | Caluminous/Caluminous.Number/Huge.cs:799-802 | `x > y` exactly when the comparator puts `y` below `x`; it excludes `==`. |
| Comparison.Less | Caluminous/Caluminous.Number/Huge.cs:821-824 | `<` excludes `==` and `>`. On normalised nonnegative numbers it is the order of values. |
| Comparison.GreaterOrEqual | Caluminous/Caluminous.Number/Huge.cs:810-813 | `>=` holds exactly when `<` does not. |
| Comparison.LessOrEqual | Caluminous/Caluminous.Number/Huge.cs:833-836 | `<=` holds exactly when `>` does not, and is `>=` with the arguments swapped. |
| Comparison.CompareOppositeSigns | Caluminous/Caluminous.Number/Huge.cs:360-364 | For a negative and a positive normalised number with different exponents, the comparator is the exponent comparison. It agrees with the order of values exactly when the negative one has the smaller exponent. |
| Comparison.DerivedComparisons | Caluminous/Caluminous.Number/Huge.cs:799-836 | `>=` and `<=` are the comparator's sign tests, `!=` negates `==`, `>=` mirrors `<=`, and `==` is symmetric. |
| Comparison.MaxMagnitude | Caluminous/Caluminous.Number/Huge.cs:553-556 | Returns one of its arguments, one that is not `<` either argument by the comparator, and `y` on a tie. |
| Comparison.MinMagnitude | Caluminous/Caluminous.Number/Huge.cs:575-578 | Returns one of its arguments, one that is not `>` either argument by the comparator, and `y` on a tie. |
| Comparison.MaxMagnitudeNumber | Caluminous/Caluminous.Number/Huge.cs:564-567 | Returns one of its arguments, one that is not `<` either argument by the comparator. |
| Comparison.MinMagnitudeNumber | Caluminous/Caluminous.Number/Huge.cs:586-589 | Returns one of its arguments, one that is not `>` either argument by the comparator. |
| Comparison.MagnitudeByComparator | Caluminous/Caluminous.Number/Huge.cs:553-589 | The result of `MaxMagnitude` is not `<` either argument, and `MinMagnitude`'s is not `>` either. Both return `y` on a tie, and the `...Number` twins agree with them. |
| Comparison.MagnitudeIsNotMagnitude | Caluminous/Caluminous.Number/Huge.cs:553-578 | Given −5 and 1, `MaxMagnitude` returns 1 and `MinMagnitude` returns −5. |
| Classification.IsFinite | Caluminous/Caluminous.Number/Huge.cs:412-415 | `IsFinite` is the same test as `IsInfinity`, so it is false for every well-formed number with a finite mantissa. |
| Classification.IsInfinity | Caluminous/Caluminous.Number/Huge.cs:432-435 | On well-formed numbers, `IsInfinity` holds exactly for a mantissa of +∞ or −∞. |
| Classification.IsNaN | Caluminous/Caluminous.Number/Huge.cs:452-455 | On well-formed numbers, `IsNaN` holds exactly for a NaN mantissa. |
| Classification.IsZero | Caluminous/Caluminous.Number/Huge.cs:542-545 | For a finite mantissa, `IsZero` holds exactly when the value is 0. On a well-formed number it holds exactly for the canonical zero. |
| Classification.IsNegative | Caluminous/Caluminous.Number/Huge.cs:462-465 | For a finite mantissa, `IsNegative` holds exactly when the value is below 0; otherwise exactly for −∞. |
| Classification.IsPositive | Caluminous/Caluminous.Number/Huge.cs:502-505 | For a finite mantissa, `IsPositive` holds exactly when the value is above 0; otherwise exactly for +∞. |
| Classification.IsNegativeInfinity | Caluminous/Caluminous.Number/Huge.cs:472-475 | A −∞ number is not finite, is negative and not positive, and on a well-formed number carries the infinity flag. |
| Classification.IsPositiveInfinity | Caluminous/Caluminous.Number/Huge.cs:512-515 | A +∞ number is not finite, is positive and not negative, and on a well-formed number carries the infinity flag. |
| Classification.IsNormal | Caluminous/Caluminous.Number/Huge.cs:482-485 | A normal number is finite with a positive value. On normalised numbers every finite positive number is normal, so no negative number is. |
| Classification.IsCanonical | Caluminous/Caluminous.Number/Huge.cs:382-385 | `IsCanonical` is the same test as `IsNormal`. |
| Classification.IsSubnormal | Caluminous/Caluminous.Number/Huge.cs:532-535 | On normalised numbers, `IsSubnormal` holds exactly for ±∞, NaN, zero and the negative numbers. |
| Classification.FlagsMatchMantissa | Caluminous/Caluminous.Number/Huge.cs:432-475 | On constructed numbers, `IsInfinity` holds exactly when one of the signed infinity tests does. `IsNaN` holds exactly for a NaN mantissa, and no number is both. |
| Classification.IsFiniteIsInverted | Caluminous/Caluminous.Number/Huge.cs:412-415 | `IsFinite` holds exactly for the infinities, so it is false for every finite number. |
| Classification.SignTestsMatchValue | Caluminous/Caluminous.Number/Huge.cs:462-545 | For a finite mantissa, `IsNegative`/`IsZero`/`IsPositive` hold exactly when the value is below, at, or above zero. A constructed zero is the canonical zero. |
| Classification.SignTestsPartition | Caluminous/Caluminous.Number/Huge.cs:462-545 | NaN satisfies none of the sign tests. Any other mantissa satisfies exactly one. |
| Classification.NormalMeansPositive | Caluminous/Caluminous.Number/Huge.cs:382-535 | On normalised numbers, `IsNormal` (and `IsCanonical`) holds exactly for the finite positive ones. `IsSubnormal` is its negation. |
| Classification.NormalExamples | Caluminous/Caluminous.Number/Huge.cs:482-485 | 1 is normal; −1 and zero are subnormal. |
| Classification.ConstantPredicates | Caluminous/Caluminous.Number/Huge.cs:392-525 | `IsComplexNumber`, `IsEvenInteger`, `IsImaginaryNumber`, `IsInteger` and `IsOddInteger` are false, and `IsRealNumber` is true. |
| Format.Digits | Caluminous/Caluminous.Number/Huge.cs:312 | The decimal digits of a natural number have no leading zero, and at most three digits below 1000. |
| Format.DigitsValueOfDigits | Caluminous/Caluminous.Number/Huge.cs:312 | Reading the digits of `n` back gives `n`. |
| Format.DigitsValueLeadingZeros | Caluminous/Caluminous.Number/Huge.cs:312 | Leading zeros do not change the number a digit string denotes. |
| Format.PadZeros | Caluminous/Caluminous.Number/Huge.cs:312 | Zero padding keeps a digit string and widens it to the requested width. |
| Format.PadZerosValue | Caluminous/Caluminous.Number/Huge.cs:312 | Zero padding does not change the number denoted. |
| Format.ExponentText | Caluminous/Caluminous.Number/Huge.cs:312 | The `000` text has at least three characters. It starts with `-` exactly for a negative exponent, and its digits denote the exponent's magnitude. |
| Format.ExponentSuffix | Caluminous/Caluminous.Number/Huge.cs:308-312 | The suffix has at least four characters, and the first is `+` for an exponent ≥ 0 and `-` otherwise. |
| Format.ExponentSuffixRoundTrip | Caluminous/Caluminous.Number/Huge.cs:308-312 | The suffix parses back to the exponent, for every exponent. |
| Format.ExponentDigitCount | Caluminous/Caluminous.Number/Huge.cs:312 | The exponent has exactly three digits while its magnitude is below 1000, and exactly its own digits from 1000 on. |
| Format.DigitsAtLeastFour | Caluminous/Caluminous.Number/Huge.cs:312 | A number of at least 1000 has at least four digits. |
| Format.ToString | Caluminous/Caluminous.Number/Huge.cs:300-314 | `ArgumentException` exactly when the count of decimals is negative. |
| Format.BuildString | Caluminous/Caluminous.Number/Huge.cs:300-314 | The string-builder appends, as written, produce exactly `ToString`'s result. |
| Format.ToStringParts | Caluminous/Caluminous.Number/Huge.cs:300-314 | The text is the mantissa text, then the marker, then a suffix that parses back to the exponent. |
| Format.DefaultString | Caluminous/Caluminous.Number/Huge.cs:320-323 | `ToString()` is the successful result of `ToString(6, 'E')`. |
| Format.ToStringFormat | Caluminous/Caluminous.Number/Huge.cs:677-693 | A null format gives the default string. |
| Format.FormatProtocol | Caluminous/Caluminous.Number/Huge.cs:677-693 | The two overloads agree: a format `d c rest` with a decimal digit `d` gives exactly `ToString(d, c)`, which succeeds, whatever follows. A first character that is not a digit, or a format shorter than two characters, is `ArgumentException`. |
| Format.ToStringExample | Caluminous/Tests.Number/HugeTest.cs:16 | 1.25E+10 with four decimals is `1.2500E+010` through both overloads, and the format `E4` is rejected. |
| Format.NegativeExponentExample | Caluminous/Tests.Number/HugeTest.cs:19 | (−2, −3) with three decimals and `e` is `-2.000e-003`. |
| Format.WideExponentExample | Caluminous/Caluminous.Number/Huge.cs:320-323 | The default string of 1.1E+1001 is `1.100000E+1001`: four exponent digits, none dropped. |
| Surface.StaticProperties | Caluminous/Caluminous.Number/Huge.cs:154-161 | The radix is 10. The additive identity is (0, 0) and a right identity of `+` on normalised numbers. The multiplicative identity is (1, 0) and a right identity of `*`. |
| Surface.Radix | Caluminous/Caluminous.Number/Huge.cs:158 | The radix is 10. |
| Surface.AdditiveIdentity | Caluminous/Caluminous.Number/Huge.cs:159 | The additive identity is (0, 0), of value 0. |
| Surface.MultiplicativeIdentity | Caluminous/Caluminous.Number/Huge.cs:160 | The multiplicative identity is (1, 0), of value 1. |
| Surface.HugeMaxValue | Caluminous/Caluminous.Number/Huge.cs:69 | `Huge.MaxValue` is never assigned, so it is the default: normalised, of value 0. |
| Surface.HugeMinValue | Caluminous/Caluminous.Number/Huge.cs:74 | `Huge.MinValue` is the same default as `Huge.MaxValue`. |
| Surface.HumongousMaxValue | Caluminous/Caluminous.Number/Humongous.cs:161 | `Humongous.MaxValue` is (9.9999999, Int128.MaxValue), unchanged by normalisation. It fits a `Humongous` but not a `Huge`. |
| Surface.HumongousMinValue | Caluminous/Caluminous.Number/Humongous.cs:162 | `Humongous.MinValue` is (−9.9999999, Int128.MaxValue): the same exponent as `MaxValue`. |
| Surface.MaxMinValues | Caluminous/Caluminous.Number/Humongous.cs:154-163 | `Huge.MaxValue`/`MinValue` are the default zero. `Humongous`'s are (±9.9999999, Int128.MaxValue), unchanged by normalisation; that exponent is out of a `Huge`'s range. |
| Surface.MinValueAboveOne | Caluminous/Caluminous.Number/Humongous.cs:161-162 | `Humongous.MinValue > One`, although its value is smaller. |
| Surface.FromDouble | Caluminous/Caluminous.Number/Huge.cs:169-290 | A cast is normalised and keeps a finite value. ±∞ and NaN are tagged at exponent 0. |
| Surface.FromDoubleValue | Caluminous/Caluminous.Number/Huge.cs:169-290 | A cast is `new(value, 0)`. It is normalised and keeps a finite value; ±∞ and NaN are tagged with exponent 0. |
| Surface.Widen | Caluminous/Caluminous.Number/Humongous.cs:297-300 | Widening normalises, is the identity on normalised numbers, and keeps a finite value. |
| Surface.WidenSpec | Caluminous/Caluminous.Number/Humongous.cs:297-300 | Widening copies a normalised `Huge` exactly, in range. Otherwise it renormalises, keeps the value, and recomputes the flags. |
| Surface.WidenAlignDigit | Caluminous/Caluminous.Number/Humongous.cs:297-300 | Widening the raw result of `AlignDigit` gives back the normalised number it came from. |
| Surface.Parse | Caluminous/Caluminous.Number/Huge.cs:599-615 | Every `Parse` overload throws `NotSupportedException`. |
| Surface.TryParse | Caluminous/Caluminous.Number/Huge.cs:742-753 | `TryParse(s, provider)` returns `(false, default)` exactly for a null string, and otherwise throws `NotSupportedException`. |
| Surface.TryParseWithStyle | Caluminous/Caluminous.Number/Huge.cs:626-643 | `TryParse(s, style, provider)` throws `NotSupportedException`, even for a null string. |
| Surface.TryFormat | Caluminous/Caluminous.Number/Huge.cs:664-668 | `TryFormat` throws `NotSupportedException`. |
| Surface.TryConvert | Caluminous/Caluminous.Number/Huge.cs:755-789 | Every `TryConvert...` member throws `NotImplementedException`. |
| Surface.StubsThrow | Caluminous/Caluminous.Number/Humongous.cs:610-800 | Every `Parse`/`TryParse`/`TryFormat` throws `NotSupportedException`, except `TryParse(null, provider)`, which returns false and the default. Every `TryConvert...` throws `NotImplementedException`. |
| Findings.IsFiniteIntendedSpec | Caluminous/Caluminous.Number/Huge.cs:412-415 | The corrected `IsFinite` holds exactly for a finite mantissa: neither infinite nor NaN. |
| Findings.IsFiniteCounterexample | Caluminous/Caluminous.Number/Huge.cs:412-415 | As written, `IsFinite(One)` is false and `IsFinite(∞)` is true; the corrected predicate says the opposite. |
| Findings.CompareByValue | Caluminous/Caluminous.Number/Huge.cs:342-365 | The corrected comparator returns −1, 0 or 1. |
| Findings.CompareByValueSpec | Caluminous/Caluminous.Number/Huge.cs:342-365 | On normalised finite numbers, the corrected comparator is exactly the order of values. |
| Findings.CompareByValueTransitive | Caluminous/Caluminous.Number/Huge.cs:342-365 | The corrected comparator is transitive. |
| Findings.CompareToCounterexample | Caluminous/Caluminous.Number/Huge.cs:360-364 | As written, −1E+005 > −1E+003 and −1E+005 > 1E+003; the corrected comparator puts it below both. |
| Findings.Trunc | Caluminous/Caluminous.Number/Huge.cs:850 | Truncation toward zero leaves a fraction in [0, 1) for q ≥ 0 and in (−1, 0] for q < 0. |
| Findings.RemainderIntended | Caluminous/Caluminous.Number/Huge.cs:844-851 | The corrected `%` returns a canonical number. |
| Findings.TruncatedRemainder | Caluminous/Caluminous.Number/Huge.cs:850 | `x − y·trunc(x/y)` is smaller in magnitude than `y`, and is zero or has `x`'s sign. |
| Findings.RemainderIntendedSpec | Caluminous/Caluminous.Number/Huge.cs:844-851 | For finite operands and a nonzero divisor, the corrected `%` has the truncated remainder as its value: below the divisor in magnitude, and zero or of the dividend's sign. |
| Findings.RemainderCounterexample | Caluminous/Caluminous.Number/Huge.cs:844-851 | As written `7 % 2` is 0; corrected it is 1. |

## Left out

- Binary floating point: the mantissa is an exact real. Each `*10`/`/10` step rounds nothing, `AlignDigit` never underflows or overflows, and the `F{n}` rounding is not modelled.
- The `F{n}` text of the mantissa is the `.NET` runtime's number formatting and is a parameter, `fixed`, of the `Format` functions. Culture reaches the mantissa only through `fixed`.
- The format provider is ignored by the source, so `ToStringFormat` has no provider parameter. The exponent text (`Exponent.ToString("000")`) is modelled for a culture whose negative sign is `-` and whose digits are ASCII.
- Exponent wrap-around: exponents are unbounded integers. Unchecked `long`/`Int128` overflow in `exponent++`/`--`, `e1 + e2`, `e1 − e2` and the `AlignDigit` difference is not modelled. `FitsHuge`/`FitsHumongous` only state the ranges. Nor is the `OverflowException` that `Math.Abs` throws in `AlignDigit` when the difference is `long.MinValue` (for example, aligning (1, `long.MinValue`) to 0).
- NaN and ±∞ inside arithmetic follow exact-real rules with IEEE special-value cases (∞·0 = NaN, x/∞ = 0 and the like). Signed zero is not modelled. The value lemmas are stated for finite operands.
- `Doubles.CompareTo` orders NaN below everything and equal to itself, as `double.CompareTo` does; nothing else about NaN ordering is modelled.
- `GetHashCode`, `CompareTo(object)`, `Equals(object)` and the `INumber` interface plumbing are left out. The typed `Equals` is `==`.
- The primitive casts are all `FromDouble`, `new(value, 0)` on a `double`. How `decimal`, `Int128`, `UInt128` and `Half` convert to `double` is not modelled.
- `ToStringFormat`: a null format is `None`. `int.Parse` of the first character is modelled as accepting the ASCII digits `0`-`9` only.
- `TryFormat` and the `Parse`/`TryParse`/`TryConvert...` stubs are modelled only by the exception they throw. Their out-parameters and the span overloads' arguments are left out.
- The test file is used only as a source of examples; its `double.MaxValue` cases depend on floating point and are left out.
- Format.ToString: its own contract states the error case only; what the text is, is stated by `Format.ToStringParts` and the examples.

## Findings

| source | as written | input that shows it | evidently intended | confidence | as-written member | corrected member |
|---|---|---|---|---|---|---|
| Caluminous/Caluminous.Number/Huge.cs:412-415 | `IsFinite` returns `isInfinity` | `IsFinite(One)` is false, and `IsFinite(+∞)` is true | true exactly when neither infinite nor NaN | not executed; read from the code | Classification.IsFiniteIsInverted, Findings.IsFiniteCounterexample | Findings.IsFiniteIntendedSpec |
| Caluminous/Caluminous.Number/Huge.cs:342-365 | with unequal exponents, the larger exponent compares greater whatever the signs | (−1, 5) vs (−1, 3), and (−1, 5) vs (1, 3): both compare greater | the order of values | not executed; read from the code | Comparison.CompareNegativeReversed, Comparison.CompareOppositeSigns, Findings.CompareToCounterexample | Findings.CompareByValueSpec, Findings.CompareByValueTransitive |
| Caluminous/Caluminous.Number/Huge.cs:844-851 | `left - right * (left / right)` with an untruncated quotient | 7 % 2 gives 0 | the truncated remainder, 1 | not executed; in `double` arithmetic the result is zero or a rounding residue | Arithmetic.RemainderCollapses, Findings.RemainderCounterexample | Findings.RemainderIntendedSpec |
