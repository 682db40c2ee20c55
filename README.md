# Imperial feet-and-inches conversion, modelled in Dafny

This project models `Imperial/Conversion.cs` of ImperialConversion, a small C#
library that converts in both directions between decimal feet and imperial
measurement text such as `3' 6 3/16"`.

- **Parsing** (`ToFeet`, `TryParseFeet`) normalises the text through a fixed
  chain of rewrites:
  - remove `~`, trim and lower-case;
  - feet spellings become `f`;
  - inch spellings become `i`;
  - add a missing feet part, or drop interior dashes.

  It then splits on `f` and `i`, dropping blank parts, and evaluates
  `feet + inches / 12`. The inches may be a decimal, a fraction `n/d` or
  `whole n/d`.
- **Formatting** (`ToFeetInches`) does the following:
  - splits the absolute value into whole feet, whole inches and a sub-inch
    remainder;
  - drops a remainder within the tolerance `0.0001 / d`;
  - otherwise rounds the remainder to a multiple of `1/d` inch, halves away
    from zero, and marks the result approximate when the rounding moved it by
    more than the tolerance;
  - reduces the fraction with Euclid's algorithm;
  - carries a whole inch into the inches and twelve inches into the feet;
  - renders a `FeetInchesInfo` with its `ToString`.

Modules, one file each:

- `Values`: exceptions, `Result`, `Option`, and a `Double` that is a finite
  real, an infinity or NaN, with IEEE addition and division over exact reals.
- `Strings`: the .NET string operations the code uses (`Replace`,
  `IndexOf`, `Split`, `Trim`, `ToLower`, `IsNullOrWhiteSpace`).
- `Numbers`: the number grammar of `double.TryParse` and `int.Parse`, the
  decimal rendering of `string.Format("{0}", n)`, and
  `Math.Round(x, MidpointRounding.AwayFromZero)`.
- `Parser`: the parsing half of `Conversion.cs`, as functions.
- `Formatter`: the formatting half.
  - `EuclideanGCD` is a method with a loop.
  - `FeetInchesInfo` is a class whose fields `ToFeetInches` updates step by step.
  - Its `ToString` builds the text by appends.
  - Each of these is proved against a function (`Gcd`, `Components`, `Render`) whose properties are proved as lemmas.
- `RoundTrip`: for a non-negative value, what `ToFeetInches` writes is read
  back by `ToFeet` as the value the text shows, within half a `1/d` inch. A
  value on the `1/d` grid is read back exactly.
- `Examples`: the cases in the repository's unit tests, and the two inputs on
  which `ToFeet` throws, stated as lemmas.

Where the documented intent and the code differ, the model follows the code:

- The parser is documented as never throwing. `ToFeet` does throw:
  - `IndexOutOfRangeException` when nothing but inch marks follows the feet marker (`3'"`);
  - `FormatException` or `OverflowException` from `int.Parse` on a malformed fraction (`1/x"`).

  The model returns these as `Failure` results.
- The sign of a feet-and-inches text is documented as applying to the whole
  value. The code adds the inches to the signed feet, so `-8' 9"` reads as
  -7.25 and not -8.75 (`Examples.SignOnFeetOnly`). This is also why the
  round trip is stated for non-negative values only.

## Model

| member | source | states |
|---|---|---|
| Values.Plus | Imperial/Conversion.cs:33 | IEEE addition on the exact model: finite sums are exact, NaN propagates, a finite plus an infinity is that infinity |
| Values.Quotient | Imperial/Conversion.cs:63 | IEEE division on the exact model: exact for a non-zero divisor; a zero divisor gives NaN for 0/0 and a signed infinity otherwise; NaN propagates |
| Numbers.ParseInt32 | Imperial/Conversion.cs:68-71 | int.Parse succeeds only with a value in the 32-bit range, and fails only with FormatException or OverflowException |
| Numbers.ParseInt32OfInt | Imperial/Conversion.cs:68-71 | int.Parse reads the decimal rendering of any 32-bit integer, after optional white space, back as that integer |
| Numbers.ParseDecimalOfInt | Imperial/Conversion.cs:122-126 | double.TryParse reads the decimal rendering of any integer, after optional white space, back as that integer |
| Numbers.NatToString | Imperial/Conversion.cs:222 | string.Format of a count gives a non-empty string of digits whose value is the count and with no leading zero |
| Numbers.RoundHalfAwayFromZero | Imperial/Conversion.cs:170 | the result is within 1/2 of x, and a tie goes away from zero |
| Parser.ToLowerAndTrimWhitespaces | Imperial/Conversion.cs:117-120 | the result is the text with every '~' deleted, then trimmed, then lower-cased; so it holds no '~' and no upper-case letter, and neither starts nor ends with white space |
| Parser.CanonicalIgnoresCase | Imperial/Conversion.cs:117-120 | lower-casing the input first changes nothing |
| Parser.CanonicalIgnoresPadding | Imperial/Conversion.cs:117-120 | white space added around the input changes nothing |
| Parser.CanonicalIdempotent | Imperial/Conversion.cs:117-120 | applying the step twice gives the same as applying it once |
| Parser.ReplaceFeetWithF | Imperial/Conversion.cs:106-115 | no ' or curly single quote survives the feet rewrites |
| Parser.FeetSpellingToF | Imperial/Conversion.cs:106-115 | each feet spelling (', feet, foot, ft and the two curly single quotes), between text holding none of the characters of those spellings, becomes the single marker "f" and nothing else changes |
| Parser.ReplaceInchesWithI | Imperial/Conversion.cs:95-104 | no " or curly double quote survives the inch rewrites, and an 'f' is present afterwards exactly when it was present before |
| Parser.InchSpellingToI | Imperial/Conversion.cs:95-104 | each inch spelling (inches, inch, in, " and the two curly double quotes), between text holding none of the characters of those spellings, becomes the single marker "i" and nothing else changes |
| Parser.RemoveMiddleDash | Imperial/Conversion.cs:86-93 | every '-' is deleted when the first one is not at index 0; otherwise the text is unchanged |
| Parser.AddMissingParts | Imperial/Conversion.cs:73-84 | the result always holds 'f'. Without an 'f' the text becomes "0f"+text when an 'i' follows index 0, and text+"f" otherwise. With an 'f' only dashes may be dropped |
| Parser.Normalized | Imperial/Conversion.cs:17-20 | after the whole rewrite chain the text always holds the feet marker |
| Parser.SplitIntoNonEmptyParts | Imperial/Conversion.cs:38-41 | every part is non-blank and free of the separator, and every non-blank piece of Split is kept |
| Parser.NonBlankAppend | Imperial/Conversion.cs:40 | the filter that drops blank parts distributes over concatenation |
| Parser.NonBlankSingle | Imperial/Conversion.cs:40 | a single part is kept exactly when it is not blank |
| Parser.SplitOfJoin | Imperial/Conversion.cs:38-41 | joining parts free of the separator and splitting again gives back exactly the non-blank parts, in order |
| Parser.ToDouble | Imperial/Conversion.cs:122-126 | never an infinity; NaN exactly when the text is not a decimal literal |
| Parser.ToInteger | Imperial/Conversion.cs:68-71 | fails only with FormatException or OverflowException |
| Parser.ToFraction | Imperial/Conversion.cs:58-66 | NaN unless splitting on '/' gives exactly two parts; failures come only from int.Parse |
| Parser.ToDoubleWithFractions | Imperial/Conversion.cs:43-56 | without a '/' the inches are the plain number; a failure needs a '/' and comes only from int.Parse |
| Parser.ReadParts | Imperial/Conversion.cs:22-35 | NaN for zero or more than two parts; the number for one part. IndexOutOfRange exactly when the second part has no inches part. Otherwise feet plus the first inches part over 12 |
| Parser.ToFeet | Imperial/Conversion.cs:15-36 | on the parts of the normalised text split at 'f': NaN for zero or more than two parts; the number for one part; IndexOutOfRange exactly when there are two parts and the second has no inches part; otherwise feet plus the first inches part over 12. It fails only with FormatException, OverflowException or IndexOutOfRangeException |
| Parser.ToFeetIgnoresCase | Imperial/Conversion.cs:15-20 | the text reads the same lower-cased |
| Parser.ToFeetIgnoresPadding | Imperial/Conversion.cs:15-20 | white space around the text makes no difference to what it reads as |
| Parser.TryParseFeet | Imperial/Conversion.cs:8-13 | fails exactly when ToFeet does, with the same exception; otherwise the out value is ToFeet's result and the flag is true exactly when it is not NaN |
| Formatter.EuclideanGCD | Imperial/Conversion.cs:128-137 | the loop returns Gcd(a, b). For a or b positive it is positive and divides both, and every common divisor divides it |
| Formatter.GcdDivides | Imperial/Conversion.cs:128-137 | Gcd(a, b) is positive and divides a and b when one of them is positive |
| Formatter.GcdGreatest | Imperial/Conversion.cs:128-137 | every common divisor of a and b divides Gcd(a, b) |
| Formatter.ReducedIsCoprime | Imperial/Conversion.cs:175-180 | dividing numerator and denominator by their gcd leaves them coprime |
| Formatter.FeetInchesInfo.constructor | Imperial/Conversion.cs:155-160 | the object initializer sets sign, feet and inches; numerator, denominator and the approximate flag keep their defaults |
| Formatter.FeetInchesInfo.ToString | Imperial/Conversion.cs:209-253 | the appends produce Render of the object's fields |
| Formatter.RenderRules | Imperial/Conversion.cs:209-253 | "~ " leads exactly when the flag is set. A '"' appears only as the last character, and it is there when there are inches or a fraction. All-zero components give exactly "0'" or "~ 0'", with no minus sign |
| Formatter.ToFeetInches | Imperial/Conversion.cs:144-198 | InvalidOperationException exactly when the denominator is below 1; otherwise the step-by-step filling and carrying of FeetInchesInfo yields Render(Components(value, d)) |
| Formatter.ToFeetInchesDefault | Imperial/Conversion.cs:139-142 | the one-argument overload is ToFeetInches with denominator 16 |
| Formatter.ComponentsInRange | Imperial/Conversion.cs:151-198 | after the carry, feet ≥ 0 and inches lie in 0..11. The sign is value < 0. A fraction satisfies 0 < n < d, is coprime, and its denominator divides the requested one |
| Formatter.ComponentsAccuracy | Imperial/Conversion.cs:162-174 | the shown amount is within 1/(24d) feet of abs(value), and the approximate flag is set exactly when the error exceeds the tolerance |
| Formatter.ComponentsExactOnGrid | Imperial/Conversion.cs:162-174 | a value that is a whole number of 1/d inches is shown exactly and without the approximate flag |
| RoundTrip.RenderIsLayout | Imperial/Conversion.cs:209-253 | a well-formed display renders as its lead (marker and spaces) followed by its figures with ' and " as unit marks |
| RoundTrip.NormalizedRendered | Imperial/Conversion.cs:17-20 | the parser's rewrite chain turns rendered text into "<feet>f" followed by the inches and fraction marked with 'i' |
| RoundTrip.ComponentsWellFormed | Imperial/Conversion.cs:151-198 | the components of a non-negative value, for a denominator in the int range, form a display the parser can read |
| RoundTrip.RenderedReadsBack | Imperial/Conversion.cs:15-36 | ToFeet reads any well-formed rendered display back as exactly the amount it shows |
| RoundTrip.FormattedReadsBack | Imperial/Conversion.cs:144-198 | ToFeet reads the text ToFeetInches writes for a non-negative value as a finite value within 1/(24d) feet of it |
| RoundTrip.GridValueReadsBack | Imperial/Conversion.cs:144-198 | a non-negative value on the 1/d-inch grid survives format-then-parse exactly |
| Examples.ApproximateZero | Imperial.Tests/ImperialToStringTests.cs:8-14 | -0.000001 at 16 renders "~ 0'" |
| Examples.ApproximateSixteenths | Imperial.Tests/ImperialToStringTests.cs:16-22 | -5.515626 at 16 renders "~ -5' 6 3/16\"" |
| Examples.ApproximateSixtyFourths | Imperial.Tests/ImperialToStringTests.cs:24-30 | 3.52 at 64 renders "~ 3' 6 15/64\"" |
| Examples.ApproximateOneTwentyEighths | Imperial.Tests/ImperialToStringTests.cs:32-38 | 3.52 at 128 renders "~ 3' 6 31/128\"" |
| Examples.Thousandths | Imperial.Tests/ImperialToStringTests.cs:40-46 | 3.52 at 1000 renders "3' 6 6/25\"" |
| Examples.WholeInches | Imperial.Tests/ImperialToStringTests.cs:48-54 | 3.5 renders "3' 6\"" |
| Examples.WithinEpsilonOfFeet | Imperial.Tests/ImperialToStringTests.cs:56-62 | 3.9999999 renders "4'" |
| Examples.Sixteenths | Imperial.Tests/ImperialToStringTests.cs:64-70 | 3.515625 renders "3' 6 3/16\"" |
| Examples.SixtyFourths | Imperial.Tests/ImperialToStringTests.cs:72-78 | 101.51953125 at 64 renders "101' 6 15/64\"" |
| Examples.ReducedQuarter | Imperial.Tests/ImperialToStringTests.cs:80-86 | 3.52083 renders "~ 3' 6 1/4\"" |
| Examples.RoundUpToInch | Imperial.Tests/ImperialToStringTests.cs:88-94 | -3.5832 renders "~ -3' 7\"" |
| Examples.RoundUpToFoot | Imperial.Tests/ImperialToStringTests.cs:96-102 | -3.99999 renders "~ -4'" |
| Examples.NegativeFeetAndInches | Imperial.Tests/ImperialToStringTests.cs:104-110 | -8.75 renders "-8' 9\"" |
| Examples.NegativeWholeFeet | Imperial.Tests/ImperialToStringTests.cs:112-118 | -12.0 renders "-12'" |
| Examples.WholeFeet | Imperial.Tests/ImperialToStringTests.cs:120-126 | 3.0 renders "3'" |
| Examples.NearZero | Imperial.Tests/ImperialToStringTests.cs:128-134 | 0.00000001 renders "0'" |
| Examples.DecimalInches | Imperial.Tests/ImperialParsingTests.cs:8-13 | "3' 1.5\"" reads as 3.125 |
| Examples.FractionalInches | Imperial.Tests/ImperialParsingTests.cs:15-20 | "3' 3/8\"" reads as 3.03125 |
| Examples.ImperfectFractionalInches | Imperial.Tests/ImperialParsingTests.cs:22-27 | "75' 2 3/4\"" reads as 75 + 2.75/12 |
| Examples.InchesWithoutFeet | Imperial.Tests/ImperialParsingTests.cs:29-35 | "3in" reads as 0.25 |
| Examples.NegativeFeet | Imperial.Tests/ImperialParsingTests.cs:37-43 | "-8ft" reads as -8 |
| Examples.NegativeInches | Imperial.Tests/ImperialParsingTests.cs:45-51 | "-6 inches" reads as -0.5 |
| Examples.WholeAndFractionalInches | Imperial.Tests/ImperialParsingTests.cs:53-58 | "3' 1 1/2\"" reads as 3.125 |
| Examples.DoubleQuoteAsInches | Imperial.Tests/ImperialParsingTests.cs:60-65 | "6\"" reads as 0.5 |
| Examples.DecimalFeet | Imperial.Tests/ImperialParsingTests.cs:67-73 | "6.5ft" reads as 6.5 |
| Examples.InvalidInput | Imperial.Tests/ImperialParsingTests.cs:75-81 | "6.52e" reads as NaN |
| Examples.TryParseInvalidInput | Imperial.Tests/ImperialParsingTests.cs:83-91 | TryParseFeet("6.52e") gives (false, NaN) |
| Examples.SixFeetFraction | Imperial.Tests/ImperialParsingTests.cs:93-101 | "6' 3/8\"" reads as 6.03125 |
| Examples.TryParseFraction | Imperial.Tests/ImperialParsingTests.cs:93-101 | TryParseFeet("6' 3/8\"") gives (true, 6.03125) |
| Examples.SingleAndDoubleQuotes | Imperial.Tests/ImperialParsingTests.cs:103-109 | "6' 3\"" reads as 6.25 |
| Examples.NoUnitsAsFeet | Imperial.Tests/ImperialParsingTests.cs:111-116 | "5.5" reads as 5.5 feet |
| Examples.MiddleDash | Imperial.Tests/ImperialParsingTests.cs:118-123 | "6'-6" reads as 6.5 |
| Examples.SignOnFeetOnly | Imperial/Conversion.cs:26-33 | "-8' 9\"" reads as -7.25, although -8.75 is written as "-8' 9\"" |
| Examples.InchMarkWithoutInches | Imperial/Conversion.cs:31-32 | "3'\"" throws IndexOutOfRangeException |
| Examples.MalformedDenominator | Imperial/Conversion.cs:63-70 | "1/x\"" throws FormatException from int.Parse |
| Examples.NormalizedFeetSpelling | Imperial/Conversion.cs:17-20 | plain figures followed by any feet spelling normalise to the figures and "f" |
| Examples.NormalizedInchSpelling | Imperial/Conversion.cs:17-20 | plain figures followed by any inch spelling normalise to "0f", the figures and "i" |
| Examples.FeetSpellingRead | Imperial/Conversion.cs:15-36 | a whole number, with or without a space, followed by any feet spelling reads as that many feet |
| Examples.InchSpelledRead | Imperial/Conversion.cs:15-36 | digits, possibly with spaces, that read as x, followed by any inch spelling read as x/12 feet |
| Examples.InchSpellingRead | Imperial/Conversion.cs:15-36 | a whole number, with or without a space, followed by any inch spelling reads as a twelfth of it |
| Examples.SixFt | Imperial/Conversion.cs:15-36 | "6ft" reads as 6 |
| Examples.SixFtUpperCase | Imperial/Conversion.cs:117-120 | "6FT" reads as 6 |
| Examples.PaddedSixFt | Imperial/Conversion.cs:117-120 | " 6ft\t" reads as 6 |
| Examples.SixSpaceFt | Imperial/Conversion.cs:106-115 | "6 ft" reads as 6 |
| Examples.SixFeetWord | Imperial/Conversion.cs:106-115 | "6 feet" reads as 6 |
| Examples.SixFootWord | Imperial/Conversion.cs:106-115 | "6 foot" reads as 6 |
| Examples.SixCurlyQuote | Imperial/Conversion.cs:106-115 | "6’" (right single quotation mark) reads as 6 |
| Examples.SixInch | Imperial/Conversion.cs:95-104 | "6 inch" reads as 0.5 |
| Examples.SixCurlyDoubleQuote | Imperial/Conversion.cs:95-104 | "6”" (right double quotation mark) reads as 0.5 |

## Left out

- Binary floating point. Doubles are exact reals, so representation error and
  rounding of `+`, `/`, `*` and `Math.Floor` are not modelled. The results agree
  with the code's only where the double arithmetic is exact. The tolerance
  comparisons are compared as reals.
- Signed zero: `Double` has a single zero, so `-0.0` and `+0.0` are not told apart.
- `double.TryParse` and `int.Parse` accept only a plain decimal grammar:
  - white space U+0009-U+000D and U+0020 around the literal;
  - an optional sign, then digits with at most one decimal point.

  Exponents, thousands separators, currency symbols, culture settings, the
  words "Infinity"/"NaN" and other Unicode white space are not modelled.
- `ToLower` changes only the ASCII letters A-Z; culture-aware case mapping of
  other letters is not modelled.
- Null strings are not modelled; every input is a string.
- Formatter.ToFeetInches: the `(int)` casts of `Math.Floor(positiveValue)` and
  of the rounded numerator are not modelled. A magnitude beyond the 32-bit range
  would wrap or saturate in the code; the model keeps the exact integer.
- Formatter.ToFeetInches: NaN and infinite inputs are not modelled; the value is a real.
- RoundTrip.FormattedReadsBack: stated for non-negative values and a
  denominator at most 2^31-1 only. A negative value does not read back,
  because the parser adds the inches to the signed feet
  (`Examples.SignOnFeetOnly`). The denominator is an `int` in the code, so
  2^31-1 is its largest value; the model's denominator is an unbounded
  integer, and the bound restores the range of the code's parameter.
- Formatter.EuclideanGCD: stated for non-negative arguments. Its only caller
  passes a rounded non-negative numerator and a positive denominator, and
  C#'s `%` on negative operands is not modelled.
- `Imperial.Console/Program.cs`, the console read-and-print loop, is I/O and is
  not part of this model.
