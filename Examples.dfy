/**
 * The cases the repository's unit tests check, stated as lemmas about the model:
 * the text ToString writes for given values and denominators, and the values
 * ToFeet and TryParseFeet read from given texts.
 */
module Examples {
  import opened Values
  import opened Strings
  import opened Numbers
  import opened Parser
  import opened Formatter
  import opened RoundTrip

  // ---------------------------------------------------------------------------
  // Formatting cases
  // ---------------------------------------------------------------------------

  lemma Numerals()
    ensures IntToString(0) == "0" && IntToString(1) == "1" && IntToString(3) == "3" && IntToString(4) == "4"
    ensures IntToString(5) == "5" && IntToString(6) == "6" && IntToString(7) == "7" && IntToString(8) == "8"
    ensures IntToString(9) == "9" && IntToString(2) == "2"
  {
  }

  lemma TwoDigits()
    ensures IntToString(12) == "12" && IntToString(15) == "15" && IntToString(16) == "16" && IntToString(25) == "25"
    ensures IntToString(31) == "31" && IntToString(64) == "64" && IntToString(75) == "75"
  {
    assert NatToString(12) == NatToString(1) + "2";
    assert NatToString(15) == NatToString(1) + "5";
    assert NatToString(16) == NatToString(1) + "6";
    assert NatToString(25) == NatToString(2) + "5";
    assert NatToString(31) == NatToString(3) + "1";
    assert NatToString(64) == NatToString(6) + "4";
    assert NatToString(75) == NatToString(7) + "5";
  }

  lemma ThreeDigits()
    ensures IntToString(101) == "101" && IntToString(128) == "128"
  {
    assert NatToString(10) == NatToString(1) + "0";
    assert NatToString(101) == NatToString(10) + "1";
    assert NatToString(12) == NatToString(1) + "2";
    assert NatToString(128) == NatToString(12) + "8";
  }

  /** The components when the sub-inch remainder is shown as a fraction, given each intermediate value. */
  lemma FractionComponents(value: real, d: int, feet: int, inches: int, remainder: real, rounded: int, g: int, approximate: bool)
    requires d >= 1
    requires Abs(value).Floor == feet
    requires (12.0 * (Abs(value) - feet as real)).Floor == inches
    requires remainder == 12.0 * (Abs(value) - feet as real) - inches as real
    requires remainder > Epsilon(d)
    requires RoundHalfAwayFromZero(remainder * d as real) == rounded
    requires Gcd(rounded, d) == g
    requires approximate == (Abs(rounded as real / d as real - remainder) > Epsilon(d))
    ensures Components(value, d) ==
      Carried(feet, inches, if g > 1 then rounded / g else rounded, if g > 1 then d / g else d, value < 0.0, approximate)
  {
    assert Components(value, d) == WithFraction(feet, inches, remainder, d, value < 0.0);
    WithFractionIs(feet, inches, remainder, d, value < 0.0, g,
      if g > 1 then rounded / g else rounded, if g > 1 then d / g else d);
  }

  /** The components when the sub-inch remainder is within the tolerance, given each intermediate value. */
  lemma WholeComponents(value: real, d: int, feet: int, inches: int, remainder: real)
    requires d >= 1
    requires Abs(value).Floor == feet
    requires (12.0 * (Abs(value) - feet as real)).Floor == inches
    requires remainder == 12.0 * (Abs(value) - feet as real) - inches as real
    requires !(remainder > Epsilon(d))
    ensures Components(value, d) == Display(feet, inches, 0, 0, value < 0.0, false)
  {
  }

  lemma ApproximateZeroComponents()
    ensures Components(-0.000001, 16) == Display(0, 0, 0, 1, true, true)
  {
    assert Abs(-0.000001) == 0.000001;
    assert (0.000001).Floor == 0;
    assert (12.0 * 0.000001).Floor == 0;
    assert RoundHalfAwayFromZero(0.000012 * 16.0) == 0;
    assert Gcd(0, 16) == 16 by {
      assert Gcd(0, 16) == 16;
    }
    FractionComponents(-0.000001, 16, 0, 0, 0.000012, 0, 16, true);
  }

  /** A tiny negative value rounds to no fraction at all: "0'" with the approximate marker and no sign. */
  lemma ApproximateZero()
    ensures FeetInchesText(-0.000001, 16) == "~ 0'"
  {
    ApproximateZeroComponents();
  }

  lemma ApproximateSixteenthsComponents()
    ensures Components(-5.515626, 16) == Display(5, 6, 3, 16, true, true)
  {
    assert Abs(-5.515626) == 5.515626;
    assert (5.515626).Floor == 5;
    assert (12.0 * (5.515626 - 5.0)).Floor == 6;
    assert RoundHalfAwayFromZero(0.187512 * 16.0) == 3;
    assert Gcd(3, 16) == 1 by {
      assert Gcd(3, 16) == Gcd(16, 3) == Gcd(3, 1) == Gcd(1, 0);
    }
    FractionComponents(-5.515626, 16, 5, 6, 0.187512, 3, 1, true);
  }

  /** A negative value just off a sixteenth: marker, sign, feet, inches and the nearest sixteenth. */
  lemma ApproximateSixteenths()
    ensures FeetInchesText(-5.515626, 16) == "~ -5' 6 3/16\""
  {
    ApproximateSixteenthsComponents();
    Numerals();
    TwoDigits();
  }

  lemma ApproximateSixtyFourthsComponents()
    ensures Components(3.52, 64) == Display(3, 6, 15, 64, false, true)
  {
    assert Abs(3.52) == 3.52;
    assert (3.52).Floor == 3;
    assert (12.0 * (3.52 - 3.0)).Floor == 6;
    assert RoundHalfAwayFromZero(0.24 * 64.0) == 15;
    assert Gcd(15, 64) == 1 by {
      assert Gcd(15, 64) == Gcd(64, 15) == Gcd(15, 4) == Gcd(4, 3) == Gcd(3, 1) == Gcd(1, 0);
    }
    FractionComponents(3.52, 64, 3, 6, 0.24, 15, 1, true);
  }

  /** 3.52 feet to the nearest 1/64 inch is approximate. */
  lemma ApproximateSixtyFourths()
    ensures FeetInchesText(3.52, 64) == "~ 3' 6 15/64\""
  {
    ApproximateSixtyFourthsComponents();
    Numerals();
    TwoDigits();
  }

  lemma ApproximateOneTwentyEighthsComponents()
    ensures Components(3.52, 128) == Display(3, 6, 31, 128, false, true)
  {
    assert Abs(3.52) == 3.52;
    assert (3.52).Floor == 3;
    assert (12.0 * (3.52 - 3.0)).Floor == 6;
    assert RoundHalfAwayFromZero(0.24 * 128.0) == 31;
    assert Gcd(31, 128) == 1 by {
      assert Gcd(31, 128) == Gcd(128, 31) == Gcd(31, 4) == Gcd(4, 3) == Gcd(3, 1) == Gcd(1, 0);
    }
    FractionComponents(3.52, 128, 3, 6, 0.24, 31, 1, true);
  }

  /** 3.52 feet to the nearest 1/128 inch is approximate. */
  lemma ApproximateOneTwentyEighths()
    ensures FeetInchesText(3.52, 128) == "~ 3' 6 31/128\""
  {
    ApproximateOneTwentyEighthsComponents();
    Numerals();
    TwoDigits();
    ThreeDigits();
  }

  lemma ThousandthsComponents()
    ensures Components(3.52, 1000) == Display(3, 6, 6, 25, false, false)
  {
    assert Abs(3.52) == 3.52;
    assert (3.52).Floor == 3;
    assert (12.0 * (3.52 - 3.0)).Floor == 6;
    assert RoundHalfAwayFromZero(0.24 * 1000.0) == 240;
    assert Gcd(240, 1000) == 40 by {
      assert Gcd(240, 1000) == Gcd(1000, 240) == Gcd(240, 40) == Gcd(40, 0);
    }
    FractionComponents(3.52, 1000, 3, 6, 0.24, 240, 40, false);
  }

  /** 3.52 feet is exactly 6 240/1000 inches over the feet, shown reduced as 6/25. */
  lemma Thousandths()
    ensures FeetInchesText(3.52, 1000) == "3' 6 6/25\""
  {
    ThousandthsComponents();
    Numerals();
    TwoDigits();
  }

  lemma WholeInchesComponents()
    ensures Components(3.5, 16) == Display(3, 6, 0, 0, false, false)
  {
    assert Abs(3.5) == 3.5;
    assert (3.5).Floor == 3;
    assert (12.0 * (3.5 - 3.0)).Floor == 6;
    WholeComponents(3.5, 16, 3, 6, 0.0);
  }

  /** No sub-inch remainder: the inches carry the inch mark. */
  lemma WholeInches()
    ensures FeetInchesText(3.5, 16) == "3' 6\""
  {
    WholeInchesComponents();
    Numerals();
  }

  lemma WithinEpsilonOfFeetComponents()
    ensures Components(3.9999999, 16) == Display(4, 0, 0, 1, false, false)
  {
    assert Abs(3.9999999) == 3.9999999;
    assert (3.9999999).Floor == 3;
    assert (12.0 * (3.9999999 - 3.0)).Floor == 11;
    assert RoundHalfAwayFromZero(0.9999988 * 16.0) == 16;
    assert Gcd(16, 16) == 16 by {
      assert Gcd(16, 16) == Gcd(16, 0);
    }
    FractionComponents(3.9999999, 16, 3, 11, 0.9999988, 16, 16, false);
  }

  /** A remainder that rounds to a whole inch is carried into the inches, and twelve inches into the feet; the rounding error is below the tolerance, so there is no marker. */
  lemma WithinEpsilonOfFeet()
    ensures FeetInchesText(3.9999999, 16) == "4'"
  {
    WithinEpsilonOfFeetComponents();
    Numerals();
  }

  lemma SixteenthsComponents()
    ensures Components(3.515625, 16) == Display(3, 6, 3, 16, false, false)
  {
    assert Abs(3.515625) == 3.515625;
    assert (3.515625).Floor == 3;
    assert (12.0 * (3.515625 - 3.0)).Floor == 6;
    assert RoundHalfAwayFromZero(0.1875 * 16.0) == 3;
    assert Gcd(3, 16) == 1 by {
      assert Gcd(3, 16) == Gcd(16, 3) == Gcd(3, 1) == Gcd(1, 0);
    }
    FractionComponents(3.515625, 16, 3, 6, 0.1875, 3, 1, false);
  }

  /** An exact number of sixteenths is shown without the marker. */
  lemma Sixteenths()
    ensures FeetInchesText(3.515625, 16) == "3' 6 3/16\""
  {
    SixteenthsComponents();
    Numerals();
    TwoDigits();
  }

  lemma SixtyFourthsComponents()
    ensures Components(101.51953125, 64) == Display(101, 6, 15, 64, false, false)
  {
    assert Abs(101.51953125) == 101.51953125;
    assert (101.51953125).Floor == 101;
    assert (12.0 * (101.51953125 - 101.0)).Floor == 6;
    assert RoundHalfAwayFromZero(0.234375 * 64.0) == 15;
    assert Gcd(15, 64) == 1 by {
      assert Gcd(15, 64) == Gcd(64, 15) == Gcd(15, 4) == Gcd(4, 3) == Gcd(3, 1) == Gcd(1, 0);
    }
    FractionComponents(101.51953125, 64, 101, 6, 0.234375, 15, 1, false);
  }

  /** An exact number of sixty-fourths, with three-digit feet. */
  lemma SixtyFourths()
    ensures FeetInchesText(101.51953125, 64) == "101' 6 15/64\""
  {
    SixtyFourthsComponents();
    Numerals();
    TwoDigits();
    ThreeDigits();
  }

  lemma ReducedQuarterComponents()
    ensures Components(3.52083, 16) == Display(3, 6, 1, 4, false, true)
  {
    assert Abs(3.52083) == 3.52083;
    assert (3.52083).Floor == 3;
    assert (12.0 * (3.52083 - 3.0)).Floor == 6;
    assert RoundHalfAwayFromZero(0.24996 * 16.0) == 4;
    assert Gcd(4, 16) == 4 by {
      assert Gcd(4, 16) == Gcd(16, 4) == Gcd(4, 0);
    }
    FractionComponents(3.52083, 16, 3, 6, 0.24996, 4, 4, true);
  }

  /** Four sixteenths are reduced to a quarter. */
  lemma ReducedQuarter()
    ensures FeetInchesText(3.52083, 16) == "~ 3' 6 1/4\""
  {
    ReducedQuarterComponents();
    Numerals();
  }

  lemma RoundUpToInchComponents()
    ensures Components(-3.5832, 16) == Display(3, 7, 0, 1, true, true)
  {
    assert Abs(-3.5832) == 3.5832;
    assert (3.5832).Floor == 3;
    assert (12.0 * (3.5832 - 3.0)).Floor == 6;
    assert RoundHalfAwayFromZero(0.9984 * 16.0) == 16;
    assert Gcd(16, 16) == 16 by {
      assert Gcd(16, 16) == Gcd(16, 0);
    }
    FractionComponents(-3.5832, 16, 3, 6, 0.9984, 16, 16, true);
  }

  /** A remainder that rounds up to a whole inch is carried into the inches. */
  lemma RoundUpToInch()
    ensures FeetInchesText(-3.5832, 16) == "~ -3' 7\""
  {
    RoundUpToInchComponents();
    Numerals();
  }

  lemma RoundUpToFootComponents()
    ensures Components(-3.99999, 16) == Display(4, 0, 0, 1, true, true)
  {
    assert Abs(-3.99999) == 3.99999;
    assert (3.99999).Floor == 3;
    assert (12.0 * (3.99999 - 3.0)).Floor == 11;
    assert RoundHalfAwayFromZero(0.99988 * 16.0) == 16;
    assert Gcd(16, 16) == 16 by {
      assert Gcd(16, 16) == Gcd(16, 0);
    }
    FractionComponents(-3.99999, 16, 3, 11, 0.99988, 16, 16, true);
  }

  /** Inches that reach twelve are carried into the feet. */
  lemma RoundUpToFoot()
    ensures FeetInchesText(-3.99999, 16) == "~ -4'"
  {
    RoundUpToFootComponents();
    Numerals();
  }

  lemma NegativeFeetAndInchesComponents()
    ensures Components(-8.75, 16) == Display(8, 9, 0, 0, true, false)
  {
    assert Abs(-8.75) == 8.75;
    assert (8.75).Floor == 8;
    assert (12.0 * (8.75 - 8.0)).Floor == 9;
    WholeComponents(-8.75, 16, 8, 9, 0.0);
  }

  /** A negative value with whole inches. */
  lemma NegativeFeetAndInches()
    ensures FeetInchesText(-8.75, 16) == "-8' 9\""
  {
    NegativeFeetAndInchesComponents();
    Numerals();
  }

  lemma NegativeWholeFeetComponents()
    ensures Components(-12.0, 16) == Display(12, 0, 0, 0, true, false)
  {
    assert Abs(-12.0) == 12.0;
    assert (12.0).Floor == 12;
    assert (12.0 * (12.0 - 12.0)).Floor == 0;
    WholeComponents(-12.0, 16, 12, 0, 0.0);
  }

  /** A negative whole number of feet. */
  lemma NegativeWholeFeet()
    ensures FeetInchesText(-12.0, 16) == "-12'"
  {
    NegativeWholeFeetComponents();
    TwoDigits();
  }

  lemma WholeFeetComponents()
    ensures Components(3.0, 16) == Display(3, 0, 0, 0, false, false)
  {
    assert Abs(3.0) == 3.0;
    assert (3.0).Floor == 3;
    assert (12.0 * (3.0 - 3.0)).Floor == 0;
    WholeComponents(3.0, 16, 3, 0, 0.0);
  }

  /** A whole number of feet shows no inches. */
  lemma WholeFeet()
    ensures FeetInchesText(3.0, 16) == "3'"
  {
    WholeFeetComponents();
    Numerals();
  }

  lemma NearZeroComponents()
    ensures Components(0.00000001, 16) == Display(0, 0, 0, 0, false, false)
  {
    assert Abs(0.00000001) == 0.00000001;
    assert (0.00000001).Floor == 0;
    assert (12.0 * 0.00000001).Floor == 0;
    WholeComponents(0.00000001, 16, 0, 0, 0.00000012);
  }

  /** A remainder below the tolerance is dropped. */
  lemma NearZero()
    ensures FeetInchesText(0.00000001, 16) == "0'"
  {
    NearZeroComponents();
  }

  // ---------------------------------------------------------------------------
  // Generic steps of the normalisation chain
  // ---------------------------------------------------------------------------

  /** Text that is already trimmed, lower-case and free of '~' is left alone by the first step. */
  lemma CanonicalText(s: string)
    requires s != [] && '~' !in s && !IsWhiteSpace(s[0]) && !IsWhiteSpace(s[|s| - 1])
    requires forall k :: 0 <= k < |s| ==> !IsUpper(s[k])
    ensures ToLowerAndTrimWhitespaces(s) == s
  {
    ReplaceAbsent(s, "~", "", 0);
    TrimStartKeeps(s, IsWhiteSpace);
    TrimEndKeeps(s, IsWhiteSpace);
    ToLowerKeeps(s);
  }



  lemma NormalizedSteps(s: string, a: string, b: string, c: string, r: string)
    requires ToLowerAndTrimWhitespaces(s) == a && ReplaceFeetWithF(a) == b
    requires ReplaceInchesWithI(b) == c && AddMissingParts(c) == r
    ensures Normalized(s) == r
  {
  }

  /** Text without a feet spelling is left alone by the feet step. */
  lemma NoFeetUnits(s: string)
    requires '\'' !in s && 'f' !in s && '\U{2018}' !in s && '\U{2019}' !in s
    ensures ReplaceFeetWithF(s) == s
  {
    ReplaceAbsent(s, "'", "f", 0);
    ReplaceAbsent(s, "feet", "f", 0);
    ReplaceAbsent(s, "foot", "f", 0);
    ReplaceAbsent(s, "ft", "f", 0);
    ReplaceAbsent(s, "\U{2018}", "f", 0);
    ReplaceAbsent(s, "\U{2019}", "f", 0);
    FeetChain(s, s, s, s, s, s, s);
  }

  /** Text without an inch spelling is left alone by the inch step. */
  lemma NoInchUnits(s: string)
    requires 'n' !in s && '"' !in s && '\U{201C}' !in s && '\U{201D}' !in s
    ensures ReplaceInchesWithI(s) == s
  {
    ReplaceAbsent(s, "inches", "i", 1);
    ReplaceAbsent(s, "inch", "i", 1);
    ReplaceAbsent(s, "in", "i", 1);
    ReplaceAbsent(s, "\"", "i", 0);
    ReplaceAbsent(s, "\U{201C}", "i", 0);
    ReplaceAbsent(s, "\U{201D}", "i", 0);
    InchChain(s, s, s, s, s, s, s);
  }

  /** Only the ' mark spells feet: the later feet spellings find nothing. */
  lemma AfterFeetMark(t: string)
    requires 'e' !in t && 'o' !in t && 't' !in t && '\U{2018}' !in t && '\U{2019}' !in t
    ensures Replace(t, "feet", "f") == t && Replace(t, "foot", "f") == t && Replace(t, "ft", "f") == t
    ensures Replace(t, "\U{2018}", "f") == t && Replace(t, "\U{2019}", "f") == t
  {
    ReplaceAbsent(t, "feet", "f", 1);
    ReplaceAbsent(t, "foot", "f", 1);
    ReplaceAbsent(t, "ft", "f", 1);
    ReplaceAbsent(t, "\U{2018}", "f", 0);
    ReplaceAbsent(t, "\U{2019}", "f", 0);
  }

  /** Only the " mark spells inches: the spelled-out inches find nothing. */
  lemma BeforeInchMark(s: string)
    requires 'n' !in s
    ensures Replace(s, "inches", "i") == s && Replace(s, "inch", "i") == s && Replace(s, "in", "i") == s
  {
    ReplaceAbsent(s, "inches", "i", 1);
    ReplaceAbsent(s, "inch", "i", 1);
    ReplaceAbsent(s, "in", "i", 1);
  }

  lemma NoCurlyInchMarks(t: string)
    requires '\U{201C}' !in t && '\U{201D}' !in t
    ensures Replace(t, "\U{201C}", "i") == t && Replace(t, "\U{201D}", "i") == t
  {
    ReplaceAbsent(t, "\U{201C}", "i", 0);
    ReplaceAbsent(t, "\U{201D}", "i", 0);
  }

  /** Text whose only unit is a ' after the feet: the ' becomes 'f'. */
  lemma OnlyFeetMark(a: string, b: string)
    requires '\'' !in a && '\'' !in b
    requires 'e' !in a + "f" + b && 'o' !in a + "f" + b && 't' !in a + "f" + b
    requires '\U{2018}' !in a + "f" + b && '\U{2019}' !in a + "f" + b
    ensures ReplaceFeetWithF(a + "'" + b) == a + "f" + b
  {
    var t := a + "f" + b;
    ReplaceWord(a, "'", b, "f", 0);
    AfterFeetMark(t);
    FeetChain(a + "'" + b, t, t, t, t, t, t);
  }

  /** Text whose only unit is a closing '"': the '"' becomes 'i'. */
  lemma OnlyInchMark(a: string)
    requires 'n' !in a && '"' !in a && '\U{201C}' !in a && '\U{201D}' !in a
    ensures ReplaceInchesWithI(a + "\"") == a + "i"
  {
    var s, t := a + "\"", a + "i";
    assert 'n' !in s;
    BeforeInchMark(s);
    ReplaceWord(a, "\"", "", "i", 0);
    assert a + "\"" + "" == s && a + "i" + "" == t;
    assert '\U{201C}' !in t && '\U{201D}' !in t;
    NoCurlyInchMarks(t);
    InchChain(s, s, s, s, t, t, t);
  }

  // ---------------------------------------------------------------------------
  // Generic readings of numbers
  // ---------------------------------------------------------------------------

  /** double.TryParse of a literal without surrounding white space. */
  lemma DecimalOfLiteral(t: string, x: real)
    requires StripNumberWhite(t) == t && ParseLiteral(t) == Some(x)
    ensures ToDouble(t) == Finite(x)
  {
  }

  /** A one-digit whole part, a point and a one-digit fraction has no white space to strip. */
  lemma TenthsStripped(t: string, w: char, f: char)
    requires t == [w, '.', f] && IsDigit(w) && IsDigit(f)
    ensures StripNumberWhite(t) == t
  {
    TrimStartKeeps(t, IsNumberWhite);
    TrimEndKeeps(t, IsNumberWhite);
  }

  /** A one-digit whole part, a point and a one-digit fraction reads as w + f / 10. */
  lemma TenthsParsed(t: string, w: char, f: char)
    requires t == [w, '.', f] && IsDigit(w) && IsDigit(f)
    ensures ParseLiteral(t) == Some(DigitValue(w) as real + DigitValue(f) as real / 10.0)
  {
    assert SplitSign(t) == (false, t);
    IndexOfIs(t, '.', 1);
    assert t[..1] == [w] && t[2..] == [f];
    assert DigitsValue([w]) == DigitValue(w) by {
      assert [w][..0] == [];
    }
    assert FractionValue([f]) == DigitValue(f) as real / 10.0 by {
      assert [f][1..] == [];
    }
  }

  /** A feet marker with no dash anywhere leaves the text as it is. */
  lemma FeetMarkKept(s: string, i: nat)
    requires i < |s| && s[i] == 'f' && 'f' !in s[..i] && '-' !in s
    ensures AddMissingParts(s) == s
  {
    IndexOfIs(s, 'f', i);
  }

  /** A whole number: its figures hold no marker, are not blank and read back as the number. */
  lemma WholeNumber(w: string, n: int)
    requires w == IntToString(n)
    ensures 'f' !in w && 'i' !in w && !IsNullOrWhiteSpace(w)
    ensures ToDouble(w) == Finite(n as real)
  {
    NumberValue(w, n);
    NumberFigures(w, n);
  }

  lemma NumberValue(w: string, n: int)
    requires w == IntToString(n)
    ensures ToDouble(w) == Finite(n as real)
  {
    ParseDecimalOfInt("", n);
    assert "" + w == w;
  }

  lemma NumberFigures(w: string, n: int)
    requires w == IntToString(n)
    ensures 'f' !in w && 'i' !in w && !IsNullOrWhiteSpace(w)
  {
    if n < 0 {
      var t := IntToString(-n);
      CountDigits(-n);
      assert w == "-" + t;
      assert w[1] == t[0];
      NotBlank(w, 1);
    } else {
      CountDigits(n);
      NotBlank(w, 0);
    }
  }

  /** A whole number of inches, after optional padding. */
  lemma WholeInchesRead(w: string, sp: string, n: int)
    requires Pad(sp) && n >= 0 && w == sp + IntToString(n)
    ensures 'f' !in w && 'i' !in w && !IsNullOrWhiteSpace(w)
    ensures ToDoubleWithFractions(w) == Success(Finite(n as real))
  {
    PaddedCount(sp, n);
    WholeRead(sp, n);
  }

  lemma SixPointFive()
    ensures ToDouble("6.5") == Finite(6.5)
  {
    TenthsStripped("6.5", '6', '5');
    TenthsParsed("6.5", '6', '5');
    DecimalOfLiteral("6.5", 6.5);
  }

  lemma NegativeNumerals()
    ensures IntToString(-8) == "-8" && IntToString(-6) == "-6"
  {
  }

  lemma TenthValues()
    ensures DigitsValue("1") == 1 && DigitsValue("5") == 5 && DigitsValue("6") == 6
    ensures FractionValue("5") == 0.5
    ensures AllDigits("1") && AllDigits("5") && AllDigits("6")
  {
    assert "5"[1..] == [];
  }

  // ---------------------------------------------------------------------------
  // Parsing cases read back through the formatter's round trip
  // ---------------------------------------------------------------------------

  lemma ThreeFeetEighthsText()
    ensures Render(Display(3, 0, 3, 8, false, false)) == "3' 3/8\""
  {
    var c := Display(3, 0, 3, 8, false, false);
    Numerals();
    assert AfterFeet(c) == "3'";
    assert AfterInches(c) == "3'";
  }

  lemma SixFeetEighthsText()
    ensures Render(Display(6, 0, 3, 8, false, false)) == "6' 3/8\""
  {
    var c := Display(6, 0, 3, 8, false, false);
    Numerals();
    assert AfterFeet(c) == "6'";
    assert AfterInches(c) == "6'";
  }

  lemma FractionalInches()
    ensures ToFeet("3' 3/8\"") == Success(Finite(3.03125))
  {
    var c := Display(3, 0, 3, 8, false, false);
    ThreeFeetEighthsText();
    RenderedReadsBack(c);
  }

  lemma WholeAndFractionalText()
    ensures Render(Display(3, 1, 1, 2, false, false)) == "3' 1 1/2\""
  {
    var c := Display(3, 1, 1, 2, false, false);
    Numerals();
    assert AfterFeet(c) == "3'";
    assert AfterInches(c) == "3' 1";
  }

  lemma WholeAndFractionalInches()
    ensures ToFeet("3' 1 1/2\"") == Success(Finite(3.125))
  {
    var c := Display(3, 1, 1, 2, false, false);
    WholeAndFractionalText();
    RenderedReadsBack(c);
  }

  lemma ImperfectText()
    ensures Render(Display(75, 2, 3, 4, false, false)) == "75' 2 3/4\""
  {
    var c := Display(75, 2, 3, 4, false, false);
    Numerals();
    TwoDigits();
    assert AfterFeet(c) == "75'";
    assert AfterInches(c) == "75' 2";
  }

  lemma ImperfectFractionalInches()
    ensures ToFeet("75' 2 3/4\"") == Success(Finite(75.0 + 2.75 / 12.0))
  {
    var c := Display(75, 2, 3, 4, false, false);
    ImperfectText();
    RenderedReadsBack(c);
  }

  lemma DoubleQuoteAsInches()
    ensures ToFeet("6\"") == Success(Finite(0.5))
  {
    var c := Display(0, 6, 0, 0, false, false);
    Numerals();
    assert Render(c) == "6\"";
    RenderedReadsBack(c);
  }

  lemma SingleAndDoubleQuotes()
    ensures ToFeet("6' 3\"") == Success(Finite(6.25))
  {
    var c := Display(6, 3, 0, 0, false, false);
    Numerals();
    assert Render(c) == "6' 3\"";
    RenderedReadsBack(c);
  }

  lemma SixFeetFraction()
    ensures ToFeet("6' 3/8\"") == Success(Finite(6.03125))
  {
    var c := Display(6, 0, 3, 8, false, false);
    SixFeetEighthsText();
    RenderedReadsBack(c);
  }

  lemma TryParseFraction()
    ensures TryParseFeet("6' 3/8\"") == Success((true, Finite(6.03125)))
  {
    SixFeetFraction();
  }

  // ---------------------------------------------------------------------------
  // "3' 1.5\"": decimal inches
  // ---------------------------------------------------------------------------

  lemma FeetDecimalInches()
    ensures ReplaceFeetWithF("3' 1.5\"") == "3f 1.5\""
  {
    OnlyFeetMark("3", " 1.5\"");
    assert "3" + "'" + " 1.5\"" == "3' 1.5\"" && "3" + "f" + " 1.5\"" == "3f 1.5\"";
  }

  lemma InchesDecimalInches()
    ensures ReplaceInchesWithI("3f 1.5\"") == "3f 1.5i"
  {
    OnlyInchMark("3f 1.5");
    assert "3f 1.5" + "\"" == "3f 1.5\"" && "3f 1.5" + "i" == "3f 1.5i";
  }

  lemma AddedDecimalInches()
    ensures AddMissingParts("3f 1.5i") == "3f 1.5i"
  {
    FeetMarkKept("3f 1.5i", 1);
  }

  lemma LowerDecimalInches()
    ensures ToLowerAndTrimWhitespaces("3' 1.5\"") == "3' 1.5\""
  {
    CanonicalText("3' 1.5\"");
  }

  lemma NormalDecimalInches()
    ensures Normalized("3' 1.5\"") == "3f 1.5i"
  {
    LowerDecimalInches();
    FeetDecimalInches();
    InchesDecimalInches();
    AddedDecimalInches();
    NormalizedSteps("3' 1.5\"", "3' 1.5\"", "3f 1.5\"", "3f 1.5i", "3f 1.5i");
  }

  lemma OnePointFive()
    ensures ToDouble("1.5") == Finite(1.5)
  {
    TenthsStripped("1.5", '1', '5');
    TenthsParsed("1.5", '1', '5');
    DecimalOfLiteral("1.5", 1.5);
  }

  lemma PaddedOnePointFive()
    ensures ToDouble(" 1.5") == Finite(1.5)
  {
    StripLeadingWhite(" ", "1.5");
    assert " " + "1.5" == " 1.5";
    SameStripped(" 1.5", "1.5");
    OnePointFive();
  }

  lemma DecimalInchesText()
    ensures 'f' !in " 1.5" && 'i' !in " 1.5" && !IsNullOrWhiteSpace(" 1.5") && IndexOf(" 1.5", '/') == -1
  {
    NotBlank(" 1.5", 1);
  }

  lemma DecimalInchesValue()
    ensures ToDoubleWithFractions(" 1.5") == Success(Finite(1.5))
    ensures 'f' !in " 1.5" && 'i' !in " 1.5" && !IsNullOrWhiteSpace(" 1.5")
  {
    PaddedOnePointFive();
    DecimalInchesText();
  }

  lemma DecimalInchesFigures()
    ensures "3f 1.5i" == "3" + "f" + (" 1.5" + "i") && "3" == IntToString(3)
  {
    Numerals();
  }

  lemma DecimalInchesRead()
    ensures ToFeet("3' 1.5\"") == Success(Plus(Finite(3.0), Quotient(Finite(1.5), Finite(12.0))))
  {
    NormalDecimalInches();
    DecimalInchesFigures();
    WholeNumber("3", 3);
    DecimalInchesValue();
    FeetAndInchesRead("3' 1.5\"", "3", " 1.5", Finite(3.0), Finite(1.5));
  }

  /** "3' 1.5\"": inches written with a decimal point, three feet and one and a half inches. */
  lemma DecimalInches()
    ensures ToFeet("3' 1.5\"") == Success(Finite(3.125))
  {
    DecimalInchesRead();
  }

  // ---------------------------------------------------------------------------
  // "3in"
  // ---------------------------------------------------------------------------

  lemma InchesThreeIn()
    ensures ReplaceInchesWithI("3in") == "3i"
  {
    ReplaceAbsent("3in", "inches", "i", 2);
    ReplaceAbsent("3in", "inch", "i", 2);
    ThreeInWord();
    ReplaceAbsent("3i", "\"", "i", 0);
    NoCurlyInchMarks("3i");
    InchChain("3in", "3in", "3in", "3i", "3i", "3i", "3i");
  }

  lemma ThreeInWord()
    ensures Replace("3in", "in", "i") == "3i"
  {
    ReplaceWord("3", "in", "", "i", 0);
    assert "3" + "in" + "" == "3in" && "3" + "i" + "" == "3i";
  }

  lemma LowerThreeIn()
    ensures ToLowerAndTrimWhitespaces("3in") == "3in"
  {
    CanonicalText("3in");
  }

  lemma FeetThreeIn()
    ensures ReplaceFeetWithF("3in") == "3in"
  {
    NoFeetUnits("3in");
  }

  lemma AddedThreeIn()
    ensures AddMissingParts("3i") == "0f3i"
  {
    assert IndexOf("3i", 'f') == -1;
    assert IndexOf("3i", 'i') == 1;
  }

  lemma NormalThreeIn()
    ensures Normalized("3in") == "0f3i"
  {
    LowerThreeIn();
    FeetThreeIn();
    InchesThreeIn();
    AddedThreeIn();
    NormalizedSteps("3in", "3in", "3in", "3i", "0f3i");
  }

  lemma ThreeInFigures()
    ensures "0f3i" == "0" + "f" + ("3" + "i") && "3" == "" + IntToString(3) && "0" == IntToString(0)
  {
    Numerals();
  }

  lemma ThreeInRead()
    ensures ToFeet("3in") == Success(Plus(Finite(0.0), Quotient(Finite(3.0), Finite(12.0))))
  {
    NormalThreeIn();
    ThreeInFigures();
    WholeNumber("0", 0);
    WholeInchesRead("3", "", 3);
    FeetAndInchesRead("3in", "0", "3", Finite(0.0), Finite(3.0));
  }

  /** "3in" is three inches, a quarter of a foot. */
  lemma InchesWithoutFeet()
    ensures ToFeet("3in") == Success(Finite(0.25))
  {
    ThreeInRead();
  }

  // ---------------------------------------------------------------------------
  // "-8ft"
  // ---------------------------------------------------------------------------

  lemma NegativeFeetFt()
    ensures Replace("-8ft", "ft", "f") == "-8f"
  {
    ReplaceWord("-8", "ft", "", "f", 0);
    assert "-8" + "ft" + "" == "-8ft" && "-8" + "f" + "" == "-8f";
  }

  lemma NegativeFeetWords()
    ensures Replace("-8ft", "'", "f") == "-8ft" && Replace("-8ft", "feet", "f") == "-8ft"
    ensures Replace("-8ft", "foot", "f") == "-8ft"
  {
    ReplaceAbsent("-8ft", "'", "f", 0);
    ReplaceAbsent("-8ft", "feet", "f", 1);
    ReplaceAbsent("-8ft", "foot", "f", 1);
  }

  lemma NegativeFeetCurly()
    ensures Replace("-8f", "\U{2018}", "f") == "-8f" && Replace("-8f", "\U{2019}", "f") == "-8f"
  {
    ReplaceAbsent("-8f", "\U{2018}", "f", 0);
    ReplaceAbsent("-8f", "\U{2019}", "f", 0);
  }

  lemma FeetNegativeFeet()
    ensures ReplaceFeetWithF("-8ft") == "-8f"
  {
    NegativeFeetWords();
    NegativeFeetFt();
    NegativeFeetCurly();
    FeetChain("-8ft", "-8ft", "-8ft", "-8ft", "-8f", "-8f", "-8f");
  }

  lemma AddedNegativeFeet()
    ensures AddMissingParts("-8f") == "-8f"
  {
    assert IndexOf("-8f", 'f') == 2;
    assert IndexOf("-8f", '-') == 0;
  }

  lemma InchesNegativeFeet()
    ensures ReplaceInchesWithI("-8f") == "-8f"
  {
    NoInchUnits("-8f");
  }

  lemma LowerNegativeFeet()
    ensures ToLowerAndTrimWhitespaces("-8ft") == "-8ft"
  {
    CanonicalText("-8ft");
  }

  lemma NormalNegativeFeet()
    ensures Normalized("-8ft") == "-8f"
  {
    LowerNegativeFeet();
    FeetNegativeFeet();
    InchesNegativeFeet();
    AddedNegativeFeet();
    NormalizedSteps("-8ft", "-8ft", "-8f", "-8f", "-8f");
  }

  lemma NegativeFeetFigures()
    ensures "-8f" == "-8" + "f" && "-8" == IntToString(-8)
  {
    NegativeNumerals();
  }

  /** "-8ft" is minus eight feet. */
  lemma NegativeFeet()
    ensures ToFeet("-8ft") == Success(Finite(-8.0))
  {
    NormalNegativeFeet();
    NegativeFeetFigures();
    WholeNumber("-8", -8);
    FeetOnlyRead("-8ft", "-8", Finite(-8.0));
  }

  // ---------------------------------------------------------------------------
  // "-6 inches"
  // ---------------------------------------------------------------------------

  lemma NegativeInchesWord()
    ensures Replace("-6 inches", "inches", "i") == "-6 i"
  {
    ReplaceWord("-6 ", "inches", "", "i", 0);
    assert "-6 " + "inches" + "" == "-6 inches" && "-6 " + "i" + "" == "-6 i";
  }

  lemma NegativeInchesRest()
    ensures Replace("-6 i", "inch", "i") == "-6 i" && Replace("-6 i", "in", "i") == "-6 i"
    ensures Replace("-6 i", "\"", "i") == "-6 i"
  {
    ReplaceAbsent("-6 i", "inch", "i", 1);
    ReplaceAbsent("-6 i", "in", "i", 1);
    ReplaceAbsent("-6 i", "\"", "i", 0);
  }

  lemma InchesNegativeInches()
    ensures ReplaceInchesWithI("-6 inches") == "-6 i"
  {
    var t := "-6 i";
    NegativeInchesWord();
    NegativeInchesRest();
    NoCurlyInchMarks(t);
    InchChain("-6 inches", t, t, t, t, t, t);
  }

  lemma AddedNegativeInches()
    ensures AddMissingParts("-6 i") == "0f-6 i"
  {
    assert IndexOf("-6 i", 'f') == -1;
    IndexOfIs("-6 i", 'i', 3);
  }

  lemma LowerNegativeInches()
    ensures ToLowerAndTrimWhitespaces("-6 inches") == "-6 inches"
  {
    CanonicalText("-6 inches");
  }

  lemma FeetNegativeInches()
    ensures ReplaceFeetWithF("-6 inches") == "-6 inches"
  {
    NoFeetUnits("-6 inches");
  }

  lemma NormalNegativeInches()
    ensures Normalized("-6 inches") == "0f-6 i"
  {
    LowerNegativeInches();
    FeetNegativeInches();
    InchesNegativeInches();
    AddedNegativeInches();
    NormalizedSteps("-6 inches", "-6 inches", "-6 inches", "-6 i", "0f-6 i");
  }

  /** The white space after the inches is not part of the number. */
  lemma TrailingSpaceStripped()
    ensures StripNumberWhite("-6 ") == "-6" && StripNumberWhite("-6") == "-6"
  {
    TrimStartKeeps("-6 ", IsNumberWhite);
    TrimEndSkips("-6", " ", IsNumberWhite);
    assert "-6" + " " == "-6 ";
    TrimEndKeeps("-6", IsNumberWhite);
    TrimStartKeeps("-6", IsNumberWhite);
  }

  lemma NegativeSix()
    ensures SplitSign("-6") == (true, "6") && IndexOf("6", '.') == -1
    ensures AllDigits([]) && FractionValue([]) == 0.0
  {
  }

  /** double.TryParse reads only what is left once the number white space is stripped. */
  lemma SameStripped(a: string, b: string)
    requires StripNumberWhite(a) == StripNumberWhite(b)
    ensures ParseDecimal(a) == ParseDecimal(b)
  {
  }

  lemma MinusSix()
    ensures ParseDecimal("-6") == Some(-6.0)
  {
    NegativeNumerals();
    ParseDecimalOfInt("", -6);
    assert "" + "-6" == "-6";
  }

  lemma TrailingSpaceValue()
    ensures ToDouble("-6 ") == Finite(-6.0)
  {
    TrailingSpaceStripped();
    SameStripped("-6 ", "-6");
    MinusSix();
  }

  lemma TrailingSpaceText()
    ensures 'f' !in "-6 " && 'i' !in "-6 " && !IsNullOrWhiteSpace("-6 ") && IndexOf("-6 ", '/') == -1
  {
    NotBlank("-6 ", 1);
  }

  lemma TrailingSpace()
    ensures ToDoubleWithFractions("-6 ") == Success(Finite(-6.0))
    ensures 'f' !in "-6 " && 'i' !in "-6 " && !IsNullOrWhiteSpace("-6 ")
  {
    TrailingSpaceValue();
    TrailingSpaceText();
  }

  lemma NegativeInchesFigures()
    ensures "0f-6 i" == "0" + "f" + ("-6 " + "i") && "0" == IntToString(0)
  {
    Numerals();
  }

  lemma NegativeInchesRead()
    ensures ToFeet("-6 inches") == Success(Plus(Finite(0.0), Quotient(Finite(-6.0), Finite(12.0))))
  {
    NormalNegativeInches();
    NegativeInchesFigures();
    WholeNumber("0", 0);
    TrailingSpace();
    FeetAndInchesRead("-6 inches", "0", "-6 ", Finite(0.0), Finite(-6.0));
  }

  /** "-6 inches" is minus half a foot. */
  lemma NegativeInches()
    ensures ToFeet("-6 inches") == Success(Finite(-0.5))
  {
    NegativeInchesRead();
  }

  // ---------------------------------------------------------------------------
  // "6.5ft"
  // ---------------------------------------------------------------------------

  lemma DecimalFeetWords()
    ensures Replace("6.5ft", "'", "f") == "6.5ft" && Replace("6.5ft", "feet", "f") == "6.5ft"
    ensures Replace("6.5ft", "foot", "f") == "6.5ft"
  {
    ReplaceAbsent("6.5ft", "'", "f", 0);
    ReplaceAbsent("6.5ft", "feet", "f", 1);
    ReplaceAbsent("6.5ft", "foot", "f", 1);
  }

  lemma DecimalFeetFt()
    ensures Replace("6.5ft", "ft", "f") == "6.5f"
  {
    ReplaceWord("6.5", "ft", "", "f", 0);
    assert "6.5" + "ft" + "" == "6.5ft" && "6.5" + "f" + "" == "6.5f";
  }

  lemma DecimalFeetCurly()
    ensures Replace("6.5f", "\U{2018}", "f") == "6.5f" && Replace("6.5f", "\U{2019}", "f") == "6.5f"
  {
    ReplaceAbsent("6.5f", "\U{2018}", "f", 0);
    ReplaceAbsent("6.5f", "\U{2019}", "f", 0);
  }

  lemma FeetDecimalFeet()
    ensures ReplaceFeetWithF("6.5ft") == "6.5f"
  {
    DecimalFeetWords();
    DecimalFeetFt();
    DecimalFeetCurly();
    FeetChain("6.5ft", "6.5ft", "6.5ft", "6.5ft", "6.5f", "6.5f", "6.5f");
  }

  lemma LowerDecimalFeet()
    ensures ToLowerAndTrimWhitespaces("6.5ft") == "6.5ft"
  {
    CanonicalText("6.5ft");
  }

  lemma InchesDecimalFeet()
    ensures ReplaceInchesWithI("6.5f") == "6.5f"
  {
    NoInchUnits("6.5f");
  }

  lemma AddedDecimalFeet()
    ensures AddMissingParts("6.5f") == "6.5f"
  {
    assert IndexOf("6.5f", 'f') == 3 && IndexOf("6.5f", '-') == -1;
  }

  lemma NormalDecimalFeet()
    ensures Normalized("6.5ft") == "6.5f"
  {
    LowerDecimalFeet();
    FeetDecimalFeet();
    InchesDecimalFeet();
    AddedDecimalFeet();
    NormalizedSteps("6.5ft", "6.5ft", "6.5f", "6.5f", "6.5f");
  }

  lemma SixAndAHalf()
    ensures "6.5f" == "6.5" + "f" && 'f' !in "6.5" && !IsNullOrWhiteSpace("6.5")
  {
    NotBlank("6.5", 0);
  }

  /** "6.5ft" is six and a half feet. */
  lemma DecimalFeet()
    ensures ToFeet("6.5ft") == Success(Finite(6.5))
  {
    NormalDecimalFeet();
    SixPointFive();
    SixAndAHalf();
    FeetOnlyRead("6.5ft", "6.5", Finite(6.5));
  }

  // ---------------------------------------------------------------------------
  // "5.5" and "6.52e": text without units is feet
  // ---------------------------------------------------------------------------

  lemma FivePointFive()
    ensures ToDouble("5.5") == Finite(5.5)
  {
    TenthsStripped("5.5", '5', '5');
    TenthsParsed("5.5", '5', '5');
    DecimalOfLiteral("5.5", 5.5);
  }

  lemma FivePointFiveText()
    ensures "5.5f" == "5.5" + "f" && 'f' !in "5.5" && !IsNullOrWhiteSpace("5.5")
  {
    NotBlank("5.5", 0);
  }

  lemma LowerNoUnits()
    ensures ToLowerAndTrimWhitespaces("5.5") == "5.5"
  {
    CanonicalText("5.5");
  }

  lemma FeetNoUnits()
    ensures ReplaceFeetWithF("5.5") == "5.5"
  {
    NoFeetUnits("5.5");
  }

  lemma InchesNoUnits()
    ensures ReplaceInchesWithI("5.5") == "5.5"
  {
    NoInchUnits("5.5");
  }

  lemma AddedNoUnits()
    ensures AddMissingParts("5.5") == "5.5f"
  {
    assert IndexOf("5.5", 'f') == -1 && IndexOf("5.5", 'i') == -1;
  }

  lemma NormalNoUnits()
    ensures Normalized("5.5") == "5.5f"
  {
    LowerNoUnits();
    FeetNoUnits();
    InchesNoUnits();
    AddedNoUnits();
    NormalizedSteps("5.5", "5.5", "5.5", "5.5", "5.5f");
  }

  /** "5.5" without units is five and a half feet. */
  lemma NoUnitsAsFeet()
    ensures ToFeet("5.5") == Success(Finite(5.5))
  {
    NormalNoUnits();
    FivePointFive();
    FivePointFiveText();
    FeetOnlyRead("5.5", "5.5", Finite(5.5));
  }

  lemma Malformed()
    ensures ToDouble("6.52e") == NaN
  {
    TrimStartKeeps("6.52e", IsNumberWhite);
    TrimEndKeeps("6.52e", IsNumberWhite);
    assert StripNumberWhite("6.52e") == "6.52e";
    assert SplitSign("6.52e") == (false, "6.52e");
    assert IndexOf("6.52e", '.') == 1;
    assert "6.52e"[2..] == "52e" && !IsDigit("52e"[2]);
  }

  lemma MalformedText()
    ensures "6.52ef" == "6.52e" + "f" && 'f' !in "6.52e" && !IsNullOrWhiteSpace("6.52e")
  {
    NotBlank("6.52e", 0);
  }

  lemma LowerMalformed()
    ensures ToLowerAndTrimWhitespaces("6.52e") == "6.52e"
  {
    CanonicalText("6.52e");
  }

  lemma FeetMalformed()
    ensures ReplaceFeetWithF("6.52e") == "6.52e"
  {
    NoFeetUnits("6.52e");
  }

  lemma InchesMalformed()
    ensures ReplaceInchesWithI("6.52e") == "6.52e"
  {
    NoInchUnits("6.52e");
  }

  lemma AddedMalformed()
    ensures AddMissingParts("6.52e") == "6.52ef"
  {
    assert IndexOf("6.52e", 'f') == -1 && IndexOf("6.52e", 'i') == -1;
  }

  lemma NormalMalformed()
    ensures Normalized("6.52e") == "6.52ef"
  {
    LowerMalformed();
    FeetMalformed();
    InchesMalformed();
    AddedMalformed();
    NormalizedSteps("6.52e", "6.52e", "6.52e", "6.52e", "6.52ef");
  }

  /** "6.52e" is not a number: NaN. */
  lemma InvalidInput()
    ensures ToFeet("6.52e") == Success(NaN)
  {
    NormalMalformed();
    Malformed();
    MalformedText();
    FeetOnlyRead("6.52e", "6.52e", NaN);
  }

  /** TryParseFeet reports "6.52e" as not parsed, with NaN as its value. */
  lemma TryParseInvalidInput()
    ensures TryParseFeet("6.52e") == Success((false, NaN))
  {
    InvalidInput();
  }

  // ---------------------------------------------------------------------------
  // "6'-6"
  // ---------------------------------------------------------------------------

  lemma MiddleDashQuote()
    ensures Replace("6'-6", "'", "f") == "6f-6"
  {
    ReplaceWord("6", "'", "-6", "f", 0);
    assert "6" + "'" + "-6" == "6'-6" && "6" + "f" + "-6" == "6f-6";
  }

  lemma FeetMiddleDash()
    ensures ReplaceFeetWithF("6'-6") == "6f-6"
  {
    MiddleDashQuote();
    AfterFeetMark("6f-6");
    FeetChain("6'-6", "6f-6", "6f-6", "6f-6", "6f-6", "6f-6", "6f-6");
  }

  lemma AddedMiddleDash()
    ensures AddMissingParts("6f-6") == "6f6"
  {
    assert IndexOf("6f-6", 'f') == 1;
    IndexOfIs("6f-6", '-', 2);
    DashDropped();
  }

  lemma DashDropped()
    ensures Replace("6f-6", "-", "") == "6f6"
  {
    ReplaceWord("6f", "-", "6", "", 0);
    assert "6f" + "-" + "6" == "6f-6" && "6f" + "" + "6" == "6f6";
  }

  lemma LowerMiddleDash()
    ensures ToLowerAndTrimWhitespaces("6'-6") == "6'-6"
  {
    CanonicalText("6'-6");
  }

  lemma InchesMiddleDash()
    ensures ReplaceInchesWithI("6f-6") == "6f-6"
  {
    NoInchUnits("6f-6");
  }

  lemma NormalMiddleDash()
    ensures Normalized("6'-6") == "6f6"
  {
    LowerMiddleDash();
    FeetMiddleDash();
    InchesMiddleDash();
    AddedMiddleDash();
    NormalizedSteps("6'-6", "6'-6", "6f-6", "6f-6", "6f6");
  }

  lemma MiddleDashParts()
    ensures SplitIntoNonEmptyParts("6f6", 'f') == ["6", "6"]
    ensures SplitIntoNonEmptyParts("6", 'i') == ["6"]
  {
    SplitAt("6", "6", 'f');
    assert "6" + ['f'] + "6" == "6f6";
    SplitWithout("6", 'f');
    SplitWithout("6", 'i');
    NotBlank("6", 0);
    NonBlankPair("6", "6");
    NonBlankFirst("6");
  }

  lemma MiddleDashFeet()
    ensures ToDouble("6") == Finite(6.0)
  {
    Numerals();
    NumberValue("6", 6);
  }

  lemma MiddleDashInches()
    ensures ToDoubleWithFractions("6") == Success(Finite(6.0))
  {
    Numerals();
    WholeRead("", 6);
    assert "" + "6" == "6";
  }


  lemma MiddleDashRead()
    ensures ToFeet("6'-6") == Success(Plus(Finite(6.0), Quotient(Finite(6.0), Finite(12.0))))
  {
    NormalMiddleDash();
    MiddleDashParts();
    MiddleDashFeet();
    MiddleDashInches();
    FeetAndInchesShape("6'-6", "6", "6", "6", Finite(6.0), Finite(6.0));
  }

  /** "6'-6": the dash between feet and inches is dropped, giving six and a half feet. */
  lemma MiddleDash()
    ensures ToFeet("6'-6") == Success(Finite(6.5))
  {
    MiddleDashRead();
  }

  // ---------------------------------------------------------------------------
  // "-8' 9\"": the inches are added to negative feet
  // ---------------------------------------------------------------------------

  lemma FeetSignedFeet()
    ensures ReplaceFeetWithF("-8' 9\"") == "-8f 9\""
  {
    OnlyFeetMark("-8", " 9\"");
    assert "-8" + "'" + " 9\"" == "-8' 9\"" && "-8" + "f" + " 9\"" == "-8f 9\"";
  }

  lemma InchesSignedFeet()
    ensures ReplaceInchesWithI("-8f 9\"") == "-8f 9i"
  {
    OnlyInchMark("-8f 9");
    assert "-8f 9" + "\"" == "-8f 9\"" && "-8f 9" + "i" == "-8f 9i";
  }

  lemma AddedSignedFeet()
    ensures AddMissingParts("-8f 9i") == "-8f 9i"
  {
    assert IndexOf("-8f 9i", 'f') == 2;
    assert IndexOf("-8f 9i", '-') == 0;
  }

  lemma LowerSignedFeet()
    ensures ToLowerAndTrimWhitespaces("-8' 9\"") == "-8' 9\""
  {
    CanonicalText("-8' 9\"");
  }

  lemma NormalSignedFeet()
    ensures Normalized("-8' 9\"") == "-8f 9i"
  {
    LowerSignedFeet();
    FeetSignedFeet();
    InchesSignedFeet();
    AddedSignedFeet();
    NormalizedSteps("-8' 9\"", "-8' 9\"", "-8f 9\"", "-8f 9i", "-8f 9i");
  }

  lemma SignedFeetFigures()
    ensures "-8f 9i" == "-8" + "f" + (" 9" + "i") && " 9" == " " + IntToString(9) && "-8" == IntToString(-8)
  {
    Numerals();
    NegativeNumerals();
  }

  lemma SignedFeetRead()
    ensures ToFeet("-8' 9\"") == Success(Plus(Finite(-8.0), Quotient(Finite(9.0), Finite(12.0))))
  {
    NormalSignedFeet();
    SignedFeetFigures();
    WholeNumber("-8", -8);
    WholeInchesRead(" 9", " ", 9);
    FeetAndInchesRead("-8' 9\"", "-8", " 9", Finite(-8.0), Finite(9.0));
  }

  /**
   * "-8' 9\"" reads as -8 + 9/12 = -7.25 feet, not as -(8 + 9/12): the sign belongs to
   * the feet part only, so it does not read back what ToString writes for -8.75.
   */
  lemma SignOnFeetOnly()
    ensures ToFeet("-8' 9\"") == Success(Finite(-7.25))
    ensures FeetInchesText(-8.75, 16) == "-8' 9\""
  {
    SignedFeetRead();
    NegativeFeetAndInches();
  }

  // ---------------------------------------------------------------------------
  // The two inputs on which ToFeet throws
  // ---------------------------------------------------------------------------

  lemma LowerNoInches()
    ensures ToLowerAndTrimWhitespaces("3'\"") == "3'\""
  {
    CanonicalText("3'\"");
  }

  lemma FeetNoInches()
    ensures ReplaceFeetWithF("3'\"") == "3f\""
  {
    OnlyFeetMark("3", "\"");
    assert "3" + "'" + "\"" == "3'\"" && "3" + "f" + "\"" == "3f\"";
  }

  lemma InchesNoInches()
    ensures ReplaceInchesWithI("3f\"") == "3fi"
  {
    OnlyInchMark("3f");
    assert "3f" + "\"" == "3f\"" && "3f" + "i" == "3fi";
  }

  lemma AddedNoInches()
    ensures AddMissingParts("3fi") == "3fi"
  {
    FeetMarkKept("3fi", 1);
  }

  lemma NormalNoInches()
    ensures Normalized("3'\"") == "3fi"
  {
    LowerNoInches();
    FeetNoInches();
    InchesNoInches();
    AddedNoInches();
    NormalizedSteps("3'\"", "3'\"", "3f\"", "3fi", "3fi");
  }


  lemma NoInchesFeetParts()
    ensures SplitIntoNonEmptyParts("3fi", 'f') == ["3", "i"]
  {
    SplitAt("3", "i", 'f');
    assert "3" + ['f'] + "i" == "3fi";
    SplitWithout("i", 'f');
    NotBlank("3", 0);
    assert !IsWhiteSpace('i');
    NonBlankPair("3", "i");
  }

  lemma NoInchesParts()
    ensures SplitIntoNonEmptyParts("i", 'i') == []
  {
    SplitAt("", "", 'i');
    assert "" + ['i'] + "" == "i";
    SplitWithout("", 'i');
    assert NonBlank(["", ""]) == [] by {
      assert ["", ""][1..] == [""];
    }
  }


  /**
   * "3'\"": the inch mark follows the feet with no inches before it, so the
   * part after 'f' has no inches part and taking its first part throws.
   */
  lemma InchMarkWithoutInches()
    ensures ToFeet("3'\"") == Failure(IndexOutOfRange)
  {
    NormalNoInches();
    NoInchesFeetParts();
    NoInchesParts();
  }

  lemma LowerBadDenominator()
    ensures ToLowerAndTrimWhitespaces("1/x\"") == "1/x\""
  {
    CanonicalText("1/x\"");
  }

  lemma FeetBadDenominator()
    ensures ReplaceFeetWithF("1/x\"") == "1/x\""
  {
    NoFeetUnits("1/x\"");
  }

  lemma InchesBadDenominator()
    ensures ReplaceInchesWithI("1/x\"") == "1/xi"
  {
    OnlyInchMark("1/x");
    assert "1/x" + "\"" == "1/x\"" && "1/x" + "i" == "1/xi";
  }

  lemma AddedBadDenominator()
    ensures AddMissingParts("1/xi") == "0f1/xi"
  {
    assert 'f' !in "1/xi";
    IndexOfIs("1/xi", 'i', 3);
  }

  lemma NormalBadDenominator()
    ensures Normalized("1/x\"") == "0f1/xi"
  {
    LowerBadDenominator();
    FeetBadDenominator();
    InchesBadDenominator();
    AddedBadDenominator();
    NormalizedSteps("1/x\"", "1/x\"", "1/x\"", "1/xi", "0f1/xi");
  }

  lemma BadDenominatorFeetParts()
    ensures SplitIntoNonEmptyParts("0f1/xi", 'f') == ["0", "1/xi"]
  {
    SplitAt("0", "1/xi", 'f');
    assert "0" + ['f'] + "1/xi" == "0f1/xi";
    SplitWithout("1/xi", 'f');
    NotBlank("0", 0);
    NotBlank("1/xi", 0);
    NonBlankPair("0", "1/xi");
  }

  lemma BadDenominatorInchParts()
    ensures SplitIntoNonEmptyParts("1/xi", 'i') == ["1/x"]
  {
    SplitAt("1/x", "", 'i');
    assert "1/x" + ['i'] + "" == "1/xi";
    SplitWithout("", 'i');
    NotBlank("1/x", 0);
    NonBlankFirst("1/x");
  }


  lemma NotANumber()
    ensures ToInteger("x") == Failure(FormatException)
  {
    TrimStartKeeps("x", IsNumberWhite);
    TrimEndKeeps("x", IsNumberWhite);
    assert StripNumberWhite("x") == "x";
    assert SplitSign("x") == (false, "x");
    assert !IsDigit("x"[0]);
  }

  lemma BadDenominatorWhole()
    ensures SplitIntoNonEmptyParts("1/x", ' ') == ["1/x"]
  {
    SplitWithout("1/x", ' ');
    NotBlank("1/x", 0);
    assert NonBlank(["1/x"]) == ["1/x"] by {
      assert ["1/x"][1..] == [];
    }
  }

  lemma BadDenominatorRatio()
    ensures SplitIntoNonEmptyParts("1/x", '/') == ["1", "x"]
  {
    SplitAt("1", "x", '/');
    assert "1" + ['/'] + "x" == "1/x";
    SplitWithout("x", '/');
    NotBlank("1", 0);
    assert !IsWhiteSpace('x');
    NonBlankPair("1", "x");
  }

  lemma NumeratorOne()
    ensures ToInteger("1") == Success(1)
  {
    Numerals();
    ParseInt32OfInt("", 1);
    assert "" + "1" == "1";
  }

  lemma BadDenominatorFraction()
    ensures ToDoubleWithFractions("1/x") == Failure(FormatException)
  {
    IndexOfIs("1/x", '/', 1);
    BadDenominatorWhole();
    BadDenominatorRatio();
    NumeratorOne();
    NotANumber();
  }


  /** "1/x\"": int.Parse throws FormatException on the denominator, and ToFeet lets it escape. */
  lemma MalformedDenominator()
    ensures ToFeet("1/x\"") == Failure(FormatException)
  {
    NormalBadDenominator();
    BadDenominatorFeetParts();
    BadDenominatorInchParts();
    BadDenominatorFraction();
  }

  // ---------------------------------------------------------------------------
  // Case, spacing and the other unit spellings
  // ---------------------------------------------------------------------------

  /** Figures the normalisation leaves alone: no unit letter, mark, sign, '~' or capital, no white space at the start. */
  predicate PlainFigures(h: string) {
    && h != [] && !IsWhiteSpace(h[0]) && !IsNullOrWhiteSpace(h)
    && '~' !in h && '-' !in h && (forall k :: 0 <= k < |h| ==> !IsUpper(h[k]))
    && NoFeetLetters(h) && NoInchLetters(h)
  }

  /** What the spellings of the units have in common that the first steps rely on. */
  lemma UnitShape(w: string)
    requires w in {"'", "feet", "foot", "ft", "\U{2018}", "\U{2019}", "inches", "inch", "in", "\"", "\U{201C}", "\U{201D}"}
    ensures w != [] && '~' !in w && !IsWhiteSpace(w[|w| - 1])
    ensures forall k :: 0 <= k < |w| ==> !IsUpper(w[k])
  {
  }

  /** A plain number followed by a unit is already in canonical form. */
  lemma SpelledCanonical(h: string, w: string)
    requires PlainFigures(h)
    requires w != [] && '~' !in w && !IsWhiteSpace(w[|w| - 1])
    requires forall k :: 0 <= k < |w| ==> !IsUpper(w[k])
    ensures ToLowerAndTrimWhitespaces(h + w) == h + w
  {
    var v := h + w;
    assert v[0] == h[0] && v[|v| - 1] == w[|w| - 1];
    assert forall k :: 0 <= k < |v| ==> !IsUpper(v[k]) by {
      forall k | 0 <= k < |v| ensures !IsUpper(v[k]) {
        if k < |h| {
          assert v[k] == h[k];
        } else {
          assert v[k] == w[k - |h|];
        }
      }
    }
    CanonicalText(v);
  }

  lemma NormalizedFeetSpelling(h: string, w: string)
    requires w in {"'", "feet", "foot", "ft", "\U{2018}", "\U{2019}"}
    requires PlainFigures(h)
    ensures Normalized(h + w) == h + "f"
  {
    UnitShape(w);
    SpelledCanonical(h, w);
    FeetSpellingAtEnd(h, w);
    FeetMarkSettled(h);
    NormalizedSteps(h + w, h + w, h + "f", h + "f", h + "f");
  }

  lemma FeetSpellingAtEnd(h: string, w: string)
    requires w in {"'", "feet", "foot", "ft", "\U{2018}", "\U{2019}"}
    requires NoFeetLetters(h)
    ensures ReplaceFeetWithF(h + w) == h + "f"
  {
    var e := "";
    assert NoFeetLetters(e);
    assert h + w + e == h + w && h + "f" + e == h + "f";
    FeetSpellingToF(h, w, e);
  }

  /** Once the unit is the marker 'f', the inch step and the missing-part step change nothing. */
  lemma FeetMarkSettled(h: string)
    requires PlainFigures(h)
    ensures ReplaceInchesWithI(h + "f") == h + "f" && AddMissingParts(h + "f") == h + "f"
  {
    var m := h + "f";
    NoInchUnits(m);
    assert m[|h|] == 'f' && m[..|h|] == h;
    FeetMarkKept(m, |h|);
  }

  lemma NormalizedInchSpelling(h: string, w: string)
    requires w in {"inches", "inch", "in", "\"", "\U{201C}", "\U{201D}"}
    requires PlainFigures(h)
    ensures Normalized(h + w) == "0" + "f" + (h + "i")
  {
    UnitShape(w);
    SpelledCanonical(h, w);
    InchSpellingAtEnd(h, w);
    InchMarkSettled(h);
    NormalizedSteps(h + w, h + w, h + w, h + "i", "0" + "f" + (h + "i"));
  }

  lemma InchSpellingAtEnd(h: string, w: string)
    requires w in {"inches", "inch", "in", "\"", "\U{201C}", "\U{201D}"}
    requires NoFeetLetters(h) && NoInchLetters(h)
    ensures ReplaceFeetWithF(h + w) == h + w && ReplaceInchesWithI(h + w) == h + "i"
  {
    var e := "";
    assert NoInchLetters(e);
    assert h + w + e == h + w && h + "i" + e == h + "i";
    InchSpellingToI(h, w, e);
    assert '\'' !in w && 'f' !in w && '\U{2018}' !in w && '\U{2019}' !in w;
    NoFeetUnits(h + w);
  }

  /** An inch marker without a feet marker gets "0f" in front. */
  lemma InchMarkSettled(h: string)
    requires PlainFigures(h)
    ensures AddMissingParts(h + "i") == "0" + "f" + (h + "i")
  {
    var m := h + "i";
    assert 'f' !in m;
    assert m[|h|] == 'i' && m[..|h|] == h;
    IndexOfIs(m, 'i', |h|);
    ZeroFeetPrefix(m);
  }

  lemma ZeroFeetPrefix(m: string)
    ensures "0f" + m == "0" + "f" + m
  {
  }

  lemma ZeroNumber()
    ensures ToDouble("0") == Finite(0.0) && 'f' !in "0" && !IsNullOrWhiteSpace("0")
  {
    Numerals();
    WholeNumber("0", 0);
  }

  /** Digits, then possibly a space, are figures the normalisation leaves alone. */
  lemma DigitsPlain(h: string)
    requires h != [] && IsDigit(h[0])
    requires forall x :: x in h ==> IsDigit(x) || x == ' '
    ensures PlainFigures(h)
  {
    assert forall k :: 0 <= k < |h| ==> h[k] in h;
    NotBlank(h, 0);
  }

  /** Whole-number figures, with or without one space after them, as the unit lemmas take them. */
  lemma PaddedFiguresPlain(n: int, sp: string)
    requires n >= 0 && Pad(sp)
    ensures PlainFigures(IntToString(n) + sp)
  {
    var t := IntToString(n);
    CountDigits(n);
    assert (t + sp)[0] == t[0];
    DigitsPlain(t + sp);
  }

  /** A space after figures is stripped before they are read. */
  lemma SpaceAfterFiguresStripped(t: string)
    requires t != [] && !IsNumberWhite(t[0]) && !IsNumberWhite(t[|t| - 1])
    ensures StripNumberWhite(t + " ") == t && StripNumberWhite(t) == t
  {
    assert (t + " ")[0] == t[0];
    TrimStartKeeps(t + " ", IsNumberWhite);
    TrimEndSkips(t, " ", IsNumberWhite);
    TrimStartKeeps(t, IsNumberWhite);
    TrimEndKeeps(t, IsNumberWhite);
  }

  /** Figures and a padding space hold no '/', so they are read as a plain number. */
  lemma PaddedFiguresNoSlash(n: int, sp: string)
    requires n >= 0 && Pad(sp)
    ensures '/' !in IntToString(n) + sp
  {
    CountDigits(n);
  }

  /** A space after the figures does not change what they read as. */
  lemma PaddedFiguresStrip(n: int, sp: string)
    requires n >= 0 && Pad(sp)
    ensures ToDouble(IntToString(n) + sp) == ToDouble(IntToString(n))
  {
    var t := IntToString(n);
    if sp == " " {
      CountDigits(n);
      assert t[|t| - 1] in t;
      SpaceAfterFiguresStripped(t);
    } else {
      assert t + sp == t;
    }
  }

  /** Whole-number figures read as the number, a trailing space being stripped. */
  lemma PaddedFiguresValue(n: int, sp: string)
    requires n >= 0 && Pad(sp)
    ensures ToDouble(IntToString(n) + sp) == Finite(n as real)
    ensures ToDoubleWithFractions(IntToString(n) + sp) == Success(Finite(n as real))
  {
    NumberValue(IntToString(n), n);
    PaddedFiguresStrip(n, sp);
    PaddedFiguresNoSlash(n, sp);
  }

  /** A whole number followed by any spelling of the feet unit reads as that many feet. */
  lemma FeetSpellingRead(n: int, sp: string, w: string)
    requires n >= 0 && Pad(sp)
    requires w in {"'", "feet", "foot", "ft", "\U{2018}", "\U{2019}"}
    ensures ToFeet(IntToString(n) + sp + w) == Success(Finite(n as real))
  {
    var h := IntToString(n) + sp;
    PaddedFiguresPlain(n, sp);
    PaddedFiguresValue(n, sp);
    NormalizedFeetSpelling(h, w);
    FeetOnlyRead(h + w, h, Finite(n as real));
  }

  /** Digits then an inch spelling: the zero feet the normalisation supplies plus a twelfth of the figures. */
  lemma InchSpelledRead(h: string, w: string, x: real, q: real)
    requires q * 12.0 == x
    requires w in {"inches", "inch", "in", "\"", "\U{201C}", "\U{201D}"}
    requires h != [] && IsDigit(h[0]) && forall c :: c in h ==> IsDigit(c) || c == ' '
    requires ToDoubleWithFractions(h) == Success(Finite(x))
    ensures ToFeet(h + w) == Success(Finite(q))
  {
    DigitsPlain(h);
    NormalizedInchSpelling(h, w);
    InchesOnlyRead(h + w, h, x, q);
  }

  /** Text normalised to "0f" and inches reads as no feet plus a twelfth of the inches. */
  lemma InchesOnlyRead(value: string, h: string, x: real, q: real)
    requires q * 12.0 == x
    requires Normalized(value) == "0" + "f" + (h + "i")
    requires 'f' !in h && 'i' !in h && !IsNullOrWhiteSpace(h)
    requires ToDoubleWithFractions(h) == Success(Finite(x))
    ensures ToFeet(value) == Success(Finite(q))
  {
    ZeroNumber();
    FeetAndInchesRead(value, "0", h, Finite(0.0), Finite(x));
    NoFeetTwelfth(x, q);
  }

  /** Zero feet plus x inches is x/12 feet. */
  lemma NoFeetTwelfth(x: real, q: real)
    requires q * 12.0 == x
    ensures Plus(Finite(0.0), Quotient(Finite(x), Finite(12.0))) == Finite(q)
  {
    assert Quotient(Finite(x), Finite(12.0)) == Finite(q);
  }

  /** Whole-number figures, with or without a space after them, are digits and spaces. */
  lemma PaddedDigits(n: int, sp: string)
    requires n >= 0 && Pad(sp)
    ensures IntToString(n) + sp != [] && IsDigit((IntToString(n) + sp)[0])
    ensures forall c :: c in IntToString(n) + sp ==> IsDigit(c) || c == ' '
  {
    CountDigits(n);
    assert (IntToString(n) + sp)[0] == IntToString(n)[0];
  }

  /** A whole number followed by any spelling of the inch unit, and no feet, reads as a twelfth of it. */
  lemma InchSpellingRead(n: int, sp: string, w: string, q: real)
    requires n >= 0 && Pad(sp) && q * 12.0 == n as real
    requires w in {"inches", "inch", "in", "\"", "\U{201C}", "\U{201D}"}
    ensures ToFeet(IntToString(n) + sp + w) == Success(Finite(q))
  {
    PaddedDigits(n, sp);
    PaddedFiguresValue(n, sp);
    InchSpelledRead(IntToString(n) + sp, w, n as real, q);
  }

  /** "6ft" is six feet. */
  lemma SixFt()
    ensures ToFeet("6ft") == Success(Finite(6.0))
  {
    Numerals();
    assert IntToString(6) + "" + "ft" == "6ft";
    FeetSpellingRead(6, "", "ft");
  }

  /** "6FT" reads as "6ft": the parser ignores case. */
  lemma SixFtUpperCase()
    ensures ToFeet("6FT") == Success(Finite(6.0))
  {
    LowerSixFt();
    ToFeetIgnoresCase("6FT");
    SixFt();
  }

  lemma LowerSixFt()
    ensures ToLower("6FT") == "6ft"
  {
    var r := ToLower("6FT");
    assert r[0] == '6' && r[1] == 'f' && r[2] == 't';
  }

  /** White space around the text is trimmed before anything else. */
  lemma PaddedSixFt()
    ensures ToFeet(" 6ft\t") == Success(Finite(6.0))
  {
    assert " " + "6ft" + "\t" == " 6ft\t";
    ToFeetIgnoresPadding(" ", "6ft", "\t");
    SixFt();
  }

  /** "6 ft" reads as "6ft": white space between the number and the unit is ignored. */
  lemma SixSpaceFt()
    ensures ToFeet("6 ft") == Success(Finite(6.0))
  {
    Numerals();
    assert IntToString(6) + " " + "ft" == "6 ft";
    FeetSpellingRead(6, " ", "ft");
  }

  /** "6 feet" is six feet: the whole word becomes the marker. */
  lemma SixFeetWord()
    ensures ToFeet("6 feet") == Success(Finite(6.0))
  {
    Numerals();
    assert IntToString(6) + " " + "feet" == "6 feet";
    FeetSpellingRead(6, " ", "feet");
  }

  /** "6 foot" is six feet. */
  lemma SixFootWord()
    ensures ToFeet("6 foot") == Success(Finite(6.0))
  {
    Numerals();
    assert IntToString(6) + " " + "foot" == "6 foot";
    FeetSpellingRead(6, " ", "foot");
  }

  /** "6\U{2019}" is six feet: the curly quote is a feet mark as ' is. */
  lemma SixCurlyQuote()
    ensures ToFeet("6\U{2019}") == Success(Finite(6.0))
  {
    Numerals();
    assert IntToString(6) + "" + "\U{2019}" == "6\U{2019}";
    FeetSpellingRead(6, "", "\U{2019}");
  }

  /** "6 inch" is half a foot: an inch spelling alone puts "0f" in front. */
  lemma SixInch()
    ensures ToFeet("6 inch") == Success(Finite(0.5))
  {
    Numerals();
    Numerals();
    assert IntToString(6) + " " + "inch" == "6 inch";
    InchSpellingRead(6, " ", "inch", 0.5);
  }

  /** "6\U{201D}" is half a foot: the curly double quote is an inch mark as '"' is. */
  lemma SixCurlyDoubleQuote()
    ensures ToFeet("6\U{201D}") == Success(Finite(0.5))
  {
    Numerals();
    assert IntToString(6) + "" + "\U{201D}" == "6\U{201D}";
    InchSpellingRead(6, "", "\U{201D}", 0.5);
  }
}
