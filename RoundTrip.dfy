/**
 * Reading back what the formatter writes. For a non-negative value the text
 * ToFeetInches produces goes through the parser's normalisation to
 * "<feet>f<inches>i" and parses to exactly the feet, inches and fraction it
 * shows: within half a 1/d inch of the value, and equal to it when the value
 * is a whole number of 1/d inches.
 */
module RoundTrip {
  import opened Values
  import opened Strings
  import opened Numbers
  import opened Parser
  import opened Formatter

  // ---------------------------------------------------------------------------
  // The figures of a rendered display
  // ---------------------------------------------------------------------------

  /** Components that ToFeetInches can produce for a non-negative value with a 32-bit denominator. */
  predicate WellFormed(c: Display) {
    && c.feet >= 0 && 0 <= c.inches < 12 && c.numerator >= 0 && !c.isNegative
    && (c.numerator > 0 ==> 0 < c.numerator < c.denominator <= Int32Max)
  }

  predicate IsZero(c: Display) {
    c.feet == 0 && c.inches == 0 && c.numerator == 0
  }

  function Space(present: bool): string {
    if present then " " else ""
  }

  function FeetText(c: Display, feetMark: char): string
    requires WellFormed(c)
  {
    if c.feet > 0 then IntToString(c.feet) + [feetMark] else ""
  }

  function InchesText(c: Display, inchMark: char): string
    requires WellFormed(c)
  {
    if c.inches > 0 then Space(c.feet > 0) + IntToString(c.inches) + (if c.numerator == 0 then [inchMark] else "")
    else ""
  }

  function FractionText(c: Display, inchMark: char): string
    requires WellFormed(c)
  {
    if c.numerator > 0 then Space(c.feet > 0 || c.inches > 0) + Ratio(c.numerator, c.denominator, inchMark) else ""
  }

  /** A fraction of an inch, numerator over denominator, and its mark. */
  function Ratio(numerator: int, denominator: int, inchMark: char): string {
    IntToString(numerator) + "/" + IntToString(denominator) + [inchMark]
  }

  /** The figures of a display, with feetMark and inchMark as the unit marks. */
  function Layout(c: Display, feetMark: char, inchMark: char): string
    requires WellFormed(c)
  {
    if IsZero(c) then "0" + [feetMark]
    else FeetText(c, feetMark) + InchesText(c, inchMark) + FractionText(c, inchMark)
  }

  /** What Render writes in front of the figures: the approximate marker, and a stray space when no feet are shown. */
  function Lead(c: Display): string {
    Marker(c) + Space(c.isApproximate && c.feet == 0 && !IsZero(c))
  }

  /** Render's text after the feet, for a non-negative display. */
  lemma FeetStep(c: Display)
    requires WellFormed(c)
    ensures AfterFeet(c) == Marker(c) + FeetText(c, '\'')
  {
  }

  /** Appending after non-empty text puts one space in between. */
  lemma SeparatedAfter(lead: string, front: string, tail: string)
    requires |front| > 0
    ensures (lead + front) + Separator(lead + front) + tail == lead + front + (" " + tail)
  {
  }

  /** Render's text after the inches. */
  lemma InchesStep(c: Display)
    requires WellFormed(c)
    ensures AfterInches(c) == Marker(c) + Space(c.isApproximate && c.feet == 0 && c.inches > 0) + FeetText(c, '\'') + InchesText(c, '"')
  {
    FeetStep(c);
    if c.inches > 0 {
      var tail := IntToString(c.inches) + (if c.numerator == 0 then "\"" else "");
      if c.feet > 0 {
        InchesAfterFeet(c, AfterFeet(c), tail);
      } else {
        InchesFirst(c, AfterFeet(c), tail);
      }
    }
  }

  /** Inches written after the feet are separated from them by a space. */
  lemma InchesAfterFeet(c: Display, withFeet: string, tail: string)
    requires WellFormed(c) && c.inches > 0 && c.feet > 0
    requires withFeet == AfterFeet(c) == Marker(c) + FeetText(c, '\'')
    requires tail == IntToString(c.inches) + (if c.numerator == 0 then "\"" else "")
    ensures AfterInches(c) == Marker(c) + FeetText(c, '\'') + InchesText(c, '"')
  {
    assert InchesText(c, '"') == " " + tail;
    SeparatedAfter(Marker(c), FeetText(c, '\''), tail);
  }

  /** Inches written first follow the marker, and the space after it, when there is one. */
  lemma InchesFirst(c: Display, withFeet: string, tail: string)
    requires WellFormed(c) && c.inches > 0 && c.feet == 0
    requires withFeet == AfterFeet(c) == Marker(c) + FeetText(c, '\'')
    requires tail == IntToString(c.inches) + (if c.numerator == 0 then "\"" else "")
    ensures AfterInches(c) == Marker(c) + Space(c.isApproximate) + InchesText(c, '"')
  {
    assert FeetText(c, '\'') == "";
    assert InchesText(c, '"') == tail;
  }

  /** Render's text after the fraction, for a non-zero display. */
  lemma FractionStep(c: Display)
    requires WellFormed(c) && !IsZero(c)
    ensures AfterFraction(c) == Lead(c) + FeetText(c, '\'') + InchesText(c, '"') + FractionText(c, '"')
  {
    InchesStep(c);
    if c.numerator == 0 {
      NoFraction(c);
    } else if c.feet > 0 || c.inches > 0 {
      FractionAfterInches(c, Ratio(c.numerator, c.denominator, '"'));
    } else {
      FractionFirst(c, Ratio(c.numerator, c.denominator, '"'));
    }
  }

  /** Without a fraction, the text after the inches is the whole of it. */
  lemma NoFraction(c: Display)
    requires WellFormed(c) && !IsZero(c) && c.numerator == 0
    requires AfterInches(c) == Marker(c) + Space(c.isApproximate && c.feet == 0 && c.inches > 0) + FeetText(c, '\'') + InchesText(c, '"')
    ensures AfterFraction(c) == Lead(c) + FeetText(c, '\'') + InchesText(c, '"') + FractionText(c, '"')
  {
    assert Lead(c) == Marker(c) + Space(c.isApproximate && c.feet == 0 && c.inches > 0);
    assert FractionText(c, '"') == "";
  }

  /** A fraction written after feet or inches is separated from them by a space. */
  lemma FractionAfterInches(c: Display, tail: string)
    requires WellFormed(c) && c.numerator > 0 && (c.feet > 0 || c.inches > 0)
    requires AfterInches(c) == Marker(c) + Space(c.isApproximate && c.feet == 0 && c.inches > 0) + FeetText(c, '\'') + InchesText(c, '"')
    requires tail == Ratio(c.numerator, c.denominator, '"')
    ensures AfterFraction(c) == Lead(c) + FeetText(c, '\'') + InchesText(c, '"') + FractionText(c, '"')
  {
    assert Lead(c) == Marker(c) + Space(c.isApproximate && c.feet == 0 && c.inches > 0);
    assert FractionText(c, '"') == " " + tail;
    RatioAppended(AfterInches(c), Lead(c), FeetText(c, '\''), InchesText(c, '"'), IntToString(c.numerator), IntToString(c.denominator));
  }

  /** Appending a ratio after non-empty figures puts one space in between. */
  lemma RatioAppended(w: string, lead: string, feet: string, inches: string, numerator: string, denominator: string)
    requires w == lead + feet + inches && |feet + inches| > 0
    ensures w + Separator(w) + numerator + "/" + denominator + "\"" == lead + feet + inches + (" " + (numerator + "/" + denominator + ['"']))
  {
    assert Separator(w) == " ";
  }

  /** A fraction written first follows the marker, and the space after it, when there is one. */
  lemma FractionFirst(c: Display, tail: string)
    requires WellFormed(c) && c.numerator > 0 && c.feet == 0 && c.inches == 0
    requires AfterInches(c) == Marker(c) + Space(false) + FeetText(c, '\'') + InchesText(c, '"')
    requires tail == Ratio(c.numerator, c.denominator, '"')
    ensures AfterFraction(c) == Lead(c) + FeetText(c, '\'') + InchesText(c, '"') + FractionText(c, '"')
  {
    assert Lead(c) == Marker(c) + Separator(Marker(c));
    assert FractionText(c, '"') == "" + tail;
    RatioFirst(AfterInches(c), FeetText(c, '\''), InchesText(c, '"'), IntToString(c.numerator), IntToString(c.denominator));
  }

  /** A ratio written first follows what is already there, and a space when that is not empty. */
  lemma RatioFirst(w: string, feet: string, inches: string, numerator: string, denominator: string)
    requires feet == "" && inches == ""
    ensures w + Separator(w) + numerator + "/" + denominator + "\"" == w + Separator(w) + feet + inches + ("" + (numerator + "/" + denominator + ['"']))
  {
  }

  /** Render of a non-negative display is its lead followed by its figures with ' and " as marks. */
  lemma RenderIsLayout(c: Display)
    requires WellFormed(c)
    ensures Render(c) == Lead(c) + Layout(c, '\'', '"')
  {
    if !IsZero(c) {
      FractionStep(c);
    }
  }

  // ---------------------------------------------------------------------------
  // The characters of the figures
  // ---------------------------------------------------------------------------

  /** The characters figures are written with: digits, spaces, slashes and the two marks. */
  predicate Figure(x: char, feetMark: char, inchMark: char) {
    IsDigit(x) || x == ' ' || x == '/' || x == feetMark || x == inchMark
  }

  /** A character that figures are never written with, whatever the marks. */
  predicate Foreign(x: char) {
    !IsDigit(x) && x != ' ' && x != '/'
  }

  /** The decimal rendering of a count is made of digits only. */
  lemma CountDigits(n: int)
    requires n >= 0
    ensures |IntToString(n)| > 0 && IsDigit(IntToString(n)[0])
    ensures forall x :: x in IntToString(n) ==> IsDigit(x)
  {
  }

  /** Every character of the figures is a digit, a space, a slash or one of the marks. */
  lemma LayoutFigures(c: Display, feetMark: char, inchMark: char)
    requires WellFormed(c)
    ensures forall x :: x in Layout(c, feetMark, inchMark) ==> Figure(x, feetMark, inchMark)
  {
    if !IsZero(c) {
      FeetFigures(c, feetMark, inchMark);
      InchesFigures(c, feetMark, inchMark);
      FractionFigures(c, feetMark, inchMark);
    }
  }

  lemma FeetFigures(c: Display, feetMark: char, inchMark: char)
    requires WellFormed(c)
    ensures forall x :: x in FeetText(c, feetMark) ==> Figure(x, feetMark, inchMark)
  {
    CountDigits(c.feet);
  }

  lemma InchesFigures(c: Display, feetMark: char, inchMark: char)
    requires WellFormed(c)
    ensures forall x :: x in InchesText(c, inchMark) ==> Figure(x, feetMark, inchMark)
  {
    CountDigits(c.inches);
  }

  lemma FractionFigures(c: Display, feetMark: char, inchMark: char)
    requires WellFormed(c)
    ensures forall x :: x in FractionText(c, inchMark) ==> Figure(x, feetMark, inchMark)
  {
    if c.numerator > 0 {
      CountDigits(c.numerator);
      CountDigits(c.denominator);
    }
  }

  /** The figures start with a digit and end with a mark. */
  lemma LayoutEnds(c: Display, feetMark: char, inchMark: char)
    requires WellFormed(c)
    ensures var l := Layout(c, feetMark, inchMark);
      |l| > 0 && IsDigit(l[0]) && (l[|l| - 1] == feetMark || l[|l| - 1] == inchMark)
  {
    var l := Layout(c, feetMark, inchMark);
    CountDigits(c.feet);
    CountDigits(c.inches);
    CountDigits(c.numerator);
    if !IsZero(c) {
      var f, i, r := FeetText(c, feetMark), InchesText(c, inchMark), FractionText(c, inchMark);
      assert l == f + i + r;
      if c.feet > 0 {
        assert l[0] == f[0];
      } else if c.inches > 0 {
        assert l[0] == i[0];
      } else {
        assert l[0] == r[0];
      }
      if c.numerator > 0 {
        assert l[|l| - 1] == r[|r| - 1];
      } else if c.inches > 0 {
        assert l[|l| - 1] == i[|i| - 1];
      } else {
        assert l[|l| - 1] == f[|f| - 1];
      }
    }
  }

  // ---------------------------------------------------------------------------
  // Rewriting the marks
  // ---------------------------------------------------------------------------

  /** A mark after rewriting x to y. */
  function Swapped(mark: char, x: char, y: char): char {
    if mark == x then y else mark
  }

  /** Rewriting a foreign character leaves digits, spaces and slashes alone and rewrites a mark after them. */
  lemma MarkRewritten(s: string, mark: char, x: char, y: char)
    requires Foreign(x) && forall z :: z in s ==> !Foreign(z)
    ensures Replace(s + [mark], [x], [y]) == s + [Swapped(mark, x, y)]
  {
    ReplaceConcat(s, [mark], x, [y]);
    ReplaceAbsent(s, [x], [y], 0);
    assert Replace([mark], [x], [y]) == [Swapped(mark, x, y)] by {
      assert [mark][1..] == [];
    }
  }

  lemma FeetRewritten(c: Display, feetMark: char, x: char, y: char)
    requires WellFormed(c) && Foreign(x)
    ensures Replace(FeetText(c, feetMark), [x], [y]) == FeetText(c, Swapped(feetMark, x, y))
  {
    if c.feet > 0 {
      CountDigits(c.feet);
      MarkRewritten(IntToString(c.feet), feetMark, x, y);
    }
  }

  lemma InchesRewritten(c: Display, inchMark: char, x: char, y: char)
    requires WellFormed(c) && Foreign(x)
    ensures Replace(InchesText(c, inchMark), [x], [y]) == InchesText(c, Swapped(inchMark, x, y))
  {
    if c.inches > 0 {
      CountDigits(c.inches);
      var figures := Space(c.feet > 0) + IntToString(c.inches);
      if c.numerator == 0 {
        MarkRewritten(figures, inchMark, x, y);
      } else {
        ReplaceAbsent(figures, [x], [y], 0);
        assert InchesText(c, inchMark) == figures == InchesText(c, Swapped(inchMark, x, y));
      }
    }
  }

  lemma FractionRewritten(c: Display, inchMark: char, x: char, y: char)
    requires WellFormed(c) && Foreign(x)
    ensures Replace(FractionText(c, inchMark), [x], [y]) == FractionText(c, Swapped(inchMark, x, y))
  {
    if c.numerator > 0 {
      CountDigits(c.numerator);
      CountDigits(c.denominator);
      RatioRewritten(Space(c.feet > 0 || c.inches > 0), IntToString(c.numerator), IntToString(c.denominator), inchMark, x, y);
    }
  }

  lemma RatioRewritten(sp: string, n: string, d: string, inchMark: char, x: char, y: char)
    requires Foreign(x) && Pad(sp)
    requires forall z :: z in n ==> IsDigit(z)
    requires forall z :: z in d ==> IsDigit(z)
    ensures Replace(sp + (n + "/" + d + [inchMark]), [x], [y]) == sp + (n + "/" + d + [Swapped(inchMark, x, y)])
  {
    var figures := sp + (n + "/" + d);
    assert forall z :: z in figures ==> !Foreign(z);
    MarkRewritten(figures, inchMark, x, y);
    Regroup(sp, n + "/" + d, inchMark);
    Regroup(sp, n + "/" + d, Swapped(inchMark, x, y));
  }

  /** Appending a mark after a concatenation. */
  lemma Regroup(a: string, b: string, m: char)
    ensures a + (b + [m]) == a + b + [m]
  {
  }

  /** Rewriting a character that is not a digit, a space or a slash rewrites only the marks. */
  lemma LayoutRewritten(c: Display, feetMark: char, inchMark: char, x: char, y: char)
    requires WellFormed(c) && Foreign(x)
    ensures Replace(Layout(c, feetMark, inchMark), [x], [y]) == Layout(c, Swapped(feetMark, x, y), Swapped(inchMark, x, y))
  {
    if IsZero(c) {
      MarkRewritten("0", feetMark, x, y);
    } else {
      var f, i, r := FeetText(c, feetMark), InchesText(c, inchMark), FractionText(c, inchMark);
      ReplaceConcat(f + i, r, x, [y]);
      ReplaceConcat(f, i, x, [y]);
      FeetRewritten(c, feetMark, x, y);
      InchesRewritten(c, inchMark, x, y);
      FractionRewritten(c, inchMark, x, y);
    }
  }

  // ---------------------------------------------------------------------------
  // The normalisation chain on rendered text
  // ---------------------------------------------------------------------------

  /** Without its '~', the lead is white space only. */
  lemma LeadWithoutMarker(c: Display)
    ensures var w := Replace(Lead(c), "~", "");
      forall k :: 0 <= k < |w| ==> IsWhiteSpace(w[k])
  {
    var sp := Space(c.isApproximate && c.feet == 0 && !IsZero(c));
    if c.isApproximate {
      assert Lead(c) == ['~'] + (" " + sp);
      ReplaceConcat(['~'], " " + sp, '~', "");
      ReplaceAbsent(" " + sp, "~", "", 0);
      assert Replace(['~'], "~", "") == [] by {
        assert ['~'][1..] == [];
      }
    } else {
      assert Lead(c) == [];
    }
  }

  /** Dropping '~', trimming and lower-casing leaves the figures of a rendered display. */
  lemma LowerTrimRendered(c: Display)
    requires WellFormed(c)
    ensures ToLowerAndTrimWhitespaces(Render(c)) == Layout(c, '\'', '"')
  {
    var l := Layout(c, '\'', '"');
    RenderIsLayout(c);
    LayoutFigures(c, '\'', '"');
    LayoutEnds(c, '\'', '"');
    LeadWithoutMarker(c);
    LowerTrimAfterLead(Lead(c), l);
  }

  /** Text whose lead is white space once '~' is dropped, and whose rest is plain, comes out as the rest. */
  lemma LowerTrimAfterLead(lead: string, l: string)
    requires forall k :: 0 <= k < |Replace(lead, "~", "")| ==> IsWhiteSpace(Replace(lead, "~", "")[k])
    requires forall x :: x in l ==> x != '~' && !IsUpper(x)
    requires l != [] && !IsWhiteSpace(l[0]) && !IsWhiteSpace(l[|l| - 1])
    ensures ToLowerAndTrimWhitespaces(lead + l) == l
  {
    var w := Replace(lead, "~", "");
    assert Replace(lead + l, "~", "") == w + l by {
      ReplaceConcat(lead, l, '~', "");
      ReplaceAbsent(l, "~", "", 0);
    }
    assert Trim(w + l) == l by {
      TrimStartSkips(w, l, IsWhiteSpace);
      TrimStartKeeps(l, IsWhiteSpace);
      TrimEndKeeps(l, IsWhiteSpace);
    }
    LowerOfTrimmed(lead + l, l);
  }

  /** Text whose trimmed form has no capitals is left as that trimmed form. */
  lemma LowerOfTrimmed(value: string, l: string)
    requires Trim(Replace(value, "~", "")) == l
    requires forall x :: x in l ==> !IsUpper(x)
    ensures ToLowerAndTrimWhitespaces(value) == l
  {
    ToLowerKeeps(l);
  }

  /** Text whose only unit spelling is ' comes out of ReplaceFeetWithF with each ' rewritten to 'f'. */
  lemma FeetUnitsOnly(s: string)
    requires forall x :: x in Replace(s, "'", "f") ==> x != 'e' && x != 'o' && x != 't' && x != '\U{2018}' && x != '\U{2019}'
    ensures ReplaceFeetWithF(s) == Replace(s, "'", "f")
  {
    var t := Replace(s, "'", "f");
    ReplaceAbsent(t, "feet", "f", 1);
    ReplaceAbsent(t, "foot", "f", 1);
    ReplaceAbsent(t, "ft", "f", 1);
    ReplaceAbsent(t, "\U{2018}", "f", 0);
    ReplaceAbsent(t, "\U{2019}", "f", 0);
  }

  /** Text whose only inch spelling is '"' comes out of ReplaceInchesWithI with each '"' rewritten to 'i'. */
  lemma InchUnitsOnly(s: string)
    requires 'i' !in s
    requires forall x :: x in Replace(s, "\"", "i") ==> x != '\U{201C}' && x != '\U{201D}'
    ensures ReplaceInchesWithI(s) == Replace(s, "\"", "i")
  {
    ReplaceAbsent(s, "inches", "i", 0);
    ReplaceAbsent(s, "inch", "i", 0);
    ReplaceAbsent(s, "in", "i", 0);
    var t := Replace(s, "\"", "i");
    ReplaceAbsent(t, "\U{201C}", "i", 0);
    ReplaceAbsent(t, "\U{201D}", "i", 0);
  }

  /** The unit rewrites turn the figures' marks into 'f' and 'i'. */
  lemma UnitsRewritten(c: Display)
    requires WellFormed(c)
    ensures ReplaceInchesWithI(ReplaceFeetWithF(Layout(c, '\'', '"'))) == Layout(c, 'f', 'i')
  {
    FeetStepOnLayout(c);
    InchStepOnLayout(c);
  }

  /** The feet step turns the feet mark of the layout into 'f' and nothing else. */
  lemma FeetStepOnLayout(c: Display)
    requires WellFormed(c)
    ensures ReplaceFeetWithF(Layout(c, '\'', '"')) == Layout(c, 'f', '"')
  {
    LayoutRewritten(c, '\'', '"', '\'', 'f');
    LayoutFigures(c, 'f', '"');
    FeetUnitsOnly(Layout(c, '\'', '"'));
  }

  /** The inch step turns the inch mark of the layout into 'i' and nothing else. */
  lemma InchStepOnLayout(c: Display)
    requires WellFormed(c)
    ensures ReplaceInchesWithI(Layout(c, 'f', '"')) == Layout(c, 'f', 'i')
  {
    LayoutRewritten(c, 'f', '"', '"', 'i');
    LayoutFigures(c, 'f', '"');
    LayoutFigures(c, 'f', 'i');
    InchUnitsOnly(Layout(c, 'f', '"'));
  }


  /** The inches and the fraction, as the parser sees them after the feet marker. */
  function Rest(c: Display): string
    requires WellFormed(c)
  {
    InchesText(c, 'i') + FractionText(c, 'i')
  }

  /** AddMissingParts leaves the figures with their feet count first, "0" when there are no feet. */
  lemma PartsAdded(c: Display)
    requires WellFormed(c)
    ensures AddMissingParts(Layout(c, 'f', 'i')) == IntToString(c.feet) + "f" + Rest(c)
  {
    if c.feet > 0 {
      FeetFirst(c);
    } else if IsZero(c) {
      ZeroText();
      PartsKept("0f");
    } else {
      NoFeetFirst(c);
    }
  }

  lemma FeetFirst(c: Display)
    requires WellFormed(c) && c.feet > 0
    ensures AddMissingParts(Layout(c, 'f', 'i')) == IntToString(c.feet) + "f" + Rest(c)
  {
    var l := Layout(c, 'f', 'i');
    LayoutFigures(c, 'f', 'i');
    assert l == IntToString(c.feet) + "f" + Rest(c) by {
      assert FeetText(c, 'f') == IntToString(c.feet) + "f";
    }
    PartsKept(l);
  }

  lemma NoFeetFirst(c: Display)
    requires WellFormed(c) && c.feet == 0 && !IsZero(c)
    ensures AddMissingParts(Layout(c, 'f', 'i')) == IntToString(c.feet) + "f" + Rest(c)
  {
    NoFeetLayout(c);
    RestPrefixable(c);
    PartsPrefixed(Rest(c));
  }

  /** Without feet, the figures hold no feet marker, start with a digit and end with an inch marker. */
  lemma RestPrefixable(c: Display)
    requires WellFormed(c) && c.feet == 0 && !IsZero(c)
    ensures var r := Rest(c); 'f' !in r && r != [] && r[0] != 'i' && r[|r| - 1] == 'i'
  {
    NoFeetLayout(c);
    RestFigures(c);
    LayoutEnds(c, 'f', 'i');
  }

  /** Without feet the figures are the inches and the fraction alone. */
  lemma NoFeetLayout(c: Display)
    requires WellFormed(c) && c.feet == 0 && !IsZero(c)
    ensures Layout(c, 'f', 'i') == Rest(c)
  {
    assert FeetText(c, 'f') == "";
  }

  /** After the feet marker come digits, spaces, slashes and inch markers only. */
  lemma RestFigures(c: Display)
    requires WellFormed(c)
    ensures forall x :: x in Rest(c) ==> Figure(x, 'i', 'i')
  {
    InchesFigures(c, 'i', 'i');
    FractionFigures(c, 'i', 'i');
  }

  lemma ZeroText()
    ensures IntToString(0) == "0"
  {
  }

  /** Text with a feet marker and no dash is left as it is. */
  lemma PartsKept(l: string)
    requires 'f' in l && '-' !in l
    ensures AddMissingParts(l) == l
  {
  }

  /** Text without a feet marker that ends in an inch marker is inches: "0f" goes in front. */
  lemma PartsPrefixed(l: string)
    requires 'f' !in l && l != [] && l[0] != 'i' && l[|l| - 1] == 'i'
    ensures AddMissingParts(l) == IntToString(0) + "f" + l
  {
    assert IndexOf(l, 'i') > 0;
    ZeroText();
  }

  /** The whole normalisation turns a rendered display into "<feet>f" and the inches and fraction after it. */
  lemma NormalizedRendered(c: Display)
    requires WellFormed(c)
    ensures Normalized(Render(c)) == IntToString(c.feet) + "f" + Rest(c)
  {
    LowerTrimRendered(c);
    UnitsRewritten(c);
    PartsAdded(c);
  }

  // ---------------------------------------------------------------------------
  // Reading the figures back
  // ---------------------------------------------------------------------------

  /** The padding in front of a figure: nothing or one space. */
  predicate Pad(sp: string) {
    sp == "" || sp == " "
  }

  /** A figure with a digit in it is not blank. */
  lemma NotBlank(s: string, k: nat)
    requires k < |s| && IsDigit(s[k])
    ensures !IsNullOrWhiteSpace(s)
  {
  }

  lemma PaddedCount(sp: string, n: int)
    requires Pad(sp) && n >= 0
    ensures !IsNullOrWhiteSpace(sp + IntToString(n))
    ensures '/' !in sp + IntToString(n) && ' ' !in IntToString(n)
    ensures 'i' !in sp + IntToString(n) && 'f' !in sp + IntToString(n)
    ensures forall k :: 0 <= k < |sp| ==> IsNumberWhite(sp[k])
  {
    CountDigits(n);
    NotBlank(sp + IntToString(n), |sp|);
  }

  lemma NonBlankPair(a: string, b: string)
    requires !IsNullOrWhiteSpace(a) && !IsNullOrWhiteSpace(b)
    ensures NonBlank([a, b]) == [a, b]
  {
    assert [a, b][1..] == [b];
  }

  lemma NonBlankFirst(a: string)
    requires !IsNullOrWhiteSpace(a)
    ensures NonBlank([a, ""]) == [a]
  {
    assert [a, ""][1..] == [""];
  }

  lemma NonBlankSecond(b: string)
    requires !IsNullOrWhiteSpace(b)
    ensures NonBlank(["", b]) == [b]
  {
    assert ["", b][1..] == [b];
  }

  /** "n/d", padded or not, reads back as n / d. */
  lemma RatioRead(sp: string, n: int, d: int)
    requires Pad(sp) && 0 <= n <= Int32Max && 0 < d <= Int32Max
    ensures ToFraction(sp + IntToString(n) + "/" + IntToString(d)) == Success(Finite(n as real / d as real))
  {
    var a := sp + IntToString(n);
    var b := IntToString(d);
    PaddedCount(sp, n);
    PaddedCount("", d);
    assert "" + b == b;
    SplitAt(a, b, '/');
    SplitWithout(b, '/');
    NonBlankPair(a, b);
    ParseInt32OfInt(sp, n);
    ParseInt32OfInt("", d);
  }

  /** A padded whole number of inches reads back as itself. */
  lemma WholeRead(sp: string, i: int)
    requires Pad(sp) && i >= 0
    ensures ToDoubleWithFractions(sp + IntToString(i)) == Success(Finite(i as real))
  {
    PaddedCount(sp, i);
    ParseDecimalOfInt(sp, i);
  }

  /** A padded bare fraction "n/d" of an inch reads back as n / d. */
  lemma FractionOnlyRead(sp: string, n: int, d: int)
    requires Pad(sp) && 0 <= n <= Int32Max && 0 < d <= Int32Max
    ensures ToDoubleWithFractions(sp + IntToString(n) + "/" + IntToString(d)) == Success(Finite(n as real / d as real))
  {
    var t := IntToString(n) + "/" + IntToString(d);
    PaddedCount("", n);
    PaddedCount("", d);
    NotBlank(t, 0);
    RatioRead(sp, n, d);
    FractionOnlyParts(sp, IntToString(n), IntToString(d));
  }

  /** One padded word holding a '/' is a single part when split on spaces. */
  lemma FractionOnlyParts(sp: string, n: string, d: string)
    requires Pad(sp) && ' ' !in n + "/" + d && !IsNullOrWhiteSpace(n + "/" + d)
    ensures IndexOf(sp + n + "/" + d, '/') != -1
    ensures |SplitIntoNonEmptyParts(sp + n + "/" + d, ' ')| == 1
  {
    var v, t := sp + n + "/" + d, n + "/" + d;
    assert v == sp + t;
    assert v[|sp| + |n|] == '/';
    PaddedWord(sp, t);
  }

  /** A padded word is a single part when split on spaces. */
  lemma PaddedWord(sp: string, t: string)
    requires Pad(sp) && ' ' !in t && !IsNullOrWhiteSpace(t)
    ensures SplitIntoNonEmptyParts(sp + t, ' ') == [t]
  {
    SplitWithout(t, ' ');
    if sp == " " {
      SplitAt("", t, ' ');
      assert "" + [' '] + t == sp + t;
      NonBlankSecond(t);
    } else {
      assert sp + t == t;
      assert [t][1..] == [];
    }
  }

  /** A padded "i n/d" reads back as i plus n / d. */
  lemma MixedRead(sp: string, i: int, n: int, d: int)
    requires Pad(sp) && 0 <= i <= Int32Max && 0 <= n <= Int32Max && 0 < d <= Int32Max
    ensures ToDoubleWithFractions(sp + IntToString(i) + " " + IntToString(n) + "/" + IntToString(d))
              == Success(Plus(Finite(i as real), Finite(n as real / d as real)))
  {
    PaddedCount("", i);
    PaddedCount("", n);
    PaddedCount("", d);
    NotBlank(IntToString(n) + "/" + IntToString(d), 0);
    WordRead(i);
    RatioWordRead(n, d);
    MixedWords(sp, IntToString(i), IntToString(n), IntToString(d), i, n as real / d as real);
  }

  /** The decimal rendering of a 32-bit count, alone, reads back as the count. */
  lemma WordRead(i: int)
    requires 0 <= i <= Int32Max
    ensures ToInteger(IntToString(i)) == Success(i)
  {
    ParseInt32OfInt("", i);
    assert "" + IntToString(i) == IntToString(i);
  }

  /** An unpadded "n/d" reads back as n / d. */
  lemma RatioWordRead(n: int, d: int)
    requires 0 <= n <= Int32Max && 0 < d <= Int32Max
    ensures ToFraction(IntToString(n) + "/" + IntToString(d)) == Success(Finite(n as real / d as real))
  {
    RatioRead("", n, d);
    assert "" + IntToString(n) == IntToString(n);
  }

  /** A padded word that reads as i, a space and a fraction word that reads as q read back as i + q. */
  lemma MixedWords(sp: string, w: string, n: string, d: string, i: int, q: real)
    requires Pad(sp) && ' ' !in w && ' ' !in n + "/" + d
    requires !IsNullOrWhiteSpace(w) && !IsNullOrWhiteSpace(n + "/" + d)
    requires ToInteger(w) == Success(i) && ToFraction(n + "/" + d) == Success(Finite(q))
    ensures ToDoubleWithFractions(sp + w + " " + n + "/" + d) == Success(Plus(Finite(i as real), Finite(q)))
  {
    MixedParts(sp, w, n, d);
    MixedShape(sp + w + " " + n + "/" + d, w, n + "/" + d, i, q);
  }

  /** Text holding a '/' that splits on spaces into two parts is read as a whole number plus a fraction. */
  lemma MixedShape(v: string, w: string, t: string, i: int, q: real)
    requires IndexOf(v, '/') != -1 && SplitIntoNonEmptyParts(v, ' ') == [w, t]
    requires ToInteger(w) == Success(i) && ToFraction(t) == Success(Finite(q))
    ensures ToDoubleWithFractions(v) == Success(Plus(Finite(i as real), Finite(q)))
  {
  }

  lemma FiniteSum(a: real, b: real)
    ensures Plus(Finite(a), Finite(b)) == Finite(a + b)
  {
  }

  /** A padded word and a word holding a '/' are two parts when split on spaces. */
  lemma MixedParts(sp: string, w: string, n: string, d: string)
    requires Pad(sp) && ' ' !in w && ' ' !in n + "/" + d
    requires !IsNullOrWhiteSpace(w) && !IsNullOrWhiteSpace(n + "/" + d)
    ensures IndexOf(sp + w + " " + n + "/" + d, '/') != -1
    ensures SplitIntoNonEmptyParts(sp + w + " " + n + "/" + d, ' ') == [w, n + "/" + d]
  {
    var v, t := sp + w + " " + n + "/" + d, n + "/" + d;
    assert v == sp + (w + [' '] + t);
    assert v[|sp| + |w| + 1 + |n|] == '/';
    PaddedWords(sp, w, t);
  }

  /** A padded word, a space and a word are two parts when split on spaces. */
  lemma PaddedWords(sp: string, w: string, t: string)
    requires Pad(sp) && ' ' !in w && ' ' !in t
    requires !IsNullOrWhiteSpace(w) && !IsNullOrWhiteSpace(t)
    ensures SplitIntoNonEmptyParts(sp + (w + [' '] + t), ' ') == [w, t]
  {
    SplitAt(w, t, ' ');
    SplitWithout(t, ' ');
    NonBlankPair(w, t);
    if sp == " " {
      SplitAt("", w + [' '] + t, ' ');
      assert "" + [' '] + (w + [' '] + t) == sp + (w + [' '] + t);
      assert NonBlank(["", w, t]) == NonBlank([w, t]) by {
        assert ["", w, t][1..] == [w, t];
      }
    } else {
      assert sp + (w + [' '] + t) == w + [' '] + t;
    }
  }

  /** Normalised text that is a number and a feet marker alone reads as that number of feet. */
  lemma FeetOnlyRead(value: string, h: string, feet: Double)
    requires Normalized(value) == h + "f" && 'f' !in h && !IsNullOrWhiteSpace(h) && ToDouble(h) == feet
    ensures ToFeet(value) == Success(feet)
  {
    FeetOnlyParts(h);
  }

  lemma FeetOnlyParts(h: string)
    requires 'f' !in h && !IsNullOrWhiteSpace(h)
    ensures SplitIntoNonEmptyParts(h + "f", 'f') == [h]
  {
    SplitAt(h, "", 'f');
    assert h + "f" == h + ['f'] + "";
    assert Split("", 'f') == [""];
    NonBlankFirst(h);
  }

  /** Normalised text "<feet>f<inches>i" reads as the feet plus a twelfth of the inches. */
  lemma FeetAndInchesRead(value: string, h: string, body: string, feet: Double, inches: Double)
    requires Normalized(value) == h + "f" + (body + "i")
    requires 'f' !in h && !IsNullOrWhiteSpace(h) && ToDouble(h) == feet
    requires 'f' !in body && 'i' !in body && !IsNullOrWhiteSpace(body)
    requires ToDoubleWithFractions(body) == Success(inches)
    ensures ToFeet(value) == Success(Plus(feet, Quotient(inches, Finite(12.0))))
  {
    FeetAndInchesParts(h, body);
    FeetAndInchesShape(value, h, body + "i", body, feet, inches);
  }

  lemma FeetAndInchesShape(value: string, h: string, rest: string, body: string, feet: Double, inches: Double)
    requires SplitIntoNonEmptyParts(Normalized(value), 'f') == [h, rest]
    requires SplitIntoNonEmptyParts(rest, 'i') == [body]
    requires ToDouble(h) == feet && ToDoubleWithFractions(body) == Success(inches)
    ensures ToFeet(value) == Success(Plus(feet, Quotient(inches, Finite(12.0))))
  {
    TwoPartsRead(h, rest, body, feet, inches);
  }

  lemma TwoPartsRead(h: string, rest: string, body: string, feet: Double, inches: Double)
    requires SplitIntoNonEmptyParts(rest, 'i') == [body]
    requires ToDouble(h) == feet && ToDoubleWithFractions(body) == Success(inches)
    ensures ReadParts([h, rest]) == Success(Plus(feet, Quotient(inches, Finite(12.0))))
  {
    var values := [h, rest];
    assert |values| == 2 && values[0] == h && values[1] == rest;
    assert AddInches(feet, [body]) == Success(Plus(feet, Quotient(inches, Finite(12.0))));
  }

  /** "<h>f<body>i" splits into h and "<body>i" on the feet marker, and that into body on the inch marker. */
  lemma FeetAndInchesParts(h: string, body: string)
    requires 'f' !in h && !IsNullOrWhiteSpace(h)
    requires 'f' !in body && 'i' !in body && !IsNullOrWhiteSpace(body)
    ensures SplitIntoNonEmptyParts(h + "f" + (body + "i"), 'f') == [h, body + "i"]
    ensures SplitIntoNonEmptyParts(body + "i", 'i') == [body]
  {
    var rest := body + "i";
    assert !IsNullOrWhiteSpace(rest) by {
      var k :| 0 <= k < |body| && !IsWhiteSpace(body[k]);
      assert rest[k] == body[k];
    }
    SplitAt(h, rest, 'f');
    SplitWithout(rest, 'f');
    NonBlankPair(h, rest);
    SplitAt(body, "", 'i');
    assert body + ['i'] + "" == rest;
    assert Split("", 'i') == [""];
    NonBlankFirst(body);
  }

  /** The feet count written first reads back as itself. */
  lemma HeadRead(feet: int)
    requires feet >= 0
    ensures 'f' !in IntToString(feet) && !IsNullOrWhiteSpace(IntToString(feet))
    ensures ToDouble(IntToString(feet)) == Finite(feet as real)
  {
    PaddedCount("", feet);
    ParseDecimalOfInt("", feet);
    assert "" + IntToString(feet) == IntToString(feet);
  }

  /** Figures written with digits, spaces and slashes only hold neither marker. */
  lemma PlainBody(body: string, k: nat)
    requires forall z :: z in body ==> !Foreign(z)
    requires k < |body| && IsDigit(body[k])
    ensures 'f' !in body && 'i' !in body && !IsNullOrWhiteSpace(body)
  {
    NotBlank(body, k);
  }

  /** What the parser computes for whole inches is the value the display shows. */
  lemma WholeValue(c: Display)
    requires c.numerator == 0
    ensures Plus(Finite(c.feet as real), Quotient(Finite(c.inches as real), Finite(12.0))) == Finite(Shown(c))
  {
  }

  /** What the parser computes for inches and a fraction is the value the display shows. */
  lemma MixedValue(c: Display)
    requires c.numerator > 0 && c.denominator > 0
    ensures Plus(Finite(c.feet as real), Quotient(Plus(Finite(c.inches as real), Finite(c.numerator as real / c.denominator as real)), Finite(12.0)))
              == Finite(Shown(c))
  {
  }

  /** What the parser computes for a bare fraction is the value the display shows. */
  lemma FractionValueOnly(c: Display)
    requires c.inches == 0 && c.numerator > 0 && c.denominator > 0
    ensures Plus(Finite(c.feet as real), Quotient(Finite(c.numerator as real / c.denominator as real), Finite(12.0)))
              == Finite(Shown(c))
  {
  }

  /** Rendered text of a display without inches or fraction reads back as its feet. */
  lemma ReadFeetOnly(value: string, c: Display)
    requires WellFormed(c) && c.inches == 0 && c.numerator == 0
    requires Normalized(value) == IntToString(c.feet) + "f" + Rest(c)
    ensures ToFeet(value) == Success(Finite(Shown(c)))
  {
    assert Rest(c) == "";
    assert IntToString(c.feet) + "f" + Rest(c) == IntToString(c.feet) + "f";
    HeadRead(c.feet);
    FeetOnlyRead(value, IntToString(c.feet), Finite(c.feet as real));
  }

  /** Rendered text of a display with whole inches and no fraction reads back as feet plus inches / 12. */
  lemma ReadWholeInches(value: string, c: Display)
    requires WellFormed(c) && c.inches > 0 && c.numerator == 0
    requires Normalized(value) == IntToString(c.feet) + "f" + Rest(c)
    ensures ToFeet(value) == Success(Plus(Finite(c.feet as real), Quotient(Finite(c.inches as real), Finite(12.0))))
  {
    var sp := Space(c.feet > 0);
    var body := sp + IntToString(c.inches);
    assert Rest(c) == body + "i";
    HeadRead(c.feet);
    PaddedCount(sp, c.inches);
    WholeRead(sp, c.inches);
    FeetAndInchesRead(value, IntToString(c.feet), body, Finite(c.feet as real), Finite(c.inches as real));
  }

  /** Rendered text of a display with inches and a fraction reads back as feet plus (inches + n/d) / 12. */
  lemma ReadMixed(value: string, c: Display)
    requires WellFormed(c) && c.inches > 0 && c.numerator > 0
    requires Normalized(value) == IntToString(c.feet) + "f" + Rest(c)
    ensures ToFeet(value) == Success(Plus(Finite(c.feet as real),
      Quotient(Plus(Finite(c.inches as real), Finite(c.numerator as real / c.denominator as real)), Finite(12.0))))
  {
    var sp := Space(c.feet > 0);
    var i, n, d := IntToString(c.inches), IntToString(c.numerator), IntToString(c.denominator);
    var body := sp + i + " " + n + "/" + d;
    MixedRest(c, body);
    HeadRead(c.feet);
    MixedRead(sp, c.inches, c.numerator, c.denominator);
    FeetAndInchesRead(value, IntToString(c.feet), body, Finite(c.feet as real),
      Plus(Finite(c.inches as real), Finite(c.numerator as real / c.denominator as real)));
  }

  /** With inches and a fraction, what follows the feet marker is "<i> <n>/<d>" and an inch marker. */
  lemma MixedRest(c: Display, body: string)
    requires WellFormed(c) && c.inches > 0 && c.numerator > 0
    requires body == Space(c.feet > 0) + IntToString(c.inches) + " " + IntToString(c.numerator) + "/" + IntToString(c.denominator)
    ensures Rest(c) == body + "i"
    ensures 'f' !in body && 'i' !in body && !IsNullOrWhiteSpace(body)
  {
    var sp := Space(c.feet > 0);
    var i, n, d := IntToString(c.inches), IntToString(c.numerator), IntToString(c.denominator);
    assert InchesText(c, 'i') == sp + i + "";
    assert FractionText(c, 'i') == " " + (n + "/" + d + ['i']);
    CountDigits(c.inches);
    CountDigits(c.numerator);
    CountDigits(c.denominator);
    MixedJoin(sp, i, n, d);
  }

  lemma MixedJoin(sp: string, i: string, n: string, d: string)
    requires Pad(sp) && |i| > 0 && IsDigit(i[0])
    requires forall z :: z in i ==> IsDigit(z)
    requires forall z :: z in n ==> IsDigit(z)
    requires forall z :: z in d ==> IsDigit(z)
    ensures (sp + i + "") + (" " + (n + "/" + d + ['i'])) == (sp + i + " " + n + "/" + d) + "i"
    ensures var body := sp + i + " " + n + "/" + d; 'f' !in body && 'i' !in body && !IsNullOrWhiteSpace(body)
  {
    var body := sp + i + " " + n + "/" + d;
    assert body[|sp|] == i[0];
    PlainBody(body, |sp|);
  }

  /** Rendered text of a display with a fraction and no whole inches reads back as feet plus n/d / 12. */
  lemma ReadFractionOnly(value: string, c: Display)
    requires WellFormed(c) && c.inches == 0 && c.numerator > 0
    requires Normalized(value) == IntToString(c.feet) + "f" + Rest(c)
    ensures ToFeet(value) == Success(Plus(Finite(c.feet as real),
      Quotient(Finite(c.numerator as real / c.denominator as real), Finite(12.0))))
  {
    var sp := Space(c.feet > 0);
    var n, d := IntToString(c.numerator), IntToString(c.denominator);
    var body := sp + n + "/" + d;
    FractionRest(c, body);
    HeadRead(c.feet);
    FractionOnlyRead(sp, c.numerator, c.denominator);
    FeetAndInchesRead(value, IntToString(c.feet), body, Finite(c.feet as real),
      Finite(c.numerator as real / c.denominator as real));
  }

  /** With a fraction and no whole inches, what follows the feet marker is "<n>/<d>" and an inch marker. */
  lemma FractionRest(c: Display, body: string)
    requires WellFormed(c) && c.inches == 0 && c.numerator > 0
    requires body == Space(c.feet > 0) + IntToString(c.numerator) + "/" + IntToString(c.denominator)
    ensures Rest(c) == body + "i"
    ensures 'f' !in body && 'i' !in body && !IsNullOrWhiteSpace(body)
  {
    var sp := Space(c.feet > 0);
    var n, d := IntToString(c.numerator), IntToString(c.denominator);
    assert InchesText(c, 'i') == "";
    assert FractionText(c, 'i') == sp + (n + "/" + d + ['i']);
    CountDigits(c.numerator);
    CountDigits(c.denominator);
    FractionJoin(sp, n, d);
  }

  lemma FractionJoin(sp: string, n: string, d: string)
    requires Pad(sp) && |n| > 0 && IsDigit(n[0])
    requires forall z :: z in n ==> IsDigit(z)
    requires forall z :: z in d ==> IsDigit(z)
    ensures "" + (sp + (n + "/" + d + ['i'])) == (sp + n + "/" + d) + "i"
    ensures var body := sp + n + "/" + d; 'f' !in body && 'i' !in body && !IsNullOrWhiteSpace(body)
  {
    var body := sp + n + "/" + d;
    assert body[|sp|] == n[0];
    PlainBody(body, |sp|);
  }

  /**
   * A non-negative display, rendered by ToString and read back by ToFeet, gives
   * exactly the value its feet, inches and fraction show.
   */
  lemma RenderedReadsBack(c: Display)
    requires WellFormed(c)
    ensures ToFeet(Render(c)) == Success(Finite(Shown(c)))
  {
    NormalizedRendered(c);
    if c.numerator == 0 {
      if c.inches == 0 {
        ReadFeetOnly(Render(c), c);
      } else {
        ReadWholeInches(Render(c), c);
        WholeValue(c);
      }
    } else if c.inches > 0 {
      ReadMixed(Render(c), c);
      MixedValue(c);
    } else {
      ReadFractionOnly(Render(c), c);
      FractionValueOnly(c);
    }
  }

  // ---------------------------------------------------------------------------
  // Formatting and parsing back
  // ---------------------------------------------------------------------------

  /** The components of a non-negative value are a display the parser can read back. */
  lemma ComponentsWellFormed(value: real, smallestFractionalDenominator: int)
    requires value >= 0.0 && 1 <= smallestFractionalDenominator <= Int32Max
    ensures WellFormed(Components(value, smallestFractionalDenominator))
  {
    var c := Components(value, smallestFractionalDenominator);
    ComponentsInRange(value, smallestFractionalDenominator);
    if c.numerator > 0 {
      DivisorAtMost(smallestFractionalDenominator, c.denominator);
    }
  }

  /**
   * ToFeet reads what ToFeetInches writes for a non-negative value as the value
   * the text shows, which lies within half a 1/d inch of the value (1/(24d)
   * feet); it reads the value itself when that is a whole number of 1/d inches.
   */
  lemma FormattedReadsBack(value: real, smallestFractionalDenominator: int)
    requires value >= 0.0 && 1 <= smallestFractionalDenominator <= Int32Max
    ensures var c := Components(value, smallestFractionalDenominator);
      && (c.numerator > 0 ==> c.denominator > 0)
      && ToFeet(FeetInchesText(value, smallestFractionalDenominator)) == Success(Finite(Shown(c)))
      && Abs(Shown(c) - value) <= 1.0 / (24.0 * smallestFractionalDenominator as real)
  {
    var c := Components(value, smallestFractionalDenominator);
    ComponentsWellFormed(value, smallestFractionalDenominator);
    RenderedReadsBack(c);
    ComponentsAccuracy(value, smallestFractionalDenominator);
  }

  /** A value that is a whole number of 1/d inches is read back exactly. */
  lemma GridValueReadsBack(value: real, smallestFractionalDenominator: int, k: int)
    requires value >= 0.0 && 1 <= smallestFractionalDenominator <= Int32Max
    requires value * 12.0 * smallestFractionalDenominator as real == k as real
    ensures ToFeet(FeetInchesText(value, smallestFractionalDenominator)) == Success(Finite(value))
  {
    FormattedReadsBack(value, smallestFractionalDenominator);
    NonNegativeGrid(value, smallestFractionalDenominator, k);
    ComponentsExactOnGrid(value, smallestFractionalDenominator, k);
  }

  lemma NonNegativeGrid(value: real, d: int, k: int)
    requires value >= 0.0 && value * 12.0 * d as real == k as real
    ensures Abs(value) * 12.0 * d as real == k as real
  {
    assert Abs(value) == value;
  }
}
