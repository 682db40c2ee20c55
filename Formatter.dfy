/**
 * The formatter half of Imperial/Conversion.cs: decimal feet become a
 * feet' inches n/d" string at a chosen smallest fractional denominator. The
 * value is split into whole feet, whole inches and the sub-inch remainder; a
 * remainder within epsilon of zero is dropped; otherwise it is rounded to the
 * denominator (marking the result approximate when rounding moved it by more
 * than epsilon), reduced by Euclid's algorithm and carried into inches and feet.
 * FeetInchesInfo collects the pieces and renders them.
 */
module Formatter {
  import opened Values
  import opened Numbers

  /** The denominator the one-argument ToFeetInches uses: sixteenths of an inch. */
  const DefaultDenominator: int := 16

  // ---------------------------------------------------------------------------
  // Greatest common divisor
  // ---------------------------------------------------------------------------

  /** Euclid's recurrence; GcdDivides and GcdGreatest show it is the greatest common divisor. */
  function Gcd(a: nat, b: nat): nat
    decreases b
  {
    if b == 0 then a else Gcd(b, a % b)
  }

  /** Division with remainder has exactly one quotient and remainder. */
  lemma DivModUnique(x: int, m: int, q: int, r: int)
    requires m > 0 && 0 <= r < m && x == q * m + r
    ensures x / m == q && x % m == r
  {
    var t := q - x / m;
    assert t * m == x % m - r;
  }

  /** A multiple of g leaves no remainder. */
  lemma MultipleMod(g: int, k: int)
    requires g > 0
    ensures (k * g) % g == 0 && (k * g) / g == k
  {
    DivModUnique(k * g, g, k, 0);
  }

  /** A sum of multiples of g is a multiple of g. */
  lemma DivisibleSum(q: int, b: int, r: int, g: int)
    requires g > 0 && b % g == 0 && r % g == 0
    ensures (q * b + r) % g == 0
  {
    var x := q * (b / g) + r / g;
    calc {
      q * b + r;
      { assert b == (b / g) * g; assert r == (r / g) * g; }
      q * ((b / g) * g) + (r / g) * g;
      x * g;
    }
    MultipleMod(g, x);
  }

  /** The result of the recurrence divides both arguments. */
  lemma {:induction false} GcdDivides(a: nat, b: nat)
    requires a > 0 || b > 0
    ensures Gcd(a, b) > 0 && a % Gcd(a, b) == 0 && b % Gcd(a, b) == 0
    decreases b
  {
    if b > 0 {
      GcdDivides(b, a % b);
      var g := Gcd(b, a % b);
      assert a == (a / b) * b + a % b;
      DivisibleSum(a / b, b, a % b, g);
    }
  }

  /** Every common divisor divides the result of the recurrence, so no common divisor is larger. */
  lemma {:induction false} GcdGreatest(a: nat, b: nat, k: int)
    requires k > 0 && a % k == 0 && b % k == 0
    ensures Gcd(a, b) % k == 0
    decreases b
  {
    if b > 0 {
      assert a % b == -(a / b) * b + a;
      DivisibleSum(-(a / b), b, a, k);
      GcdGreatest(b, a % b, k);
    }
  }

  /** A divisor of a positive number is no larger than it. */
  lemma DivisorAtMost(x: int, k: int)
    requires x > 0 && k > 0 && x % k == 0
    ensures k <= x
  {
    assert x == (x / k) * k;
    assert x / k >= 1;
  }

  /** Multiplying a positive number by a factor above 1 makes it larger. */
  lemma ProductAtLeast(g: int, k: int)
    requires g > 0 && k >= 0
    ensures g * (k + 1) >= g + k
  {
  }

  /** If g divides x and h divides x / g, then g * h divides x. */
  lemma DivisorOfQuotient(x: int, g: int, h: int)
    requires g > 0 && h > 0 && x % g == 0 && (x / g) % h == 0
    ensures x % (g * h) == 0
  {
    var q := (x / g) / h;
    assert x == q * (g * h) by {
      assert x == (x / g) * g;
      assert x / g == q * h;
    }
    MultipleMod(g * h, q);
  }

  /** Dividing both numbers by their gcd leaves numbers whose gcd is 1. */
  lemma ReducedIsCoprime(n: nat, d: nat)
    requires d > 0
    ensures Gcd(n, d) > 0 && Gcd(n / Gcd(n, d), d / Gcd(n, d)) == 1
  {
    var g := Gcd(n, d);
    GcdDivides(n, d);
    var n', d' := n / g, d / g;
    QuotientExact(n, g);
    QuotientExact(d, g);
    var h := Gcd(n', d');
    GcdDivides(n', d');
    DivisorOfQuotient(n, g, h);
    DivisorOfQuotient(d, g, h);
    GcdGreatest(n, d, g * h);
    DivisorAtMost(g, g * h);
    ProductAtLeast(g, h - 1);
  }

  /** EuclideanGCD: the loop of Conversion.cs, proved to compute Gcd. */
  method EuclideanGCD(a: int, b: int) returns (r: int)
    requires a >= 0 && b >= 0
    ensures r == Gcd(a, b)
    ensures a > 0 || b > 0 ==> r > 0 && a % r == 0 && b % r == 0
    ensures forall k :: k > 0 && a % k == 0 && b % k == 0 ==> r % k == 0
  {
    var x, y := a, b;
    while y != 0
      invariant x >= 0 && y >= 0
      invariant Gcd(x, y) == Gcd(a, b)
      decreases y
    {
      var m := x % y;
      x := y;
      y := m;
    }
    if a > 0 || b > 0 {
      GcdDivides(a, b);
    }
    forall k | k > 0 && a % k == 0 && b % k == 0
      ensures Gcd(a, b) % k == 0
    {
      GcdGreatest(a, b, k);
    }
    r := x;
  }

  // ---------------------------------------------------------------------------
  // Display components and their rendering
  // ---------------------------------------------------------------------------

  /** The fields of a FeetInchesInfo, as a value. */
  datatype Display = Display(
    feet: int,
    inches: int,
    numerator: int,
    denominator: int,
    isNegative: bool,
    isApproximate: bool)

  /** The space that goes between two rendered pieces, when something is already written. */
  function Separator(s: string): string {
    if |s| > 0 then " " else ""
  }

  /** The approximate marker that ToString writes first. */
  function Marker(d: Display): string {
    if d.isApproximate then "~ " else ""
  }

  /** ToString's text after the marker and the sign. */
  function AfterSign(d: Display): string {
    if d.isNegative then Marker(d) + "-" else Marker(d)
  }

  /** ToString's text after the feet: the count and ' when there are any. */
  function AfterFeet(d: Display): string {
    if d.feet > 0 then AfterSign(d) + IntToString(d.feet) + "'" else AfterSign(d)
  }

  /** ToString's text after the inches: '"' follows them only when no fraction will. */
  function AfterInches(d: Display): string {
    var w := AfterFeet(d);
    if d.inches > 0 then w + Separator(w) + IntToString(d.inches) + (if d.numerator == 0 then "\"" else "")
    else w
  }

  /** ToString's text after the fraction. */
  function AfterFraction(d: Display): string {
    var w := AfterInches(d);
    if d.numerator > 0 then w + Separator(w) + IntToString(d.numerator) + "/" + IntToString(d.denominator) + "\""
    else w
  }

  /**
   * FeetInchesInfo.ToString as a function: approximate marker, sign, feet,
   * inches, fraction, each separated by a space from what is already written;
   * "0'" after the marker when feet, inches and numerator are all zero.
   */
  function Render(d: Display): string {
    if d.feet == 0 && d.inches == 0 && d.numerator == 0 then Marker(d) + "0'" else AfterFraction(d)
  }

  /** Written numbers hold neither the approximate marker nor the inch mark. */
  lemma NumberText(n: int)
    ensures '~' !in IntToString(n) && '"' !in IntToString(n)
  {
    var t := NatToString(if n < 0 then -n else n);
    assert AllDigits(t);
    assert '~' !in t && '"' !in t;
  }

  /** The sign and the feet never contain an inch mark, and no '~' unless the display is approximate. */
  lemma FeetTextMarks(d: Display)
    ensures '"' !in AfterFeet(d)
    ensures !d.isApproximate ==> '~' !in AfterFeet(d)
  {
    NumberText(d.feet);
  }

  /** The inches add an inch mark only as their last character, and only when no fraction follows. */
  lemma InchesTextMarks(d: Display)
    ensures forall k :: 0 <= k < |AfterInches(d)| - 1 ==> AfterInches(d)[k] != '"'
    ensures d.numerator != 0 || d.inches <= 0 ==> '"' !in AfterInches(d)
    ensures d.numerator == 0 && d.inches > 0 ==> AfterInches(d)[|AfterInches(d)| - 1] == '"'
    ensures !d.isApproximate ==> '~' !in AfterInches(d)
  {
    FeetTextMarks(d);
    NumberText(d.inches);
  }

  /** The fraction, when there is one, ends the text with the only inch mark. */
  lemma FractionTextMarks(d: Display)
    ensures forall k :: 0 <= k < |AfterFraction(d)| - 1 ==> AfterFraction(d)[k] != '"'
    ensures (d.numerator == 0 && d.inches > 0) || d.numerator > 0 ==> AfterFraction(d)[|AfterFraction(d)| - 1] == '"'
    ensures !d.isApproximate ==> '~' !in AfterFraction(d)
  {
    InchesTextMarks(d);
    if d.numerator > 0 {
      NumberText(d.numerator);
      NumberText(d.denominator);
      var w := AfterInches(d);
      var u := w + Separator(w) + IntToString(d.numerator) + "/" + IntToString(d.denominator);
      assert AfterFraction(d) == u + "\"";
      assert '"' !in u;
      ClosedText(u);
    }
  }

  /** Text without an inch mark, closed by one, has it only at the end. */
  lemma ClosedText(u: string)
    requires '"' !in u
    ensures forall k :: 0 <= k < |u + "\""| - 1 ==> (u + "\"")[k] != '"'
    ensures (u + "\"")[|u + "\""| - 1] == '"'
  {
    forall k | 0 <= k < |u + "\""| - 1
      ensures (u + "\"")[k] != '"'
    {
      assert (u + "\"")[k] == u[k];
    }
  }


  /**
   * ToString's layout rules: the text starts with "~ " exactly when the
   * display is approximate; an inch mark, if any, is the last character, so
   * whole inches lose theirs when a fraction follows; a display with no feet,
   * inches or fraction is "0'" or "~ 0'", without a sign.
   */
  lemma RenderRules(d: Display)
    ensures d.isApproximate <==> |Render(d)| >= 2 && Render(d)[..2] == "~ "
    ensures forall k :: 0 <= k < |Render(d)| - 1 ==> Render(d)[k] != '"'
    ensures (d.numerator == 0 && d.inches > 0) || d.numerator > 0 ==> Render(d)[|Render(d)| - 1] == '"'
    ensures d.feet == 0 && d.inches == 0 && d.numerator == 0 ==>
      Render(d) == (if d.isApproximate then "~ 0'" else "0'") && '-' !in Render(d)
  {
    if d.feet == 0 && d.inches == 0 && d.numerator == 0 {
      assert Render(d) == Marker(d) + "0'";
    } else {
      assert Render(d) == AfterFraction(d);
      FractionTextMarks(d);
      MarkerLeads(d);
      if !d.isApproximate && |Render(d)| >= 2 {
        assert Render(d)[0] in AfterFraction(d);
      }
    }
  }

  /** The approximate marker stays in front of everything ToString appends. */
  lemma MarkerLeads(d: Display)
    ensures d.isApproximate ==> |AfterFraction(d)| >= 2 && AfterFraction(d)[..2] == "~ "
  {
    var w := AfterSign(d);
    assert |AfterFeet(d)| >= |w| && AfterFeet(d)[..|w|] == w;
    assert |AfterInches(d)| >= |w| && AfterInches(d)[..|w|] == w;
    assert |AfterFraction(d)| >= |w| && AfterFraction(d)[..|w|] == w;
    if d.isApproximate {
      assert w[..2] == "~ ";
      assert AfterFraction(d)[..2] == w[..2];
    }
  }

  /** The mutable helper object that ToFeetInches fills in and renders. */
  class FeetInchesInfo {
    var feet: int
    var inches: int
    var numerator: int
    var denominator: int
    var isNegative: bool
    var isApproximate: bool

    /** The object initializer: sign, feet and inches are set, the other fields keep their defaults. */
    constructor (isNegative: bool, feet: int, inches: int)
      ensures Value() == Display(feet, inches, 0, 0, isNegative, false)
    {
      this.feet := feet;
      this.inches := inches;
      this.numerator := 0;
      this.denominator := 0;
      this.isNegative := isNegative;
      this.isApproximate := false;
    }

    function Value(): Display
      reads this
    {
      Display(feet, inches, numerator, denominator, isNegative, isApproximate)
    }

    /** Builds the text by successive appends. */
    method ToString() returns (result: string)
      ensures result == Render(Value())
    {
      ghost var v := Value();
      result := "";
      if isApproximate {
        result := "~ " + result;
      }
      if isNegative {
        result := result + "-";
      }
      ghost var written := result;
      assert written == AfterSign(v);
      if feet > 0 {
        result := result + IntToString(feet) + "'";
        assert result == written + IntToString(feet) + "'";
      }
      assert result == AfterFeet(v);
      written := result;
      if inches > 0 {
        if |result| > 0 {
          result := result + " ";
        }
        assert result == written + Separator(written);
        result := result + IntToString(inches);
        if numerator == 0 {
          result := result + "\"";
        }
        assert result == written + Separator(written) + IntToString(inches) + (if numerator == 0 then "\"" else "");
      }
      assert result == AfterInches(v);
      written := result;
      if numerator > 0 {
        if |result| > 0 {
          result := result + " ";
        }
        assert result == written + Separator(written);
        result := result + IntToString(numerator) + "/" + IntToString(denominator) + "\"";
        assert result == written + Separator(written) + IntToString(numerator) + "/" + IntToString(denominator) + "\"";
      }
      assert result == AfterFraction(v);
      if feet == 0 && inches == 0 && numerator == 0 {
        result := "0'";
        if isApproximate {
          result := "~ " + result;
        }
      }
    }
  }

  // ---------------------------------------------------------------------------
  // Decimal feet to display components
  // ---------------------------------------------------------------------------

  function Abs(x: real): real {
    if x < 0.0 then -x else x
  }

  /** The tolerance below which a sub-inch remainder, or a rounding error, is ignored. */
  function Epsilon(smallestFractionalDenominator: int): real
    requires smallestFractionalDenominator >= 1
  {
    1.0 / smallestFractionalDenominator as real * 0.0001
  }

  /** The components ToFeetInches renders for value, after rounding, reduction and carry. */
  function Components(value: real, smallestFractionalDenominator: int): Display
    requires smallestFractionalDenominator >= 1
  {
    var positiveValue := Abs(value);
    var feet := positiveValue.Floor;
    var fractionalInches := 12.0 * (positiveValue - feet as real);
    var inches := fractionalInches.Floor;
    var remainder := fractionalInches - inches as real;
    if !(remainder > Epsilon(smallestFractionalDenominator)) then Display(feet, inches, 0, 0, value < 0.0, false)
    else WithFraction(feet, inches, remainder, smallestFractionalDenominator, value < 0.0)
  }

  /**
   * The components when the sub-inch remainder exceeds epsilon: the remainder
   * rounded to a multiple of 1/d, reduced, and carried into the inches and feet
   * when it rounds up to a whole inch.
   */
  function WithFraction(feet: int, inches: int, remainder: real, d: int, isNegative: bool): Display
    requires d >= 1 && remainder > Epsilon(d)
  {
    var rounded := RoundHalfAwayFromZero(remainder * d as real);
    var approximate := Abs(rounded as real / d as real - remainder) > Epsilon(d);
    var g := Gcd(rounded, d);
    var numerator := if g > 1 then rounded / g else rounded;
    var denominator := if g > 1 then d / g else d;
    Carried(feet, inches, numerator, denominator, isNegative, approximate)
  }

  /**
   * The reduced fraction placed after the feet and inches; a fraction equal to
   * one whole inch is carried into the inches, and twelve inches into the feet.
   */
  function Carried(feet: int, inches: int, numerator: int, denominator: int, isNegative: bool, approximate: bool): Display {
    if numerator != denominator then Display(feet, inches, numerator, denominator, isNegative, approximate)
    else if inches + 1 != 12 then Display(feet, inches + 1, 0, denominator, isNegative, approximate)
    else Display(feet + 1, 0, 0, denominator, isNegative, approximate)
  }

  /** The case split of WithFraction, given the gcd and the reduced fraction computed step by step. */
  lemma WithFractionIs(feet: int, inches: int, remainder: real, d: int, isNegative: bool,
                       g: int, numerator: int, denominator: int)
    requires d >= 1 && remainder > Epsilon(d)
    requires g == Gcd(RoundHalfAwayFromZero(remainder * d as real), d)
    requires numerator == if g > 1 then RoundHalfAwayFromZero(remainder * d as real) / g else RoundHalfAwayFromZero(remainder * d as real)
    requires denominator == if g > 1 then d / g else d
    ensures var approximate := Abs(RoundHalfAwayFromZero(remainder * d as real) as real / d as real - remainder) > Epsilon(d);
      WithFraction(feet, inches, remainder, d, isNegative) == Carried(feet, inches, numerator, denominator, isNegative, approximate)
  {
  }

  /** The text ToFeetInches returns for a valid denominator. */
  function FeetInchesText(value: real, smallestFractionalDenominator: int): string
    requires smallestFractionalDenominator >= 1
  {
    Render(Components(value, smallestFractionalDenominator))
  }

  /**
   * ToFeetInches(value, smallestFractionalDenominator): throws
   * InvalidOperationException for a denominator below 1, and otherwise fills a
   * FeetInchesInfo step by step and renders it.
   */
  method ToFeetInches(value: real, smallestFractionalDenominator: int) returns (r: Result<string>)
    ensures r.Failure? <==> smallestFractionalDenominator < 1
    ensures r.Failure? ==> r.error == InvalidOperation
    ensures r.Success? ==> r.value == FeetInchesText(value, smallestFractionalDenominator)
  {
    if smallestFractionalDenominator < 1 {
      return Failure(InvalidOperation);
    }
    ghost var expected := Components(value, smallestFractionalDenominator);
    var positiveValue := Abs(value);
    var feet := positiveValue.Floor;
    var fractionalInches := 12.0 * (positiveValue - feet as real);
    var inches := fractionalInches.Floor;
    var info := new FeetInchesInfo(value < 0.0, feet, inches);

    fractionalInches := fractionalInches - inches as real;
    var denominator := smallestFractionalDenominator;
    var epsilon := 1.0 / denominator as real * 0.0001;
    assert epsilon == Epsilon(smallestFractionalDenominator);
    if !(fractionalInches > epsilon) {
      assert info.Value() == expected;
      var text := info.ToString();
      return Success(text);
    }
    assert expected == WithFraction(feet, inches, fractionalInches, smallestFractionalDenominator, value < 0.0);

    var numerator := RoundHalfAwayFromZero(fractionalInches * denominator as real);
    var approximate := Abs(numerator as real / denominator as real - fractionalInches) > epsilon;
    if approximate {
      info.isApproximate := true;
    }
    var gcd := EuclideanGCD(numerator, denominator);
    if gcd > 1 {
      numerator := numerator / gcd;
      denominator := denominator / gcd;
    }
    WithFractionIs(feet, inches, fractionalInches, smallestFractionalDenominator, value < 0.0, gcd, numerator, denominator);
    info.numerator := numerator;
    info.denominator := denominator;
    if numerator != denominator {
      assert info.Value() == expected;
      var text := info.ToString();
      return Success(text);
    }

    info.inches := info.inches + 1;
    info.numerator := 0;
    if info.inches != 12 {
      assert info.Value() == expected;
      var text := info.ToString();
      return Success(text);
    }

    info.inches := 0;
    info.feet := info.feet + 1;
    assert info.Value() == expected;
    var text := info.ToString();
    return Success(text);
  }

  /** ToFeetInches(value): the same as asking for sixteenths of an inch. */
  method ToFeetInchesDefault(value: real) returns (r: Result<string>)
    ensures r == Success(FeetInchesText(value, DefaultDenominator))
  {
    r := ToFeetInches(value, DefaultDenominator);
  }

  // ---------------------------------------------------------------------------
  // What the components mean
  // ---------------------------------------------------------------------------

  /** The number of feet a Display shows (without its sign): feet plus inches and the fraction over 12. */
  function Shown(c: Display): real
    requires c.numerator > 0 ==> c.denominator > 0
  {
    c.feet as real + (c.inches as real + (if c.numerator > 0 then c.numerator as real / c.denominator as real else 0.0)) / 12.0
  }

  /** Math.Round of a value in (0, d) lies in [0, d]. */
  lemma RoundedInRange(x: real, d: int)
    requires d >= 1 && 0.0 < x < d as real
    ensures 0 <= RoundHalfAwayFromZero(x) <= d
  {
  }

  /** A remainder above epsilon and below one inch is between 0 and d steps of 1/d inch. */
  lemma ScaledRemainder(remainder: real, d: int)
    requires d >= 1 && Epsilon(d) < remainder < 1.0
    ensures 0.0 < remainder * d as real < d as real
    ensures 0 <= RoundHalfAwayFromZero(remainder * d as real) <= d
  {
    EpsilonSteps(d);
    assert remainder > 0.0;
    assert d as real - remainder * d as real == (1.0 - remainder) * d as real;
    RoundedInRange(remainder * d as real, d);
  }

  /** WithFraction keeps the components in range, with a reduced proper fraction of a divisor of d. */
  lemma WithFractionInRange(feet: int, inches: int, remainder: real, d: int, isNegative: bool)
    requires d >= 1 && Epsilon(d) < remainder < 1.0 && feet >= 0 && 0 <= inches < 12
    ensures var c := WithFraction(feet, inches, remainder, d, isNegative);
      && c.feet >= 0 && 0 <= c.inches < 12 && c.numerator >= 0 && c.isNegative == isNegative
      && (c.numerator > 0 ==> 0 < c.numerator < c.denominator && Gcd(c.numerator, c.denominator) == 1 && d % c.denominator == 0)
  {
    var rounded := RoundHalfAwayFromZero(remainder * d as real);
    ScaledRemainder(remainder, d);
    var numerator, denominator := ReducedFraction(rounded, d);
    WithFractionIs(feet, inches, remainder, d, isNegative, Gcd(rounded, d), numerator, denominator);
  }

  /**
   * WithFraction shows exactly the rounded remainder, carried into the inches
   * (and from there into the feet) when it rounds to a whole inch, and marks
   * the result approximate exactly when rounding moved the remainder by more
   * than epsilon.
   */
  lemma WithFractionShown(feet: int, inches: int, remainder: real, d: int, isNegative: bool)
    requires d >= 1 && Epsilon(d) < remainder < 1.0 && feet >= 0 && 0 <= inches < 12
    ensures var c := WithFraction(feet, inches, remainder, d, isNegative);
      var rounded := RoundHalfAwayFromZero(remainder * d as real);
      && (c.numerator > 0 ==> c.denominator > 0)
      && Shown(c) == feet as real + (inches as real + rounded as real / d as real) / 12.0
      && (c.isApproximate <==> Abs(rounded as real / d as real - remainder) > Epsilon(d))
  {
    WithFractionValue(feet, inches, remainder, d, isNegative);
    WithFractionMarked(feet, inches, remainder, d, isNegative);
  }

  /** The value WithFraction shows. */
  lemma WithFractionValue(feet: int, inches: int, remainder: real, d: int, isNegative: bool)
    requires d >= 1 && Epsilon(d) < remainder < 1.0 && feet >= 0 && 0 <= inches < 12
    ensures var c := WithFraction(feet, inches, remainder, d, isNegative);
      && (c.numerator > 0 ==> c.denominator > 0)
      && Shown(c) == feet as real + (inches as real + RoundHalfAwayFromZero(remainder * d as real) as real / d as real) / 12.0
  {
    var rounded := RoundHalfAwayFromZero(remainder * d as real);
    ScaledRemainder(remainder, d);
    var numerator, denominator := ReducedFraction(rounded, d);
    WithFractionIs(feet, inches, remainder, d, isNegative, Gcd(rounded, d), numerator, denominator);
    ShownAfterCarry(feet, inches, numerator, denominator, rounded, d, isNegative,
      Abs(rounded as real / d as real - remainder) > Epsilon(d));
  }

  /** WithFraction is approximate exactly when rounding moved the remainder by more than epsilon. */
  lemma WithFractionMarked(feet: int, inches: int, remainder: real, d: int, isNegative: bool)
    requires d >= 1 && Epsilon(d) < remainder
    ensures WithFraction(feet, inches, remainder, d, isNegative).isApproximate <==>
      Abs(RoundHalfAwayFromZero(remainder * d as real) as real / d as real - remainder) > Epsilon(d)
  {
  }

  /** The three outcomes of WithFraction all show rounded / d of an inch on top of the feet and inches. */
  lemma ShownAfterCarry(feet: int, inches: int, numerator: int, denominator: int, rounded: int, d: int,
                        isNegative: bool, approximate: bool)
    requires d >= 1 && 0 <= numerator <= denominator && denominator > 0
    requires numerator as real / denominator as real == rounded as real / d as real
    requires numerator == denominator ==> rounded == d
    ensures var c := Carried(feet, inches, numerator, denominator, isNegative, approximate);
      && (c.numerator > 0 ==> c.denominator > 0)
      && Shown(c) == feet as real + (inches as real + rounded as real / d as real) / 12.0
  {
    var shownRemainder := rounded as real / d as real;
    if numerator == denominator {
      assert shownRemainder == 1.0;
    } else if numerator == 0 {
      assert shownRemainder == 0.0;
    }
  }

  /**
   * The reduced form of rounded / d, for 0 <= rounded <= d: the same ratio in
   * lowest terms, over a divisor of d, equal to 1 only when rounded == d.
   */
  lemma ReducedFraction(rounded: nat, d: int) returns (numerator: int, denominator: int)
    requires 1 <= d && rounded <= d
    ensures var g := Gcd(rounded, d);
      && g > 0
      && numerator == (if g > 1 then rounded / g else rounded)
      && denominator == (if g > 1 then d / g else d)
    ensures 0 <= numerator <= denominator && denominator > 0
    ensures numerator as real / denominator as real == rounded as real / d as real
    ensures numerator > 0 && numerator != denominator ==> Gcd(numerator, denominator) == 1 && d % denominator == 0
    ensures numerator == denominator ==> rounded == d
  {
    var g := Gcd(rounded, d);
    GcdDivides(rounded, d);
    numerator, denominator := rounded / g, d / g;
    QuotientExact(rounded, g);
    QuotientExact(d, g);
    assert numerator <= denominator by {
      ProductMonotone(numerator, denominator, g);
    }
    assert numerator as real / denominator as real == rounded as real / d as real by {
      CancelCommon(numerator, denominator, g);
    }
    if numerator > 0 && numerator != denominator {
      assert Gcd(numerator, denominator) == 1 by {
        ReducedIsCoprime(rounded, d);
      }
      assert d % denominator == 0 by {
        MultipleMod(denominator, g);
        assert d == g * denominator;
      }
    }
  }

  /** An exact quotient times the divisor gives back the dividend. */
  lemma QuotientExact(x: int, g: int)
    requires g > 0 && x % g == 0
    ensures x == (x / g) * g
    ensures x >= 0 ==> x / g >= 0
    ensures x > 0 ==> x / g > 0
  {
  }

  /** A common positive factor cancels from a ratio. */
  lemma CancelCommon(n: int, m: int, g: int)
    requires g > 0 && m > 0
    ensures (n * g) as real / (m * g) as real == n as real / m as real
  {
    assert (n * g) as real == n as real * g as real;
    assert (m * g) as real == m as real * g as real;
  }

  /** Dividing both sides of an inequality by a positive common factor keeps it. */
  lemma ProductMonotone(a: int, b: int, g: int)
    requires g > 0 && a * g <= b * g
    ensures a <= b
  {
    assert a * g - b * g == (a - b) * g;
  }

  /** The components lie in range: whole feet, 0 to 11 inches, a reduced proper fraction of a divisor of d. */
  lemma ComponentsInRange(value: real, smallestFractionalDenominator: int)
    requires smallestFractionalDenominator >= 1
    ensures var c := Components(value, smallestFractionalDenominator);
      && c.feet >= 0 && 0 <= c.inches < 12 && c.numerator >= 0
      && c.isNegative == (value < 0.0)
      && (c.numerator > 0 ==>
            && 0 < c.numerator < c.denominator
            && Gcd(c.numerator, c.denominator) == 1
            && smallestFractionalDenominator % c.denominator == 0)
  {
    var d := smallestFractionalDenominator;
    ComponentsSplit(value, d);
    var positiveValue := Abs(value);
    var feet := positiveValue.Floor;
    var inches := (12.0 * (positiveValue - feet as real)).Floor;
    var remainder := 12.0 * (positiveValue - feet as real) - inches as real;
    if remainder > Epsilon(d) {
      WithFractionInRange(feet, inches, remainder, d, value < 0.0);
    }
  }

  /**
   * The absolute value splits into whole feet, whole inches and a remainder in
   * [0, 1), and the components are those of the remainder's branch.
   */
  lemma ComponentsSplit(value: real, d: int)
    requires d >= 1
    ensures var positiveValue := Abs(value);
      var feet := positiveValue.Floor;
      var fractionalInches := 12.0 * (positiveValue - feet as real);
      var inches := fractionalInches.Floor;
      var remainder := fractionalInches - inches as real;
      && feet >= 0 && 0 <= inches < 12 && 0.0 <= remainder < 1.0
      && positiveValue == feet as real + (inches as real + remainder) / 12.0
      && Components(value, d) ==
           if !(remainder > Epsilon(d)) then Display(feet, inches, 0, 0, value < 0.0, false)
           else WithFraction(feet, inches, remainder, d, value < 0.0)
  {
    var positiveValue := Abs(value);
    var feet := positiveValue.Floor;
    var fractionalInches := 12.0 * (positiveValue - feet as real);
    var inches := fractionalInches.Floor;
    var remainder := fractionalInches - inches as real;
  }

  /** Dividing by a positive number keeps an inequality. */
  lemma DivideMonotone(a: real, b: real, d: real)
    requires d > 0.0 && a <= b
    ensures a / d <= b / d
  {
    assert b / d - a / d == (b - a) / d;
  }

  /** Multiplying by a positive number keeps an inequality. */
  lemma MultiplyMonotone(a: real, b: real, d: real)
    requires d > 0.0 && a <= b
    ensures a * d <= b * d
  {
    assert b * d - a * d == (b - a) * d;
  }

  /** Multiplying and dividing by the same nonzero number cancel. */
  lemma MultiplyDivide(x: real, d: real)
    requires d != 0.0
    ensures x * d / d == x && (x * d) / d == x
  {
  }

  /** Epsilon is a ten-thousandth of a 1/d inch. */
  lemma EpsilonSteps(d: int)
    requires d >= 1
    ensures Epsilon(d) == 0.0001 / d as real
    ensures Epsilon(d) * d as real == 0.0001
  {
  }

  /** Half a 1/d inch, in feet. */
  lemma HalfStepInFeet(d: int)
    requires d >= 1
    ensures 0.5 / d as real / 12.0 == 1.0 / (24.0 * d as real)
  {
  }

  /** The remainder of a value that is k steps of 1/d inch is a whole number of steps. */
  lemma GridRemainder(positiveValue: real, feet: int, inches: int, remainder: real, d: int, k: int) returns (m: int)
    requires d >= 1
    requires positiveValue == feet as real + (inches as real + remainder) / 12.0
    requires positiveValue * 12.0 * d as real == k as real
    ensures remainder * d as real == m as real
  {
    m := k - 12 * d * feet - d * inches;
    assert positiveValue * 12.0 == 12.0 * feet as real + inches as real + remainder;
  }

  /** A remainder that is a whole number m of 1/d steps is shown unchanged by either branch. */
  lemma GridShown(remainder: real, shownRemainder: real, d: int, m: int)
    requires d >= 1 && 0.0 <= remainder && remainder * d as real == m as real
    requires remainder > Epsilon(d) ==> shownRemainder == RoundHalfAwayFromZero(remainder * d as real) as real / d as real
    requires !(remainder > Epsilon(d)) ==> shownRemainder == 0.0
    ensures shownRemainder == remainder
  {
    if remainder > Epsilon(d) {
      assert RoundHalfAwayFromZero(remainder * d as real) == m by {
        assert RoundHalfAwayFromZero(m as real) == m;
      }
      assert shownRemainder == (remainder * d as real) / d as real;
      MultiplyDivide(remainder, d as real);
    } else {
      assert m as real <= 0.0001 by {
        MultiplyMonotone(remainder, Epsilon(d), d as real);
        EpsilonSteps(d);
      }
      assert remainder == 0.0 by {
        MultiplyDivide(remainder, d as real);
      }
    }
  }

  /** Scaling a difference of at most one half down by d. */
  lemma ScaledError(x: real, y: real, d: int)
    requires d >= 1 && Abs(x - y) <= 0.5
    ensures Abs(x / d as real - y / d as real) <= 0.5 / d as real
  {
    var e := x - y;
    assert x / d as real - y / d as real == e / d as real;
    if e >= 0.0 {
      DivideMonotone(e, 0.5, d as real);
      DivideMonotone(0.0, e, d as real);
    } else {
      DivideMonotone(-e, 0.5, d as real);
      assert -(e / d as real) == (-e) / d as real;
      DivideMonotone(e, 0.0, d as real);
    }
  }

  /**
   * The components in terms of the split of the absolute value: the shown
   * value replaces the remainder by the rounded fraction (or by nothing when the
   * remainder is within epsilon), at most half a 1/d inch away from it, and the
   * marker says whether it is more than epsilon away.
   */
  lemma ComponentsParts(value: real, d: int) returns (feet: int, inches: int, remainder: real, shownRemainder: real)
    requires d >= 1
    ensures var c := Components(value, d);
      && (c.numerator > 0 ==> c.denominator > 0)
      && Abs(value) == feet as real + (inches as real + remainder) / 12.0
      && 0.0 <= remainder < 1.0
      && Shown(c) == feet as real + (inches as real + shownRemainder) / 12.0
      && Abs(shownRemainder - remainder) <= 0.5 / d as real
      && (c.isApproximate <==> Abs(shownRemainder - remainder) > Epsilon(d))
    ensures remainder > Epsilon(d) ==> shownRemainder == RoundHalfAwayFromZero(remainder * d as real) as real / d as real
    ensures !(remainder > Epsilon(d)) ==> shownRemainder == 0.0
  {
    ComponentsSplit(value, d);
    var positiveValue := Abs(value);
    feet := positiveValue.Floor;
    inches := (12.0 * (positiveValue - feet as real)).Floor;
    remainder := 12.0 * (positiveValue - feet as real) - inches as real;
    if remainder > Epsilon(d) {
      shownRemainder := FractionBranch(feet, inches, remainder, d, value < 0.0);
    } else {
      shownRemainder := 0.0;
      assert Epsilon(d) <= 0.5 / d as real by {
        EpsilonSteps(d);
        DivideMonotone(0.0001, 0.5, d as real);
      }
    }
  }

  /** ComponentsParts when the remainder exceeds epsilon: the rounded fraction is shown. */
  lemma FractionBranch(feet: int, inches: int, remainder: real, d: int, isNegative: bool) returns (shownRemainder: real)
    requires d >= 1 && feet >= 0 && 0 <= inches < 12 && Epsilon(d) < remainder < 1.0
    ensures var c := WithFraction(feet, inches, remainder, d, isNegative);
      && (c.numerator > 0 ==> c.denominator > 0)
      && Shown(c) == feet as real + (inches as real + shownRemainder) / 12.0
      && Abs(shownRemainder - remainder) <= 0.5 / d as real
      && (c.isApproximate <==> Abs(shownRemainder - remainder) > Epsilon(d))
    ensures shownRemainder == RoundHalfAwayFromZero(remainder * d as real) as real / d as real
  {
    WithFractionShown(feet, inches, remainder, d, isNegative);
    RoundingError(remainder, d);
    shownRemainder := RoundHalfAwayFromZero(remainder * d as real) as real / d as real;
  }

  /** Rounding to the nearest 1/d moves a value by at most half of 1/d. */
  lemma RoundingError(remainder: real, d: int)
    requires d >= 1
    ensures Abs(RoundHalfAwayFromZero(remainder * d as real) as real / d as real - remainder) <= 0.5 / d as real
  {
    var rounded := RoundHalfAwayFromZero(remainder * d as real);
    var scaled := remainder * d as real;
    assert Abs(rounded as real - scaled) <= 0.5;
    ScaledError(rounded as real, scaled, d);
    MultiplyDivide(remainder, d as real);
    assert rounded as real / d as real - remainder == rounded as real / d as real - scaled / d as real;
  }

  /**
   * The shown value is within half a 1/d inch (1/(24d) of a foot) of the
   * absolute value, and the approximate marker is set exactly when it is more
   * than epsilon inches away from it.
   */
  lemma ComponentsAccuracy(value: real, smallestFractionalDenominator: int)
    requires smallestFractionalDenominator >= 1
    ensures var c := Components(value, smallestFractionalDenominator);
      && (c.numerator > 0 ==> c.denominator > 0)
      && Abs(Shown(c) - Abs(value)) <= 1.0 / (24.0 * smallestFractionalDenominator as real)
      && (c.isApproximate <==> Abs(Shown(c) - Abs(value)) > Epsilon(smallestFractionalDenominator) / 12.0)
  {
    var d := smallestFractionalDenominator;
    var feet, inches, remainder, shownRemainder := ComponentsParts(value, d);
    var c := Components(value, d);
    var error := shownRemainder - remainder;
    assert Shown(c) - Abs(value) == error / 12.0;
    assert Abs(error / 12.0) == Abs(error) / 12.0;
    HalfStepInFeet(d);
  }

  /**
   * A value that is a whole number of 1/d inches (k of them) is shown exactly
   * and without the approximate marker.
   */
  lemma ComponentsExactOnGrid(value: real, smallestFractionalDenominator: int, k: int)
    requires smallestFractionalDenominator >= 1
    requires Abs(value) * 12.0 * smallestFractionalDenominator as real == k as real
    ensures var c := Components(value, smallestFractionalDenominator);
      && (c.numerator > 0 ==> c.denominator > 0)
      && Shown(c) == Abs(value)
      && !c.isApproximate
  {
    var d := smallestFractionalDenominator;
    var feet, inches, remainder, shownRemainder := ComponentsParts(value, d);
    GridUnchanged(value, feet, inches, remainder, shownRemainder, d, k);
    EpsilonPositive(d);
    ExactWhenUnchanged(Components(value, d), Abs(value), feet, inches, remainder, shownRemainder, Epsilon(d));
  }

  /** Epsilon is positive. */
  lemma EpsilonPositive(d: int)
    requires d >= 1
    ensures Epsilon(d) > 0.0
  {
    EpsilonSteps(d);
  }

  /** On the grid, either branch shows the remainder unchanged. */
  lemma GridUnchanged(value: real, feet: int, inches: int, remainder: real, shownRemainder: real, d: int, k: int)
    requires d >= 1 && 0.0 <= remainder
    requires Abs(value) == feet as real + (inches as real + remainder) / 12.0
    requires Abs(value) * 12.0 * d as real == k as real
    requires remainder > Epsilon(d) ==> shownRemainder == RoundHalfAwayFromZero(remainder * d as real) as real / d as real
    requires !(remainder > Epsilon(d)) ==> shownRemainder == 0.0
    ensures shownRemainder == remainder
  {
    var m := GridRemainder(Abs(value), feet, inches, remainder, d, k);
    GridShown(remainder, shownRemainder, d, m);
  }

  /** When the shown remainder is the remainder itself, the display shows the value exactly. */
  lemma ExactWhenUnchanged(c: Display, positiveValue: real, feet: int, inches: int, remainder: real,
                           shownRemainder: real, epsilon: real)
    requires c.numerator > 0 ==> c.denominator > 0
    requires positiveValue == feet as real + (inches as real + remainder) / 12.0
    requires Shown(c) == feet as real + (inches as real + shownRemainder) / 12.0
    requires c.isApproximate <==> Abs(shownRemainder - remainder) > epsilon
    requires shownRemainder == remainder && epsilon >= 0.0
    ensures Shown(c) == positiveValue && !c.isApproximate
  {
  }
}
