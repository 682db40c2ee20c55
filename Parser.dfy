/**
 * The parser half of Imperial/Conversion.cs: text in any of the accepted feet
 * and inches spellings becomes a number of feet. The text is normalised by a
 * fixed chain of rewrites (drop '~', trim, lower-case, feet spellings to 'f',
 * inch spellings to 'i', add a missing 'f' or drop interior dashes), then split
 * on 'f' and 'i' and evaluated as feet + inches / 12. Malformed numbers and a
 * wrong number of parts give NaN; the three paths on which the code throws
 * instead are Failure results.
 */
module Parser {
  import opened Values
  import opened Strings
  import opened Numbers

  /** Removes every '~', trims white space and lower-cases what is left. */
  function ToLowerAndTrimWhitespaces(value: string): (r: string)
    ensures r == ToLower(Trim(Deleted(value, '~')))
    ensures '~' !in r
    ensures forall k :: 0 <= k < |r| ==> !IsUpper(r[k])
    ensures r == [] || (!IsWhiteSpace(r[0]) && !IsWhiteSpace(r[|r| - 1]))
  {
    var removed := Replace(value, "~", "");
    ReplaceByEmpty(value, '~');
    ReplaceRemoves(value, '~', "");
    var trimmed := Trim(removed);
    TrimKeepsAbsent(removed, '~');
    LowerKeepsEnds(trimmed);
    ToLower(trimmed)
  }

  /** Upper-case letters make no difference to the first step. */
  lemma CanonicalIgnoresCase(value: string)
    ensures ToLowerAndTrimWhitespaces(ToLower(value)) == ToLowerAndTrimWhitespaces(value)
  {
    DeletedLower(value, '~');
    TrimLower(Deleted(value, '~'));
    LowerIdempotent(Trim(Deleted(value, '~')));
  }

  /** White space around the text makes no difference to the first step. */
  lemma CanonicalIgnoresPadding(w1: string, value: string, w2: string)
    requires IsNullOrWhiteSpace(w1) && IsNullOrWhiteSpace(w2)
    ensures ToLowerAndTrimWhitespaces(w1 + value + w2) == ToLowerAndTrimWhitespaces(value)
  {
    DeletedConcat(w1 + value, w2, '~');
    DeletedConcat(w1, value, '~');
    DeletedAbsent(w1, '~');
    DeletedAbsent(w2, '~');
    TrimPadded(w1, Deleted(value, '~'), w2);
  }

  /** The first step is idempotent: its result is already canonical. */
  lemma CanonicalIdempotent(value: string)
    ensures ToLowerAndTrimWhitespaces(ToLowerAndTrimWhitespaces(value)) == ToLowerAndTrimWhitespaces(value)
  {
    var t := Trim(Deleted(value, '~'));
    var r := ToLower(t);
    DeletedAbsent(r, '~');
    TrimLower(t);
    TrimIdempotent(Deleted(value, '~'));
    LowerIdempotent(t);
  }

  /** No character of a feet spelling: text around a unit that the feet step leaves alone. */
  predicate NoFeetLetters(s: string) {
    && 'f' !in s && 'e' !in s && 'o' !in s && 't' !in s
    && '\'' !in s && '\U{2018}' !in s && '\U{2019}' !in s
  }

  /** No character of an inch spelling. */
  predicate NoInchLetters(s: string) {
    && 'i' !in s && 'n' !in s && 'c' !in s && 'h' !in s && 'e' !in s && 's' !in s
    && '"' !in s && '\U{201C}' !in s && '\U{201D}' !in s
  }

  /** The six rewrites of the feet step, one after the other. */
  lemma FeetChain(s: string, s1: string, s2: string, s3: string, s4: string, s5: string, s6: string)
    requires Replace(s, "'", "f") == s1 && Replace(s1, "feet", "f") == s2 && Replace(s2, "foot", "f") == s3
    requires Replace(s3, "ft", "f") == s4 && Replace(s4, "\U{2018}", "f") == s5 && Replace(s5, "\U{2019}", "f") == s6
    ensures ReplaceFeetWithF(s) == s6
  {
  }

  /** The six rewrites of the inch step, one after the other. */
  lemma InchChain(s: string, s1: string, s2: string, s3: string, s4: string, s5: string, s6: string)
    requires Replace(s, "inches", "i") == s1 && Replace(s1, "inch", "i") == s2 && Replace(s2, "in", "i") == s3
    requires Replace(s3, "\"", "i") == s4 && Replace(s4, "\U{201C}", "i") == s5 && Replace(s5, "\U{201D}", "i") == s6
    ensures ReplaceInchesWithI(s) == s6
  {
  }

  /**
   * Every spelling of the feet unit, written between text that holds none of
   * their characters, becomes the one marker 'f': "feet" and "foot" are
   * rewritten whole, before "ft" could take their last letters.
   */
  lemma FeetSpellingToF(a: string, w: string, b: string)
    requires w in {"'", "feet", "foot", "ft", "\U{2018}", "\U{2019}"}
    requires NoFeetLetters(a) && NoFeetLetters(b)
    ensures ReplaceFeetWithF(a + w + b) == a + "f" + b
  {
    if w == "'" {
      FeetMarkToF(a, b);
    } else if w == "feet" {
      FeetWordToF(a, b);
    } else if w == "foot" {
      FootWordToF(a, b);
    } else if w == "ft" {
      FtToF(a, b);
    } else if w == "\U{2018}" {
      OpeningQuoteToF(a, b);
    } else {
      ClosingQuoteToF(a, b);
    }
  }

  /** What the feet step leaves once the unit has become 'f'. */
  lemma FeetMarkerKept(t: string)
    requires 'e' !in t && 'o' !in t && 't' !in t && '\U{2018}' !in t && '\U{2019}' !in t
    ensures Replace(t, "feet", "f") == t && Replace(t, "foot", "f") == t && Replace(t, "ft", "f") == t
    ensures Replace(t, "\U{2018}", "f") == t && Replace(t, "\U{2019}", "f") == t
  {
    ReplaceAbsent(t, "feet", "f", 1);
    ReplaceAbsent(t, "foot", "f", 1);
    ReplaceAbsent(t, "ft", "f", 1);
    ReplaceAbsent(t, "\U{2018}", "f", 0);
    ReplaceAbsent(t, "\U{2019}", "f", 0);
  }

  lemma FeetMarkToF(a: string, b: string)
    requires NoFeetLetters(a) && NoFeetLetters(b)
    ensures ReplaceFeetWithF(a + "'" + b) == a + "f" + b
  {
    var t := a + "f" + b;
    ReplaceWord(a, "'", b, "f", 0);
    FeetMarkerKept(t);
    FeetChain(a + "'" + b, t, t, t, t, t, t);
  }

  lemma FeetWordToF(a: string, b: string)
    requires NoFeetLetters(a) && NoFeetLetters(b)
    ensures ReplaceFeetWithF(a + "feet" + b) == a + "f" + b
  {
    var s, t := a + "feet" + b, a + "f" + b;
    ReplaceAbsent(s, "'", "f", 0);
    ReplaceWord(a, "feet", b, "f", 0);
    FeetMarkerKept(t);
    FeetChain(s, s, t, t, t, t, t);
  }

  lemma FootWordToF(a: string, b: string)
    requires NoFeetLetters(a) && NoFeetLetters(b)
    ensures ReplaceFeetWithF(a + "foot" + b) == a + "f" + b
  {
    var s, t := a + "foot" + b, a + "f" + b;
    ReplaceAbsent(s, "'", "f", 0);
    ReplaceAbsent(s, "feet", "f", 1);
    ReplaceWord(a, "foot", b, "f", 0);
    FeetMarkerKept(t);
    FeetChain(s, s, s, t, t, t, t);
  }

  lemma FtToF(a: string, b: string)
    requires NoFeetLetters(a) && NoFeetLetters(b)
    ensures ReplaceFeetWithF(a + "ft" + b) == a + "f" + b
  {
    var s, t := a + "ft" + b, a + "f" + b;
    ReplaceAbsent(s, "'", "f", 0);
    ReplaceAbsent(s, "feet", "f", 1);
    ReplaceAbsent(s, "foot", "f", 1);
    ReplaceWord(a, "ft", b, "f", 0);
    FeetMarkerKept(t);
    FeetChain(s, s, s, s, t, t, t);
  }

  lemma OpeningQuoteToF(a: string, b: string)
    requires NoFeetLetters(a) && NoFeetLetters(b)
    ensures ReplaceFeetWithF(a + "\U{2018}" + b) == a + "f" + b
  {
    var s, t := a + "\U{2018}" + b, a + "f" + b;
    ReplaceAbsent(s, "'", "f", 0);
    ReplaceAbsent(s, "feet", "f", 0);
    ReplaceAbsent(s, "foot", "f", 0);
    ReplaceAbsent(s, "ft", "f", 0);
    ReplaceWord(a, "\U{2018}", b, "f", 0);
    FeetMarkerKept(t);
    FeetChain(s, s, s, s, s, t, t);
  }

  lemma ClosingQuoteToF(a: string, b: string)
    requires NoFeetLetters(a) && NoFeetLetters(b)
    ensures ReplaceFeetWithF(a + "\U{2019}" + b) == a + "f" + b
  {
    var s, t := a + "\U{2019}" + b, a + "f" + b;
    ReplaceAbsent(s, "'", "f", 0);
    ReplaceAbsent(s, "feet", "f", 0);
    ReplaceAbsent(s, "foot", "f", 0);
    ReplaceAbsent(s, "ft", "f", 0);
    ReplaceAbsent(s, "\U{2018}", "f", 0);
    ReplaceWord(a, "\U{2019}", b, "f", 0);
    FeetMarkerKept(t);
    FeetChain(s, s, s, s, s, s, t);
  }

  /**
   * Every spelling of the inch unit, written between text that holds none of
   * their characters, becomes the one marker 'i': "inches" before "inch"
   * before "in", so the longer words leave no letters behind.
   */
  lemma InchSpellingToI(a: string, w: string, b: string)
    requires w in {"inches", "inch", "in", "\"", "\U{201C}", "\U{201D}"}
    requires NoInchLetters(a) && NoInchLetters(b)
    ensures ReplaceInchesWithI(a + w + b) == a + "i" + b
  {
    if w == "inches" {
      InchesWordToI(a, b);
    } else if w == "inch" {
      InchWordToI(a, b);
    } else if w == "in" {
      InToI(a, b);
    } else if w == "\"" {
      InchMarkToI(a, b);
    } else if w == "\U{201C}" {
      OpeningDoubleQuoteToI(a, b);
    } else {
      ClosingDoubleQuoteToI(a, b);
    }
  }

  /** The words of the inch step find nothing in text without an 'n'. */
  lemma NoInchWords(s: string)
    requires 'n' !in s
    ensures Replace(s, "inches", "i") == s && Replace(s, "inch", "i") == s && Replace(s, "in", "i") == s
  {
    ReplaceAbsent(s, "inches", "i", 1);
    ReplaceAbsent(s, "inch", "i", 1);
    ReplaceAbsent(s, "in", "i", 1);
  }

  /** The inch marks find nothing in text without them. */
  lemma NoInchMarks(t: string)
    requires '"' !in t && '\U{201C}' !in t && '\U{201D}' !in t
    ensures Replace(t, "\"", "i") == t && Replace(t, "\U{201C}", "i") == t && Replace(t, "\U{201D}", "i") == t
  {
    ReplaceAbsent(t, "\"", "i", 0);
    ReplaceAbsent(t, "\U{201C}", "i", 0);
    ReplaceAbsent(t, "\U{201D}", "i", 0);
  }

  lemma InchesWordToI(a: string, b: string)
    requires NoInchLetters(a) && NoInchLetters(b)
    ensures ReplaceInchesWithI(a + "inches" + b) == a + "i" + b
  {
    var s, t := a + "inches" + b, a + "i" + b;
    ReplaceWord(a, "inches", b, "i", 0);
    NoInchWords(t);
    NoInchMarks(t);
    InchChain(s, t, t, t, t, t, t);
  }

  lemma InchWordToI(a: string, b: string)
    requires NoInchLetters(a) && NoInchLetters(b)
    ensures ReplaceInchesWithI(a + "inch" + b) == a + "i" + b
  {
    var s, t := a + "inch" + b, a + "i" + b;
    ReplaceAbsent(s, "inches", "i", 4);
    ReplaceWord(a, "inch", b, "i", 0);
    NoInchWords(t);
    NoInchMarks(t);
    InchChain(s, s, t, t, t, t, t);
  }

  lemma InToI(a: string, b: string)
    requires NoInchLetters(a) && NoInchLetters(b)
    ensures ReplaceInchesWithI(a + "in" + b) == a + "i" + b
  {
    var s, t := a + "in" + b, a + "i" + b;
    ReplaceAbsent(s, "inches", "i", 2);
    ReplaceAbsent(s, "inch", "i", 2);
    ReplaceWord(a, "in", b, "i", 0);
    NoInchWords(t);
    NoInchMarks(t);
    InchChain(s, s, s, t, t, t, t);
  }

  lemma InchMarkToI(a: string, b: string)
    requires NoInchLetters(a) && NoInchLetters(b)
    ensures ReplaceInchesWithI(a + "\"" + b) == a + "i" + b
  {
    var s, t := a + "\"" + b, a + "i" + b;
    NoInchWords(s);
    ReplaceWord(a, "\"", b, "i", 0);
    NoInchMarks(t);
    InchChain(s, s, s, s, t, t, t);
  }

  lemma OpeningDoubleQuoteToI(a: string, b: string)
    requires NoInchLetters(a) && NoInchLetters(b)
    ensures ReplaceInchesWithI(a + "\U{201C}" + b) == a + "i" + b
  {
    var s, t := a + "\U{201C}" + b, a + "i" + b;
    NoInchWords(s);
    ReplaceAbsent(s, "\"", "i", 0);
    ReplaceWord(a, "\U{201C}", b, "i", 0);
    NoInchMarks(t);
    InchChain(s, s, s, s, s, t, t);
  }

  lemma ClosingDoubleQuoteToI(a: string, b: string)
    requires NoInchLetters(a) && NoInchLetters(b)
    ensures ReplaceInchesWithI(a + "\U{201D}" + b) == a + "i" + b
  {
    var s, t := a + "\U{201D}" + b, a + "i" + b;
    NoInchWords(s);
    ReplaceAbsent(s, "\"", "i", 0);
    ReplaceAbsent(s, "\U{201C}", "i", 0);
    ReplaceWord(a, "\U{201D}", b, "i", 0);
    NoInchMarks(t);
    InchChain(s, s, s, s, s, s, t);
  }

  /** Rewrites every spelling of the feet unit to the marker 'f'. */
  function ReplaceFeetWithF(value: string): (r: string)
    ensures '\'' !in r && '\U{2018}' !in r && '\U{2019}' !in r
  {
    var s1 := Replace(value, "'", "f");
    ReplaceRemoves(value, '\'', "f");
    var s2 := Replace(s1, "feet", "f");
    ReplaceKeepsAbsent(s1, "feet", "f", '\'');
    var s3 := Replace(s2, "foot", "f");
    ReplaceKeepsAbsent(s2, "foot", "f", '\'');
    var s4 := Replace(s3, "ft", "f");
    ReplaceKeepsAbsent(s3, "ft", "f", '\'');
    var s5 := Replace(s4, "\U{2018}", "f");
    ReplaceKeepsAbsent(s4, "\U{2018}", "f", '\'');
    ReplaceRemoves(s4, '\U{2018}', "f");
    var s6 := Replace(s5, "\U{2019}", "f");
    ReplaceKeepsAbsent(s5, "\U{2019}", "f", '\'');
    ReplaceKeepsAbsent(s5, "\U{2019}", "f", '\U{2018}');
    ReplaceRemoves(s5, '\U{2019}', "f");
    s6
  }

  /** Rewrites every spelling of the inch unit to the marker 'i'; feet markers are untouched. */
  function ReplaceInchesWithI(value: string): (r: string)
    ensures '"' !in r && '\U{201C}' !in r && '\U{201D}' !in r
    ensures 'f' in r <==> 'f' in value
  {
    var s1 := Replace(value, "inches", "i");
    var s2 := Replace(s1, "inch", "i");
    var s3 := Replace(s2, "in", "i");
    var s4 := Replace(s3, "\"", "i");
    ReplaceRemoves(s3, '"', "i");
    var s5 := Replace(s4, "\U{201C}", "i");
    ReplaceKeepsAbsent(s4, "\U{201C}", "i", '"');
    ReplaceRemoves(s4, '\U{201C}', "i");
    var s6 := Replace(s5, "\U{201D}", "i");
    ReplaceKeepsAbsent(s5, "\U{201D}", "i", '"');
    ReplaceKeepsAbsent(s5, "\U{201D}", "i", '\U{201C}');
    ReplaceRemoves(s5, '\U{201D}', "i");
    KeepsF(value, "inches");
    KeepsF(s1, "inch");
    KeepsF(s2, "in");
    KeepsF(s3, "\"");
    KeepsF(s4, "\U{201C}");
    KeepsF(s5, "\U{201D}");
    s6
  }

  /** Rewriting a pattern without 'f' to "i" neither adds nor removes an 'f'. */
  lemma KeepsF(s: string, oldValue: string)
    requires |oldValue| > 0 && 'f' !in oldValue
    ensures 'f' in Replace(s, oldValue, "i") <==> 'f' in s
  {
    if 'f' in s {
      ReplaceKeepsPresent(s, oldValue, "i", 'f');
    } else {
      ReplaceKeepsAbsent(s, oldValue, "i", 'f');
    }
  }

  /** Drops every '-' when the first one is not at the start; a leading '-' is a sign. */
  function RemoveMiddleDash(value: string): (r: string)
    ensures IndexOf(value, '-') > 0 ==> r == Deleted(value, '-')
    ensures IndexOf(value, '-') <= 0 ==> r == value
  {
    if IndexOf(value, '-') > 0 then
      ReplaceByEmpty(value, '-');
      Replace(value, "-", "")
    else value
  }

  /**
   * Makes the text splittable on 'f': without a feet marker it is inches when an
   * 'i' follows the first character ("0f" is put in front) and feet otherwise
   * ('f' is appended); with a feet marker only dashes may go.
   */
  function AddMissingParts(value: string): (r: string)
    ensures 'f' in r
    ensures 'f' !in value && IndexOf(value, 'i') > 0 ==> r == "0f" + value
    ensures 'f' !in value && IndexOf(value, 'i') <= 0 ==> r == value + "f"
    ensures 'f' in value ==> r == value || r == Deleted(value, '-')
  {
    if IndexOf(value, 'f') == -1 then
      if IndexOf(value, 'i') > 0 then "0f" + value else value + "f"
    else
      RemoveMiddleDash(value)
  }

  /** The whole normalisation chain that ToFeet runs before splitting. */
  function Normalized(value: string): (r: string)
    ensures 'f' in r
  {
    AddMissingParts(ReplaceInchesWithI(ReplaceFeetWithF(ToLowerAndTrimWhitespaces(value))))
  }

  /** Keeps the parts that are not empty or white space, in order. */
  function NonBlank(parts: seq<string>): (r: seq<string>)
    ensures |r| <= |parts|
    ensures forall k :: 0 <= k < |r| ==> r[k] in parts && !IsNullOrWhiteSpace(r[k])
    ensures forall p :: p in parts && !IsNullOrWhiteSpace(p) ==> p in r
  {
    if parts == [] then []
    else (if IsNullOrWhiteSpace(parts[0]) then [] else [parts[0]]) + NonBlank(parts[1..])
  }

  /** Filtering distributes over concatenation, so the kept parts stay in order. */
  lemma {:induction false} NonBlankAppend(a: seq<string>, b: seq<string>)
    ensures NonBlank(a + b) == NonBlank(a) + NonBlank(b)
    decreases |a|
  {
    if a == [] {
      assert a + b == b;
    } else {
      assert (a + b)[1..] == a[1..] + b;
      NonBlankAppend(a[1..], b);
    }
  }

  /** A single part is kept exactly when it is not blank. */
  lemma NonBlankSingle(p: string)
    ensures NonBlank([p]) == if IsNullOrWhiteSpace(p) then [] else [p]
  {
  }

  /** value.Split(separator) without the parts that are empty or white space. */
  function SplitIntoNonEmptyParts(value: string, separator: char): (parts: seq<string>)
    ensures forall k :: 0 <= k < |parts| ==> separator !in parts[k] && !IsNullOrWhiteSpace(parts[k])
    ensures forall p :: p in Split(value, separator) && !IsNullOrWhiteSpace(p) ==> p in parts
  {
    NonBlank(Split(value, separator))
  }

  /** Splitting text joined from pieces gives back the pieces that are not blank, in order. */
  lemma SplitOfJoin(parts: seq<string>, separator: char)
    requires |parts| >= 1 && forall k :: 0 <= k < |parts| ==> separator !in parts[k]
    ensures SplitIntoNonEmptyParts(Join(parts, separator), separator) == NonBlank(parts)
  {
    JoinSplit(parts, separator);
  }

  /** double.TryParse, with NaN for text that is not a number. */
  function ToDouble(value: string): (r: Double)
    ensures !r.Infinity?
    ensures r.NaN? <==> ParseDecimal(value).None?
  {
    match ParseDecimal(value)
    case Some(v) => Finite(v)
    case None => NaN
  }

  /** int.Parse, which throws on malformed or out-of-range text. */
  function ToInteger(value: string): (r: Result<int>)
    ensures r.Failure? ==> r.error == FormatException || r.error == OverflowException
  {
    ParseInt32(value)
  }

  /** "n/d" as n divided by d in double arithmetic; NaN unless there are exactly two parts. */
  function ToFraction(value: string): (r: Result<Double>)
    ensures |SplitIntoNonEmptyParts(value, '/')| != 2 ==> r == Success(NaN)
    ensures r.Failure? ==> r.error == FormatException || r.error == OverflowException
  {
    var split := SplitIntoNonEmptyParts(value, '/');
    if |split| == 2 then
      var numerator :- ToInteger(split[0]);
      var denominator :- ToInteger(split[1]);
      Success(Quotient(Finite(numerator as real), Finite(denominator as real)))
    else Success(NaN)
  }

  /**
   * The inches figure: a plain number, "whole n/d" when splitting on spaces
   * gives two parts, or a bare fraction otherwise.
   */
  function ToDoubleWithFractions(value: string): (r: Result<Double>)
    ensures '/' !in value ==> r == Success(ToDouble(value))
    ensures r.Failure? ==> '/' in value && (r.error == FormatException || r.error == OverflowException)
  {
    if IndexOf(value, '/') == -1 then Success(ToDouble(value))
    else
      var wholeAndFraction := SplitIntoNonEmptyParts(value, ' ');
      if |wholeAndFraction| == 2 then
        var whole :- ToInteger(wholeAndFraction[0]);
        var fraction :- ToFraction(wholeAndFraction[1]);
        Success(Plus(Finite(whole as real), fraction))
      else ToFraction(value)
  }

  /**
   * Text to decimal feet. NaN when the text does not split into one or two
   * parts on the feet marker or a number in it is malformed; one part is feet,
   * and for two the first piece of the second part before 'i' is inches.
   */
  function ToFeet(value: string): (r: Result<Double>)
    ensures var values := SplitIntoNonEmptyParts(Normalized(value), 'f');
      |values| == 0 || |values| > 2 ==> r == Success(NaN)
    ensures var values := SplitIntoNonEmptyParts(Normalized(value), 'f');
      |values| == 1 ==> r == Success(ToDouble(values[0]))
    ensures var values := SplitIntoNonEmptyParts(Normalized(value), 'f');
      r == Failure(IndexOutOfRange) <==> |values| == 2 && SplitIntoNonEmptyParts(values[1], 'i') == []
    ensures var values := SplitIntoNonEmptyParts(Normalized(value), 'f');
      |values| == 2 && r.Success? ==>
        var inchesPart := SplitIntoNonEmptyParts(values[1], 'i');
        && inchesPart != []
        && ToDoubleWithFractions(inchesPart[0]).Success?
        && r.value == Plus(ToDouble(values[0]), Quotient(ToDoubleWithFractions(inchesPart[0]).value, Finite(12.0)))
    ensures r.Failure? ==> r.error == FormatException || r.error == OverflowException || r.error == IndexOutOfRange
  {
    ReadParts(SplitIntoNonEmptyParts(Normalized(value), 'f'))
  }

  /** Parsing is case-insensitive: "6FT" reads as "6ft" does. */
  lemma ToFeetIgnoresCase(value: string)
    ensures ToFeet(ToLower(value)) == ToFeet(value)
  {
    CanonicalIgnoresCase(value);
  }

  /** White space around the text makes no difference to what it reads as. */
  lemma ToFeetIgnoresPadding(w1: string, value: string, w2: string)
    requires IsNullOrWhiteSpace(w1) && IsNullOrWhiteSpace(w2)
    ensures ToFeet(w1 + value + w2) == ToFeet(value)
  {
    CanonicalIgnoresPadding(w1, value, w2);
  }

  /**
   * The reading of the parts around 'f': NaN for none or more than two parts,
   * the number for one, and for two the feet plus the first inches part over
   * 12, which throws IndexOutOfRangeException when there is no inches part.
   */
  function ReadParts(values: seq<string>): (r: Result<Double>)
    ensures |values| == 0 || |values| > 2 ==> r == Success(NaN)
    ensures |values| == 1 ==> r == Success(ToDouble(values[0]))
    ensures r == Failure(IndexOutOfRange) <==> |values| == 2 && SplitIntoNonEmptyParts(values[1], 'i') == []
    ensures r.Failure? ==> r.error == FormatException || r.error == OverflowException || r.error == IndexOutOfRange
    ensures |values| == 2 && r.Success? ==>
      var inchesPart := SplitIntoNonEmptyParts(values[1], 'i');
      && inchesPart != []
      && ToDoubleWithFractions(inchesPart[0]).Success?
      && r.value == Plus(ToDouble(values[0]), Quotient(ToDoubleWithFractions(inchesPart[0]).value, Finite(12.0)))
  {
    if 0 < |values| < 3 then
      var feet := ToDouble(values[0]);
      if |values| == 1 then Success(feet)
      else AddInches(feet, SplitIntoNonEmptyParts(values[1], 'i'))
    else Success(NaN)
  }

  /**
   * feet + inches / 12 for the first part after 'i'; indexing the first part of
   * an empty split throws IndexOutOfRangeException.
   */
  function AddInches(feet: Double, inchesPart: seq<string>): Result<Double> {
    if inchesPart == [] then Failure(IndexOutOfRange)
    else
      var inches :- ToDoubleWithFractions(inchesPart[0]);
      Success(Plus(feet, Quotient(inches, Finite(12.0))))
  }

  /** ToFeet with an explicit success flag: false exactly when the value is NaN. */
  function TryParseFeet(value: string): (r: Result<(bool, Double)>)
    ensures r.Failure? <==> ToFeet(value).Failure?
    ensures r.Failure? ==> r.error == ToFeet(value).error
    ensures r.Success? ==> r.value.1 == ToFeet(value).value && (r.value.0 <==> !r.value.1.NaN?)
  {
    var feet :- ToFeet(value);
    Success((!feet.NaN?, feet))
  }
}
