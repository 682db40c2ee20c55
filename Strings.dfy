/**
 * The .NET string operations the parser is built from, with the semantics the
 * runtime gives them: ordinal, left-to-right, non-overlapping Replace; Split on
 * one character keeping empty pieces; Trim of white space at both ends;
 * IndexOf of a character; and lower-casing of the ASCII letters.
 */
module Strings {

  /** char.IsWhiteSpace: the Unicode space separators, line and paragraph separators, and U+0009-U+000D, U+0085. */
  predicate IsWhiteSpace(c: char) {
    || ('\t' <= c <= '\r') || c == ' ' || c == '\U{0085}' || c == '\U{00A0}' || c == '\U{1680}'
    || ('\U{2000}' <= c <= '\U{200A}') || c == '\U{2028}' || c == '\U{2029}'
    || c == '\U{202F}' || c == '\U{205F}' || c == '\U{3000}'
  }

  /** string.IsNullOrWhiteSpace (a Dafny string is never null). */
  predicate IsNullOrWhiteSpace(s: string) {
    forall k :: 0 <= k < |s| ==> IsWhiteSpace(s[k])
  }

  /** string.IndexOf(char): the first position of c, or -1. */
  function IndexOf(s: string, c: char): (r: int)
    ensures -1 <= r < |s|
    ensures r == -1 <==> c !in s
    ensures r >= 0 ==> s[r] == c && c !in s[..r]
  {
    if s == [] then -1
    else if s[0] == c then 0
    else
      var k := IndexOf(s[1..], c);
      if k < 0 then -1 else k + 1
  }

  /** The first occurrence of c is at i: the contract of IndexOf read backwards. */
  lemma IndexOfIs(s: string, c: char, i: nat)
    requires i < |s| && s[i] == c && c !in s[..i]
    ensures IndexOf(s, c) == i
  {
  }

  /**
   * string.Replace(oldValue, newValue): scans left to right and replaces every
   * non-overlapping occurrence of oldValue.
   */
  function Replace(s: string, oldValue: string, newValue: string): string
    requires |oldValue| > 0
    decreases |s|
  {
    if s == [] then []
    else if oldValue <= s then newValue + Replace(s[|oldValue|..], oldValue, newValue)
    else [s[0]] + Replace(s[1..], oldValue, newValue)
  }

  /** A pattern with a character that s lacks does not occur, so Replace changes nothing. */
  lemma {:induction false} ReplaceAbsent(s: string, oldValue: string, newValue: string, k: nat)
    requires k < |oldValue| && oldValue[k] !in s
    ensures Replace(s, oldValue, newValue) == s
    decreases |s|
  {
    if s != [] {
      assert !(oldValue <= s);
      ReplaceAbsent(s[1..], oldValue, newValue, k);
      assert [s[0]] + s[1..] == s;
    }
  }

  /**
   * A word whose first character does not occur before it, and one of whose
   * characters does not occur after it, is replaced exactly once.
   */
  lemma {:induction false} ReplaceWord(a: string, w: string, b: string, newValue: string, k: nat)
    requires |w| > 0 && w[0] !in a && k < |w| && w[k] !in b
    ensures Replace(a + w + b, w, newValue) == a + newValue + b
    decreases |a|
  {
    if a == [] {
      assert a + w + b == w + b && a + newValue + b == newValue + b;
      ReplaceAtStart(w, b, newValue);
      ReplaceAbsent(b, w, newValue, k);
    } else {
      var s := a + w + b;
      assert s[0] == a[0] && s[1..] == a[1..] + w + b;
      assert !(w <= s) by {
        assert s[0] != w[0];
      }
      ReplaceWord(a[1..], w, b, newValue, k);
      assert a + newValue + b == [a[0]] + (a[1..] + newValue + b);
    }
  }

  /** A text that starts with the pattern has it replaced first. */
  lemma ReplaceAtStart(w: string, b: string, newValue: string)
    requires |w| > 0
    ensures Replace(w + b, w, newValue) == newValue + Replace(b, w, newValue)
  {
    assert w <= w + b && (w + b)[|w|..] == b;
  }

  /** A one-character pattern never straddles two pieces, so Replace distributes over concatenation. */
  lemma {:induction false} ReplaceConcat(a: string, b: string, c: char, newValue: string)
    ensures Replace(a + b, [c], newValue) == Replace(a, [c], newValue) + Replace(b, [c], newValue)
    decreases |a|
  {
    if a != [] {
      assert (a + b)[1..] == a[1..] + b;
      assert [c] <= a + b <==> [c] <= a;
      ReplaceConcat(a[1..], b, c, newValue);
    } else {
      assert a + b == b;
    }
  }

  /** Replacing a one-character pattern rewrites every occurrence of that character. */
  lemma {:induction false} ReplaceCharAt(s: string, c: char, d: char, k: nat)
    requires k < |s|
    ensures |Replace(s, [c], [d])| == |s|
    ensures Replace(s, [c], [d])[k] == if s[k] == c then d else s[k]
    decreases |s|
  {
    ReplaceCharLength(s, c, d);
    assert [c] <= s <==> s[0] == c;
    if k > 0 {
      ReplaceCharAt(s[1..], c, d, k - 1);
    }
  }

  lemma {:induction false} ReplaceCharLength(s: string, c: char, d: char)
    ensures |Replace(s, [c], [d])| == |s|
    decreases |s|
  {
    if s != [] {
      assert [c] <= s <==> s[0] == c;
      ReplaceCharLength(s[1..], c, d);
    }
  }

  /** Replace introduces no character that is in neither the input nor the replacement. */
  lemma {:induction false} ReplaceKeepsAbsent(s: string, oldValue: string, newValue: string, x: char)
    requires |oldValue| > 0 && x !in s && x !in newValue
    ensures x !in Replace(s, oldValue, newValue)
    decreases |s|
  {
    if s != [] {
      if oldValue <= s {
        ReplaceKeepsAbsent(s[|oldValue|..], oldValue, newValue, x);
      } else {
        ReplaceKeepsAbsent(s[1..], oldValue, newValue, x);
      }
    }
  }

  /** Replace removes no character that is in neither the pattern nor the replacement. */
  lemma {:induction false} ReplaceKeepsPresent(s: string, oldValue: string, newValue: string, x: char)
    requires |oldValue| > 0 && x !in oldValue && x in s
    ensures x in Replace(s, oldValue, newValue)
    decreases |s|
  {
    if oldValue <= s {
      assert s[..|oldValue|] == oldValue;
      assert s == s[..|oldValue|] + s[|oldValue|..];
      ReplaceKeepsPresent(s[|oldValue|..], oldValue, newValue, x);
    } else if s[0] != x {
      assert s == [s[0]] + s[1..];
      ReplaceKeepsPresent(s[1..], oldValue, newValue, x);
    }
  }

  /** Replacing a character by something without it leaves none of it behind. */
  lemma {:induction false} ReplaceRemoves(s: string, c: char, newValue: string)
    requires c !in newValue
    ensures c !in Replace(s, [c], newValue)
    decreases |s|
  {
    if s != [] {
      assert [c] <= s <==> s[0] == c;
      ReplaceRemoves(s[1..], c, newValue);
    }
  }

  /** Reference definition of deleting every occurrence of a character. */
  function Deleted(s: string, c: char): (r: string)
    ensures c !in r
    ensures forall x :: x != c ==> (x in r <==> x in s)
    ensures |r| <= |s|
  {
    if s == [] then []
    else (if s[0] == c then [] else [s[0]]) + Deleted(s[1..], c)
  }

  /** Replacing a character by the empty string deletes it. */
  lemma {:induction false} ReplaceByEmpty(s: string, c: char)
    ensures Replace(s, [c], []) == Deleted(s, c)
    decreases |s|
  {
    if s != [] {
      assert [c] <= s <==> s[0] == c;
      ReplaceByEmpty(s[1..], c);
    }
  }

  /** string.Split(char): the pieces between separators, empty ones included. */
  function Split(s: string, separator: char): (parts: seq<string>)
    ensures |parts| >= 1
    ensures forall k :: 0 <= k < |parts| ==> separator !in parts[k]
    decreases |s|
  {
    if s == [] then [[]]
    else
      var rest := Split(s[1..], separator);
      if s[0] == separator then [[]] + rest
      else [[s[0]] + rest[0]] + rest[1..]
  }

  /** string.Join(char, parts): the inverse of Split. */
  function Join(parts: seq<string>, separator: char): string
    requires |parts| >= 1
  {
    if |parts| == 1 then parts[0] else parts[0] + [separator] + Join(parts[1..], separator)
  }

  /** Joining the pieces of a split with the same separator gives back the input. */
  lemma {:induction false} SplitJoin(s: string, separator: char)
    ensures Join(Split(s, separator), separator) == s
    decreases |s|
  {
    if s != [] {
      var rest := Split(s[1..], separator);
      SplitJoin(s[1..], separator);
      assert s == [s[0]] + s[1..];
      if s[0] == separator {
        assert Split(s, separator) == [[]] + rest;
        JoinCons([], rest, separator);
      } else {
        assert Split(s, separator) == [[s[0]] + rest[0]] + rest[1..];
        JoinPrepend(s[0], rest, separator);
      }
    }
  }

  /** A character put in front of the first piece comes out in front of the joined string. */
  lemma JoinPrepend(c: char, parts: seq<string>, separator: char)
    requires |parts| >= 1
    ensures Join([[c] + parts[0]] + parts[1..], separator) == [c] + Join(parts, separator)
  {
    if |parts| > 1 {
      JoinCons(parts[0], parts[1..], separator);
      JoinCons([c] + parts[0], parts[1..], separator);
      assert [parts[0]] + parts[1..] == parts;
    }
  }

  lemma JoinCons(first: string, rest: seq<string>, separator: char)
    requires |rest| >= 1
    ensures Join([first] + rest, separator) == first + [separator] + Join(rest, separator)
  {
    assert ([first] + rest)[1..] == rest;
  }

  /** Splitting pieces joined by a separator none of them holds gives back the pieces. */
  lemma {:induction false} JoinSplit(parts: seq<string>, separator: char)
    requires |parts| >= 1
    requires forall k :: 0 <= k < |parts| ==> separator !in parts[k]
    ensures Split(Join(parts, separator), separator) == parts
    decreases |parts|
  {
    if |parts| == 1 {
      SplitWithout(parts[0], separator);
    } else {
      JoinSplit(parts[1..], separator);
      SplitAt(parts[0], Join(parts[1..], separator), separator);
      assert [parts[0]] + parts[1..] == parts;
    }
  }

  /** A string without the separator splits into itself alone. */
  lemma {:induction false} SplitWithout(s: string, separator: char)
    requires separator !in s
    ensures Split(s, separator) == [s]
    decreases |s|
  {
    if s != [] {
      SplitWithout(s[1..], separator);
      assert s == [s[0]] + s[1..];
    }
  }

  /** The first separator ends the first piece. */
  lemma {:induction false} SplitAt(a: string, b: string, separator: char)
    requires separator !in a
    ensures Split(a + [separator] + b, separator) == [a] + Split(b, separator)
    decreases |a|
  {
    var s := a + [separator] + b;
    if a == [] {
      assert s[1..] == b;
    } else {
      assert s[1..] == a[1..] + [separator] + b;
      SplitAt(a[1..], b, separator);
      assert [a[0]] + a[1..] == a;
    }
  }

  /** Drops the leading characters that satisfy white. */
  function TrimStart(s: string, white: char -> bool): (r: string)
    ensures |r| <= |s| && r == s[|s| - |r|..]
    ensures forall k :: 0 <= k < |s| - |r| ==> white(s[k])
    ensures r == [] || !white(r[0])
    decreases |s|
  {
    if s != [] && white(s[0]) then TrimStart(s[1..], white) else s
  }

  /** Drops the trailing characters that satisfy white. */
  function TrimEnd(s: string, white: char -> bool): (r: string)
    ensures |r| <= |s| && r == s[..|r|]
    ensures forall k :: |r| <= k < |s| ==> white(s[k])
    ensures r == [] || !white(r[|r| - 1])
    decreases |s|
  {
    if s != [] && white(s[|s| - 1]) then TrimEnd(s[..|s| - 1], white) else s
  }

  /** string.Trim(): drops white space at both ends. */
  function Trim(s: string): (r: string)
    ensures r == [] || (!IsWhiteSpace(r[0]) && !IsWhiteSpace(r[|r| - 1]))
  {
    TrimEnd(TrimStart(s, IsWhiteSpace), IsWhiteSpace)
  }

  /** A string that starts with a character that is not white is not trimmed at the start. */
  lemma TrimStartKeeps(s: string, white: char -> bool)
    requires s != [] && !white(s[0])
    ensures TrimStart(s, white) == s
  {
  }

  /** Leading white characters are all dropped. */
  lemma {:induction false} TrimStartSkips(w: string, s: string, white: char -> bool)
    requires forall k :: 0 <= k < |w| ==> white(w[k])
    ensures TrimStart(w + s, white) == TrimStart(s, white)
    decreases |w|
  {
    if w != [] {
      assert (w + s)[1..] == w[1..] + s;
      TrimStartSkips(w[1..], s, white);
    } else {
      assert w + s == s;
    }
  }

  /** A string that ends with a character that is not white is not trimmed at the end. */
  lemma TrimEndKeeps(s: string, white: char -> bool)
    requires s != [] && !white(s[|s| - 1])
    ensures TrimEnd(s, white) == s
  {
  }

  /** Trailing white characters are all dropped. */
  lemma {:induction false} TrimEndSkips(s: string, w: string, white: char -> bool)
    requires forall k :: 0 <= k < |w| ==> white(w[k])
    ensures TrimEnd(s + w, white) == TrimEnd(s, white)
    decreases |w|
  {
    if w != [] {
      var t := s + w;
      assert t[..|t| - 1] == s + w[..|w| - 1];
      TrimEndSkips(s, w[..|w| - 1], white);
    } else {
      assert s + w == s;
    }
  }

  /** Trimming adds no character. */
  lemma TrimKeepsAbsent(s: string, c: char)
    requires c !in s
    ensures c !in Trim(s)
  {
    var start := TrimStart(s, IsWhiteSpace);
    assert c !in start by {
      assert start == s[|s| - |start|..];
    }
    assert Trim(s) == start[..|Trim(s)|];
  }

  predicate IsUpper(c: char) {
    'A' <= c <= 'Z'
  }

  /** char.ToLower on the ASCII range; other characters are kept. */
  function ToLowerChar(c: char): (r: char)
    ensures !IsUpper(r)
    ensures IsUpper(c) ==> r as int == c as int + 32
    ensures !IsUpper(c) ==> r == c
  {
    if IsUpper(c) then (c as int + 32) as char else c
  }

  /** string.ToLower(): lower-cases every character. */
  function ToLower(s: string): (r: string)
    ensures |r| == |s|
    ensures forall k :: 0 <= k < |s| ==> r[k] == ToLowerChar(s[k])
    ensures forall k :: 0 <= k < |r| ==> !IsUpper(r[k])
  {
    seq(|s|, k requires 0 <= k < |s| => ToLowerChar(s[k]))
  }

  /** A string without upper-case letters is its own lower-case form. */
  lemma ToLowerKeeps(s: string)
    requires forall k :: 0 <= k < |s| ==> !IsUpper(s[k])
    ensures ToLower(s) == s
  {
  }

  /** Lower-casing keeps every white-space character and makes none. */
  lemma WhiteLower(c: char)
    ensures IsWhiteSpace(ToLowerChar(c)) <==> IsWhiteSpace(c)
  {
  }

  /** Lower-casing keeps text free of white space at its ends. */
  lemma LowerKeepsEnds(t: string)
    requires t == [] || (!IsWhiteSpace(t[0]) && !IsWhiteSpace(t[|t| - 1]))
    ensures var r := ToLower(t); r == [] || (!IsWhiteSpace(r[0]) && !IsWhiteSpace(r[|r| - 1]))
  {
    if t != [] {
      WhiteLower(t[0]);
      WhiteLower(t[|t| - 1]);
    }
  }

  /** Lower-casing commutes with dropping leading white space. */
  lemma {:induction false} TrimStartLower(s: string)
    ensures TrimStart(ToLower(s), IsWhiteSpace) == ToLower(TrimStart(s, IsWhiteSpace))
    decreases |s|
  {
    if s != [] {
      WhiteLower(s[0]);
      assert ToLower(s)[1..] == ToLower(s[1..]);
      TrimStartLower(s[1..]);
    }
  }

  /** Lower-casing commutes with dropping trailing white space. */
  lemma {:induction false} TrimEndLower(s: string)
    ensures TrimEnd(ToLower(s), IsWhiteSpace) == ToLower(TrimEnd(s, IsWhiteSpace))
    decreases |s|
  {
    if s != [] {
      WhiteLower(s[|s| - 1]);
      assert ToLower(s)[..|s| - 1] == ToLower(s[..|s| - 1]);
      TrimEndLower(s[..|s| - 1]);
    }
  }

  /** Trimming a lower-cased string is lower-casing the trimmed one. */
  lemma TrimLower(s: string)
    ensures Trim(ToLower(s)) == ToLower(Trim(s))
  {
    TrimStartLower(s);
    TrimEndLower(TrimStart(s, IsWhiteSpace));
  }

  /** Deleting a character that is not a letter commutes with lower-casing. */
  lemma {:induction false} DeletedLower(s: string, c: char)
    requires !IsUpper(c) && !('a' <= c <= 'z')
    ensures Deleted(ToLower(s), c) == ToLower(Deleted(s, c))
    decreases |s|
  {
    if s != [] {
      assert ToLower(s)[1..] == ToLower(s[1..]);
      DeletedLower(s[1..], c);
      var head := if s[0] == c then [] else [s[0]];
      assert ToLower(head + Deleted(s[1..], c)) == ToLower(head) + ToLower(Deleted(s[1..], c));
    }
  }

  /** Lower-casing twice is lower-casing once. */
  lemma LowerIdempotent(s: string)
    ensures ToLower(ToLower(s)) == ToLower(s)
  {
  }

  /** Trimming twice is trimming once. */
  lemma TrimIdempotent(s: string)
    ensures Trim(Trim(s)) == Trim(s)
  {
    var t := Trim(s);
    if t != [] {
      TrimStartKeeps(t, IsWhiteSpace);
      TrimEndKeeps(t, IsWhiteSpace);
    }
  }

  /** Deleting a character that does not occur changes nothing. */
  lemma {:induction false} DeletedAbsent(s: string, c: char)
    requires c !in s
    ensures Deleted(s, c) == s
    decreases |s|
  {
    if s != [] {
      DeletedAbsent(s[1..], c);
      assert [s[0]] + s[1..] == s;
    }
  }

  /** Deleting a character distributes over concatenation. */
  lemma {:induction false} DeletedConcat(a: string, b: string, c: char)
    ensures Deleted(a + b, c) == Deleted(a, c) + Deleted(b, c)
    decreases |a|
  {
    if a == [] {
      assert a + b == b;
    } else {
      assert (a + b)[0] == a[0] && (a + b)[1..] == a[1..] + b;
      DeletedConcat(a[1..], b, c);
      var head := if a[0] == c then [] else [a[0]];
      assert Deleted(a + b, c) == head + Deleted(a[1..] + b, c);
      assert Deleted(a, c) == head + Deleted(a[1..], c);
    }
  }

  /** Once a character that is not white is reached, what follows is kept as it is. */
  lemma {:induction false} TrimStartAppend(x: string, w: string, white: char -> bool)
    requires exists k :: 0 <= k < |x| && !white(x[k])
    ensures TrimStart(x + w, white) == TrimStart(x, white) + w
    decreases |x|
  {
    assert (x + w)[0] == x[0];
    if white(x[0]) {
      assert (x + w)[1..] == x[1..] + w;
      var k :| 0 <= k < |x| && !white(x[k]);
      assert x[1..][k - 1] == x[k];
      TrimStartAppend(x[1..], w, white);
    }
  }

  /** White space around a string makes no difference to Trim. */
  lemma TrimPadded(w1: string, x: string, w2: string)
    requires IsNullOrWhiteSpace(w1) && IsNullOrWhiteSpace(w2)
    ensures Trim(w1 + x + w2) == Trim(x)
  {
    assert w1 + x + w2 == w1 + (x + w2);
    TrimStartSkips(w1, x + w2, IsWhiteSpace);
    if IsNullOrWhiteSpace(x) {
      AllWhiteTrimmed(x + w2);
      AllWhiteTrimmed(x);
    } else {
      TrimStartAppend(x, w2, IsWhiteSpace);
      TrimEndSkips(TrimStart(x, IsWhiteSpace), w2, IsWhiteSpace);
    }
  }

  /** White space alone trims to nothing. */
  lemma AllWhiteTrimmed(w: string)
    requires IsNullOrWhiteSpace(w)
    ensures TrimStart(w, IsWhiteSpace) == []
  {
    TrimStartSkips(w, [], IsWhiteSpace);
    assert w + [] == w;
  }
}
