/**
 * The arbitrary-value check of the `size-hint` utility: the pattern
 * `^-?\d*\.?\d+(px|rem|em|vh|vw)$` read atom by atom, and a left-to-right
 * scanner proved to accept exactly the strings the pattern matches.
 */
module SizeHintLength {

  /** The class `\d` of a JavaScript pattern: the ASCII digits 0-9. */
  predicate IsDigit(c: char) {
    '0' <= c <= '9'
  }

  /** Every character of s[i..j] is a digit. */
  predicate DigitRun(s: string, i: nat, j: nat)
    requires i <= j <= |s|
  {
    forall t :: i <= t < j ==> IsDigit(s[t])
  }

  /** The alternatives of the group `(px|rem|em|vh|vw)`. */
  const Units: set<string> := {"px", "rem", "em", "vh", "vw"}

  // The pattern as a chain: each predicate matches one atom at a position
  // and hands what follows to the next. `^` fixes the start at 0 and `$`
  // (without the `m` flag) the end at |s|, so a trailing newline is no match.

  /** `^-?` followed by the rest of the pattern. */
  ghost predicate MatchesSizeHintPattern(s: string) {
    exists a :: 0 <= a <= |s| && (a == 0 || (a == 1 && s[0] == '-')) && IntegerDigitsFrom(s, a)
  }

  /** `\d*` from position a, followed by the rest. */
  ghost predicate IntegerDigitsFrom(s: string, a: nat)
    requires a <= |s|
  {
    exists b :: a <= b <= |s| && DigitRun(s, a, b) && OptionalDotFrom(s, b)
  }

  /** `\.?` from position b, followed by the rest. */
  ghost predicate OptionalDotFrom(s: string, b: nat)
    requires b <= |s|
  {
    exists c :: b <= c <= |s| && (c == b || (c == b + 1 && s[b] == '.')) && FractionDigitsFrom(s, c)
  }

  /** `\d+` from position c, then one unit that reaches the end of the string. */
  ghost predicate FractionDigitsFrom(s: string, c: nat)
    requires c <= |s|
  {
    exists d :: c < d <= |s| && DigitRun(s, c, d) && s[d..] in Units
  }

  /** The end of the longest run of digits starting at i. */
  function SkipDigits(s: string, i: nat): (j: nat)
    requires i <= |s|
    ensures i <= j <= |s| && DigitRun(s, i, j)
    ensures j == |s| || !IsDigit(s[j])
    decreases |s| - i
  {
    if i < |s| && IsDigit(s[i]) then SkipDigits(s, i + 1) else i
  }

  /**
   * The scanner: an optional minus, the longest run of digits, then either a
   * dot with at least one digit after it, or no dot and at least one digit
   * before; the remainder must be exactly one unit.
   */
  function IsSizeHintLength(s: string): bool {
    var a := SignLength(s);
    var b := SkipDigits(s, a);
    if b < |s| && s[b] == '.' then
      var d := SkipDigits(s, b + 1);
      d > b + 1 && s[d..] in Units
    else
      b > a && s[b..] in Units
  }

  /** Each unit starts with a letter, so it ends every digit run and is no dot or minus. */
  lemma UnitStart(u: string)
    requires u in Units
    ensures |u| > 0 && !IsDigit(u[0]) && u[0] != '.' && u[0] != '-'
  {
  }

  /** A run of digits that stops at a non-digit is the one SkipDigits finds. */
  lemma SkipDigitsExact(s: string, i: nat, j: nat)
    requires i <= j <= |s| && DigitRun(s, i, j)
    requires j == |s| || !IsDigit(s[j])
    ensures SkipDigits(s, i) == j
  {
  }

  /** What the scanner accepts, the pattern matches. */
  lemma ScannerSound(s: string)
    requires IsSizeHintLength(s)
    ensures MatchesSizeHintPattern(s)
  {
    var a := SignLength(s);
    var b := SkipDigits(s, a);
    if b < |s| && s[b] == '.' {
      var d := SkipDigits(s, b + 1);
      assert FractionDigitsFrom(s, b + 1);
      assert OptionalDotFrom(s, b);
    } else {
      assert DigitRun(s, b - 1, b);
      assert FractionDigitsFrom(s, b - 1);
      assert OptionalDotFrom(s, b - 1);
    }
    assert IntegerDigitsFrom(s, a);
  }

  /** The length of the optional minus the scanner skips. */
  function SignLength(s: string): nat {
    if |s| > 0 && s[0] == '-' then 1 else 0
  }

  /** What the pattern matches, the scanner accepts. */
  lemma ScannerComplete(s: string)
    requires MatchesSizeHintPattern(s)
    ensures IsSizeHintLength(s)
  {
    var a :| 0 <= a <= |s| && (a == 0 || (a == 1 && s[0] == '-')) && IntegerDigitsFrom(s, a);
    var b :| a <= b <= |s| && DigitRun(s, a, b) && OptionalDotFrom(s, b);
    var c :| b <= c <= |s| && (c == b || (c == b + 1 && s[b] == '.')) && FractionDigitsFrom(s, c);
    var d :| c < d <= |s| && DigitRun(s, c, d) && s[d..] in Units;
    ScanSplit(s, a, b, c, d);
  }

  /** Given the positions where a match of the pattern changes atom, the scanner accepts. */
  lemma ScanSplit(s: string, a: nat, b: nat, c: nat, d: nat)
    requires a <= b <= c < d <= |s|
    requires a == 0 || (a == 1 && s[0] == '-')
    requires DigitRun(s, a, b) && DigitRun(s, c, d)
    requires c == b || (c == b + 1 && s[b] == '.')
    requires s[d..] in Units
    ensures IsSizeHintLength(s)
  {
    UnitStart(s[d..]);
    assert s[d..][0] == s[d];
    SplitSign(s, a, b, c, d);
    if c == b + 1 {
      SkipDigitsExact(s, a, b);
      SkipDigitsExact(s, b + 1, d);
    } else {
      assert DigitRun(s, a, d);
      SkipDigitsExact(s, a, d);
    }
  }

  /** In a match of the pattern, the minus matched by `-?` is the one the scanner skips. */
  lemma SplitSign(s: string, a: nat, b: nat, c: nat, d: nat)
    requires a <= b <= c < d < |s|
    requires a == 0 || (a == 1 && s[0] == '-')
    requires DigitRun(s, a, b) && DigitRun(s, c, d)
    requires c == b || (c == b + 1 && s[b] == '.')
    ensures a == SignLength(s)
  {
  }

  /** The scanner decides the pattern: it accepts a string exactly when the whole string matches. */
  lemma ScannerMatchesPattern(s: string)
    ensures IsSizeHintLength(s) <==> MatchesSizeHintPattern(s)
  {
    if IsSizeHintLength(s) {
      ScannerSound(s);
    }
    if MatchesSizeHintPattern(s) {
      ScannerComplete(s);
    }
  }
}
