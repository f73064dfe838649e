/** Character classes as JavaScript regular expressions without the `u` flag see them:
    `\d`, `\w` and `\b` are ASCII-only. Case folding under `/i` is modelled as far as
    patterns made of ASCII letters can observe it (see `ToUpper`). */
module Chars {

  predicate IsDigit(c: char) {
    '0' <= c <= '9'
  }

  predicate IsAsciiLetter(c: char) {
    'a' <= c <= 'z' || 'A' <= c <= 'Z'
  }

  /** `\w`: ASCII letters, digits and the underscore. */
  predicate IsWordChar(c: char) {
    IsAsciiLetter(c) || IsDigit(c) || c == '_'
  }

  /** `\b` at position `i` of `s`: exactly one of the characters either side of `i` is a
      word character, a position outside the string counting as a non-word character. */
  predicate IsBoundary(s: string, i: int) {
    (0 < i <= |s| && IsWordChar(s[i - 1])) != (0 <= i < |s| && IsWordChar(s[i]))
  }

  /** `[0-9a-fA-F]`. */
  predicate IsHexDigit(c: char) {
    IsDigit(c) || 'a' <= c <= 'f' || 'A' <= c <= 'F'
  }

  /** The canonical form `/i` compares, as seen by an ASCII pattern character. Without the
      `u` flag every code unit is upper-cased, except that a unit outside ASCII is never
      mapped onto an ASCII one (so `ı` and `ſ` stay themselves). A non-ASCII unit therefore
      never canonicalises to an ASCII letter, and an ASCII letter of the text matches an ASCII
      pattern letter exactly when their upper cases agree: mapping ASCII lower case to upper
      case and leaving every other unit alone decides the same comparisons. */
  function ToUpper(c: char): (u: char)
    ensures IsWordChar(u) <==> IsWordChar(c)
    ensures 'a' <= c <= 'z' ==> 'A' <= u <= 'Z'
    ensures !('a' <= c <= 'z') ==> u == c
  {
    if 'a' <= c <= 'z' then (c as int - 32) as char else c
  }

  function UpperString(s: string): (r: string)
    ensures |r| == |s|
    ensures forall k :: 0 <= k < |s| ==> r[k] == ToUpper(s[k])
  {
    if |s| == 0 then [] else [ToUpper(s[0])] + UpperString(s[1..])
  }

  /** The characters `String.prototype.trim` removes: ECMAScript WhiteSpace (TAB, VT, FF,
      ZWNBSP and every space separator) and LineTerminator (LF, CR, LS, PS). */
  predicate IsWhitespace(c: char) {
    || c == '\t' || c == '\n' || c == '\U{000B}' || c == '\U{000C}' || c == '\r'
    || c == ' ' || c == '\U{00A0}' || c == '\U{1680}' || '\U{2000}' <= c <= '\U{200A}'
    || c == '\U{2028}' || c == '\U{2029}' || c == '\U{202F}' || c == '\U{205F}'
    || c == '\U{3000}' || c == '\U{FEFF}'
  }

  predicate AllWhitespace(s: string) {
    forall k :: 0 <= k < |s| ==> IsWhitespace(s[k])
  }

  predicate NoDigits(s: string) {
    forall k :: 0 <= k < |s| ==> !IsDigit(s[k])
  }

  predicate AllDigits(s: string) {
    forall k :: 0 <= k < |s| ==> IsDigit(s[k])
  }

  function DigitValue(c: char): (d: nat)
    requires IsDigit(c)
    ensures d < 10
  {
    c as int - '0' as int
  }

  /** `parseInt` on a string of decimal digits, which is exact below 2^53. */
  function DecimalValue(s: string): (v: nat)
    requires AllDigits(s)
    ensures v < Pow10(|s|)
  {
    if |s| == 0 then 0
    else DecimalValue(s[..|s| - 1]) * 10 + DigitValue(s[|s| - 1])
  }

  function Pow10(n: nat): (p: nat)
    ensures p >= 1
  {
    if n == 0 then 1 else 10 * Pow10(n - 1)
  }

  /** A leading digit other than zero puts the value in the top decade for its length. */
  lemma {:induction false} DecimalValueLowerBound(s: string)
    requires AllDigits(s) && |s| > 0 && s[0] != '0'
    ensures DecimalValue(s) >= Pow10(|s| - 1)
  {
    if |s| == 1 {
      assert DigitValue(s[0]) >= 1;
    } else {
      var init := s[..|s| - 1];
      assert init[0] == s[0];
      DecimalValueLowerBound(init);
    }
  }

  /** Reading digits `a` followed by digits `b` shifts the value of `a` left by `|b|` places. */
  lemma {:induction false} DecimalValueAppend(a: string, b: string)
    requires AllDigits(a) && AllDigits(b)
    ensures AllDigits(a + b)
    ensures DecimalValue(a + b) == DecimalValue(a) * Pow10(|b|) + DecimalValue(b)
  {
    if |b| > 0 {
      var b' := b[..|b| - 1];
      var d := DigitValue(b[|b| - 1]);
      assert (a + b)[..|a + b| - 1] == a + b';
      assert (a + b)[|a + b| - 1] == b[|b| - 1];
      DecimalValueAppend(a, b');
      var va, vb' := DecimalValue(a), DecimalValue(b');
      assert DecimalValue(a + b) == DecimalValue(a + b') * 10 + d;
      assert DecimalValue(b) == vb' * 10 + d;
      assert Pow10(|b|) == Pow10(|b'|) * 10;
      ShiftOneDigit(va, Pow10(|b'|), vb', d);
    } else {
      assert a + b == a;
    }
  }

  lemma ShiftOneDigit(v: int, p: int, w: int, d: int)
    ensures (v * p + w) * 10 + d == v * (p * 10) + (w * 10 + d)
  {
    assert (v * p + w) * 10 == v * p * 10 + w * 10;
    assert v * p * 10 == v * (p * 10);
  }
}
