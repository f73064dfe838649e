/** Fixed-shape regular expressions such as `\d{2}\/\d{2}\/\d{4}`: one character class per
    position, matched at a given index. */
module Templates {
  import opened Chars

  datatype CharClass = Digit | Word | Hex | Lit(c: char) | AnyOf(cs: string)

  predicate Fits(k: CharClass, c: char) {
    match k
    case Digit => IsDigit(c)
    case Word => IsWordChar(c)
    case Hex => IsHexDigit(c)
    case Lit(x) => c == x
    case AnyOf(cs) => c in cs
  }

  /** `k{n}`. */
  function Repeat(k: CharClass, n: nat): (t: seq<CharClass>)
    ensures |t| == n
    ensures forall j :: 0 <= j < n ==> t[j] == k
  {
    if n == 0 then [] else [k] + Repeat(k, n - 1)
  }

  /** The template `t` matches the |t| characters of `s` starting at `i`. */
  predicate TemplateAt(s: string, i: nat, t: seq<CharClass>) {
    i + |t| <= |s| && forall j :: 0 <= j < |t| ==> Fits(t[j], s[i + j])
  }

  /** A template that demands the literal `c` somewhere can only match a string containing `c`. */
  lemma LiteralNeeded(s: string, i: nat, t: seq<CharClass>, j: nat, c: char)
    requires TemplateAt(s, i, t) && j < |t| && t[j] == Lit(c)
    ensures c in s
  {
    assert s[i + j] == c;
  }

  /** The length of the longest run of characters of class `k` starting at `i`: what a greedy
      `k+` (or `k*`) consumes. */
  function RunLength(s: string, i: nat, k: CharClass): (n: nat)
    requires i <= |s|
    ensures i + n <= |s|
    ensures forall j :: i <= j < i + n ==> Fits(k, s[j])
    ensures i + n == |s| || !Fits(k, s[i + n])
    decreases |s| - i
  {
    if i < |s| && Fits(k, s[i]) then 1 + RunLength(s, i + 1, k) else 0
  }

  /** A digit run that starts inside `a` and ends inside it is unaffected by what follows;
      one that covers all of `a` continues into `b`. */
  lemma RunLengthAppend(a: string, b: string)
    ensures RunLength(a, 0, Digit) < |a| ==> RunLength(a + b, 0, Digit) == RunLength(a, 0, Digit)
    ensures AllDigits(a) ==> RunLength(a + b, 0, Digit) == |a| + RunLength(b, 0, Digit)
  {
    assert forall j :: 0 <= j < |a| ==> (a + b)[j] == a[j];
    assert forall j :: 0 <= j < |b| ==> (a + b)[|a| + j] == b[j];
  }
}
