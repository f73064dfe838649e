/** The timestamp extractor (`extractTimestamp` with `TIMESTAMP_PATTERNS`,
    src/lib/logParser.ts): four patterns tried in a fixed order, each at its leftmost match
    only. JavaScript's `new Date(string)` depends on the engine, locale and time zone, so it is
    a parameter: `parse(text)` is the instant in milliseconds, or `None` for an invalid date. */
module TimestampExtractor {
  import opened Chars
  import opened Templates
  import opened LogTypes

  datatype TimestampPattern = IsoPattern | UsPattern | TextualPattern | EpochPattern

  /** The order in which the patterns are tried. */
  const TimestampPatterns: seq<TimestampPattern> := [IsoPattern, UsPattern, TextualPattern, EpochPattern]

  /** `\d{2}:\d{2}:\d{2}` */
  const ClockTime: seq<CharClass> :=
    Repeat(Digit, 2) + [Lit(':')] + Repeat(Digit, 2) + [Lit(':')] + Repeat(Digit, 2)

  /** `\d{4}-\d{2}-\d{2}[T ]\d{2}:\d{2}:\d{2}`: the part of the ISO pattern that is not optional. */
  const IsoDateTime: seq<CharClass> :=
    Repeat(Digit, 4) + [Lit('-')] + Repeat(Digit, 2) + [Lit('-')] + Repeat(Digit, 2) + [AnyOf("T ")] + ClockTime

  /** `\d{2}\/\d{2}\/\d{4} \d{2}:\d{2}:\d{2}` */
  const UsDateTime: seq<CharClass> :=
    Repeat(Digit, 2) + [Lit('/')] + Repeat(Digit, 2) + [Lit('/')] + Repeat(Digit, 4) + [Lit(' ')] + ClockTime

  /** `\w{3} \d{2}, \d{4} \d{2}:\d{2}:\d{2}` */
  const TextualDateTime: seq<CharClass> :=
    Repeat(Word, 3) + [Lit(' ')] + Repeat(Digit, 2) + [Lit(','), Lit(' ')] + Repeat(Digit, 4) + [Lit(' ')] + ClockTime

  /** The greedy `(?:\.\d+)?` at `p`: a dot and every digit after it, or nothing. It is
      taken exactly when a dot and a digit are there. */
  function FractionLength(s: string, p: nat): (n: nat)
    requires p <= |s|
    ensures p + n <= |s|
    ensures n > 0 <==> p + 1 < |s| && s[p] == '.' && IsDigit(s[p + 1])
    ensures n > 0 ==> s[p] == '.' && forall j :: p < j < p + n ==> IsDigit(s[j])
    ensures n > 0 ==> p + n == |s| || !IsDigit(s[p + n])
  {
    if p + 1 < |s| && s[p] == '.' && IsDigit(s[p + 1]) then 1 + RunLength(s, p + 1, Digit) else 0
  }

  predicate IsSign(c: char) {
    c == '+' || c == '-'
  }

  /** `\d{2}:\d{2}` and `\d{4}`: the two readings of `\d{2}:?\d{2}`. */
  const ColonOffset: seq<CharClass> := Repeat(Digit, 2) + [Lit(':')] + Repeat(Digit, 2)
  const PlainOffset: seq<CharClass> := Repeat(Digit, 4)

  /** The greedy `(?:Z|[+-]\d{2}:?\d{2})?` at `p`: `Z`, a signed `hh:mm` offset, a signed
      `hhmm` offset, or nothing, tried in that order. */
  function ZoneLength(s: string, p: nat): (n: nat)
    requires p <= |s|
    ensures p + n <= |s|
    ensures n == 0 || n == 1 || n == 5 || n == 6
    ensures n == 1 <==> p < |s| && s[p] == 'Z'
    ensures n == 6 <==> (p + 6 <= |s| && IsSign(s[p]) && IsDigit(s[p + 1]) && IsDigit(s[p + 2])
      && s[p + 3] == ':' && IsDigit(s[p + 4]) && IsDigit(s[p + 5]))
    ensures n == 5 <==> (p + 5 <= |s| && IsSign(s[p]) && IsDigit(s[p + 1]) && IsDigit(s[p + 2])
      && IsDigit(s[p + 3]) && IsDigit(s[p + 4]))
  {
    OffsetAt(s, p + 1);
    if p < |s| && s[p] == 'Z' then 1
    else if p < |s| && IsSign(s[p]) then
      if TemplateAt(s, p + 1, ColonOffset) then 6
      else if TemplateAt(s, p + 1, PlainOffset) then 5
      else 0
    else 0
  }

  /** The two offset templates, character by character. */
  lemma OffsetAt(s: string, p: nat)
    ensures TemplateAt(s, p, ColonOffset) <==> (p + 5 <= |s| && IsDigit(s[p]) && IsDigit(s[p + 1])
      && s[p + 2] == ':' && IsDigit(s[p + 3]) && IsDigit(s[p + 4]))
    ensures TemplateAt(s, p, PlainOffset) <==> (p + 4 <= |s| && IsDigit(s[p]) && IsDigit(s[p + 1])
      && IsDigit(s[p + 2]) && IsDigit(s[p + 3]))
  {
    var c, d := ColonOffset, PlainOffset;
    assert c == [Digit, Digit, Lit(':'), Digit, Digit] && d == [Digit, Digit, Digit, Digit];
    if p + 5 <= |s| {
      assert TemplateAt(s, p, c) <==> (Fits(c[0], s[p]) && Fits(c[1], s[p + 1]) && Fits(c[2], s[p + 2])
        && Fits(c[3], s[p + 3]) && Fits(c[4], s[p + 4]));
    }
    if p + 4 <= |s| {
      assert TemplateAt(s, p, d) <==> (Fits(d[0], s[p]) && Fits(d[1], s[p + 1]) && Fits(d[2], s[p + 2])
        && Fits(d[3], s[p + 3]));
    }
  }

  function Min(a: nat, b: nat): nat {
    if a <= b then a else b
  }

  /** The mandatory part of `pattern` fits at `i`: the template of a date pattern, or ten
      digits for the epoch pattern. */
  predicate MatchesAt(pattern: TimestampPattern, s: string, i: nat) {
    match pattern
    case IsoPattern => TemplateAt(s, i, IsoDateTime)
    case UsPattern => TemplateAt(s, i, UsDateTime)
    case TextualPattern => TemplateAt(s, i, TextualDateTime)
    case EpochPattern => TemplateAt(s, i, Repeat(Digit, 10))
  }

  /** The length of the match of `pattern` that starts at index `i` of `s`, or 0 when the
      pattern does not match there (every match is at least ten characters long). The optional
      parts of the ISO pattern and the `{10,13}` of the epoch pattern are greedy, and nothing
      follows them, so the greedy choice is the match. */
  function MatchLength(pattern: TimestampPattern, s: string, i: nat): (n: nat)
    requires i <= |s|
    ensures i + n <= |s|
    ensures n == 0 || n >= 10
    ensures n > 0 <==> MatchesAt(pattern, s, i)
  {
    match pattern
    case IsoPattern => IsoLength(s, i)
    case UsPattern => DateLength(s, i, UsDateTime)
    case TextualPattern => DateLength(s, i, TextualDateTime)
    case EpochPattern =>
      RunAtLeast(s, i, 10);
      EpochLength(s, i)
  }

  /** A digit run of at least `m` characters starts at `i` exactly when `\d{m}` fits there. */
  lemma RunAtLeast(s: string, i: nat, m: nat)
    requires i <= |s|
    ensures RunLength(s, i, Digit) >= m <==> TemplateAt(s, i, Repeat(Digit, m))
  {
    if TemplateAt(s, i, Repeat(Digit, m)) {
      forall j | i <= j < i + m
        ensures Fits(Digit, s[j])
      {
        assert Repeat(Digit, m)[j - i] == Digit;
      }
    }
  }

  /** The ISO pattern: the fixed date and time, then the optional fraction and zone. It
      matches exactly where the fixed part fits. */
  function IsoLength(s: string, i: nat): (n: nat)
    requires i <= |s|
    ensures i + n <= |s|
    ensures n > 0 <==> TemplateAt(s, i, IsoDateTime)
    ensures n > 0 ==> n == 19 + FractionLength(s, i + 19) + ZoneLength(s, i + 19 + FractionLength(s, i + 19))
    ensures n > 0 ==> !AllDigits(s[i..i + n])
  {
    if TemplateAt(s, i, IsoDateTime) then
      TemplateShapes();
      var f := FractionLength(s, i + 19);
      var n := 19 + f + ZoneLength(s, i + 19 + f);
      TemplateBreaksDigits(s, i, IsoDateTime, 4, '-', n);
      n
    else 0
  }

  /** The US and textual patterns: a fixed template and nothing optional, so the match is the
      template's length wherever the template fits. */
  function DateLength(s: string, i: nat, t: seq<CharClass>): (n: nat)
    requires i <= |s|
    requires t == UsDateTime || t == TextualDateTime
    ensures i + n <= |s|
    ensures n > 0 <==> TemplateAt(s, i, t)
    ensures n == 0 || n == |t| >= 19
    ensures n > 0 ==> !AllDigits(s[i..i + n])
  {
    if TemplateAt(s, i, t) then
      TemplateShapes();
      if t == UsDateTime then
        TemplateBreaksDigits(s, i, t, 2, '/', |t|);
        |t|
      else
        TemplateBreaksDigits(s, i, t, 6, ',', |t|);
        |t|
    else 0
  }

  /** The epoch pattern `\d{10,13}`: greedy, so it stops only at the thirteenth digit or where
      the digits end. */
  function EpochLength(s: string, i: nat): (n: nat)
    requires i <= |s|
    ensures i + n <= |s|
    ensures n > 0 <==> RunLength(s, i, Digit) >= 10
    ensures n > 0 ==> 10 <= n <= 13 && AllDigits(s[i..i + n])
    ensures n > 0 ==> n == 13 || i + n == |s| || !IsDigit(s[i + n])
  {
    var run := RunLength(s, i, Digit);
    if run >= 10 then Min(run, 13) else 0
  }

  /** The lengths of the three date templates and the literal each one demands. */
  lemma TemplateShapes()
    ensures |IsoDateTime| == 19 && IsoDateTime[4] == Lit('-')
    ensures |UsDateTime| == 19 && UsDateTime[2] == Lit('/')
    ensures |TextualDateTime| == 21 && TextualDateTime[6] == Lit(',')
  {
  }

  /** A match of a template that demands a non-digit literal is not all digits. */
  lemma TemplateBreaksDigits(s: string, i: nat, t: seq<CharClass>, j: nat, c: char, n: nat)
    requires TemplateAt(s, i, t) && j < |t| && t[j] == Lit(c) && !IsDigit(c)
    requires |t| <= n && i + n <= |s|
    ensures !AllDigits(s[i..i + n])
  {
    assert s[i..i + n][j] == s[i + j] == c;
  }

  /** The length of the match of `pattern` at every index of `s`, the end included. */
  function MatchLengths(pattern: TimestampPattern, s: string): (ls: seq<nat>)
    ensures |ls| == |s| + 1
    ensures forall j :: 0 <= j <= |s| ==> ls[j] == MatchLength(pattern, s, j) && j + ls[j] <= |s|
  {
    seq(|s| + 1, j requires 0 <= j <= |s| => MatchLength(pattern, s, j))
  }

  /** The scan for the leftmost match: the first index at or after `i` with a non-zero
      match length. */
  function FirstPositive(ls: seq<nat>, i: nat): (k: Option<nat>)
    requires i <= |ls|
    ensures k.None? ==> forall j :: i <= j < |ls| ==> ls[j] == 0
    ensures k.Some? ==> i <= k.value < |ls| && ls[k.value] > 0
    ensures k.Some? ==> forall j :: i <= j < k.value ==> ls[j] == 0
    decreases |ls| - i
  {
    if i == |ls| then None
    else if ls[i] > 0 then Some(i)
    else FirstPositive(ls, i + 1)
  }

  /** The text of the leftmost match, given the match length at every index. */
  function LeftmostText(line: string, ls: seq<nat>): Option<string>
    requires |ls| == |line| + 1
    requires forall j :: 0 <= j <= |line| ==> j + ls[j] <= |line|
  {
    match FirstPositive(ls, 0)
    case None => None
    case Some(i) => Some(line[i..i + ls[i]])
  }

  /** There is no text exactly when nothing matches; otherwise the text is the match at
      the first index that has one. */
  lemma LeftmostTextIsFirst(line: string, ls: seq<nat>) returns (i: nat)
    requires |ls| == |line| + 1
    requires forall j :: 0 <= j <= |line| ==> j + ls[j] <= |line|
    ensures LeftmostText(line, ls).None? <==> forall j :: 0 <= j <= |line| ==> ls[j] == 0
    ensures LeftmostText(line, ls).Some? ==>
      && i <= |line| && ls[i] > 0
      && LeftmostText(line, ls).value == line[i..i + ls[i]]
      && forall j :: 0 <= j < i ==> ls[j] == 0
  {
    var m := FirstPositive(ls, 0);
    i := if m.Some? then m.value else 0;
  }

  /** `line.match(pattern)?.[0]`: the text of the leftmost match. */
  function MatchText(pattern: TimestampPattern, line: string): (r: Option<string>)
    ensures r.None? <==> forall j :: 0 <= j <= |line| ==> !MatchesAt(pattern, line, j)
    ensures r.Some? ==> |r.value| >= 10
  {
    var ls := MatchLengths(pattern, line);
    assert forall j :: 0 <= j <= |line| ==> (ls[j] > 0 <==> MatchesAt(pattern, line, j));
    LeftmostText(line, ls)
  }

  /** `/^\d{10,13}$/` */
  predicate IsEpochText(text: string) {
    10 <= |text| <= 13 && AllDigits(text)
  }

  /** Values above 10000000000 are milliseconds, the others seconds. */
  function EpochMillis(v: nat): (m: nat)
    ensures m >= v
    ensures m == v <==> v > 10000000000 || v == 0
  {
    if v > 10000000000 then v else v * 1000
  }

  /** `!isNaN(date.getTime())` for a date built from a number: a JavaScript Date holds at
      most 8.64e15 milliseconds either side of the epoch. */
  predicate IsValidTime(t: int) {
    -8640000000000000 <= t <= 8640000000000000
  }

  /** One turn of the loop in `extractTimestamp`: the leftmost match, read as an epoch number
      when it is 10 to 13 digits and that gives a valid date, and otherwise handed to the
      date parser. */
  function TryPattern(pattern: TimestampPattern, line: string, parse: string -> Option<int>): (r: Option<int>)
    ensures MatchText(pattern, line).None? ==> r.None?
    ensures MatchText(pattern, line).Some? && IsEpochText(MatchText(pattern, line).value) ==>
      r == Some(EpochMillis(DecimalValue(MatchText(pattern, line).value)))
    ensures MatchText(pattern, line).Some? && !IsEpochText(MatchText(pattern, line).value) ==>
      r == parse(MatchText(pattern, line).value)
  {
    match MatchText(pattern, line)
    case None => None
    case Some(text) =>
      EpochTextIsValidTime(text);
      if IsEpochText(text) && IsValidTime(EpochMillis(DecimalValue(text))) then
        Some(EpochMillis(DecimalValue(text)))
      else parse(text)
  }

  /** The first attempt that succeeded, if any: the loop's early `return`. */
  function FirstSome(attempts: seq<Option<int>>): Option<int> {
    if |attempts| == 0 then None
    else if attempts[0].Some? then attempts[0]
    else FirstSome(attempts[1..])
  }

  /** `FirstSome` fails only when every attempt fails, and otherwise returns an attempt that
      no earlier attempt pre-empted. */
  lemma {:induction false} FirstSomeIsFirst(attempts: seq<Option<int>>)
    ensures FirstSome(attempts).None? <==> forall j :: 0 <= j < |attempts| ==> attempts[j].None?
    ensures FirstSome(attempts).Some? ==> exists j ::
      && 0 <= j < |attempts|
      && FirstSome(attempts) == attempts[j]
      && forall j' :: 0 <= j' < j ==> attempts[j'].None?
  {
    if |attempts| > 0 && attempts[0].None? {
      var rest := attempts[1..];
      FirstSomeIsFirst(rest);
      assert forall j :: 0 < j < |attempts| ==> attempts[j] == rest[j - 1];
      var r := FirstSome(rest);
      if r.Some? {
        var j :| 0 <= j < |rest| && r == rest[j] && forall j' :: 0 <= j' < j ==> rest[j'].None?;
        assert r == attempts[j + 1];
      }
    }
  }

  /** What each pattern yields on the line, in the order they are tried. */
  function Attempts(line: string, parse: string -> Option<int>): (a: seq<Option<int>>)
    ensures |a| == |TimestampPatterns|
    ensures forall j :: 0 <= j < |a| ==> a[j] == TryPattern(TimestampPatterns[j], line, parse)
  {
    seq(|TimestampPatterns|, j requires 0 <= j < |TimestampPatterns| => TryPattern(TimestampPatterns[j], line, parse))
  }

  /** `extractTimestamp`: the result of the first pattern, in priority order, whose leftmost
      match yields a date; `None` only when every pattern fails. A pattern whose match does
      not parse does not stop the search. */
  function ExtractTimestamp(line: string, parse: string -> Option<int>): (r: Option<int>)
    ensures r.None? <==> forall j :: 0 <= j < |TimestampPatterns| ==> TryPattern(TimestampPatterns[j], line, parse).None?
    ensures r.Some? ==> exists j ::
      && 0 <= j < |TimestampPatterns|
      && r == TryPattern(TimestampPatterns[j], line, parse)
      && forall j' :: 0 <= j' < j ==> TryPattern(TimestampPatterns[j'], line, parse).None?
  {
    FirstSomeIsFirst(Attempts(line, parse));
    FirstSome(Attempts(line, parse))
  }

  /** The four attempts, spelled out in the order the loop makes them. */
  lemma ExtractTimestampCases(line: string, parse: string -> Option<int>)
    ensures ExtractTimestamp(line, parse) ==
      FirstOfFour(TryPattern(IsoPattern, line, parse), TryPattern(UsPattern, line, parse),
        TryPattern(TextualPattern, line, parse), TryPattern(EpochPattern, line, parse))
  {
    var a := Attempts(line, parse);
    FirstSomeOfFour(a);
    assert TimestampPatterns[0] == IsoPattern && TimestampPatterns[1] == UsPattern;
    assert TimestampPatterns[2] == TextualPattern && TimestampPatterns[3] == EpochPattern;
  }

  function FirstOfFour(a: Option<int>, b: Option<int>, c: Option<int>, d: Option<int>): Option<int> {
    if a.Some? then a else if b.Some? then b else if c.Some? then c else d
  }

  lemma FirstSomeOfFour(a: seq<Option<int>>)
    requires |a| == 4
    ensures FirstSome(a) == FirstOfFour(a[0], a[1], a[2], a[3])
  {
    assert a[1..][1..] == a[2..] && a[2..][1..] == a[3..] && a[3..][1..] == [];
    assert FirstSome(a[3..]) == if a[3].Some? then a[3] else FirstSome([]);
    assert FirstSome(a[2..]) == if a[2].Some? then a[2] else FirstSome(a[3..]);
    assert FirstSome(a[1..]) == if a[1].Some? then a[1] else FirstSome(a[2..]);
  }

  /** The match text of each pattern, when there is one, lies in the line at its leftmost
      matching position (`MatchLengths(pattern, line)[j]` is the match length at `j`). */
  lemma MatchTextIsLeftmost(pattern: TimestampPattern, line: string) returns (i: nat)
    ensures var ls := MatchLengths(pattern, line);
      && (MatchText(pattern, line).None? <==> forall j :: 0 <= j <= |line| ==> ls[j] == 0)
      && (MatchText(pattern, line).Some? ==>
        && i <= |line| && ls[i] > 0
        && MatchText(pattern, line).value == line[i..i + ls[i]]
        && forall j :: 0 <= j < i ==> ls[j] == 0)
  {
    i := LeftmostTextIsFirst(line, MatchLengths(pattern, line));
  }

  /** The ISO, US and textual matches always contain a non-digit, so they always go to the
      date parser: the epoch reading is never tried on them. */
  lemma DatePatternsUseParser(pattern: TimestampPattern, line: string, parse: string -> Option<int>)
    requires pattern != EpochPattern
    ensures MatchText(pattern, line).None? ==> TryPattern(pattern, line, parse).None?
    ensures MatchText(pattern, line).Some? ==> TryPattern(pattern, line, parse) == parse(MatchText(pattern, line).value)
  {
    var i := MatchTextIsLeftmost(pattern, line);
  }

  /** A bare-epoch match never fails and never reaches the date parser: it is 10 to 13
      digits, and as seconds or milliseconds it is always a valid date. */
  lemma EpochPatternNeverFails(line: string, parse: string -> Option<int>)
    requires MatchText(EpochPattern, line).Some?
    ensures IsEpochText(MatchText(EpochPattern, line).value)
    ensures TryPattern(EpochPattern, line, parse)
      == Some(EpochMillis(DecimalValue(MatchText(EpochPattern, line).value)))
  {
    EpochMatchIsEpochText(line);
  }

  /** The text of an epoch match is 10 to 13 digits. */
  lemma EpochMatchIsEpochText(line: string)
    ensures MatchText(EpochPattern, line).Some? ==> IsEpochText(MatchText(EpochPattern, line).value)
  {
    var i := MatchTextIsLeftmost(EpochPattern, line);
    if MatchText(EpochPattern, line).Some? {
      var n := MatchLengths(EpochPattern, line)[i];
      assert n == MatchLength(EpochPattern, line, i);
      EpochSlice(line, i, n);
    }
  }

  lemma EpochSlice(line: string, i: nat, n: nat)
    requires i <= |line| && n == EpochLength(line, i) && n > 0
    ensures i + n <= |line| && IsEpochText(line[i..i + n])
  {
  }

  /** Thirteen digits are below 10^13 milliseconds, and ten digits times 1000 are too: far
      inside the range of a JavaScript Date. */
  lemma EpochTextIsValidTime(text: string)
    ensures IsEpochText(text) ==> IsValidTime(EpochMillis(DecimalValue(text)))
  {
    if IsEpochText(text) {
      EpochTextBound(text);
    }
  }

  lemma EpochTextBound(text: string)
    requires IsEpochText(text)
    ensures IsValidTime(EpochMillis(DecimalValue(text)))
  {
    assert DecimalValue(text) < Pow10(|text|) <= Pow10(13) by {
      Pow10Monotone(|text|, 13);
    }
    assert Pow10(13) == 10000000000000;
  }

  lemma Pow10Monotone(a: nat, b: nat)
    requires a <= b
    ensures Pow10(a) <= Pow10(b)
  {
  }

  /** The epoch pattern matches somewhere exactly when the line has a run of ten digits. */
  lemma EpochMatchIff(line: string)
    ensures MatchText(EpochPattern, line).Some? <==> exists i :: 0 <= i <= |line| && RunLength(line, i, Digit) >= 10
  {
    var i := MatchTextIsLeftmost(EpochPattern, line);
    if MatchText(EpochPattern, line).Some? {
      assert MatchLength(EpochPattern, line, i) > 0;
      assert RunLength(line, i, Digit) >= 10;
    }
    if exists i :: 0 <= i <= |line| && RunLength(line, i, Digit) >= 10 {
      var i :| 0 <= i <= |line| && RunLength(line, i, Digit) >= 10;
      assert MatchLength(EpochPattern, line, i) > 0;
    }
  }

  /** The line has no timestamp exactly when the ISO, US and textual patterns each fail (no
      match, or a match the date parser rejects) and the line has no run of ten digits. */
  lemma ExtractTimestampNoneIff(line: string, parse: string -> Option<int>)
    ensures ExtractTimestamp(line, parse).None? <==>
      && TryPattern(IsoPattern, line, parse).None?
      && TryPattern(UsPattern, line, parse).None?
      && TryPattern(TextualPattern, line, parse).None?
      && forall i :: 0 <= i <= |line| ==> RunLength(line, i, Digit) < 10
  {
    EpochAttemptIff(line, parse);
    ExtractTimestampCases(line, parse);
  }

  /** The epoch attempt fails exactly when the line has no run of ten digits. */
  lemma EpochAttemptIff(line: string, parse: string -> Option<int>)
    ensures TryPattern(EpochPattern, line, parse).None? <==>
      forall i :: 0 <= i <= |line| ==> RunLength(line, i, Digit) < 10
  {
    EpochMatchIff(line);
    if MatchText(EpochPattern, line).Some? {
      EpochPatternNeverFails(line, parse);
    }
  }

  /** How an epoch match is read: ten digits are always seconds; twelve or thirteen digits
      without a leading zero are always milliseconds; eleven digits without a leading zero are
      milliseconds except for exactly 10000000000, which the `>` comparison reads as seconds. */
  lemma EpochUnits(text: string)
    requires IsEpochText(text)
    ensures |text| == 10 ==> EpochMillis(DecimalValue(text)) == DecimalValue(text) * 1000
    ensures |text| >= 12 && text[0] != '0' ==> EpochMillis(DecimalValue(text)) == DecimalValue(text)
    ensures |text| == 11 && text[0] != '0' ==>
      (EpochMillis(DecimalValue(text)) == DecimalValue(text) <==> DecimalValue(text) != 10000000000)
  {
    var v := DecimalValue(text);
    assert Pow10(10) == 10000000000;
    if text[0] != '0' {
      DecimalValueLowerBound(text);
      if |text| >= 12 {
        Pow10Monotone(11, |text| - 1);
        assert Pow10(11) == 100000000000;
      }
    }
  }

  /** The ISO, US and textual templates each contain a literal `-`, `/` or `,`, so a line
      without those characters gives them nothing to match. */
  lemma NoDatePunctuation(line: string, parse: string -> Option<int>)
    requires '-' !in line && '/' !in line && ',' !in line
    ensures TryPattern(IsoPattern, line, parse).None?
    ensures TryPattern(UsPattern, line, parse).None?
    ensures TryPattern(TextualPattern, line, parse).None?
  {
    forall i | 0 <= i <= |line|
      ensures MatchLength(IsoPattern, line, i) == 0
      ensures MatchLength(UsPattern, line, i) == 0
      ensures MatchLength(TextualPattern, line, i) == 0
    {
      TemplateShapes();
      TemplateNeedsLiteral(line, i, IsoDateTime, 4, '-');
      TemplateNeedsLiteral(line, i, UsDateTime, 2, '/');
      TemplateNeedsLiteral(line, i, TextualDateTime, 6, ',');
    }
    var i1 := MatchTextIsLeftmost(IsoPattern, line);
    var i2 := MatchTextIsLeftmost(UsPattern, line);
    var i3 := MatchTextIsLeftmost(TextualPattern, line);
  }

  lemma TemplateNeedsLiteral(s: string, i: nat, t: seq<CharClass>, j: nat, c: char)
    requires j < |t| && t[j] == Lit(c) && c !in s
    ensures !TemplateAt(s, i, t)
  {
    if TemplateAt(s, i, t) {
      LiteralNeeded(s, i, t, j, c);
    }
  }

  /** A line that opens with a bare epoch of 10 to 13 digits, not followed by another digit,
      and has no date punctuation takes its timestamp from that number, whatever the date
      parser does. */
  lemma LeadingEpoch(digits: string, rest: string, parse: string -> Option<int>)
    requires IsEpochText(digits)
    requires |rest| > 0 && !IsDigit(rest[0])
    requires '-' !in digits + rest && '/' !in digits + rest && ',' !in digits + rest
    ensures ExtractTimestamp(digits + rest, parse) == Some(EpochMillis(DecimalValue(digits)))
  {
    var line := digits + rest;
    NoDatePunctuation(line, parse);
    RunLengthAppend(digits, rest);
    assert RunLength(rest, 0, Digit) == 0;
    assert MatchLength(EpochPattern, line, 0) == |digits|;
    assert line[0..|digits|] == digits;
    assert MatchText(EpochPattern, line) == Some(digits);
    EpochPatternNeverFails(line, parse);
    ExtractTimestampCases(line, parse);
  }
}
