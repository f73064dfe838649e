/** The message normaliser (`normalizeMessage`, src/lib/logParser.ts): five global
    regular-expression replacements, each applied to the previous one's output. Every
    replacement scans left to right and resumes after the text it replaced, as a global
    `String.prototype.replace` does. */
module Normalizer {
  import opened Chars
  import opened Templates
  import opened Seqs

  /** `replace(/\d+/g, 'N')`: every maximal run of ASCII digits becomes a single `N`. */
  function MaskDigits(s: string): (r: string)
    ensures NoDigits(r)
    ensures |r| <= |s|
    ensures forall c :: c in r ==> c in s || c == 'N'
    decreases |s|
  {
    if |s| == 0 then ""
    else if IsDigit(s[0]) then
      var n := RunLength(s, 0, Digit);
      "N" + MaskDigits(s[n..])
    else [s[0]] + MaskDigits(s[1..])
  }

  /** Text without digits is left alone. */
  lemma {:induction false} MaskDigitsNoDigits(s: string)
    requires NoDigits(s)
    ensures MaskDigits(s) == s
    decreases |s|
  {
    if |s| > 0 {
      MaskDigitsNoDigits(s[1..]);
    }
  }

  /** A non-empty run of digits followed by `b` masks to one `N` followed by `b` with its
      own leading digits dropped. */
  lemma MaskDigitsRun(d: string, b: string)
    requires |d| > 0 && AllDigits(d)
    ensures MaskDigits(d + b) == "N" + MaskDigits(b[RunLength(b, 0, Digit)..])
  {
    RunLengthAppend(d, b);
    assert (d + b)[0] == d[0];
    assert (d + b)[|d| + RunLength(b, 0, Digit)..] == b[RunLength(b, 0, Digit)..];
  }

  /** Masking distributes over a concatenation whose left part does not end in a digit:
      no run spans the seam. */
  lemma {:induction false} MaskDigitsAppend(a: string, b: string)
    requires |a| == 0 || !IsDigit(a[|a| - 1])
    ensures MaskDigits(a + b) == MaskDigits(a) + MaskDigits(b)
    decreases |a|
  {
    if |a| == 0 {
      assert a + b == b;
    } else if !IsDigit(a[0]) {
      assert (a + b)[0] == a[0];
      assert (a + b)[1..] == a[1..] + b;
      MaskDigitsAppend(a[1..], b);
    } else {
      var k := RunLength(a, 0, Digit);
      assert k < |a|;
      RunLengthAppend(a, b);
      assert (a + b)[0] == a[0];
      assert (a + b)[k..] == a[k..] + b;
      MaskDigitsAppend(a[k..], b);
    }
  }

  /** Replacing one non-empty digit string by another does not change the masked text:
      the run the digits belong to still collapses to one `N`. */
  lemma {:induction false} MaskDigitsSwap(x: string, d: string, d': string, y: string)
    requires |d| > 0 && AllDigits(d) && |d'| > 0 && AllDigits(d')
    ensures MaskDigits(x + d + y) == MaskDigits(x + d' + y)
    decreases |x|
  {
    if |x| == 0 {
      assert x + d + y == d + y && x + d' + y == d' + y;
      MaskDigitsRun(d, y);
      MaskDigitsRun(d', y);
    } else if !IsDigit(x[0]) {
      assert (x + d + y)[0] == x[0] && (x + d' + y)[0] == x[0];
      assert (x + d + y)[1..] == x[1..] + d + y;
      assert (x + d' + y)[1..] == x[1..] + d' + y;
      MaskDigitsSwap(x[1..], d, d', y);
    } else {
      var k := RunLength(x, 0, Digit);
      if k == |x| {
        assert AllDigits(x + d) && AllDigits(x + d');
        assert x + d + y == (x + d) + y && x + d' + y == (x + d') + y;
        MaskDigitsRun(x + d, y);
        MaskDigitsRun(x + d', y);
      } else {
        RunLengthAppend(x, d + y);
        RunLengthAppend(x, d' + y);
        assert x + d + y == x + (d + y) && x + d' + y == x + (d' + y);
        assert (x + d + y)[0] == x[0] && (x + d' + y)[0] == x[0];
        assert (x + d + y)[k..] == x[k..] + d + y;
        assert (x + d' + y)[k..] == x[k..] + d' + y;
        MaskDigitsSwap(x[k..], d, d', y);
      }
    }
  }

  /** `replace(/0x[0-9a-fA-F]+/g, 'HEX')`: a `0x` followed by at least one hexadecimal digit,
      together with all the hexadecimal digits that follow it, becomes `HEX`. Every match
      starts with the digit `0`, so text without digits is left alone. */
  function MaskHex(s: string): (r: string)
    ensures NoDigits(s) ==> r == s
    decreases |s|
  {
    if |s| == 0 then ""
    else if |s| >= 3 && s[0] == '0' && s[1] == 'x' && IsHexDigit(s[2]) then
      "HEX" + MaskHex(s[2 + RunLength(s, 2, Hex)..])
    else [s[0]] + MaskHex(s[1..])
  }

  /** The first index at or after `i` holding `c`, or `|s|` when there is none: where a
      `[^c]*c` scan starting at `i` stops. */
  function NextIndex(s: string, c: char, i: nat): (j: nat)
    requires i <= |s|
    ensures i <= j <= |s|
    ensures j < |s| ==> s[j] == c
    ensures forall k :: i <= k < j ==> s[k] != c
    decreases |s| - i
  {
    if i == |s| || s[i] == c then i else NextIndex(s, c, i + 1)
  }

  /** `s` starts with a quote `q` that has a partner later on. */
  predicate QuotedAtStart(s: string, q: char) {
    |s| > 0 && s[0] == q && NextIndex(s, q, 1) < |s|
  }

  /** `replace(/"[^"]*"/g, 'STR')` for `q` = `"`, and `replace(/'[^']*'/g, 'STR')` for `q` = `'`:
      an opening quote, everything up to the next quote of the same kind, and that quote
      become `STR`; a quote with no partner after it is kept. */
  function MaskQuoted(s: string, q: char): (r: string)
    requires q == '"' || q == '\''
    ensures forall c :: c in r ==> c in s || c in "STR"
    decreases |s|
  {
    if |s| == 0 then ""
    else if QuotedAtStart(s, q) then "STR" + MaskQuoted(s[NextIndex(s, q, 1) + 1..], q)
    else [s[0]] + MaskQuoted(s[1..], q)
  }

  predicate Even(n: nat) {
    n == 0 || (n >= 2 && Even(n - 2))
  }

  /** Quotes are consumed in pairs: an even number of them leaves none behind, an odd number
      leaves exactly one. */
  lemma {:induction false} MaskQuotedParity(s: string, q: char)
    requires q == '"' || q == '\''
    ensures multiset(MaskQuoted(s, q))[q] == if Even(multiset(s)[q]) then 0 else 1
    decreases |s|
  {
    if |s| == 0 {
    } else if QuotedAtStart(s, q) {
      var tail := s[NextIndex(s, q, 1) + 1..];
      MaskQuotedParity(tail, q);
      ParityPairStep(s, tail, q);
    } else {
      MaskQuotedParity(s[1..], q);
      ParityKeepStep(s, q);
    }
  }

  lemma ParityPairStep(s: string, tail: string, q: char)
    requires q == '"' || q == '\''
    requires QuotedAtStart(s, q) && tail == s[NextIndex(s, q, 1) + 1..]
    requires multiset(MaskQuoted(tail, q))[q] == if Even(multiset(tail)[q]) then 0 else 1
    ensures multiset(MaskQuoted(s, q))[q] == if Even(multiset(s)[q]) then 0 else 1
  {
    var m := MaskQuoted(tail, q);
    var n := multiset(tail)[q];
    QuotePairCount(s, q);
    assert multiset(s)[q] == n + 2;
    UnfoldQuotedPair(s, q);
    assert MaskQuoted(s, q) == "STR" + m;
    StrCount(m, q);
    assert multiset(MaskQuoted(s, q))[q] == multiset(m)[q];
    assert Even(n + 2) <==> Even(n);
  }

  lemma UnfoldQuotedPair(s: string, q: char)
    requires q == '"' || q == '\''
    requires QuotedAtStart(s, q)
    ensures MaskQuoted(s, q) == "STR" + MaskQuoted(s[NextIndex(s, q, 1) + 1..], q)
  {
  }

  lemma UnfoldQuotedKeep(s: string, q: char)
    requires q == '"' || q == '\''
    requires |s| > 0 && !QuotedAtStart(s, q)
    ensures MaskQuoted(s, q) == [s[0]] + MaskQuoted(s[1..], q)
  {
  }

  /** The first quoted section becomes `STR`: text before it without the quote character is
      kept as it is, the quotes and what they enclose are replaced, and the rule carries on
      after the closing quote. */
  lemma {:induction false} MaskQuotedPair(x: string, y: string, z: string, q: char)
    requires q == '"' || q == '\''
    requires q !in x && q !in y
    ensures MaskQuoted(x + [q] + y + [q] + z, q) == x + "STR" + MaskQuoted(z, q)
    decreases |x|
  {
    var s := x + [q] + y + [q] + z;
    if |x| == 0 {
      assert s == [q] + y + [q] + z;
      assert s[1 + |y|] == q;
      assert forall k :: 1 <= k < 1 + |y| ==> s[k] == y[k - 1];
      assert NextIndex(s, q, 1) == 1 + |y|;
      assert s[2 + |y|..] == z;
      UnfoldQuotedPair(s, q);
    } else {
      assert s[0] == x[0] && !QuotedAtStart(s, q);
      UnfoldQuotedKeep(s, q);
      assert s[1..] == x[1..] + [q] + y + [q] + z;
      MaskQuotedPair(x[1..], y, z, q);
      assert x == [x[0]] + x[1..];
    }
  }

  /** A quote with no partner after it is kept, and so is the quote-free text around it. */
  lemma {:induction false} MaskQuotedLone(x: string, t: string, q: char)
    requires q == '"' || q == '\''
    requires q !in x && q !in t
    ensures MaskQuoted(x + [q] + t, q) == x + [q] + t
    decreases |x|
  {
    var s := x + [q] + t;
    if |x| == 0 {
      assert s == [q] + t && s[1..] == t;
      NextIndexNone(s, q, 1);
      UnfoldQuotedKeep(s, q);
      MaskQuotedAbsent(t, q);
    } else {
      assert s[0] == x[0] && !QuotedAtStart(s, q);
      UnfoldQuotedKeep(s, q);
      assert s[1..] == x[1..] + [q] + t;
      MaskQuotedLone(x[1..], t, q);
      assert x == [x[0]] + x[1..];
    }
  }

  /** A scan that meets no `c` runs to the end. */
  lemma NextIndexNone(s: string, c: char, i: nat)
    requires i <= |s|
    requires c !in s[i..]
    ensures NextIndex(s, c, i) == |s|
  {
  }

  lemma QuotePairCount(s: string, q: char)
    requires QuotedAtStart(s, q)
    ensures multiset(s)[q] == multiset(s[NextIndex(s, q, 1) + 1..])[q] + 2
  {
    var close := NextIndex(s, q, 1);
    assert q !in s[1..close];
    assert s == [q] + s[1..close] + [q] + s[close + 1..];
  }

  lemma StrCount(rest: string, q: char)
    requires q == '"' || q == '\''
    ensures multiset("STR" + rest)[q] == multiset(rest)[q]
  {
    assert multiset("STR" + rest) == multiset("STR") + multiset(rest);
    assert multiset("STR")[q] == 0;
  }

  lemma ParityKeepStep(s: string, q: char)
    requires q == '"' || q == '\''
    requires |s| > 0 && !QuotedAtStart(s, q)
    requires multiset(MaskQuoted(s[1..], q))[q] == if Even(multiset(s[1..])[q]) then 0 else 1
    ensures multiset(MaskQuoted(s, q))[q] == if Even(multiset(s)[q]) then 0 else 1
  {
    ConsCount(s, q);
    ConsCount([s[0]] + MaskQuoted(s[1..], q), q);
    assert ([s[0]] + MaskQuoted(s[1..], q))[1..] == MaskQuoted(s[1..], q);
    assert s[0] == q ==> multiset(s[1..])[q] == 0;
  }

  lemma ConsCount(s: string, q: char)
    requires |s| > 0
    ensures multiset(s)[q] == (if s[0] == q then 1 else 0) + multiset(s[1..])[q]
  {
    assert s == [s[0]] + s[1..];
    assert multiset(s) == multiset([s[0]]) + multiset(s[1..]);
  }

  lemma NoDigitsAppend(a: string, b: string)
    ensures NoDigits(a + b) <==> NoDigits(a) && NoDigits(b)
  {
    assert forall k :: 0 <= k < |a| ==> (a + b)[k] == a[k];
    assert forall k :: 0 <= k < |b| ==> (a + b)[|a| + k] == b[k];
  }

  /** The quote step introduces no digits. */
  lemma {:induction false} MaskQuotedNoDigits(s: string, q: char)
    requires q == '"' || q == '\''
    requires NoDigits(s)
    ensures NoDigits(MaskQuoted(s, q))
    decreases |s|
  {
    if |s| == 0 {
    } else if QuotedAtStart(s, q) {
      var rest := s[NextIndex(s, q, 1) + 1..];
      assert NoDigits(rest);
      MaskQuotedNoDigits(rest, q);
      assert NoDigits("STR");
      NoDigitsAppend("STR", MaskQuoted(rest, q));
    } else {
      assert NoDigits(s[1..]);
      MaskQuotedNoDigits(s[1..], q);
      NoDigitsAppend([s[0]], MaskQuoted(s[1..], q));
    }
  }

  /** Text without the quote character is left alone. */
  lemma {:induction false} MaskQuotedAbsent(s: string, q: char)
    requires q == '"' || q == '\''
    requires q !in s
    ensures MaskQuoted(s, q) == s
    decreases |s|
  {
    if |s| > 0 {
      assert q !in s[1..];
      MaskQuotedAbsent(s[1..], q);
      assert s == [s[0]] + s[1..];
    }
  }

  /** A suffix without the quote character passes through the quote step untouched, whatever
      precedes it: an unpartnered quote before it stays unpartnered. */
  lemma {:induction false} MaskQuotedSuffix(x: string, t: string, q: char)
    requires q == '"' || q == '\''
    requires q !in t
    ensures MaskQuoted(x + t, q) == MaskQuoted(x, q) + t
    decreases |x|
  {
    if |x| == 0 {
      assert x + t == t;
      MaskQuotedAbsent(t, q);
    } else if QuotedAtStart(x, q) {
      var tail := x[NextIndex(x, q, 1) + 1..];
      MaskQuotedSuffix(tail, t, q);
      SuffixPairStep(x, tail, t, q);
    } else {
      MaskQuotedSuffix(x[1..], t, q);
      SuffixKeepStep(x, t, q);
    }
  }

  lemma NextIndexAppend(x: string, t: string, c: char, i: nat)
    requires i <= |x|
    ensures NextIndex(x, c, i) < |x| ==> NextIndex(x + t, c, i) == NextIndex(x, c, i)
    ensures c !in t ==> (NextIndex(x + t, c, i) < |x + t| <==> NextIndex(x, c, i) < |x|)
    decreases |x| - i
  {
    if i < |x| {
      assert (x + t)[i] == x[i];
      if x[i] != c {
        NextIndexAppend(x, t, c, i + 1);
      }
    } else if c !in t {
      assert forall k :: i <= k < |x + t| ==> (x + t)[k] == t[k - |x|];
    }
  }

  lemma SuffixPairStep(x: string, tail: string, t: string, q: char)
    requires q == '"' || q == '\''
    requires QuotedAtStart(x, q) && tail == x[NextIndex(x, q, 1) + 1..]
    requires MaskQuoted(tail + t, q) == MaskQuoted(tail, q) + t
    ensures MaskQuoted(x + t, q) == MaskQuoted(x, q) + t
  {
    var close := NextIndex(x, q, 1);
    NextIndexAppend(x, t, q, 1);
    assert (x + t)[close + 1..] == tail + t;
    UnfoldQuotedPair(x + t, q);
    UnfoldQuotedPair(x, q);
    AppendAssoc("STR", MaskQuoted(tail, q), t);
  }

  /** Appending quote-free text gives an unpartnered leading quote no partner. */
  lemma QuotedAtStartAppend(x: string, t: string, q: char)
    requires q !in t && |x| > 0
    ensures QuotedAtStart(x + t, q) <==> QuotedAtStart(x, q)
  {
    NextIndexAppend(x, t, q, 1);
    assert (x + t)[0] == x[0];
  }

  lemma HeadTail(x: string, t: string)
    requires |x| > 0
    ensures (x + t)[0] == x[0] && (x + t)[1..] == x[1..] + t
  {
  }

  lemma SuffixKeepStep(x: string, t: string, q: char)
    requires q == '"' || q == '\''
    requires q !in t
    requires |x| > 0 && !QuotedAtStart(x, q)
    requires MaskQuoted(x[1..] + t, q) == MaskQuoted(x[1..], q) + t
    ensures MaskQuoted(x + t, q) == MaskQuoted(x, q) + t
  {
    QuotedAtStartAppend(x, t, q);
    HeadTail(x, t);
    var a := MaskQuoted(x[1..], q);
    calc {
      MaskQuoted(x + t, q);
      == { UnfoldQuotedKeep(x + t, q); }
      [x[0]] + MaskQuoted(x[1..] + t, q);
      == [x[0]] + (a + t);
      == { AppendAssoc([x[0]], a, t); }
      ([x[0]] + a) + t;
      == { UnfoldQuotedKeep(x, q); }
      MaskQuoted(x, q) + t;
    }
  }

  /** The character class at offset `k` of `[0-9a-f]{8}-[0-9a-f]{4}-[0-9a-f]{4}-[0-9a-f]{4}-[0-9a-f]{12}`:
      a hyphen at offsets 8, 13, 18 and 23, a hexadecimal digit elsewhere. With the `i`
      flag the letters also match in upper case. */
  function UuidClass(k: int): CharClass {
    if k == 8 || k == 13 || k == 18 || k == 23 then Lit('-') else Hex
  }

  /** The 36 characters from `i` on have the UUID shape. */
  predicate UuidBody(s: string, i: nat) {
    i + 36 <= |s| && forall k :: 0 <= k < 36 ==> Fits(UuidClass(k), s[i + k])
  }

  /** The UUID pattern, word boundaries included, matches at `i`. */
  predicate UuidAt(s: string, i: nat) {
    IsBoundary(s, i) && UuidBody(s, i) && IsBoundary(s, i + 36)
  }

  /** A UUID starts and ends with a hexadecimal digit, a word character, so the two
      boundaries say that the characters either side of a match are not word characters. */
  lemma UuidNeighbours(s: string, i: nat)
    ensures UuidAt(s, i) <==> (UuidBody(s, i) && (i == 0 || !IsWordChar(s[i - 1]))
      && (i + 36 == |s| || !IsWordChar(s[i + 36])))
  {
    if UuidBody(s, i) {
      assert Fits(UuidClass(0), s[i]) && Fits(UuidClass(35), s[i + 35]);
    }
  }

  /** `replace(/\b…\b/gi, 'UUID')` applied to `s[i..]` (with `s[..i]` as the context the
      boundary test looks at). */
  function MaskUuidsFrom(s: string, i: nat): (r: string)
    requires i <= |s|
    ensures |r| <= |s| - i
    decreases |s| - i
  {
    if i == |s| then ""
    else if UuidAt(s, i) then
      "UUID" + MaskUuidsFrom(s, i + 36)
    else [s[i]] + MaskUuidsFrom(s, i + 1)
  }

  /** Where the pattern matches nowhere, the UUID step leaves the text alone. */
  lemma {:induction false} MaskUuidsFromNone(s: string, i: nat)
    requires i <= |s|
    requires forall j :: i <= j < |s| ==> !UuidAt(s, j)
    ensures MaskUuidsFrom(s, i) == s[i..]
    decreases |s| - i
  {
    if i < |s| {
      MaskUuidsFromNone(s, i + 1);
      UnfoldUuidKeep(s, i);
      assert s[i..] == [s[i]] + s[i + 1..];
    }
  }

  /** The UUID step introduces no digits: `UUID` has none. */
  lemma {:induction false} MaskUuidsFromNoDigits(s: string, i: nat)
    requires i <= |s|
    requires forall j :: i <= j < |s| ==> !IsDigit(s[j])
    ensures NoDigits(MaskUuidsFrom(s, i))
    decreases |s| - i
  {
    if i < |s| {
      if UuidAt(s, i) {
        UnfoldUuidMatch(s, i);
        MaskUuidsFromNoDigits(s, i + 36);
        NoDigitsAppend("UUID", MaskUuidsFrom(s, i + 36));
      } else {
        MaskUuidsFromNoDigits(s, i + 1);
        UnfoldUuidKeep(s, i);
        NoDigitsAppend([s[i]], MaskUuidsFrom(s, i + 1));
      }
    }
  }

  /** The leftmost match of the UUID pattern starts at `i`. */
  predicate FirstUuid(s: string, i: nat) {
    UuidAt(s, i) && forall j :: 0 <= j < i ==> !UuidAt(s, j)
  }

  /** `replace(/\b[0-9a-f]{8}-…-[0-9a-f]{12}\b/gi, 'UUID')`: the text before the leftmost
      match is kept, the match becomes `UUID`, and the scan resumes after it; with no match
      the text is unchanged. */
  function MaskUuids(s: string): (r: string)
    ensures (forall j :: 0 <= j < |s| ==> !UuidAt(s, j)) ==> r == s
    ensures forall i :: 0 <= i < |s| && FirstUuid(s, i) ==>
      i + 36 <= |s| && r == s[..i] + "UUID" + MaskUuidsFrom(s, i + 36)
    ensures NoDigits(s) ==> NoDigits(r)
  {
    MaskUuidsFacts(s);
    MaskUuidsFrom(s, 0)
  }

  lemma MaskUuidsFacts(s: string)
    ensures (forall j :: 0 <= j < |s| ==> !UuidAt(s, j)) ==> MaskUuidsFrom(s, 0) == s
    ensures forall i :: 0 <= i < |s| && FirstUuid(s, i) ==>
      i + 36 <= |s| && MaskUuidsFrom(s, 0) == s[..i] + "UUID" + MaskUuidsFrom(s, i + 36)
    ensures NoDigits(s) ==> NoDigits(MaskUuidsFrom(s, 0))
  {
    if forall j :: 0 <= j < |s| ==> !UuidAt(s, j) {
      MaskUuidsFromNone(s, 0);
    }
    forall i | 0 <= i < |s| && FirstUuid(s, i)
      ensures i + 36 <= |s| && MaskUuidsFrom(s, 0) == s[..i] + "UUID" + MaskUuidsFrom(s, i + 36)
    {
      MaskUuidsFromFirst(s, 0, i);
    }
    if NoDigits(s) {
      MaskUuidsFromNoDigits(s, 0);
    }
  }

  /** From `k` up to the first match at `i` the text is copied; the match becomes `UUID`. */
  lemma {:induction false} MaskUuidsFromFirst(s: string, k: nat, i: nat)
    requires k <= i < |s| && UuidAt(s, i)
    requires forall j :: k <= j < i ==> !UuidAt(s, j)
    ensures i + 36 <= |s|
    ensures MaskUuidsFrom(s, k) == s[k..i] + "UUID" + MaskUuidsFrom(s, i + 36)
    decreases i - k
  {
    if k == i {
      UnfoldUuidMatch(s, i);
      assert s[k..i] == [];
    } else {
      UnfoldUuidKeep(s, k);
      MaskUuidsFromFirst(s, k + 1, i);
      assert s[k..i] == [s[k]] + s[k + 1..i];
    }
  }

  /** No UUID match can contain a character that is neither a hexadecimal digit nor `-`. */
  lemma UuidAvoids(s: string, i: nat)
    requires UuidBody(s, i)
    ensures forall p :: i <= p < i + 36 ==> IsHexDigit(s[p]) || s[p] == '-'
  {
    forall p | i <= p < i + 36 ensures IsHexDigit(s[p]) || s[p] == '-' {
      assert Fits(UuidClass(p - i), s[i + (p - i)]);
    }
  }

  /** Before a non-word character that is not `-`, a UUID match is found in `x + t` exactly
      where it is found in `x`. */
  lemma UuidAtPrefix(x: string, t: string, i: nat)
    requires |x| > 0 && !IsWordChar(x[|x| - 1]) && x[|x| - 1] != '-'
    requires i < |x|
    ensures UuidAt(x + t, i) <==> UuidAt(x, i)
    ensures UuidAt(x, i) ==> i + 36 < |x|
  {
    var s := x + t;
    assert forall j :: 0 <= j < |x| ==> s[j] == x[j];
    if UuidBody(s, i) {
      UuidAvoids(s, i);
    }
    if UuidBody(x, i) {
      UuidAvoids(x, i);
    }
  }

  /** After a non-word character, a UUID match at offset `j` of `t` is one at offset `j` of `t`
      alone. */
  lemma UuidAtShift(x: string, t: string, j: nat)
    requires |x| > 0 && !IsWordChar(x[|x| - 1])
    requires j < |t|
    ensures UuidAt(x + t, |x| + j) ==> UuidAt(t, j)
  {
    var s := x + t;
    assert forall k :: 0 <= k < |t| ==> s[|x| + k] == t[k];
    assert s[|x| - 1] == x[|x| - 1];
    if UuidAt(s, |x| + j) {
      forall k | 0 <= k < 36 ensures Fits(UuidClass(k), t[j + k]) {
        assert Fits(UuidClass(k), s[|x| + j + k]);
      }
    }
  }

  lemma {:induction false} MaskUuidsFromSplit(x: string, t: string, i: nat)
    requires |x| > 0 && !IsWordChar(x[|x| - 1]) && x[|x| - 1] != '-'
    requires forall j :: 0 <= j < |t| ==> !UuidAt(t, j)
    requires i <= |x|
    ensures MaskUuidsFrom(x + t, i) == MaskUuidsFrom(x, i) + t
    decreases |x| - i
  {
    if i == |x| {
      SplitAtSeam(x, t);
    } else {
      UuidAtPrefix(x, t, i);
      if UuidAt(x, i) {
        MaskUuidsFromSplit(x, t, i + 36);
        SplitMatchStep(x, t, i);
      } else {
        MaskUuidsFromSplit(x, t, i + 1);
        SplitKeepStep(x, t, i);
      }
    }
  }

  lemma SplitMatchStep(x: string, t: string, i: nat)
    requires i + 36 < |x| && UuidAt(x, i) && UuidAt(x + t, i)
    requires MaskUuidsFrom(x + t, i + 36) == MaskUuidsFrom(x, i + 36) + t
    ensures MaskUuidsFrom(x + t, i) == MaskUuidsFrom(x, i) + t
  {
    UnfoldUuidMatch(x + t, i);
    UnfoldUuidMatch(x, i);
    AppendAssoc("UUID", MaskUuidsFrom(x, i + 36), t);
  }

  lemma SplitKeepStep(x: string, t: string, i: nat)
    requires i < |x| && !UuidAt(x, i) && !UuidAt(x + t, i)
    requires MaskUuidsFrom(x + t, i + 1) == MaskUuidsFrom(x, i + 1) + t
    ensures MaskUuidsFrom(x + t, i) == MaskUuidsFrom(x, i) + t
  {
    assert (x + t)[i] == x[i];
    UnfoldUuidKeep(x + t, i);
    UnfoldUuidKeep(x, i);
    AppendAssoc([x[i]], MaskUuidsFrom(x, i + 1), t);
  }

  lemma SplitAtSeam(x: string, t: string)
    requires |x| > 0 && !IsWordChar(x[|x| - 1])
    requires forall j :: 0 <= j < |t| ==> !UuidAt(t, j)
    ensures MaskUuidsFrom(x + t, |x|) == t
  {
    var s := x + t;
    forall j | |x| <= j < |s| ensures !UuidAt(s, j) {
      UuidAtShift(x, t, j - |x|);
    }
    MaskUuidsFromNone(s, |x|);
    assert s[|x|..] == t;
  }

  lemma UnfoldUuidMatch(s: string, i: nat)
    requires i < |s| && UuidAt(s, i)
    ensures i + 36 <= |s|
    ensures MaskUuidsFrom(s, i) == "UUID" + MaskUuidsFrom(s, i + 36)
  {
  }

  lemma UnfoldUuidKeep(s: string, i: nat)
    requires i < |s| && !UuidAt(s, i)
    ensures MaskUuidsFrom(s, i) == [s[i]] + MaskUuidsFrom(s, i + 1)
  {
  }

  /** When `x` ends in a non-word character other than `-` (a space, say), no UUID match can
      straddle the seam, so the UUID step treats `x` and a UUID-free `t` separately. */
  lemma MaskUuidsSplit(x: string, t: string)
    requires |x| > 0 && !IsWordChar(x[|x| - 1]) && x[|x| - 1] != '-'
    requires forall j :: 0 <= j < |t| ==> !UuidAt(t, j)
    ensures MaskUuids(x + t) == MaskUuids(x) + t
  {
    MaskUuidsFromSplit(x, t, 0);
  }

  /** `normalizeMessage`: the grouping key of a message. Digits are masked first, so the key
      has no digits at all, and the HEX step after it never fires. */
  function NormalizeMessage(message: string): (key: string)
    ensures NoDigits(key)
    ensures key == MaskUuids(MaskQuoted(MaskQuoted(MaskDigits(message), '"'), '\''))
  {
    MaskQuotedNoDigits(MaskDigits(message), '"');
    MaskQuotedNoDigits(MaskQuoted(MaskDigits(message), '"'), '\'');
    MaskUuids(MaskQuoted(MaskQuoted(MaskHex(MaskDigits(message)), '"'), '\''))
  }
}
