/** Grouping keys of sample lines (src/lib/demoLog.ts): which lines the pattern aggregator puts
    in one cluster and which it keeps apart. Each line is written as a concatenation of its
    parts, split where the proof needs to see the seams. */
module KeyFixtures {
  import opened Chars
  import opened Templates
  import opened Normalizer
  import opened Seqs

  /** Sample lines 5 to 7: the same failure for three user ids, 50 ms apart. */
  const TimeoutHead := "2025-11-22T09:15:05."
  const TimeoutMiddle := "Z ERROR Failed to fetch user profile id="
  const TimeoutTail := " reason=\"Timeout contacting profile-service\""

  function TimeoutLine(millis: string, id: string): string {
    TwoRunLine(TimeoutHead, millis, TimeoutMiddle, id, TimeoutTail)
  }

  /** A line of fixed text around two digit runs. */
  function TwoRunLine(head: string, m: string, middle: string, id: string, tail: string): string {
    head + m + middle + id + tail
  }

  /** Replacing one digit run by another never changes the key. */
  lemma KeyIgnoresDigitRun(x: string, d: string, d': string, y: string)
    requires |d| > 0 && AllDigits(d) && |d'| > 0 && AllDigits(d')
    ensures NormalizeMessage(x + d + y) == NormalizeMessage(x + d' + y)
  {
    MaskDigitsSwap(x, d, d', y);
  }

  /** Lines that differ only in their two digit runs share a key. */
  lemma TwoRunKeysAgree(head: string, middle: string, tail: string, m: string, m': string, id: string, id': string)
    requires |m| > 0 && AllDigits(m) && |m'| > 0 && AllDigits(m')
    requires |id| > 0 && AllDigits(id) && |id'| > 0 && AllDigits(id')
    ensures NormalizeMessage(TwoRunLine(head, m, middle, id, tail))
      == NormalizeMessage(TwoRunLine(head, m', middle, id', tail))
  {
    var rest := middle + id + tail;
    assert TwoRunLine(head, m, middle, id, tail) == head + m + rest;
    assert TwoRunLine(head, m', middle, id, tail) == head + m' + rest;
    KeyIgnoresDigitRun(head, m, m', rest);
    var front := head + m' + middle;
    assert TwoRunLine(head, m', middle, id, tail) == front + id + tail;
    assert TwoRunLine(head, m', middle, id', tail) == front + id' + tail;
    KeyIgnoresDigitRun(front, id, id', tail);
  }

  /** The three timeout lines share one key, so they form one cluster of three. */
  lemma DemoTimeoutsShareKey()
    ensures NormalizeMessage(TimeoutLine("000", "938120")) == NormalizeMessage(TimeoutLine("050", "1938121"))
    ensures NormalizeMessage(TimeoutLine("050", "1938121")) == NormalizeMessage(TimeoutLine("100", "5588122"))
  {
    TimeoutDigits();
    TwoRunKeysAgree(TimeoutHead, TimeoutMiddle, TimeoutTail, "000", "050", "938120", "1938121");
    TwoRunKeysAgree(TimeoutHead, TimeoutMiddle, TimeoutTail, "050", "100", "1938121", "5588122");
  }

  lemma TimeoutDigits()
    ensures AllDigits("000") && AllDigits("050") && AllDigits("100")
    ensures AllDigits("938120") && AllDigits("1938121") && AllDigits("5588122")
  {
  }

  /** Sample lines 12 to 14: the same payment failure for three order ids. The body is
      `Z ERROR Payment gateway error code=PGW-442 message="Card declined"`, kept in pieces. */
  const PaymentHead := "2025-11-22T09:15:07."
  const PaymentFront := "Z ERROR Payment gateway error"
  const PaymentCode := "code=PGW-"
  const PaymentMessage := " message="
  const Declined := "Card declined"
  const PaymentBody := PaymentFront + " " + PaymentCode + "442" + PaymentMessage + "\"" + Declined + "\""
  const OrderLabel := "orderId="
  const Order12 := "abf0c4d9-2d52-4e1f-a6b9-73f2f1c5d001"
  const Order13 := "2c0f9a81-713d-4f58-8c27-59fc13df17aa"
  const Order14 := "9b9c1f84-45b0-4972-8b71-2af58f9e610e"

  function PaymentLine(millis: string, order: string): string {
    LabelledLine(PaymentHead, millis, PaymentBody, OrderLabel, order)
  }

  /** A line of fixed text around a digit run, then a space, a label and a field. */
  function LabelledLine(head: string, millis: string, body: string, tag: string, field: string): string {
    head + millis + body + " " + tag + field
  }

  /** What every labelled line with this head and body has in front of its label. */
  function LabelledPrefix(head: string, body: string): string {
    MaskUuids(MaskQuoted(MaskQuoted(MaskDigits(head + "0" + body), '"'), '\'') + " ")
  }

  /** The fixed parts of a labelled line: the body ends in a non-digit and the label holds
      neither digits nor quotes. */
  predicate FixedParts(body: string, tag: string) {
    |body| > 0 && !IsDigit(body[|body| - 1]) && NoDigits(tag) && '"' !in tag && '\'' !in tag
  }

  /** A digit run of two or more characters shortens the masked text. */
  lemma ShrinkByRun(x: string, d: string, y: string)
    requires |x| == 0 || !IsDigit(x[|x| - 1])
    requires |d| >= 2 && AllDigits(d)
    ensures |MaskDigits(x + d + y)| < |x + d + y|
  {
    assert x + d + y == x + (d + y);
    MaskDigitsAppend(x, d + y);
    MaskDigitsRun(d, y);
  }

  /** After `orderId=` no UUID can start when fewer than 36 characters follow: the only
      candidates would start inside the label, where there is neither a word boundary nor a
      hexadecimal digit in the right place. */
  lemma NoUuidAfterLabel(u: string)
    requires |u| < 36
    ensures forall j :: 0 <= j < |OrderLabel + u| ==> !UuidAt(OrderLabel + u, j)
  {
    var s := OrderLabel + u;
    assert forall k :: 0 <= k < 8 ==> s[k] == OrderLabel[k];
    forall j | 0 <= j < |s|
      ensures !UuidAt(s, j)
    {
      if j == 0 || j == 7 {
        assert !Fits(UuidClass(0), s[j]);
      } else if j < 7 {
        assert !IsBoundary(s, j);
      }
    }
  }

  /** Digit masking of a labelled line: the digit run and the text around it mask the same way
      on every line, and the field masks on its own. */
  lemma LabelledDigits(head: string, millis: string, body: string, tag: string, field: string)
    requires |millis| > 0 && AllDigits(millis)
    requires FixedParts(body, tag)
    ensures MaskDigits(LabelledLine(head, millis, body, tag, field))
      == MaskDigits(head + "0" + body) + (" " + (tag + MaskDigits(field)))
  {
    var a := head + millis + body;
    assert LabelledLine(head, millis, body, tag, field) == (a + " ") + (tag + field);
    assert a[|a| - 1] == body[|body| - 1];
    MaskAroundSpace(a, tag + field);
    LabelMask(tag, field);
    assert AllDigits("0");
    MaskDigitsSwap(head, millis, "0", body);
  }

  lemma MaskAroundSpace(a: string, t: string)
    requires |a| > 0 && !IsDigit(a[|a| - 1])
    ensures MaskDigits((a + " ") + t) == MaskDigits(a) + (" " + MaskDigits(t))
  {
    assert " " == [' '];
    MaskAroundSeparator(a, ' ', t);
  }

  /** Digit masking treats the two sides of a non-digit separator separately. */
  lemma MaskAroundSeparator(a: string, c: char, t: string)
    requires |a| > 0 && !IsDigit(a[|a| - 1]) && !IsDigit(c)
    ensures MaskDigits((a + [c]) + t) == MaskDigits(a) + ([c] + MaskDigits(t))
  {
    var b := a + [c];
    assert b[|b| - 1] == c;
    MaskDigitsAppend(b, t);
    MaskDigitsAppend(a, [c]);
    MaskDigitsNoDigits([c]);
    AppendAssoc(MaskDigits(a), [c], MaskDigits(t));
  }

  /** A digit-free label passes through digit masking unchanged. */
  lemma LabelMask(tag: string, field: string)
    requires NoDigits(tag)
    ensures MaskDigits(tag + field) == tag + MaskDigits(field)
  {
    MaskDigitsAppend(tag, field);
    MaskDigitsNoDigits(tag);
  }

  /** The quote and UUID steps leave a tail alone that has no quotes and no UUID and follows
      a space. */
  lemma LaterStepsKeepTail(x: string, t: string)
    requires '"' !in t && '\'' !in t
    requires forall j :: 0 <= j < |t| ==> !UuidAt(t, j)
    ensures MaskUuids(MaskQuoted(MaskQuoted(x + (" " + t), '"'), '\''))
      == MaskUuids(MaskQuoted(MaskQuoted(x, '"'), '\'') + " ") + t
  {
    assert " " == [' '];
    LaterStepsKeepSeparated(x, ' ', t);
  }

  /** The same for any separator that is neither a quote, a word character nor a dash. */
  lemma LaterStepsKeepSeparated(x: string, c: char, t: string)
    requires c != '"' && c != '\'' && !IsWordChar(c) && c != '-'
    requires '"' !in t && '\'' !in t
    requires forall j :: 0 <= j < |t| ==> !UuidAt(t, j)
    ensures MaskUuids(MaskQuoted(MaskQuoted(x + ([c] + t), '"'), '\''))
      == MaskUuids(MaskQuoted(MaskQuoted(x, '"'), '\'') + [c]) + t
  {
    var ct := [c] + t;
    assert '"' !in ct && '\'' !in ct;
    MaskQuotedSuffix(x, ct, '"');
    var q1 := MaskQuoted(x, '"');
    MaskQuotedSuffix(q1, ct, '\'');
    var y := MaskQuoted(q1, '\'') + [c];
    AppendAssoc(MaskQuoted(q1, '\''), [c], t);
    MaskUuidsSplit(y, t);
  }

  /** The key of a labelled line is the common prefix followed by the label and the
      digit-masked field, provided the field has no quotes and no UUID survives after the
      label. */
  lemma LabelledKey(head: string, millis: string, body: string, tag: string, field: string)
    requires |millis| > 0 && AllDigits(millis)
    requires FixedParts(body, tag)
    requires '"' !in field && '\'' !in field
    requires forall j :: 0 <= j < |tag + MaskDigits(field)| ==> !UuidAt(tag + MaskDigits(field), j)
    ensures NormalizeMessage(LabelledLine(head, millis, body, tag, field))
      == LabelledPrefix(head, body) + (tag + MaskDigits(field))
  {
    LabelledDigits(head, millis, body, tag, field);
    var t := tag + MaskDigits(field);
    assert '"' !in t && '\'' !in t;
    LaterStepsKeepTail(MaskDigits(head + "0" + body), t);
  }

  /** Labelled lines whose values mask differently have different keys. */
  lemma LabelledKeysApart(head: string, body: string, tag: string, m: string, m': string, v: string, v': string)
    requires |m| > 0 && AllDigits(m) && |m'| > 0 && AllDigits(m')
    requires FixedParts(body, tag)
    requires '"' !in v && '\'' !in v && '"' !in v' && '\'' !in v'
    requires forall j :: 0 <= j < |tag + MaskDigits(v)| ==> !UuidAt(tag + MaskDigits(v), j)
    requires forall j :: 0 <= j < |tag + MaskDigits(v')| ==> !UuidAt(tag + MaskDigits(v'), j)
    requires MaskDigits(v) != MaskDigits(v')
    ensures NormalizeMessage(LabelledLine(head, m, body, tag, v))
      != NormalizeMessage(LabelledLine(head, m', body, tag, v'))
  {
    LabelledKey(head, m, body, tag, v);
    LabelledKey(head, m', body, tag, v');
    var p := LabelledPrefix(head, body);
    var t := tag + MaskDigits(v);
    var t' := tag + MaskDigits(v');
    assert t != t' by {
      assert t[|tag|..] == MaskDigits(v) && t'[|tag|..] == MaskDigits(v');
    }
    assert (p + t)[|p|..] == t && (p + t')[|p|..] == t';
  }

  lemma PaymentParts()
    ensures FixedParts(PaymentBody, OrderLabel)
  {
    assert PaymentBody[|PaymentBody| - 1] == '"';
  }

  /** A text starting with a non-digit keeps that character in front. */
  lemma LeadingLetter(s: string)
    requires |s| > 0 && !IsDigit(s[0])
    ensures |MaskDigits(s)| > 0 && MaskDigits(s)[0] == s[0]
  {
    assert s == [s[0]] + s[1..];
    MaskDigitsAppend([s[0]], s[1..]);
    assert NoDigits([s[0]]);
    MaskDigitsNoDigits([s[0]]);
  }

  /** A text starting with one digit and then a non-digit masks to `N` and that character. */
  lemma LeadingDigitThenLetter(s: string)
    requires |s| > 1 && IsDigit(s[0]) && !IsDigit(s[1])
    ensures |MaskDigits(s)| > 1 && MaskDigits(s)[0] == 'N' && MaskDigits(s)[1] == s[1]
  {
    var r := s[1..];
    assert s == [s[0]] + r;
    assert AllDigits([s[0]]);
    MaskDigitsRun([s[0]], r);
    assert RunLength(r, 0, Digit) == 0;
    assert r[0..] == r;
    LeadingLetter(r);
  }

  /** Two adjacent digits after a non-digit (or at the start) make the masked text shorter. */
  lemma ShrinkAt(s: string, i: nat)
    requires i + 2 <= |s| && IsDigit(s[i]) && IsDigit(s[i + 1])
    requires i == 0 || !IsDigit(s[i - 1])
    ensures |MaskDigits(s)| < |s|
  {
    var x, d, y := s[..i], s[i..i + 2], s[i + 2..];
    assert s == x + d + y;
    assert AllDigits(d);
    ShrinkByRun(x, d, y);
  }

  /** A digit run followed by digit-free text masks to `N` and that text. */
  lemma DigitsThen(d: string, x: string)
    requires |d| > 0 && AllDigits(d)
    requires |x| > 0 && NoDigits(x)
    ensures MaskDigits(d + x) == "N" + x
  {
    MaskDigitsRun(d, x);
    assert RunLength(x, 0, Digit) == 0 by {
      assert !Fits(Digit, x[0]);
    }
    assert x[0..] == x;
    MaskDigitsNoDigits(x);
  }

  /** One chunk of a digit run and the digit-free text after it, in front of the rest. */
  lemma ChunkStep(d: string, x: string, rest: string)
    requires |d| > 0 && AllDigits(d)
    requires |x| > 0 && NoDigits(x)
    ensures MaskDigits(d + x + rest) == "N" + x + MaskDigits(rest)
  {
    var c := d + x;
    assert c[|c| - 1] == x[|x| - 1];
    MaskDigitsAppend(c, rest);
    DigitsThen(d, x);
  }

  /** A chunk `c` made of two digit runs, each followed by digit-free text, masks to `m` in
      front of the rest. */
  lemma ChunkPair(c: string, m: string, d1: string, x1: string, d2: string, x2: string, t: string)
    requires |d1| > 0 && AllDigits(d1) && |x1| > 0 && NoDigits(x1)
    requires |d2| > 0 && AllDigits(d2) && |x2| > 0 && NoDigits(x2)
    requires c == d1 + x1 + d2 + x2 && m == "N" + x1 + "N" + x2
    ensures MaskDigits(c + t) == m + MaskDigits(t)
  {
    ChunkStep(d2, x2, t);
    ChunkStep(d1, x1, d2 + x2 + t);
    PairShape(d1, x1, d2, x2, t, MaskDigits(t));
  }

  lemma PairShape(d1: string, x1: string, d2: string, x2: string, t: string, m: string)
    ensures d1 + x1 + d2 + x2 + t == d1 + x1 + (d2 + x2 + t)
    ensures "N" + x1 + "N" + x2 + m == "N" + x1 + ("N" + x2 + m)
  {
  }

  /** The masked digit runs of the order id of sample line 12, in front of a tail, masked two
      runs at a time. */
  lemma Order12Runs(t: string)
    ensures MaskDigits("abf" + ("0c4d" + ("9-2d" + ("52-4e" + ("1f-a6b" + ("9-73f" + ("2f1c" + ("5d" + (t))))))))) == "abf" + ("NcNd" + ("N-Nd" + ("N-Ne" + ("Nf-aNb" + ("N-Nf" + ("NfNc" + ("Nd" + (MaskDigits(t)))))))))
  {
    var v4 := "9-73f" + ("2f1c" + ("5d" + t));
    Order12Back(t);
    Order12Middle(v4);
    Order12Front("52-4e" + ("1f-a6b" + v4));
  }

  /** The letters and the first two chunks of the order id of sample line 12. */
  lemma Order12Front(t: string)
    ensures MaskDigits("abf" + ("0c4d" + ("9-2d" + t))) == "abf" + ("NcNd" + ("N-Nd" + MaskDigits(t)))
  {
    ChunkPair("9-2d", "N-Nd", "9", "-", "2", "d", t);
    ChunkPair("0c4d", "NcNd", "0", "c", "4", "d", "9-2d" + t);
    MaskDigitsAppend("abf", "0c4d" + ("9-2d" + t));
    MaskDigitsNoDigits("abf");
  }

  /** The middle two chunks of the order id of sample line 12. */
  lemma Order12Middle(t: string)
    ensures MaskDigits("52-4e" + ("1f-a6b" + t)) == "N-Ne" + ("Nf-aNb" + MaskDigits(t))
  {
    ChunkPair("1f-a6b", "Nf-aNb", "1", "f-a", "6", "b", t);
    ChunkPair("52-4e", "N-Ne", "52", "-", "4", "e", "1f-a6b" + t);
  }

  /** The last chunks of the order id of sample line 12: two pairs and a single run. */
  lemma Order12Back(t: string)
    ensures MaskDigits("9-73f" + ("2f1c" + ("5d" + t))) == "N-Nf" + ("NfNc" + ("Nd" + MaskDigits(t)))
  {
    ChunkStep("5", "d", t);
    assert "5" + "d" == "5d" && "N" + "d" == "Nd";
    ChunkPair("2f1c", "NfNc", "2", "f", "1", "c", "5d" + t);
    ChunkPair("9-73f", "N-Nf", "9", "-", "73", "f", "2f1c" + ("5d" + t));
  }

  /** The order id of sample line 12 with its digit runs masked. */
  lemma Order12Masked()
    ensures MaskDigits(Order12) == "abfNcNdN-NdN-NeNf-aNbN-NfNfNcNdN"
  {
    Order12Cut();
    Order12Joined();
    TrailingRun();
    Order12Runs("001");
  }

  lemma TrailingRun()
    ensures MaskDigits("001") == "N"
  {
    MaskDigitsRun("001", "");
    assert "001" + "" == "001";
  }

  /** The order id of sample line 12 cut at the ends of its digit runs. */
  lemma Order12Cut()
    ensures Order12 == "abf" + ("0c4d" + ("9-2d" + ("52-4e" + ("1f-a6b" + ("9-73f" + ("2f1c" + ("5d" + ("001"))))))))
  {
  }

  lemma Order12Joined()
    ensures "abf" + ("NcNd" + ("N-Nd" + ("N-Ne" + ("Nf-aNb" + ("N-Nf" + ("NfNc" + ("Nd" + ("N")))))))) == "abfNcNdN-NdN-NeNf-aNbN-NfNfNcNdN"
  {
  }

  /** No UUID fits in fewer than 36 characters. */
  lemma ShortHasNoUuid(t: string)
    requires |t| < 36
    ensures forall j :: 0 <= j < |t| ==> !UuidAt(t, j)
  {
  }

  /** Digit masking of a digit-free `a`, a digit run `d`, a digit-free `v` and a field `o`. */
  lemma FieldDigits(a: string, d: string, v: string, o: string)
    requires NoDigits(a) && |d| > 0 && AllDigits(d) && |v| > 0 && NoDigits(v)
    ensures MaskDigits(a + d + v + o) == a + "N" + v + MaskDigits(o)
  {
    FieldShape(a, d, v, o, MaskDigits(o));
    LabelMask(a, d + v + o);
    ChunkStep(d, v, o);
  }

  lemma FieldShape(a: string, d: string, v: string, o: string, m: string)
    ensures a + d + v + o == a + (d + v + o)
    ensures a + ("N" + v + m) == a + "N" + v + m
  {
  }

  /** Digit masking of a line `x`, a space, and a field as above. */
  lemma QuotedLineDigits(x: string, a: string, d: string, v: string, o: string)
    requires |x| > 0 && !IsDigit(x[|x| - 1])
    requires NoDigits(a) && |d| > 0 && AllDigits(d) && |v| > 0 && NoDigits(v)
    ensures MaskDigits(x + " " + (a + d + v + o)) == MaskDigits(x) + (" " + (a + "N" + v + MaskDigits(o)))
  {
    MaskAroundSpace(x, a + d + v + o);
    FieldDigits(a, d, v, o);
  }

  /** The quote steps on a line that holds one quoted section: the section becomes `STR`. */
  lemma QuotedLineQuotes(pre: string, y: string, z: string)
    requires '"' !in pre && '\'' !in pre && '"' !in y && '\'' !in y && '"' !in z && '\'' !in z
    ensures MaskQuoted(MaskQuoted(pre + "\"" + y + "\"" + z, '"'), '\'') == pre + "STR" + z
  {
    DoubleQuoteStep(pre, y, z);
    SingleQuoteAbsent(pre, z);
  }

  lemma QuotedLineShape(x: string, a: string, b: string, y: string, c: string, m: string)
    ensures x + (" " + (a + "N" + (b + "\"" + y + "\"" + c) + m)) == (x + " " + a + "N" + b) + "\"" + y + "\"" + (c + m)
    ensures x + (" " + (a + "N" + b + "STR" + c + m)) == (x + " " + a + "N" + b) + "STR" + (c + m)
  {
  }

  lemma FreeOfQuotes(x: string, a: string, b: string)
    requires '"' !in x && '\'' !in x && '"' !in a && '\'' !in a && '"' !in b && '\'' !in b
    ensures '"' !in x + " " + a + "N" + b && '\'' !in x + " " + a + "N" + b
  {
  }

  lemma DoubleQuoteStep(pre: string, y: string, z: string)
    requires '"' !in pre && '"' !in y && '"' !in z
    ensures MaskQuoted(pre + "\"" + y + "\"" + z, '"') == pre + "STR" + z
  {
    assert pre + "\"" + y + "\"" + z == pre + ['"'] + y + ['"'] + z;
    MaskQuotedPair(pre, y, z, '"');
    MaskQuotedAbsent(z, '"');
  }

  lemma SingleQuoteAbsent(pre: string, z: string)
    requires '\'' !in pre && '\'' !in z
    ensures MaskQuoted(pre + "STR" + z, '\'') == pre + "STR" + z
  {
    assert '\'' !in pre + "STR" + z;
    MaskQuotedAbsent(pre + "STR" + z, '\'');
  }

  /** The UUID step on such a line leaves everything after the first space alone when the
      field is short up to a space, and no UUID fits after that space. */
  lemma QuotedLineUuids(x: string, a: string, b: string, tag: string, m: string)
    requires |a| + |b| < 31
    requires forall j :: 0 <= j < |tag + m| ==> !UuidAt(tag + m, j)
    ensures MaskUuids(x + (" " + (a + "N" + b + "STR" + (" " + tag) + m)))
      == MaskUuids(x + " ") + (a + "N" + b + "STR" + (" " + tag) + m)
  {
    var t1 := a + "N" + b + "STR" + " ";
    ShortHasNoUuid(t1);
    assert (x + " ")[|x + " "| - 1] == ' ';
    MaskUuidsSplit(x + " ", t1);
    var x1 := x + " " + t1;
    assert x1[|x1| - 1] == ' ';
    MaskUuidsSplit(x1, tag + m);
    assert x + (" " + (a + "N" + b + "STR" + (" " + tag) + m)) == x1 + (tag + m);
    assert (x + " ") + t1 + (tag + m) == (x + " ") + (a + "N" + b + "STR" + (" " + tag) + m);
  }

  /** Sample line 12 cut where the normaliser's rules act on it. */
  lemma PaymentLine12Cut()
    ensures PaymentLine("000", Order12) == (PaymentHead + "000" + PaymentFront) + " "
      + (PaymentCode + "442" + (PaymentMessage + "\"" + Declined + "\"" + (" " + OrderLabel)) + Order12)
  {
    Regroup(PaymentHead + "000", PaymentFront, PaymentCode, "442", PaymentMessage, Declined, OrderLabel, Order12);
  }

  lemma Regroup(h: string, f: string, a: string, d: string, b: string, y: string, c: string, o: string)
    ensures h + (f + " " + a + d + b + "\"" + y + "\"") + " " + c + o
      == (h + f) + " " + (a + d + (b + "\"" + y + "\"" + (" " + c)) + o)
  {
  }

  /** The key of sample line 12 from `code=` on: the error code's digits become `N`, the quoted
      message becomes `STR`, and the order id keeps its letters with each digit run masked. */
  lemma DemoPaymentKey12()
    ensures NormalizeMessage(PaymentLine("000", Order12))
      == MaskUuids(MaskDigits(PaymentHead + "000" + PaymentFront) + " ")
        + "code=PGW-N message=STR orderId=abfNcNdN-NdN-NeNf-aNbN-NfNfNcNdN"
  {
    var x := PaymentHead + "000" + PaymentFront;
    var v := PaymentMessage + "\"" + Declined + "\"" + (" " + OrderLabel);
    PaymentLine12Cut();
    PaymentPieces();
    QuotedLineDigits(x, PaymentCode, "442", v, Order12);
    var mx := MaskDigits(x);
    var m := MaskDigits(Order12);
    Order12Masked();
    QuotedLineShape(mx, PaymentCode, PaymentMessage, Declined, " " + OrderLabel, m);
    FreeOfQuotes(mx, PaymentCode, PaymentMessage);
    QuotedLineQuotes(mx + " " + PaymentCode + "N" + PaymentMessage, Declined, " " + OrderLabel + m);
    NoUuidAfterLabel(m);
    QuotedLineUuids(mx, PaymentCode, PaymentMessage, OrderLabel, m);
    PaymentKeyTail();
  }

  /** The facts about the fixed pieces of sample line 12 that the steps above ask for. */
  lemma PaymentPieces()
    ensures var x := PaymentHead + "000" + PaymentFront;
      |x| > 0 && !IsDigit(x[|x| - 1]) && '"' !in x && '\'' !in x
    ensures '"' !in MaskDigits(PaymentHead + "000" + PaymentFront)
    ensures '\'' !in MaskDigits(PaymentHead + "000" + PaymentFront)
    ensures NoDigits(PaymentCode) && '"' !in PaymentCode && '\'' !in PaymentCode
    ensures var v := PaymentMessage + "\"" + Declined + "\"" + (" " + OrderLabel); |v| > 0 && NoDigits(v)
    ensures '"' !in PaymentMessage && '\'' !in PaymentMessage && '"' !in Declined && '\'' !in Declined
    ensures '"' !in " " + OrderLabel && '\'' !in " " + OrderLabel
    ensures '"' !in "abfNcNdN-NdN-NeNf-aNbN-NfNfNcNdN" && '\'' !in "abfNcNdN-NdN-NeNf-aNbN-NfNfNcNdN"
    ensures AllDigits("442") && |PaymentCode| + |PaymentMessage| < 31
  {
    PaymentFrontFree();
    PaymentFieldFree();
  }

  lemma PaymentFrontFree()
    ensures var x := PaymentHead + "000" + PaymentFront;
      |x| > 0 && !IsDigit(x[|x| - 1]) && '"' !in x && '\'' !in x
    ensures '"' !in MaskDigits(PaymentHead + "000" + PaymentFront)
    ensures '\'' !in MaskDigits(PaymentHead + "000" + PaymentFront)
  {
    PaymentFrontShape();
    MaskedQuoteFree(PaymentHead + "000" + PaymentFront);
  }

  lemma PaymentFrontShape()
    ensures var x := PaymentHead + "000" + PaymentFront;
      |x| > 0 && !IsDigit(x[|x| - 1]) && '"' !in x && '\'' !in x
  {
    var x := PaymentHead + "000" + PaymentFront;
    assert x[|x| - 1] == 'r';
  }

  /** Digit masking brings in no quote. */
  lemma MaskedQuoteFree(s: string)
    requires '"' !in s && '\'' !in s
    ensures '"' !in MaskDigits(s) && '\'' !in MaskDigits(s)
  {
  }

  lemma PaymentFieldFree()
    ensures NoDigits(PaymentCode) && '"' !in PaymentCode && '\'' !in PaymentCode
    ensures var v := PaymentMessage + "\"" + Declined + "\"" + (" " + OrderLabel); |v| > 0 && NoDigits(v)
    ensures '"' !in PaymentMessage && '\'' !in PaymentMessage && '"' !in Declined && '\'' !in Declined
    ensures '"' !in " " + OrderLabel && '\'' !in " " + OrderLabel
    ensures '"' !in "abfNcNdN-NdN-NeNf-aNbN-NfNfNcNdN" && '\'' !in "abfNcNdN-NdN-NeNf-aNbN-NfNfNcNdN"
    ensures AllDigits("442") && |PaymentCode| + |PaymentMessage| < 31
  {
    PaymentMessageFree();
    MaskedOrder12Free();
  }

  lemma PaymentMessageFree()
    ensures var v := PaymentMessage + "\"" + Declined + "\"" + (" " + OrderLabel); |v| > 0 && NoDigits(v)
  {
    var w := PaymentMessage + "\"" + Declined + "\"";
    assert NoDigits(PaymentMessage) && NoDigits("\"") && NoDigits(Declined) && NoDigits(" " + OrderLabel);
    NoDigitsAppend(PaymentMessage, "\"");
    NoDigitsAppend(PaymentMessage + "\"", Declined);
    NoDigitsAppend(PaymentMessage + "\"" + Declined, "\"");
    NoDigitsAppend(w, " " + OrderLabel);
  }

  lemma MaskedOrder12Free()
    ensures '"' !in "abfNcNdN-NdN-NeNf-aNbN-NfNfNcNdN" && '\'' !in "abfNcNdN-NdN-NeNf-aNbN-NfNfNcNdN"
  {
  }

  /** The key of sample line 12 from `code=` on, assembled. */
  lemma PaymentKeyTail()
    ensures PaymentCode + "N" + PaymentMessage + "STR" + (" " + OrderLabel) + "abfNcNdN-NdN-NeNf-aNbN-NfNfNcNdN"
      == "code=PGW-N message=STR orderId=abfNcNdN-NdN-NeNf-aNbN-NfNfNcNdN"
  {
    KeyTailFront();
    KeyTailBack();
  }

  lemma KeyTailFront()
    ensures PaymentCode + "N" + PaymentMessage + "STR" == "code=PGW-N message=STR"
  {
  }

  lemma KeyTailBack()
    ensures "code=PGW-N message=STR" + (" " + OrderLabel) + "abfNcNdN-NdN-NeNf-aNbN-NfNfNcNdN"
      == "code=PGW-N message=STR orderId=abfNcNdN-NdN-NeNf-aNbN-NfNfNcNdN"
  {
    KeyTailLabel();
    KeyTailOrder();
  }

  lemma KeyTailLabel()
    ensures "code=PGW-N message=STR" + (" " + OrderLabel) == "code=PGW-N message=STR orderId="
  {
  }

  lemma KeyTailOrder()
    ensures "code=PGW-N message=STR orderId=" + "abfNcNdN-NdN-NeNf-aNbN-NfNfNcNdN"
      == "code=PGW-N message=STR orderId=abfNcNdN-NdN-NeNf-aNbN-NfNfNcNdN"
  {
  }

  lemma QuoteFree(s: string)
    requires forall k :: 0 <= k < |s| ==> s[k] != '"' && s[k] != '\''
    ensures '"' !in s && '\'' !in s
  {
  }

  lemma Order12QuoteFree()
    ensures '"' !in Order12 && '\'' !in Order12
  {
    QuoteFree(Order12);
  }

  lemma Order13QuoteFree()
    ensures '"' !in Order13 && '\'' !in Order13
  {
    QuoteFree(Order13);
  }

  lemma Order14QuoteFree()
    ensures '"' !in Order14 && '\'' !in Order14
  {
    QuoteFree(Order14);
  }

  lemma Order12Short()
    ensures |MaskDigits(Order12)| < 36
  {
    ShrinkAt(Order12, 11);
  }

  lemma Order13Short()
    ensures |MaskDigits(Order13)| < 36
  {
    ShrinkAt(Order13, 6);
  }

  lemma Order14Short()
    ensures |MaskDigits(Order14)| < 36
  {
    ShrinkAt(Order14, 6);
  }

  lemma Order12Head()
    ensures |MaskDigits(Order12)| > 0 && MaskDigits(Order12)[0] == 'a'
  {
    LeadingLetter(Order12);
  }

  lemma Order13Head()
    ensures |MaskDigits(Order13)| > 1 && MaskDigits(Order13)[0] == 'N' && MaskDigits(Order13)[1] == 'c'
  {
    LeadingDigitThenLetter(Order13);
  }

  lemma Order14Head()
    ensures |MaskDigits(Order14)| > 1 && MaskDigits(Order14)[0] == 'N' && MaskDigits(Order14)[1] == 'b'
  {
    LeadingDigitThenLetter(Order14);
  }

  lemma MaskedOrdersDiffer()
    ensures MaskDigits(Order12) != MaskDigits(Order13)
    ensures MaskDigits(Order13) != MaskDigits(Order14)
    ensures MaskDigits(Order12) != MaskDigits(Order14)
  {
    Order12Head();
    Order13Head();
    Order14Head();
  }

  /** The three payment lines differ only in digits and in their order ids, yet get three
      different keys: the UUID step cannot fire once the digits are masked, so the masked
      order ids stay in the keys and tell the lines apart. */
  lemma DemoPaymentKeysDiffer()
    ensures NormalizeMessage(PaymentLine("000", Order12)) != NormalizeMessage(PaymentLine("050", Order13))
    ensures NormalizeMessage(PaymentLine("050", Order13)) != NormalizeMessage(PaymentLine("100", Order14))
    ensures NormalizeMessage(PaymentLine("000", Order12)) != NormalizeMessage(PaymentLine("100", Order14))
  {
    Order12QuoteFree();
    Order13QuoteFree();
    Order14QuoteFree();
    Order12Short();
    Order13Short();
    Order14Short();
    MaskedOrdersDiffer();
    TimeoutDigits();
    PaymentParts();
    NoUuidAfterLabel(MaskDigits(Order12));
    NoUuidAfterLabel(MaskDigits(Order13));
    NoUuidAfterLabel(MaskDigits(Order14));
    LabelledKeysApart(PaymentHead, PaymentBody, OrderLabel, "000", "050", Order12, Order13);
    LabelledKeysApart(PaymentHead, PaymentBody, OrderLabel, "050", "100", Order13, Order14);
    LabelledKeysApart(PaymentHead, PaymentBody, OrderLabel, "000", "100", Order12, Order14);
  }
}
