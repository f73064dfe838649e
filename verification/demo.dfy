/** Worked examples taken from the bundled sample log (src/lib/demoLog.ts) and from the
    severity rules. Each sample line is written as a concatenation of its parts, split where a
    proof needs to see the seams. */
module DemoFixtures {
  import opened LogTypes
  import opened Chars
  import opened SeverityClassifier
  import opened TimestampExtractor

  /** Sample line 24: a bare ten-digit epoch. */
  const EpochSecondsDigits := "1732276500"
  const EpochSecondsRest := " INFO Epoch timestamp" + " example line (seconds)"

  /** Sample line 25: a bare thirteen-digit epoch. */
  const EpochMillisDigits := "1732276500123"
  const EpochMillisRest := " WARN Epoch timestamp" + " example line (milliseconds)"

  lemma Unpunctuated(p: string)
    requires forall k :: 0 <= k < |p| ==> p[k] != '-' && p[k] != '/' && p[k] != ','
    ensures '-' !in p && '/' !in p && ',' !in p
  {
  }

  /** Neither epoch sample line holds a `-`, `/` or `,`, so no date pattern can match it. */
  lemma EpochLinesUnpunctuated()
    ensures var s := EpochSecondsDigits + EpochSecondsRest; '-' !in s && '/' !in s && ',' !in s
    ensures var s := EpochMillisDigits + EpochMillisRest; '-' !in s && '/' !in s && ',' !in s
  {
    Unpunctuated(EpochSecondsDigits);
    Unpunctuated(EpochMillisDigits);
    Unpunctuated(" INFO Epoch timestamp");
    Unpunctuated(" WARN Epoch timestamp");
    Unpunctuated(" example line (seconds)");
    Unpunctuated(" example line (milliseconds)");
  }

  /** The value of a three-digit string, digit by digit. */
  lemma ThreeDigits(s: string)
    requires |s| == 3 && AllDigits(s)
    ensures DecimalValue(s) == DigitValue(s[0]) * 100 + DigitValue(s[1]) * 10 + DigitValue(s[2])
  {
    var p, q := s[..2], s[..1];
    assert p[..1] == q && p[1] == s[1] && q[..0] == [] && q[0] == s[0];
    assert DecimalValue(q) == DigitValue(s[0]);
    assert DecimalValue(p) == DigitValue(s[0]) * 10 + DigitValue(s[1]);
  }

  lemma EpochPieces()
    ensures AllDigits("173") && AllDigits("227") && AllDigits("650") && AllDigits("123")
    ensures DecimalValue("173") == 173 && DecimalValue("227") == 227
    ensures DecimalValue("650") == 650 && DecimalValue("123") == 123
  {
    ThreeDigits("173");
    ThreeDigits("227");
    ThreeDigits("650");
    ThreeDigits("123");
  }

  lemma EpochHeadValue()
    ensures AllDigits("173" + "227" + "650")
    ensures DecimalValue("173" + "227" + "650") == 173227650
  {
    EpochPieces();
    DecimalValueAppend("173", "227");
    DecimalValueAppend("173" + "227", "650");
  }

  lemma EpochSecondsValue()
    ensures AllDigits(EpochSecondsDigits)
    ensures DecimalValue(EpochSecondsDigits) == 1732276500
  {
    EpochHeadValue();
    var b := "173" + "227" + "650";
    DecimalValueAppend(b, "0");
    assert EpochSecondsDigits == b + "0";
  }

  /** Ten digits are seconds: the line's instant is the number times 1000. */
  lemma DemoEpochSeconds(parse: string -> Option<int>)
    ensures ExtractTimestamp(EpochSecondsDigits + EpochSecondsRest, parse) == Some(1732276500000)
  {
    EpochSecondsValue();
    EpochLinesUnpunctuated();
    LeadingEpoch(EpochSecondsDigits, EpochSecondsRest, parse);
  }

  lemma EpochMillisValue()
    ensures AllDigits(EpochMillisDigits)
    ensures DecimalValue(EpochMillisDigits) == 1732276500123
  {
    EpochSecondsValue();
    EpochPieces();
    assert EpochMillisDigits == EpochSecondsDigits + "123";
    DecimalValueAppend(EpochSecondsDigits, "123");
  }

  /** Thirteen digits are milliseconds: the number is the instant. */
  lemma DemoEpochMillis(parse: string -> Option<int>)
    ensures ExtractTimestamp(EpochMillisDigits + EpochMillisRest, parse) == Some(1732276500123)
  {
    EpochMillisValue();
    EpochLinesUnpunctuated();
    LeadingEpoch(EpochMillisDigits, EpochMillisRest, parse);
  }

  /** `CRITICAL` is a FATAL keyword, and FATAL is tested before ERROR. */
  lemma CriticalBeatsError()
    ensures ExtractSeverity("CRITICAL ERROR") == FATAL
  {
    assert WordAt("CRITICAL ERROR", 0, "CRITICAL");
    assert "CRITICAL" in Keywords(FATAL);
  }

  /** In a string made only of word characters, a keyword can only match as the whole string. */
  lemma WholeWordOnly(s: string, i: int, kw: string)
    requires forall k :: 0 <= k < |s| ==> IsWordChar(s[k])
    requires |kw| > 0 && WordAt(s, i, kw)
    ensures i == 0 && |kw| == |s|
  {
  }

  /** `ERRORS` is not the word `ERROR`: no keyword matches, so the line is INFO. */
  lemma PluralIsNotAKeyword()
    ensures ExtractSeverity("ERRORS") == INFO
  {
    var s := "ERRORS";
    assert forall k :: 0 <= k < |s| ==> IsWordChar(s[k]);
    forall l
      ensures !LevelMatches(s, l)
    {
      assert forall kw :: kw in Keywords(l) ==> 0 < |kw| != |s|;
      if LevelMatches(s, l) {
        var kw :| kw in Keywords(l) && HasWord(s, kw);
        var i :| WordAt(s, i, kw);
        WholeWordOnly(s, i, kw);
      }
    }
  }
}
