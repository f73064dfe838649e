/** The line tokenizer (`parseLogFile`, src/lib/logParser.ts): split on '\n', drop the
    segments that trim to nothing, and turn each remaining segment into an entry numbered
    from 1. */
module Tokenizer {
  import opened Chars
  import opened Seqs
  import opened LogTypes
  import SeverityClassifier
  import TimestampExtractor

  /** `parts.join('\n')`. */
  function JoinLines(parts: seq<string>): string
    requires |parts| >= 1
  {
    if |parts| == 1 then parts[0] else parts[0] + "\n" + JoinLines(parts[1..])
  }

  /** `content.split('\n')`: the segments between line feeds, with their separators removed.
      A carriage return before a line feed stays at the end of its segment. */
  function SplitLines(s: string): (parts: seq<string>)
    ensures |parts| >= 1
    ensures forall k :: 0 <= k < |parts| ==> '\n' !in parts[k]
    ensures JoinLines(parts) == s
    decreases |s|
  {
    if '\n' !in s then [s]
    else
      var i := FirstIndex(s, '\n');
      assert s == s[..i] + "\n" + s[i + 1..];
      var rest := SplitLines(s[i + 1..]);
      assert ([s[..i]] + rest)[1..] == rest;
      [s[..i]] + rest
  }

  /** Splitting undoes joining, for segments without line feeds. */
  lemma {:induction false} SplitJoinLines(parts: seq<string>)
    requires |parts| >= 1
    requires forall k :: 0 <= k < |parts| ==> '\n' !in parts[k]
    ensures SplitLines(JoinLines(parts)) == parts
  {
    if |parts| > 1 {
      var s := JoinLines(parts);
      var tail := JoinLines(parts[1..]);
      assert s == parts[0] + "\n" + tail;
      assert s[|parts[0]|] == '\n';
      assert forall j :: 0 <= j < |parts[0]| ==> s[j] == parts[0][j];
      assert FirstIndex(s, '\n') == |parts[0]|;
      assert s[..|parts[0]|] == parts[0];
      assert s[|parts[0]| + 1..] == tail;
      SplitJoinLines(parts[1..]);
    }
  }

  /** Leading whitespace removed. */
  function TrimStart(s: string): (r: string)
    ensures |r| <= |s| && r == s[|s| - |r|..]
    ensures AllWhitespace(s[..|s| - |r|])
    ensures r == [] || !IsWhitespace(r[0])
  {
    if |s| > 0 && IsWhitespace(s[0]) then
      var r := TrimStart(s[1..]);
      assert s[..|s| - |r|] == [s[0]] + s[1..][..|s| - 1 - |r|];
      r
    else s
  }

  /** Trailing whitespace removed. */
  function TrimEnd(s: string): (r: string)
    ensures |r| <= |s| && r == s[..|r|]
    ensures AllWhitespace(s[|r|..])
    ensures r == [] || !IsWhitespace(r[|r| - 1])
  {
    if |s| > 0 && IsWhitespace(s[|s| - 1]) then
      var r := TrimEnd(s[..|s| - 1]);
      assert s[|r|..] == s[..|s| - 1][|r|..] + [s[|s| - 1]];
      r
    else s
  }

  /** `r` is a slice of `s` with only whitespace before it and after it. */
  ghost predicate WhitespaceFramed(s: string, r: string) {
    exists a ::
      && 0 <= a && a + |r| <= |s|
      && r == s[a..a + |r|]
      && AllWhitespace(s[..a])
      && AllWhitespace(s[a + |r|..])
  }

  /** `String.prototype.trim`: the slice of `s` left once the whitespace at both ends is cut
      off; empty exactly when `s` is all whitespace. */
  function Trim(s: string): (r: string)
    ensures WhitespaceFramed(s, r)
    ensures r == [] || (!IsWhitespace(r[0]) && !IsWhitespace(r[|r| - 1]))
    ensures r == [] <==> AllWhitespace(s)
  {
    var t := TrimStart(s);
    var r := TrimEnd(t);
    TrimBothEnds(s, t, r);
    r
  }

  /** Cutting whitespace off the front and then off the back leaves a slice of the input
      between two whitespace runs. */
  lemma TrimBothEnds(s: string, t: string, r: string)
    requires |t| <= |s| && t == s[|s| - |t|..] && AllWhitespace(s[..|s| - |t|])
    requires t == [] || !IsWhitespace(t[0])
    requires |r| <= |t| && r == t[..|r|] && AllWhitespace(t[|r|..])
    requires r == [] || !IsWhitespace(r[|r| - 1])
    ensures WhitespaceFramed(s, r)
    ensures r == [] || (!IsWhitespace(r[0]) && !IsWhitespace(r[|r| - 1]))
    ensures r == [] <==> AllWhitespace(s)
  {
    var a := |s| - |t|;
    assert r == s[a..a + |r|];
    assert s[a + |r|..] == t[|r|..];
    if r == [] {
      assert s == s[..a] + t && t == t[|r|..];
    } else {
      assert r[0] == t[0];
    }
  }

  /** The filter `line => line.trim().length > 0`, stated as "not all whitespace";
      `HasContentIffTrimmed` shows the two readings agree. */
  predicate HasContent(line: string) {
    !AllWhitespace(line)
  }

  /** A segment passes the filter exactly when trimming leaves something. */
  lemma HasContentIffTrimmed(line: string)
    ensures HasContent(line) <==> |Trim(line)| > 0
  {
  }

  /** The segments that survive the blank-line filter, in order. */
  function ContentLines(content: string): (lines: seq<string>)
    ensures forall line :: line in lines ==> line in SplitLines(content) && HasContent(line) && '\n' !in line
    ensures forall line :: line in SplitLines(content) && HasContent(line) ==> line in lines
  {
    Filter(SplitLines(content), HasContent)
  }

  function MakeEntry(line: string, index: nat, parse: string -> Option<int>): (e: LogEntry)
    ensures e.rawLine == line && e.lineNumber >= 1
    ensures e.message == [] <==> AllWhitespace(line)
    ensures e.severity == INFO || SeverityClassifier.LevelMatches(line, e.severity)
  {
    LogEntry(
      TimestampExtractor.ExtractTimestamp(line, parse),
      SeverityClassifier.ExtractSeverity(line),
      Trim(line),
      line,
      index + 1)
  }

  /** `parseLogFile`: one entry per non-blank segment, in order. The message is the trimmed
      segment and line numbers count only the retained segments (`EntriesClassified` says how
      severity and timestamp are read, `NoEntriesIffWhitespace` when nothing is produced). */
  function ParseLogFile(content: string, parse: string -> Option<int>): (entries: seq<LogEntry>)
    ensures |entries| == |ContentLines(content)|
    ensures forall i :: 0 <= i < |entries| ==>
      && entries[i].lineNumber == i + 1
      && entries[i].rawLine == ContentLines(content)[i]
      && '\n' !in entries[i].rawLine
      && entries[i].message == Trim(entries[i].rawLine)
      && |entries[i].message| > 0
  {
    var lines := ContentLines(content);
    assert forall i :: 0 <= i < |lines| ==> lines[i] in SplitLines(content);
    seq(|lines|, i requires 0 <= i < |lines| => MakeEntry(lines[i], i, parse))
  }

  /** The input yields no entries exactly when it is all whitespace (the empty string
      included). */
  lemma NoEntriesIffWhitespace(content: string, parse: string -> Option<int>)
    ensures ParseLogFile(content, parse) == [] <==> AllWhitespace(content)
  {
    NoContentIffWhitespace(content);
  }

  /** Severity and timestamp are read from the untrimmed segment, not from the message. */
  lemma EntriesClassified(content: string, parse: string -> Option<int>)
    ensures var entries := ParseLogFile(content, parse);
      forall i :: 0 <= i < |entries| ==>
        && entries[i].severity == SeverityClassifier.ExtractSeverity(entries[i].rawLine)
        && entries[i].timestamp == TimestampExtractor.ExtractTimestamp(entries[i].rawLine, parse)
  {
  }

  lemma {:induction false} JoinLinesWhitespace(parts: seq<string>)
    requires |parts| >= 1
    ensures AllWhitespace(JoinLines(parts)) <==> forall k :: 0 <= k < |parts| ==> AllWhitespace(parts[k])
  {
    if |parts| > 1 {
      JoinLinesWhitespace(parts[1..]);
      var tail := JoinLines(parts[1..]);
      var s := parts[0] + "\n" + tail;
      assert forall j :: 0 <= j < |parts[0]| ==> s[j] == parts[0][j];
      assert forall j :: 0 <= j < |tail| ==> s[|parts[0]| + 1 + j] == tail[j];
      assert forall k :: 0 < k < |parts| ==> parts[k] == parts[1..][k - 1];
      if AllWhitespace(parts[0]) && AllWhitespace(tail) {
        forall j | 0 <= j < |s| ensures IsWhitespace(s[j]) {
          if j > |parts[0]| {
            assert s[j] == tail[j - |parts[0]| - 1];
          }
        }
      }
    }
  }

  /** No segment survives the filter exactly when the whole input is whitespace. */
  lemma NoContentIffWhitespace(content: string)
    ensures ContentLines(content) == [] <==> AllWhitespace(content)
  {
    var parts := SplitLines(content);
    JoinLinesWhitespace(parts);
    FilterEmpty(parts, HasContent);
    forall k | 0 <= k < |parts|
      ensures HasContent(parts[k]) <==> !AllWhitespace(parts[k])
    {
      var t := Trim(parts[k]);
    }
  }

  /** The entries correspond one-to-one and in order to the segments that are not all
      whitespace: entry i comes from segment f[i], the f[i] increase, and every segment with
      content is some f[i]. */
  lemma EntriesFollowSegments(content: string, parse: string -> Option<int>)
    ensures var segments := SplitLines(content);
      var f := Positions(segments, HasContent);
      var entries := ParseLogFile(content, parse);
      && |entries| == |f|
      && (forall i :: 0 <= i < |f| ==> entries[i].rawLine == segments[f[i]])
      && (forall i, j :: 0 <= i < j < |f| ==> f[i] < f[j])
      && (forall k :: 0 <= k < |segments| ==> (k in f <==> !AllWhitespace(segments[k])))
  {
    FilterIsOrderedSelection(SplitLines(content), HasContent);
  }
}
