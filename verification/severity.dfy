/** The severity classifier (`extractSeverity` with `SEVERITY_PATTERNS`, src/lib/logParser.ts):
    keyword groups tried in a fixed order, each keyword matched as a whole word ignoring case. */
module SeverityClassifier {
  import opened Chars
  import opened LogTypes

  /** The order in which the keyword groups are tried. */
  const PriorityOrder: seq<Severity> := [FATAL, ERROR, WARN, INFO, DEBUG, TRACE]

  function Rank(level: Severity): nat {
    match level
    case FATAL => 0
    case ERROR => 1
    case WARN => 2
    case INFO => 3
    case DEBUG => 4
    case TRACE => 5
  }

  /** The alternatives of each level's pattern, all upper-case ASCII letters. */
  function Keywords(level: Severity): (kws: seq<string>)
    ensures 1 <= |kws| <= 2
  {
    match level
    case FATAL => ["FATAL", "CRITICAL"]
    case ERROR => ["ERROR", "ERR"]
    case WARN => ["WARN", "WARNING"]
    case INFO => ["INFO", "INFORMATION"]
    case DEBUG => ["DEBUG", "DBG"]
    case TRACE => ["TRACE"]
  }

  /** Every keyword is a non-empty run of upper-case ASCII letters, so under `/i` only ASCII
      letters of the text can match it. */
  lemma KeywordsUpperAscii(level: Severity)
    ensures forall kw :: kw in Keywords(level) ==> |kw| > 0 && forall c :: c in kw ==> 'A' <= c <= 'Z'
  {
  }

  /** `\bKW\b` with the `i` flag matches at `i`: word boundaries on both sides and the
      characters in between equal to `kw` once ASCII letters are upper-cased. */
  predicate WordAt(s: string, i: int, kw: string) {
    && 0 <= i && i + |kw| <= |s|
    && IsBoundary(s, i)
    && (forall k :: 0 <= k < |kw| ==> ToUpper(s[i + k]) == kw[k])
    && IsBoundary(s, i + |kw|)
  }

  ghost predicate HasWord(s: string, kw: string) {
    exists i :: WordAt(s, i, kw)
  }

  /** The pattern of `level` finds a match somewhere in `s`. */
  ghost predicate LevelMatches(s: string, level: Severity) {
    exists kw :: kw in Keywords(level) && HasWord(s, kw)
  }

  /** Scans the positions from `i` on for a whole-word occurrence of `kw`. */
  function FindWord(s: string, kw: string, i: nat): (found: bool)
    requires i <= |s|
    ensures found <==> exists j :: i <= j <= |s| && WordAt(s, j, kw)
    decreases |s| - i
  {
    if i == |s| then WordAt(s, i, kw)
    else WordAt(s, i, kw) || FindWord(s, kw, i + 1)
  }

  /** `regex.test(line)` for an alternation of keywords. */
  function AnyWord(s: string, kws: seq<string>): (found: bool)
    ensures found <==> exists kw :: kw in kws && HasWord(s, kw)
  {
    if |kws| == 0 then false
    else
      var hit := FindWord(s, kws[0], 0);
      assert hit ==> HasWord(s, kws[0]);
      assert HasWord(s, kws[0]) ==> hit by {
        if HasWord(s, kws[0]) {
          var j :| WordAt(s, j, kws[0]);
        }
      }
      hit || AnyWord(s, kws[1..])
  }

  lemma PriorityOrderRanks(level: Severity)
    ensures Rank(level) < |PriorityOrder| && PriorityOrder[Rank(level)] == level
  {
  }

  /** Tries the levels of rank `k` onwards, in priority order, and returns the first whose
      pattern matches. */
  function FirstMatchFrom(s: string, k: nat): (r: Option<Severity>)
    requires k <= |PriorityOrder|
    ensures r.Some? ==> k <= Rank(r.value) && LevelMatches(s, r.value)
    ensures r.Some? ==> forall l :: k <= Rank(l) < Rank(r.value) ==> !LevelMatches(s, l)
    ensures r.None? ==> forall l :: k <= Rank(l) ==> !LevelMatches(s, l)
    decreases |PriorityOrder| - k
  {
    if k == |PriorityOrder| then
      assert forall l :: Rank(l) < |PriorityOrder|;
      None
    else
      var level := PriorityOrder[k];
      assert Rank(level) == k;
      assert forall l :: Rank(l) == k ==> l == level by {
        forall l | Rank(l) == k ensures l == level {
          PriorityOrderRanks(l);
        }
      }
      if AnyWord(s, Keywords(level)) then Some(level)
      else FirstMatchFrom(s, k + 1)
  }

  /** `extractSeverity`: the highest-priority level whose keywords occur as a whole word, and
      INFO when none does. */
  function ExtractSeverity(line: string): (r: Severity)
    ensures LevelMatches(line, r) || (r == INFO && forall l :: !LevelMatches(line, l))
    ensures forall l :: Rank(l) < Rank(r) ==> !LevelMatches(line, l)
  {
    match FirstMatchFrom(line, 0)
    case Some(level) => level
    case None => INFO
  }

  /** Two levels that both satisfy `ExtractSeverity`'s contract are the same level. */
  lemma SeveritySpecUnique(line: string, a: Severity, b: Severity)
    requires LevelMatches(line, a) || (a == INFO && forall l :: !LevelMatches(line, l))
    requires forall l :: Rank(l) < Rank(a) ==> !LevelMatches(line, l)
    requires LevelMatches(line, b) || (b == INFO && forall l :: !LevelMatches(line, l))
    requires forall l :: Rank(l) < Rank(b) ==> !LevelMatches(line, l)
    ensures a == b
  {
  }

  lemma WordAtUpper(s: string, i: int, kw: string)
    ensures WordAt(UpperString(s), i, kw) <==> WordAt(s, i, kw)
  {
    var u := UpperString(s);
    if 0 <= i && i + |kw| <= |s| {
      assert IsBoundary(u, i) == IsBoundary(s, i);
      assert IsBoundary(u, i + |kw|) == IsBoundary(s, i + |kw|);
      forall k | 0 <= k < |kw| ensures ToUpper(u[i + k]) == kw[k] <==> ToUpper(s[i + k]) == kw[k] {
        assert u[i + k] == ToUpper(s[i + k]);
      }
    }
  }

  /** Case-insensitivity: upper-casing the line never changes its severity. */
  lemma ExtractSeverityIgnoresCase(line: string)
    ensures ExtractSeverity(UpperString(line)) == ExtractSeverity(line)
  {
    var u := UpperString(line);
    forall l ensures LevelMatches(u, l) <==> LevelMatches(line, l) {
      forall kw ensures HasWord(u, kw) <==> HasWord(line, kw) {
        if HasWord(u, kw) {
          var i :| WordAt(u, i, kw);
          WordAtUpper(line, i, kw);
        }
        if HasWord(line, kw) {
          var i :| WordAt(line, i, kw);
          WordAtUpper(line, i, kw);
        }
      }
    }
    SeveritySpecUnique(line, ExtractSeverity(u), ExtractSeverity(line));
  }
}
