/** Summary statistics (`calculateStats`, src/lib/logParser.ts): one counter per severity
    family and the earliest and latest timestamp seen. */
module Statistics {
  import opened LogTypes
  import opened Seqs
  import opened Sorting

  predicate IsErrorLevel(e: LogEntry) { e.severity == ERROR || e.severity == FATAL }
  predicate IsWarnLevel(e: LogEntry) { e.severity == WARN }
  predicate IsInfoLevel(e: LogEntry) { e.severity == INFO }
  predicate IsDebugLevel(e: LogEntry) { e.severity == DEBUG || e.severity == TRACE }

  /** Every severity is tallied under exactly one of the four counters, so the four counts
      add up to the number of entries. */
  lemma {:induction false} CountersPartition(entries: seq<LogEntry>)
    ensures Count(entries, IsErrorLevel) + Count(entries, IsWarnLevel)
      + Count(entries, IsInfoLevel) + Count(entries, IsDebugLevel) == |entries|
  {
    if |entries| > 0 {
      var rest := entries[..|entries| - 1];
      var e := entries[|entries| - 1];
      assert entries == rest + [e];
      CountersPartition(rest);
      TallyStep(rest, e);
    }
  }

  /** The timestamps of the entries that have one, in entry order. */
  function Timestamps(entries: seq<LogEntry>): (ts: seq<int>)
    ensures forall t :: t in ts <==> exists e :: e in entries && e.timestamp == Some(t)
  {
    if |entries| == 0 then []
    else
      var rest := entries[..|entries| - 1];
      var e := entries[|entries| - 1];
      assert entries == rest + [e];
      Timestamps(rest) + (if e.timestamp.Some? then [e.timestamp.value] else [])
  }

  function Identity(t: int): int { t }

  /** `lo` and `hi` are timestamps of some entries, and every timestamp lies between them. */
  ghost predicate TightRange(entries: seq<LogEntry>, lo: int, hi: int) {
    && (exists e :: e in entries && e.timestamp == Some(lo))
    && (exists e :: e in entries && e.timestamp == Some(hi))
    && forall e :: e in entries && e.timestamp.Some? ==> lo <= e.timestamp.value <= hi
  }

  /** The `timeRange` of `calculateStats`: the first and last element of the ascending sort
      of all timestamps, which are their minimum and maximum. Both bounds are set, or (when
      no entry has a timestamp) neither is. */
  function TimeRangeOf(entries: seq<LogEntry>): (range: TimeRange)
    ensures range.start.Some? <==> range.end.Some?
    ensures range.start.Some? <==> exists e :: e in entries && e.timestamp.Some?
    ensures range.start.Some? ==> TightRange(entries, range.start.value, range.end.value)
  {
    var sorted := SortBy(Timestamps(entries), Identity);
    SortedTimestamps(entries, sorted);
    if |sorted| == 0 then TimeRange(None, None)
    else TimeRange(Some(sorted[0]), Some(sorted[|sorted| - 1]))
  }

  /** The ends of the sorted timestamps bound them all. */
  lemma SortedTimestamps(entries: seq<LogEntry>, sorted: seq<int>)
    requires sorted == SortBy(Timestamps(entries), Identity)
    ensures |sorted| == 0 <==> !exists e :: e in entries && e.timestamp.Some?
    ensures |sorted| > 0 ==> TightRange(entries, sorted[0], sorted[|sorted| - 1])
  {
    var ts := Timestamps(entries);
    SortKeepsMembers(ts, sorted);
    if |sorted| > 0 {
      var lo := sorted[0];
      var hi := sorted[|sorted| - 1];
      assert lo in sorted && hi in sorted;
      forall e | e in entries && e.timestamp.Some?
        ensures lo <= e.timestamp.value <= hi
      {
        var t := e.timestamp.value;
        assert t in ts;
        assert t in sorted;
        var j :| 0 <= j < |sorted| && sorted[j] == t;
        SortedEnds(sorted, j);
      }
    }
  }

  lemma SortKeepsMembers(ts: seq<int>, sorted: seq<int>)
    requires sorted == SortBy(ts, Identity)
    ensures |sorted| == |ts|
    ensures forall t :: t in sorted <==> t in ts
  {
    assert forall t :: t in sorted <==> t in multiset(sorted);
    assert forall t :: t in ts <==> t in multiset(ts);
  }

  lemma SortedEnds(sorted: seq<int>, j: nat)
    requires SortedBy(sorted, Identity)
    requires j < |sorted|
    ensures sorted[0] <= sorted[j] <= sorted[|sorted| - 1]
  {
    assert Identity(sorted[0]) <= Identity(sorted[j]) || j == 0;
    assert Identity(sorted[j]) <= Identity(sorted[|sorted| - 1]) || j == |sorted| - 1;
  }

  /** The four running counters of `calculateStats`. */
  datatype Counters = Counters(errors: nat, warns: nat, infos: nat, debugs: nat)

  /** The counters as they stand once every entry of `s` has been tallied. */
  function CountersOf(s: seq<LogEntry>): Counters {
    Counters(Count(s, IsErrorLevel), Count(s, IsWarnLevel),
      Count(s, IsInfoLevel), Count(s, IsDebugLevel))
  }

  /** One pass of the `switch`: ERROR and FATAL are errors, WARN warnings, INFO info, DEBUG
      and TRACE debug. */
  function Tally(c: Counters, e: LogEntry): (r: Counters)
    ensures r.errors == c.errors + (if IsErrorLevel(e) then 1 else 0)
    ensures r.warns == c.warns + (if IsWarnLevel(e) then 1 else 0)
    ensures r.infos == c.infos + (if IsInfoLevel(e) then 1 else 0)
    ensures r.debugs == c.debugs + (if IsDebugLevel(e) then 1 else 0)
    ensures r.errors + r.warns + r.infos + r.debugs == c.errors + c.warns + c.infos + c.debugs + 1
  {
    match e.severity
    case ERROR => c.(errors := c.errors + 1)
    case FATAL => c.(errors := c.errors + 1)
    case WARN => c.(warns := c.warns + 1)
    case INFO => c.(infos := c.infos + 1)
    case DEBUG => c.(debugs := c.debugs + 1)
    case TRACE => c.(debugs := c.debugs + 1)
  }

  /** Tallying one more entry keeps the counters equal to the four counts. */
  lemma TallyStep(s: seq<LogEntry>, e: LogEntry)
    ensures Tally(CountersOf(s), e) == CountersOf(s + [e])
  {
    CountStep(s, e, IsErrorLevel);
    CountStep(s, e, IsWarnLevel);
    CountStep(s, e, IsInfoLevel);
    CountStep(s, e, IsDebugLevel);
  }

  lemma CountStep(s: seq<LogEntry>, e: LogEntry, p: LogEntry -> bool)
    ensures Count(s + [e], p) == Count(s, p) + (if p(e) then 1 else 0)
  {
    assert (s + [e])[..|s|] == s;
  }

  /** `calculateStats`. The `switch` tallies ERROR and FATAL as errors, WARN as warnings,
      INFO as info and DEBUG and TRACE as debug; its `default` arm cannot be reached, so
      `otherCount` is always 0 and the four counters add up to `totalLines`. */
  method CalculateStats(entries: seq<LogEntry>) returns (stats: LogStats)
    ensures stats.totalLines == |entries|
    ensures stats.errorCount == Count(entries, IsErrorLevel)
    ensures stats.warnCount == Count(entries, IsWarnLevel)
    ensures stats.infoCount == Count(entries, IsInfoLevel)
    ensures stats.debugCount == Count(entries, IsDebugLevel)
    ensures stats.otherCount == 0
    ensures stats.errorCount + stats.warnCount + stats.infoCount + stats.debugCount == stats.totalLines
    ensures stats.timeRange == TimeRangeOf(entries)
  {
    var counts := Counters(0, 0, 0, 0);
    var i := 0;
    while i < |entries|
      invariant 0 <= i <= |entries|
      invariant counts == CountersOf(entries[..i])
    {
      var e := entries[i];
      assert entries[..i + 1] == entries[..i] + [e];
      TallyStep(entries[..i], e);
      counts := Tally(counts, e);
      i := i + 1;
    }
    assert entries[..i] == entries;
    CountersPartition(entries);
    stats := LogStats(|entries|, counts.errors, counts.warns, counts.infos, counts.debugs, 0,
      TimeRangeOf(entries));
  }
}
