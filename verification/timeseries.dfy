/** Hourly buckets (`generateTimeSeriesData`, src/lib/logParser.ts): the timestamped entries
    counted per UTC hour in an insertion-ordered map, then sorted by hour. The source keys
    the map by the string `YYYY-MM-DDTHH:00:00` and sorts with `localeCompare`; the model keys
    it by the hour index, which names the same hour and orders the same way. */
module TimeSeries {
  import opened LogTypes
  import opened Seqs
  import opened Sorting

  const MillisPerHour: int := 3600000

  /** The hour containing instant `t`. Dafny's division by a positive number rounds down, so
      instants before 1970 fall in the hour `toISOString` prints for them too. */
  function HourOf(t: int): (h: int)
    ensures h * MillisPerHour <= t < h * MillisPerHour + MillisPerHour
  {
    t / MillisPerHour
  }

  /** The three columns of a bucket: ERROR and FATAL count as errors, WARN as warnings, and
      every other severity as info. */
  datatype Column = Errors | Warnings | Info

  function ColumnOf(s: Severity): Column {
    if s == ERROR || s == FATAL then Errors
    else if s == WARN then Warnings
    else Info
  }

  /** The entries that take part: those with a timestamp. */
  function Timed(entries: seq<LogEntry>): seq<LogEntry> {
    Filter(entries, HasTimestamp)
  }

  predicate InHour(e: LogEntry, h: int) {
    e.timestamp.Some? && HourOf(e.timestamp.value) == h
  }

  /** The hour of a timestamped entry (0 stands in for an entry without one, which never
      reaches the buckets). */
  function EntryHour(e: LogEntry): int {
    match e.timestamp
    case Some(t) => HourOf(t)
    case None => 0
  }

  /** How many entries of `s` fall in hour `h` and are counted under column `col`. */
  function CountIn(s: seq<LogEntry>, h: int, col: Column): nat {
    if |s| == 0 then 0
    else
      var e := s[|s| - 1];
      CountIn(s[..|s| - 1], h, col) + (if InHour(e, h) && ColumnOf(e.severity) == col then 1 else 0)
  }

  function HoursOf(s: seq<LogEntry>): (hs: seq<int>)
    ensures |hs| == |s|
    ensures forall i :: 0 <= i < |s| ==> hs[i] == EntryHour(s[i])
  {
    seq(|s|, i requires 0 <= i < |s| => EntryHour(s[i]))
  }

  function PointHours(points: seq<TimeSeriesPoint>): (hs: seq<int>)
    ensures |hs| == |points|
    ensures forall i :: 0 <= i < |points| ==> hs[i] == points[i].hour
  {
    seq(|points|, i requires 0 <= i < |points| => points[i].hour)
  }

  function Total(p: TimeSeriesPoint): int {
    p.errors + p.warnings + p.info
  }

  function HourKey(p: TimeSeriesPoint): int {
    p.hour
  }

  /** The bucket `p` holds the right numbers for its hour among the entries `s`. */
  ghost predicate Counts(p: TimeSeriesPoint, s: seq<LogEntry>) {
    && p.errors == CountIn(s, p.hour, Errors)
    && p.warnings == CountIn(s, p.hour, Warnings)
    && p.info == CountIn(s, p.hour, Info)
  }

  /** The map after `s` has been folded in: one bucket per distinct hour, in order of first
      appearance, each with the right numbers. */
  ghost predicate SeriesOf(s: seq<LogEntry>, points: seq<TimeSeriesPoint>) {
    && PointHours(points) == Distinct(HoursOf(s))
    && forall i :: 0 <= i < |points| ==> Counts(points[i], s)
  }

  /** `data.errors++`, `data.warnings++` or `data.info++`. */
  function Tally(p: TimeSeriesPoint, e: LogEntry): (q: TimeSeriesPoint)
    ensures q.hour == p.hour && Total(q) == Total(p) + 1
  {
    match ColumnOf(e.severity)
    case Errors => p.(errors := p.errors + 1)
    case Warnings => p.(warnings := p.warnings + 1)
    case Info => p.(info := p.info + 1)
  }

  /** One step of the `forEach`: `get(hour) || zeros`, tally, `set(hour, …)`. An existing hour
      keeps its place in the map; a new hour goes last. */
  function AddToSeries(points: seq<TimeSeriesPoint>, e: LogEntry): (r: seq<TimeSeriesPoint>)
    ensures PointHours(r) == if EntryHour(e) in PointHours(points) then PointHours(points)
      else PointHours(points) + [EntryHour(e)]
    ensures forall j :: 0 <= j < |points| ==>
      r[j] == points[j] || (r[j].hour == EntryHour(e) && r[j] == Tally(points[j], e))
    ensures EntryHour(e) !in PointHours(points) ==> Total(r[|points|]) == 1
  {
    var h := EntryHour(e);
    if h in PointHours(points) then
      var i := FirstIndex(PointHours(points), h);
      ExistingHour(points, e, i);
      points[i := Tally(points[i], e)]
    else
      NewHour(points, e);
      points + [Tally(TimeSeriesPoint(h, 0, 0, 0), e)]
  }

  /** The bucket of an hour already in the map is tallied in place. */
  lemma ExistingHour(points: seq<TimeSeriesPoint>, e: LogEntry, i: nat)
    requires i < |points| && points[i].hour == EntryHour(e)
    ensures var r := points[i := Tally(points[i], e)];
      && PointHours(r) == PointHours(points)
      && forall j :: 0 <= j < |points| ==>
        r[j] == points[j] || (r[j].hour == EntryHour(e) && r[j] == Tally(points[j], e))
  {
    var r := points[i := Tally(points[i], e)];
    UpdateKeepsHours(points, i, Tally(points[i], e));
    assert r[i].hour == EntryHour(e) && forall j :: 0 <= j < |points| && j != i ==> r[j] == points[j];
  }

  /** The `{0, 0, 0}` default, tallied once, holds exactly one entry. */
  lemma TallyZero(h: int, e: LogEntry)
    ensures Total(Tally(TimeSeriesPoint(h, 0, 0, 0), e)) == 1
  {
    assert Total(TimeSeriesPoint(h, 0, 0, 0)) == 0;
  }

  /** A new hour gets a tallied zero bucket at the end of the map. */
  lemma NewHour(points: seq<TimeSeriesPoint>, e: LogEntry)
    ensures var r := points + [Tally(TimeSeriesPoint(EntryHour(e), 0, 0, 0), e)];
      && PointHours(r) == PointHours(points) + [EntryHour(e)]
      && (forall j :: 0 <= j < |points| ==> r[j] == points[j])
      && Total(r[|points|]) == 1
  {
    var p := Tally(TimeSeriesPoint(EntryHour(e), 0, 0, 0), e);
    TallyZero(EntryHour(e), e);
    var r := points + [p];
    PointHoursSnoc(points, p);
    assert p.hour == EntryHour(e) && r[|points|] == p;
    assert forall j :: 0 <= j < |points| ==> r[j] == points[j];
  }

  /** `timeMap` once every entry of `s` has been added. */
  function Bucketize(s: seq<LogEntry>): (points: seq<TimeSeriesPoint>)
    requires forall i :: 0 <= i < |s| ==> HasTimestamp(s[i])
    ensures SeriesOf(s, points)
    ensures SumBy(points, Total) == |s|
  {
    if |s| == 0 then []
    else
      var s' := s[..|s| - 1];
      var e := s[|s| - 1];
      assert s == s' + [e];
      var points' := Bucketize(s');
      AddStep(s', e, points');
      AddStepTotal(e, points');
      AddToSeries(points', e)
  }

  lemma CountInSnoc(s': seq<LogEntry>, e: LogEntry, h: int, col: Column)
    ensures CountIn(s' + [e], h, col)
      == CountIn(s', h, col) + (if InHour(e, h) && ColumnOf(e.severity) == col then 1 else 0)
  {
    assert (s' + [e])[..|s'|] == s';
  }

  lemma HoursOfSnoc(s': seq<LogEntry>, e: LogEntry)
    ensures HoursOf(s' + [e]) == HoursOf(s') + [EntryHour(e)]
    ensures Distinct(HoursOf(s' + [e])) ==
      if EntryHour(e) in HoursOf(s') then Distinct(HoursOf(s'))
      else Distinct(HoursOf(s')) + [EntryHour(e)]
  {
    var hs := HoursOf(s' + [e]);
    assert hs == HoursOf(s') + [EntryHour(e)];
    assert hs[..|hs| - 1] == HoursOf(s');
  }

  /** An hour nobody has reached yet has all-zero counts. */
  lemma {:induction false} CountInAbsent(s: seq<LogEntry>, h: int, col: Column)
    requires forall i :: 0 <= i < |s| ==> HasTimestamp(s[i])
    requires h !in HoursOf(s)
    ensures CountIn(s, h, col) == 0
  {
    if |s| > 0 {
      var s' := s[..|s| - 1];
      assert HoursOf(s) == HoursOf(s') + [EntryHour(s[|s| - 1])];
      CountInAbsent(s', h, col);
    }
  }

  lemma AddStep(s': seq<LogEntry>, e: LogEntry, points': seq<TimeSeriesPoint>)
    requires forall i :: 0 <= i < |s'| ==> HasTimestamp(s'[i])
    requires HasTimestamp(e)
    requires SeriesOf(s', points')
    ensures SeriesOf(s' + [e], AddToSeries(points', e))
  {
    HoursOfSnoc(s', e);
    if EntryHour(e) in PointHours(points') {
      AddExisting(s', e, points');
    } else {
      AddNew(s', e, points');
    }
  }

  lemma CountsSnoc(s': seq<LogEntry>, e: LogEntry, p: TimeSeriesPoint)
    requires Counts(p, s')
    requires !InHour(e, p.hour)
    ensures Counts(p, s' + [e])
  {
    CountInSnoc(s', e, p.hour, Errors);
    CountInSnoc(s', e, p.hour, Warnings);
    CountInSnoc(s', e, p.hour, Info);
  }

  lemma CountsTally(s': seq<LogEntry>, e: LogEntry, p: TimeSeriesPoint)
    requires Counts(p, s')
    requires InHour(e, p.hour)
    ensures Counts(Tally(p, e), s' + [e])
  {
    CountInSnoc(s', e, p.hour, Errors);
    CountInSnoc(s', e, p.hour, Warnings);
    CountInSnoc(s', e, p.hour, Info);
  }

  lemma AddExisting(s': seq<LogEntry>, e: LogEntry, points': seq<TimeSeriesPoint>)
    requires HasTimestamp(e)
    requires SeriesOf(s', points')
    requires EntryHour(e) in PointHours(points')
    ensures SeriesOf(s' + [e], AddToSeries(points', e))
  {
    HoursOfSnoc(s', e);
    var hours := PointHours(points');
    var k := FirstIndex(hours, EntryHour(e));
    var points := points'[k := Tally(points'[k], e)];
    ExistingHourUnfold(points', e);
    UpdateKeepsHours(points', k, points[k]);
    HoursApart(points', k);
    UpdateCounts(s', e, points', k, points);
  }

  lemma ExistingHourUnfold(points: seq<TimeSeriesPoint>, e: LogEntry)
    requires EntryHour(e) in PointHours(points)
    ensures var k := FirstIndex(PointHours(points), EntryHour(e));
      AddToSeries(points, e) == points[k := Tally(points[k], e)]
  {
  }

  /** In a map with distinct hours, no bucket but the `k`th has the `k`th bucket's hour. */
  lemma HoursApart(points: seq<TimeSeriesPoint>, k: nat)
    requires k < |points|
    requires forall i, j :: 0 <= i < j < |PointHours(points)| ==> PointHours(points)[i] != PointHours(points)[j]
    ensures forall j :: 0 <= j < |points| && j != k ==> points[j].hour != points[k].hour
  {
    var hours := PointHours(points);
    forall j | 0 <= j < |points| && j != k
      ensures points[j].hour != points[k].hour
    {
      assert hours[j] == points[j].hour && hours[k] == points[k].hour;
    }
  }

  /** Tallying `e` into the only bucket of its hour keeps every bucket right. */
  lemma UpdateCounts(s': seq<LogEntry>, e: LogEntry, points': seq<TimeSeriesPoint>, k: nat,
                      points: seq<TimeSeriesPoint>)
    requires HasTimestamp(e)
    requires forall j :: 0 <= j < |points'| ==> Counts(points'[j], s')
    requires k < |points'| && points'[k].hour == EntryHour(e)
    requires forall j :: 0 <= j < |points'| && j != k ==> points'[j].hour != points'[k].hour
    requires points == points'[k := Tally(points'[k], e)]
    ensures forall j :: 0 <= j < |points| ==> Counts(points[j], s' + [e])
  {
    forall j | 0 <= j < |points|
      ensures Counts(points[j], s' + [e])
    {
      BucketStep(s', e, points'[j], points[j]);
    }
  }

  /** A bucket keeps the right numbers when the next entry is tallied into it if it falls in
      the bucket's hour, and it is left alone otherwise. */
  lemma BucketStep(s': seq<LogEntry>, e: LogEntry, p': TimeSeriesPoint, p: TimeSeriesPoint)
    requires HasTimestamp(e)
    requires Counts(p', s')
    requires p == if p'.hour == EntryHour(e) then Tally(p', e) else p'
    ensures Counts(p, s' + [e])
  {
    if p'.hour == EntryHour(e) {
      CountsTally(s', e, p');
    } else {
      CountsSnoc(s', e, p');
    }
  }

  lemma UpdateKeepsHours(points: seq<TimeSeriesPoint>, i: nat, p: TimeSeriesPoint)
    requires i < |points| && p.hour == points[i].hour
    ensures PointHours(points[i := p]) == PointHours(points)
  {
    assert forall j :: 0 <= j < |points| ==> points[i := p][j].hour == points[j].hour;
  }

  lemma AddNew(s': seq<LogEntry>, e: LogEntry, points': seq<TimeSeriesPoint>)
    requires forall i :: 0 <= i < |s'| ==> HasTimestamp(s'[i])
    requires HasTimestamp(e)
    requires SeriesOf(s', points')
    requires EntryHour(e) !in PointHours(points')
    ensures SeriesOf(s' + [e], AddToSeries(points', e))
  {
    HoursOfSnoc(s', e);
    var h := EntryHour(e);
    var added := Tally(TimeSeriesPoint(h, 0, 0, 0), e);
    var points := AddToSeries(points', e);
    assert points == points' + [added];
    PointHoursSnoc(points', added);
    OldBucketsKept(s', e, points');
    NewBucket(s', e);
    AppendCounts(s' + [e], points', added);
  }

  lemma AppendCounts(s: seq<LogEntry>, points': seq<TimeSeriesPoint>, p: TimeSeriesPoint)
    requires forall j :: 0 <= j < |points'| ==> Counts(points'[j], s)
    requires Counts(p, s)
    ensures forall j :: 0 <= j < |points'| + 1 ==> Counts((points' + [p])[j], s)
  {
  }

  lemma PointHoursSnoc(points': seq<TimeSeriesPoint>, p: TimeSeriesPoint)
    ensures PointHours(points' + [p]) == PointHours(points') + [p.hour]
  {
    var hs := PointHours(points' + [p]);
    assert forall i :: 0 <= i < |points'| ==> hs[i] == PointHours(points')[i];
  }

  lemma OldBucketsKept(s': seq<LogEntry>, e: LogEntry, points': seq<TimeSeriesPoint>)
    requires HasTimestamp(e)
    requires SeriesOf(s', points')
    requires EntryHour(e) !in PointHours(points')
    ensures forall j :: 0 <= j < |points'| ==> Counts(points'[j], s' + [e])
  {
    forall j | 0 <= j < |points'|
      ensures Counts(points'[j], s' + [e])
    {
      assert PointHours(points')[j] == points'[j].hour;
      CountsSnoc(s', e, points'[j]);
    }
  }

  lemma NewBucket(s': seq<LogEntry>, e: LogEntry)
    requires forall i :: 0 <= i < |s'| ==> HasTimestamp(s'[i])
    requires HasTimestamp(e)
    requires EntryHour(e) !in HoursOf(s')
    ensures Counts(Tally(TimeSeriesPoint(EntryHour(e), 0, 0, 0), e), s' + [e])
  {
    var h := EntryHour(e);
    CountInAbsent(s', h, Errors);
    CountInAbsent(s', h, Warnings);
    CountInAbsent(s', h, Info);
    CountsTally(s', e, TimeSeriesPoint(h, 0, 0, 0));
  }

  lemma AddStepTotal(e: LogEntry, points': seq<TimeSeriesPoint>)
    ensures SumBy(AddToSeries(points', e), Total) == SumBy(points', Total) + 1
  {
    var hours := PointHours(points');
    if EntryHour(e) in hours {
      var i := FirstIndex(hours, EntryHour(e));
      SumByUpdate(points', i, Tally(points'[i], e), Total);
    } else {
      var p := Tally(TimeSeriesPoint(EntryHour(e), 0, 0, 0), e);
      SumByAppend(points', [p], Total);
      assert SumBy([p], Total) == Total(p);
    }
  }

  /** An hour that some entry falls in has a bucket total of at least one: that entry is
      counted in the column of its severity. */
  lemma {:induction false} CountInReached(s: seq<LogEntry>, m: nat)
    requires m < |s| && HasTimestamp(s[m])
    ensures CountIn(s, EntryHour(s[m]), ColumnOf(s[m].severity)) >= 1
  {
    var n := |s| - 1;
    if m < n {
      assert s[..n][m] == s[m];
      CountInReached(s[..n], m);
    }
  }

  lemma BucketsReached(s: seq<LogEntry>, points: seq<TimeSeriesPoint>)
    requires forall i :: 0 <= i < |s| ==> HasTimestamp(s[i])
    requires SeriesOf(s, points)
    ensures forall i :: 0 <= i < |points| ==> Total(points[i]) >= 1
  {
    forall i | 0 <= i < |points|
      ensures Total(points[i]) >= 1
    {
      var h := points[i].hour;
      assert PointHours(points)[i] == h;
      assert h in HoursOf(s);
      var m :| 0 <= m < |s| && HoursOf(s)[m] == h;
      CountInReached(s, m);
      assert Counts(points[i], s);
    }
  }

  /** What the series promises about the timestamped entries `timed`: every bucket counts
      exactly its hour's entries by column and has at least one, the hours strictly increase,
      and the totals add up to the number of timestamped entries. */
  ghost predicate SeriesSpec(series: seq<TimeSeriesPoint>, timed: seq<LogEntry>) {
    && (forall i :: 0 <= i < |series| ==> Counts(series[i], timed))
    && (forall i :: 0 <= i < |series| ==> Total(series[i]) >= 1)
    && (forall i, j :: 0 <= i < j < |series| ==> series[i].hour < series[j].hour)
    && SumBy(series, Total) == |timed|
  }

  /** `generateTimeSeriesData`: `[]` when no entry has a timestamp, otherwise the buckets in
      ascending hour order. */
  function GenerateTimeSeriesData(entries: seq<LogEntry>): (series: seq<TimeSeriesPoint>)
    ensures SeriesSpec(series, Timed(entries))
  {
    if |Timed(entries)| == 0 then []
    else
      TimedHaveTimestamps(entries);
      SeriesFacts(Timed(entries));
      SortBy(Bucketize(Timed(entries)), HourKey)
  }

  lemma TimedHaveTimestamps(entries: seq<LogEntry>)
    ensures forall i :: 0 <= i < |Timed(entries)| ==> HasTimestamp(Timed(entries)[i])
  {
  }

  lemma SeriesFacts(timed: seq<LogEntry>)
    requires forall i :: 0 <= i < |timed| ==> HasTimestamp(timed[i])
    ensures SeriesSpec(SortBy(Bucketize(timed), HourKey), timed)
  {
    SeriesCounts(timed);
    SeriesHours(timed);
    SeriesSum(timed);
  }

  lemma SeriesCounts(timed: seq<LogEntry>)
    requires forall i :: 0 <= i < |timed| ==> HasTimestamp(timed[i])
    ensures var series := SortBy(Bucketize(timed), HourKey);
      forall i :: 0 <= i < |series| ==> Counts(series[i], timed) && Total(series[i]) >= 1
  {
    var points := Bucketize(timed);
    BucketsReached(timed, points);
    SortedKeepsBuckets(timed, points);
  }

  lemma SeriesHours(timed: seq<LogEntry>)
    requires forall i :: 0 <= i < |timed| ==> HasTimestamp(timed[i])
    ensures var series := SortBy(Bucketize(timed), HourKey);
      forall i, j :: 0 <= i < j < |series| ==> series[i].hour < series[j].hour
  {
    SortedStrictly(timed, Bucketize(timed));
  }

  lemma SeriesSum(timed: seq<LogEntry>)
    requires forall i :: 0 <= i < |timed| ==> HasTimestamp(timed[i])
    ensures SumBy(SortBy(Bucketize(timed), HourKey), Total) == |timed|
  {
    SortBySum(Bucketize(timed), HourKey, Total);
  }

  lemma SortedKeepsBuckets(timed: seq<LogEntry>, points: seq<TimeSeriesPoint>)
    requires forall i :: 0 <= i < |points| ==> Counts(points[i], timed) && Total(points[i]) >= 1
    ensures var series := SortBy(points, HourKey);
      forall i :: 0 <= i < |series| ==> Counts(series[i], timed) && Total(series[i]) >= 1
  {
    var series := SortBy(points, HourKey);
    forall i | 0 <= i < |series|
      ensures Counts(series[i], timed) && Total(series[i]) >= 1
    {
      assert series[i] in multiset(points);
      var k :| 0 <= k < |points| && points[k] == series[i];
    }
  }

  lemma SortedStrictly(timed: seq<LogEntry>, points: seq<TimeSeriesPoint>)
    requires PointHours(points) == Distinct(HoursOf(timed))
    ensures var series := SortBy(points, HourKey);
      forall i, j :: 0 <= i < j < |series| ==> series[i].hour < series[j].hour
  {
    var series := SortBy(points, HourKey);
    assert DistinctBy(points, HourKey) by {
      forall i, j | 0 <= i < j < |points|
        ensures HourKey(points[i]) != HourKey(points[j])
      {
        assert PointHours(points)[i] != PointHours(points)[j];
      }
    }
    SortByDistinct(points, HourKey, HourKey);
    forall i, j | 0 <= i < j < |series|
      ensures series[i].hour < series[j].hour
    {
      assert HourKey(series[i]) <= HourKey(series[j]);
      assert HourKey(series[i]) != HourKey(series[j]);
    }
  }

  /** Some entry of `entries` has a timestamp in hour `h`. */
  ghost predicate HourSeen(entries: seq<LogEntry>, h: int) {
    exists e :: e in entries && InHour(e, h)
  }

  /** Every bucket is the hour of some timestamped entry. */
  lemma BucketsHaveEntries(entries: seq<LogEntry>)
    ensures var series := GenerateTimeSeriesData(entries);
      forall i :: 0 <= i < |series| ==> HourSeen(entries, series[i].hour)
  {
    var timed := Timed(entries);
    if |timed| > 0 {
      var points := Bucketize(timed);
      var series := SortBy(points, HourKey);
      assert GenerateTimeSeriesData(entries) == series;
      TimedMembers(entries);
      BucketsFromEntries(entries, timed, points, series);
    }
  }

  lemma BucketsFromEntries(entries: seq<LogEntry>, timed: seq<LogEntry>, points: seq<TimeSeriesPoint>,
                           series: seq<TimeSeriesPoint>)
    requires forall e :: e in timed ==> e in entries
    requires forall i :: 0 <= i < |timed| ==> HasTimestamp(timed[i])
    requires SeriesOf(timed, points)
    requires multiset(series) == multiset(points)
    ensures forall i :: 0 <= i < |series| ==> HourSeen(entries, series[i].hour)
  {
    forall i | 0 <= i < |series|
      ensures HourSeen(entries, series[i].hour)
    {
      assert series[i] in multiset(points);
      var k :| 0 <= k < |points| && points[k] == series[i];
      assert PointHours(points)[k] in HoursOf(timed);
      var m :| 0 <= m < |timed| && HoursOf(timed)[m] == series[i].hour;
      assert timed[m] in entries && InHour(timed[m], series[i].hour);
    }
  }

  /** Every timestamped entry has a bucket for its hour. */
  lemma EntriesHaveBuckets(entries: seq<LogEntry>)
    ensures var series := GenerateTimeSeriesData(entries);
      forall e :: e in entries && HasTimestamp(e) ==>
        exists i :: 0 <= i < |series| && series[i].hour == EntryHour(e)
  {
    var timed := Timed(entries);
    TimedMembers(entries);
    if |timed| > 0 {
      var points := Bucketize(timed);
      var series := SortBy(points, HourKey);
      assert GenerateTimeSeriesData(entries) == series;
      HoursCovered(timed, points, series);
    }
  }

  /** The result is empty exactly when no entry has a timestamp. */
  lemma NoTimestampsNoSeries(entries: seq<LogEntry>)
    ensures GenerateTimeSeriesData(entries) == [] <==> forall e :: e in entries ==> !HasTimestamp(e)
  {
    var timed := Timed(entries);
    TimedMembers(entries);
    if |timed| > 0 {
      assert |Bucketize(timed)| > 0 by {
        assert HoursOf(timed)[0] in Distinct(HoursOf(timed));
      }
      assert timed[0] in entries;
    }
  }

  lemma TimedMembers(entries: seq<LogEntry>)
    ensures forall e :: e in Timed(entries) <==> e in entries && HasTimestamp(e)
  {
    forall e | e in entries && HasTimestamp(e)
      ensures e in Timed(entries)
    {
      var j :| 0 <= j < |entries| && entries[j] == e;
    }
  }

  lemma HoursCovered(timed: seq<LogEntry>, points: seq<TimeSeriesPoint>, series: seq<TimeSeriesPoint>)
    requires SeriesOf(timed, points)
    requires multiset(series) == multiset(points)
    ensures forall e :: e in timed ==> exists i :: 0 <= i < |series| && series[i].hour == EntryHour(e)
  {
    forall e | e in timed
      ensures exists i :: 0 <= i < |series| && series[i].hour == EntryHour(e)
    {
      var m :| 0 <= m < |timed| && timed[m] == e;
      assert HoursOf(timed)[m] in PointHours(points);
      var k :| 0 <= k < |points| && points[k].hour == EntryHour(e);
      assert points[k] in multiset(series);
      var i :| 0 <= i < |series| && series[i] == points[k];
    }
  }
}
