/** The data shapes of the log analyzer (src/lib/types.ts), as immutable values.
    Instants are milliseconds since the Unix epoch; a JavaScript `Date | null` is an `Option<int>`. */
module LogTypes {

  /** A nullable value: `None` plays the part of `null`. */
  datatype Option<+T> = None | Some(value: T)

  /** The six severity levels; a string union in the source, so no other value can occur. */
  datatype Severity = FATAL | ERROR | WARN | INFO | DEBUG | TRACE

  /** One retained line of the input. The source also carries an `id` built from `Date.now()`,
      which is left out: it is not a function of the input. Only `timestamp` is nullable. */
  datatype LogEntry = LogEntry(
    timestamp: Option<int>,
    severity: Severity,
    message: string,
    rawLine: string,
    lineNumber: nat)

  /** One cluster of flagged entries. There is deliberately no field for the normalised
      grouping key: the source computes it, groups by it and then drops it. */
  datatype ErrorPattern = ErrorPattern(
    pattern: string,
    count: nat,
    severity: Severity,
    percentage: real,
    entries: seq<LogEntry>)

  /** The span of the timestamps seen; either bound may be null in the type. */
  datatype TimeRange = TimeRange(start: Option<int>, end: Option<int>)

  datatype LogStats = LogStats(
    totalLines: nat,
    errorCount: nat,
    warnCount: nat,
    infoCount: nat,
    debugCount: nat,
    otherCount: nat,
    timeRange: TimeRange)

  /** One hourly bucket. `hour` is the UTC hour index (milliseconds / 3600000, rounded down),
      which orders like the source's `YYYY-MM-DDTHH:00:00` key for years 0000 to 9999. */
  datatype TimeSeriesPoint = TimeSeriesPoint(hour: int, errors: nat, warnings: nat, info: nat)

  /** ERROR, FATAL and WARN: the entries the pattern aggregator looks at. */
  predicate IsFlagged(e: LogEntry) {
    e.severity == ERROR || e.severity == FATAL || e.severity == WARN
  }

  predicate HasTimestamp(e: LogEntry) {
    e.timestamp.Some?
  }
}
