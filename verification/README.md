# Log interpretation core of log-file-analyzer, in Dafny

This project models the pure pipeline of the log-file-analyzer web app (`src/lib/logParser.ts`
and the data shapes in `src/lib/types.ts`) and proves what the pipeline promises. The pipeline
turns uploaded text into structured entries, statistics, error clusters and an hourly timeline:

- **Severity classifier** (`extractSeverity`). Six keyword groups are tried in the order
  FATAL, ERROR, WARN, INFO, DEBUG, TRACE. Each keyword must occur as a whole word, ignoring
  case. The first group that matches wins, and INFO is the default. Module `SeverityClassifier`.
- **Timestamp extractor** (`extractTimestamp`). Four patterns are tried in order: ISO
  date-time, US date-time, textual date-time, then a bare 10–13 digit epoch. Only each
  pattern's leftmost match is read. A match the date parser rejects falls through to the next
  pattern. Module `TimestampExtractor`, with the regular-expression templates in `Templates`.
- **Line tokenizer** (`parseLogFile`). The input is split on line feeds, all-whitespace
  segments are dropped, and one entry is made per remaining segment, numbered from 1. Module
  `Tokenizer`.
- **Statistics** (`calculateStats`). One counter per severity family, plus the earliest and
  latest timestamp. Module `Statistics`.
- **Message normaliser** (`normalizeMessage`). A chain of five rewrites that yields the
  grouping key of a message. Module `Normalizer`.
- **Pattern aggregator** (`extractErrorPatterns`). WARN, ERROR and FATAL entries are grouped by
  normalised message in an insertion-ordered map, given percentages, and stable-sorted by
  count, largest first. Module `ErrorPatterns`.
- **Hourly bucketizer** (`generateTimeSeriesData`). One bucket per UTC hour that has
  timestamped entries, with error, warning and info counts, sorted by hour. Module
  `TimeSeries`.

The data shapes are immutable datatypes in `LogTypes`:

- `Severity` has exactly the six levels of the `SeverityLevel` union.
- `LogEntry` has only its timestamp optional.
- `ErrorPattern` has no field for the grouping key, which the source computes and then drops.
- `LogStats` carries a `TimeRange` whose two bounds are each nullable.
- `TimeSeriesPoint` is one hourly bucket.

Shared machinery:

- `Seqs` holds filtering, positions, distinct-in-first-appearance-order and sums.
- `Sorting` holds a stable insertion sort that stands for `Array.prototype.sort`, which is
  stable since ECMAScript 2019.
- `Chars` holds ASCII character classes and decimal values.

Two modules of worked examples check the model against the bundled sample log
(`src/lib/demoLog.ts`): `DemoFixtures` and `KeyFixtures`.

Consequences of the code that the model exposes:

- The digit rule runs first, so the key has no digits at all.
- The `0x…` rule never fires.
- A UUID containing a digit is never replaced by `UUID`. The three payment-failure sample
  lines therefore get three different keys, while the three timeout lines share one.
- The `default` arm of the statistics `switch` is unreachable, so `otherCount` is always 0.

Behaviour a reader might not expect:

- Epoch units are decided by `value > 10000000000` (`src/lib/logParser.ts:27`), not by the
  number of digits. `10000000000` itself is read as seconds, and so is any eleven- to
  thirteen-digit match with leading zeros whose value is at most `10000000000`.
  `TimestampExtractor.EpochMillis` states the threshold, and `TimestampExtractor.EpochUnits`
  what it means for ten-, eleven- and longer digit texts.
- The learning guide (`src/components/LearningGuide.tsx:13`) shows the normalised key
  `code=PGW-STR message=STR orderId=UUID`. The code does not produce it: the digit rule gives
  `code=PGW-N`, and an order id keeps its letters with each digit run replaced by `N`.
  `KeyFixtures.DemoPaymentKey12` proves that the key of the first payment-failure sample line
  ends in `code=PGW-N message=STR orderId=abfNcNdN-NdN-NeNf-aNbN-NfNfNcNdN`.

## Model

| member | source | states |
|---|---|---|
| SeverityClassifier.Keywords | src/lib/logParser.ts:3-10 | each level's pattern is an alternation of one or two keywords |
| SeverityClassifier.FindWord | src/lib/logParser.ts:3-10 | the scan is true exactly when the keyword occurs at some position from `i` on, between word boundaries, equal up to ASCII upper-casing (`\b…\b` with the `i` flag) |
| SeverityClassifier.AnyWord | src/lib/logParser.ts:3-10 | a group's alternation matches exactly when one of its keywords occurs as a whole word |
| SeverityClassifier.KeywordsUpperAscii | src/lib/logParser.ts:4-9 | every keyword of every group is a non-empty run of upper-case ASCII letters, so ASCII upper-casing of the line decides the `i`-flag comparison |
| SeverityClassifier.FirstMatchFrom | src/lib/logParser.ts:39-44 | trying the groups from rank `k` on gives a matching level with no matching level between `k` and it, or nothing exactly when no level from `k` on matches |
| SeverityClassifier.ExtractSeverity | src/lib/logParser.ts:38-45 | the result's keywords occur in the line (or it is INFO and no group matches), and no higher-priority group matches |
| SeverityClassifier.SeveritySpecUnique | src/lib/logParser.ts:38-45 | that contract pins the level down: two levels satisfying it are equal |
| SeverityClassifier.WordAtUpper | src/lib/logParser.ts:4-9 | a whole-word match is unchanged by upper-casing the line |
| SeverityClassifier.ExtractSeverityIgnoresCase | src/lib/logParser.ts:4-9 | upper-casing a line never changes its severity |
| DemoFixtures.CriticalBeatsError | src/lib/logParser.ts:4-5 | `CRITICAL ERROR` is FATAL, because the FATAL group is tried first |
| DemoFixtures.WholeWordOnly | src/lib/logParser.ts:5 | inside a run of word characters a keyword can match only as the whole run |
| DemoFixtures.PluralIsNotAKeyword | src/lib/logParser.ts:5 | `ERRORS` matches no group, so it is INFO |
| Templates.RunLength | src/lib/logParser.ts:16 | a greedy `\d+` from `i` takes every digit there and stops at the first non-digit or the end |
| Templates.RunLengthAppend | src/lib/logParser.ts:16 | a leading digit run that ends inside a prefix is unaffected by what follows, and one covering the whole prefix continues into the appended text |
| TimestampExtractor.FractionLength | src/lib/logParser.ts:13 | the greedy `(?:\.\d+)?` is taken exactly when a dot and a digit follow the seconds, and then spans the dot and every digit after it, stopping at the first non-digit or the end |
| TimestampExtractor.ZoneLength | src/lib/logParser.ts:13 | the optional zone takes 1 character exactly when a `Z` is there, 6 exactly when a sign, two digits, `:` and two digits are there, 5 exactly when a sign and four digits are there, and otherwise nothing |
| TimestampExtractor.OffsetAt | src/lib/logParser.ts:13 | the `\d{2}:\d{2}` and `\d{4}` readings of `\d{2}:?\d{2}` fit exactly when the characters are digits with (or without) a colon in the middle |
| TimestampExtractor.IsoLength | src/lib/logParser.ts:13 | the ISO pattern matches at `i` exactly when its fixed date-time part fits there, and the match is then 19 characters plus the greedy fraction plus the greedy zone; it is never all digits |
| TimestampExtractor.DateLength | src/lib/logParser.ts:14-15 | the US or textual pattern matches at `i` exactly when its template fits there, and the match is then exactly the template, at least 19 characters and never all digits |
| TimestampExtractor.EpochLength | src/lib/logParser.ts:16 | the epoch pattern matches at `i` exactly when ten or more digits start there, and then greedily takes 10 to 13 of them, stopping only at the thirteenth digit or where the digits end |
| TimestampExtractor.MatchLength | src/lib/logParser.ts:12-17 | each pattern matches at `i` exactly when its mandatory part fits there (`MatchesAt`), and a match is at least ten characters and lies inside the line |
| TimestampExtractor.RunAtLeast | src/lib/logParser.ts:16 | a digit run of at least `m` characters starts at `i` exactly when `\d{m}` fits there |
| TimestampExtractor.TemplateBreaksDigits | src/lib/logParser.ts:13-15 | a match of a template that demands a non-digit literal is not all digits |
| TimestampExtractor.MatchLengths | src/lib/logParser.ts:21 | the match length at every index of the line |
| TimestampExtractor.FirstPositive | src/lib/logParser.ts:21 | the first index from `i` with a match, with no match before it, or none when no index from `i` has one |
| TimestampExtractor.LeftmostTextIsFirst | src/lib/logParser.ts:21-23 | there is no match text exactly when no index matches; otherwise the text is the match at the first matching index |
| TimestampExtractor.MatchTextIsLeftmost | src/lib/logParser.ts:21-23 | `line.match(pattern)[0]` is the leftmost match of each pattern, and there is none exactly when the pattern matches nowhere |
| TimestampExtractor.MatchText | src/lib/logParser.ts:21 | `line.match(pattern)` is null exactly when the pattern fits at no index of the line, and a match text is at least ten characters |
| TimestampExtractor.FirstSomeIsFirst | src/lib/logParser.ts:20-35 | the loop fails only when every attempt fails, and otherwise returns an attempt that every earlier attempt let through |
| TimestampExtractor.TryPattern | src/lib/logParser.ts:21-32 | one turn of the loop: no match gives nothing; a match of 10 to 13 digits gives its value as seconds or milliseconds; any other match gives whatever the date parser makes of it |
| TimestampExtractor.Attempts | src/lib/logParser.ts:20-33 | the attempts, one per pattern, in the order ISO, US, textual, epoch |
| TimestampExtractor.ExtractTimestamp | src/lib/logParser.ts:19-36 | none exactly when all four patterns fail; otherwise the result of a pattern that every earlier pattern let through |
| TimestampExtractor.ExtractTimestampCases | src/lib/logParser.ts:19-36 | the result is the first success among the ISO, US, textual and epoch attempts, in that order |
| TimestampExtractor.DatePatternsUseParser | src/lib/logParser.ts:25-32 | a match of the ISO, US or textual pattern never takes the epoch branch: it is handed to the date parser, and no match means no result |
| TimestampExtractor.EpochPatternNeverFails | src/lib/logParser.ts:25-28 | an epoch match is 10 to 13 digits and always yields its number as seconds or milliseconds, never reaching the date parser |
| TimestampExtractor.EpochMatchIsEpochText | src/lib/logParser.ts:16-25 | whatever `/\d{10,13}/` finds in a line passes the `^\d{10,13}$` test, so an epoch match never falls through to the date parser |
| TimestampExtractor.EpochTextIsValidTime | src/lib/logParser.ts:27-28 | the instant an epoch match gives is always inside the range of a JavaScript Date, so the `isNaN` check passes |
| TimestampExtractor.EpochTextBound | src/lib/logParser.ts:25-28 | for a 10 to 13 digit text, the milliseconds lie within 8.64e15 of the epoch |
| TimestampExtractor.EpochMillis | src/lib/logParser.ts:27 | the value is kept as milliseconds exactly when it exceeds 10000000000 (or is 0), and is otherwise multiplied by 1000, so it never shrinks |
| TimestampExtractor.EpochMatchIff | src/lib/logParser.ts:16 | the epoch pattern matches exactly when the line has a run of ten digits |
| TimestampExtractor.EpochAttemptIff | src/lib/logParser.ts:16-28 | the epoch attempt fails exactly when the line has no run of ten digits |
| TimestampExtractor.ExtractTimestampNoneIff | src/lib/logParser.ts:19-36 | no timestamp exactly when the three date patterns fail and the line has no run of ten digits |
| TimestampExtractor.EpochUnits | src/lib/logParser.ts:27 | ten digits are seconds; twelve or thirteen digits with no leading zero are milliseconds; eleven such digits are milliseconds unless the value is exactly 10000000000 |
| TimestampExtractor.NoDatePunctuation | src/lib/logParser.ts:13-15 | a line without `-`, `/` and `,` gives the three date patterns nothing |
| TimestampExtractor.TemplateNeedsLiteral | src/lib/logParser.ts:13-15 | a template cannot match a line that lacks one of its literal characters |
| TimestampExtractor.LeadingEpoch | src/lib/logParser.ts:19-36 | a line that opens with a 10–13 digit epoch and has no date punctuation takes its timestamp from that number, whatever the date parser does |
| Chars.DecimalValue | src/lib/logParser.ts:26 | `parseInt` of a digit string is below ten to the power of its length |
| Chars.DecimalValueAppend | src/lib/logParser.ts:26 | the value of a concatenation is the left value shifted by the right length plus the right value |
| Chars.DecimalValueLowerBound | src/lib/logParser.ts:26-27 | a digit string with a non-zero lead is at least ten to the power of its length minus one |
| DemoFixtures.DemoEpochSeconds | src/lib/demoLog.ts:24 | sample line 24 has the timestamp 1732276500000 |
| DemoFixtures.DemoEpochMillis | src/lib/demoLog.ts:25 | sample line 25 has the timestamp 1732276500123 |
| Tokenizer.SplitLines | src/lib/logParser.ts:48 | `split('\n')` gives at least one segment, none holding a line feed, which joined with line feeds give the input back |
| Tokenizer.SplitJoinLines | src/lib/logParser.ts:48 | splitting undoes joining for segments without line feeds |
| Tokenizer.TrimStart | src/lib/logParser.ts:48 | cutting leading whitespace leaves a suffix that starts with a non-whitespace character or is empty |
| Tokenizer.TrimEnd | src/lib/logParser.ts:48 | cutting trailing whitespace leaves a prefix that ends with a non-whitespace character or is empty |
| Tokenizer.Trim | src/lib/logParser.ts:48 | `trim()` is a slice with only whitespace around it, with non-whitespace ends, and empty exactly when the input is all whitespace |
| Tokenizer.JoinLinesWhitespace | src/lib/logParser.ts:48 | a join is all whitespace exactly when every segment is |
| Tokenizer.NoContentIffWhitespace | src/lib/logParser.ts:48 | no segment survives the blank-line filter exactly when the whole input is whitespace |
| Tokenizer.HasContentIffTrimmed | src/lib/logParser.ts:48 | a segment passes the blank-line filter exactly when its trim is non-empty |
| Tokenizer.ContentLines | src/lib/logParser.ts:48 | the kept segments are segments of `split('\n')` with content and no line feed, and every segment with content is kept |
| Tokenizer.MakeEntry | src/lib/logParser.ts:50-57 | the entry keeps the segment as its raw line, numbers it from 1, has an empty message exactly when the segment is all whitespace, and its severity is INFO or a level whose pattern matches the segment |
| Tokenizer.ParseLogFile | src/lib/logParser.ts:47-58 | one entry per kept segment, numbered from 1; the raw line is the segment, holds no line feed, and the message is its trim and is non-empty |
| Tokenizer.EntriesClassified | src/lib/logParser.ts:51-52 | severity and timestamp of every entry come from the untrimmed segment, not from the trimmed message |
| Tokenizer.NoEntriesIffWhitespace | src/lib/logParser.ts:47-58 | the input yields no entries exactly when it is all whitespace, the empty string included |
| Tokenizer.EntriesFollowSegments | src/lib/logParser.ts:47-57 | the entries correspond one to one, in order, to the segments that are not all whitespace |
| Seqs.Filter | src/lib/logParser.ts:118-120 | `filter` keeps only elements that satisfy the predicate, and every element that does |
| Seqs.FilterIsOrderedSelection | src/lib/logParser.ts:118-120 | the i-th kept element is the element at the i-th satisfying position, so input order is kept |
| Seqs.Positions | src/lib/logParser.ts:48 | the satisfying positions, increasing, each inside the sequence, and exactly those |
| Seqs.FilterEmpty | src/lib/logParser.ts:147-149 | nothing survives a filter exactly when no element satisfies it |
| Seqs.CountIsFilterLength | src/lib/logParser.ts:84-103 | counting the entries that satisfy a test gives the length of what `filter` keeps for that test |
| Statistics.CountersPartition | src/lib/logParser.ts:84-103 | every entry falls in exactly one of the four severity families, so the four counts add up to the number of entries |
| Statistics.Timestamps | src/lib/logParser.ts:74-76 | the non-null timestamps are exactly those of the entries |
| Statistics.SortedTimestamps | src/lib/logParser.ts:77-82 | after the ascending sort the first and last timestamps bound all others and are themselves timestamps of entries; the list is empty exactly when no entry has one |
| Statistics.TimeRangeOf | src/lib/logParser.ts:74-82 | both bounds are set or neither is; they are set exactly when some entry has a timestamp, and then they are the minimum and maximum timestamp |
| Statistics.TallyStep | src/lib/logParser.ts:84-103 | one turn of the `switch` keeps the counters equal to the four counts |
| Statistics.Tally | src/lib/logParser.ts:85-102 | one `switch` turn adds one to exactly the counter of the entry's family (ERROR and FATAL to errors, DEBUG and TRACE to debug) and leaves the others, so the total grows by one |
| Statistics.CalculateStats | src/lib/logParser.ts:60-106 | totals, errors as ERROR plus FATAL, warnings, info, debug as DEBUG plus TRACE, `otherCount` 0, the four counts summing to `totalLines`, and the time range above |
| Sorting.InsertBy | src/lib/logParser.ts:143 | insertion keeps the sequence sorted and adds exactly the one element |
| Sorting.SortBy | src/lib/logParser.ts:143 | the sort is a permutation of its input, ordered by the key |
| Sorting.SortByStable | src/lib/logParser.ts:143 | the sort is stable: the elements with each key come out in input order |
| Sorting.SortedUnique | src/lib/logParser.ts:143 | two sequences that are sorted and agree on the order within every key are equal, so the stable sort's result is the only possible one |
| Sorting.SortByDistinct | src/lib/logParser.ts:143 | sorting keeps a distinctness property of the elements |
| Sorting.SortBySum | src/lib/logParser.ts:143 | sorting keeps every sum over the elements |
| Sorting.SortByKeepsTies | src/lib/logParser.ts:143 | two equal-key elements of the output come from input positions in the same order |
| Sorting.SortByTiesRanked | src/lib/logParser.ts:143 | if the input is increasing in some rank, equal-key elements of the output are too |
| Normalizer.MaskDigits | src/lib/logParser.ts:110 | the result has no digit, is no longer than the input and holds only input characters and `N` |
| Normalizer.MaskDigitsNoDigits | src/lib/logParser.ts:110 | digit-free text is left alone |
| Normalizer.MaskDigitsRun | src/lib/logParser.ts:110 | a maximal digit run becomes exactly one `N` |
| Normalizer.MaskDigitsAppend | src/lib/logParser.ts:110 | masking distributes over a seam that is not inside a digit run |
| Normalizer.MaskDigitsSwap | src/lib/logParser.ts:110 | replacing one digit string by another never changes the masked text |
| Normalizer.MaskHex | src/lib/logParser.ts:111 | the `0x…` rule leaves digit-free text alone, so after the digit rule it never fires |
| Normalizer.NextIndex | src/lib/logParser.ts:112-113 | where a `[^q]*q` scan stops: the next `q` from `i`, or the end |
| Normalizer.MaskQuoted | src/lib/logParser.ts:112-113 | the quote rule writes only characters of its input and of `STR` |
| Normalizer.MaskQuotedPair | src/lib/logParser.ts:112-113 | the first quoted section, after text without the quote character, becomes `STR`, the text before it is kept, and the rule carries on after the closing quote |
| Normalizer.MaskQuotedParity | src/lib/logParser.ts:112-113 | quotes are consumed in pairs: none of the quote character is left when the input had an even number, exactly one otherwise |
| Normalizer.MaskQuotedNoDigits | src/lib/logParser.ts:112-113 | the quote rule introduces no digit |
| Normalizer.MaskQuotedAbsent | src/lib/logParser.ts:112-113 | text without the quote character is left alone |
| Normalizer.MaskQuotedSuffix | src/lib/logParser.ts:112-113 | a quote-free suffix passes through unchanged, whatever precedes it |
| Normalizer.MaskQuotedLone | src/lib/logParser.ts:112-113 | a quote with no partner after it is kept, together with the quote-free text around it: `[^q]*q` cannot match without a closing quote |
| Normalizer.MaskUuidsFromNone | src/lib/logParser.ts:114 | where the UUID pattern matches nowhere, the text is left alone |
| Normalizer.MaskUuidsFromNoDigits | src/lib/logParser.ts:114 | the UUID rule introduces no digit |
| Normalizer.MaskUuids | src/lib/logParser.ts:114 | the text before the leftmost UUID match is kept, that match becomes `UUID` and the rule resumes after it; text with no match is left alone; digit-free text stays digit-free |
| Normalizer.MaskUuidsFromFirst | src/lib/logParser.ts:114 | from any index up to the first match after it the text is copied, and the match becomes `UUID` |
| Normalizer.MaskUuidsFrom | src/lib/logParser.ts:114 | the rewritten rest is never longer than the rest of the input |
| Normalizer.UuidNeighbours | src/lib/logParser.ts:114 | the `\b` on each side of a UUID match holds exactly when the characters either side are not word characters |
| Normalizer.UuidAvoids | src/lib/logParser.ts:114 | a UUID match holds only hexadecimal digits and dashes |
| Normalizer.UuidAtPrefix | src/lib/logParser.ts:114 | before a non-word character other than `-`, a UUID matches in a longer text exactly where it matches in the prefix |
| Normalizer.UuidAtShift | src/lib/logParser.ts:114 | after a non-word character, a UUID match in the suffix is one of the suffix alone |
| Normalizer.MaskUuidsSplit | src/lib/logParser.ts:114 | after a non-word, non-dash character the UUID rule treats a UUID-free suffix separately |
| Normalizer.NormalizeMessage | src/lib/logParser.ts:108-115 | the key has no digit and equals the digit, quote and UUID rules chained in order, so the HEX rule changes nothing |
| KeyFixtures.TwoRunKeysAgree | src/lib/logParser.ts:110 | lines that differ only in two digit runs share a key |
| KeyFixtures.DemoTimeoutsShareKey | src/lib/demoLog.ts:5-7 | the three timeout lines share one key |
| KeyFixtures.NoUuidAfterLabel | src/lib/logParser.ts:114 | after `orderId=`, fewer than 36 characters hold no UUID match |
| KeyFixtures.LabelledKey | src/lib/logParser.ts:108-115 | a line that ends in a label and a quote-free value keyed after a fixed prefix keeps the label and the digit-masked value at the end of its key |
| KeyFixtures.LabelledKeysApart | src/lib/logParser.ts:108-115 | such lines with differently masked values get different keys |
| KeyFixtures.MaskedOrdersDiffer | src/lib/demoLog.ts:12-14 | the three sample order ids mask to three different texts |
| KeyFixtures.DemoPaymentKeysDiffer | src/lib/demoLog.ts:12-14 | the three payment-failure lines get three different keys |
| KeyFixtures.Order12Masked | src/lib/demoLog.ts:12 | the order id of sample line 12 masks to `abfNcNdN-NdN-NeNf-aNbN-NfNfNcNdN` |
| KeyFixtures.DemoPaymentKey12 | src/lib/demoLog.ts:12 | the key of sample line 12 ends, from `code=` on, in `code=PGW-N message=STR orderId=abfNcNdN-NdN-NeNf-aNbN-NfNfNcNdN` |
| KeyFixtures.QuotedLineQuotes | src/lib/logParser.ts:112-113 | a line with one double-quoted section and no single quote keeps everything but that section, which becomes `STR` |
| KeyFixtures.QuotedLineUuids | src/lib/logParser.ts:114 | after a space, a short field, a space and a UUID-free tail, the UUID rule changes nothing |
| Seqs.Distinct | src/lib/logParser.ts:122-129 | the distinct elements, each once, every input element among them |
| Seqs.DistinctFollowsFirstAppearance | src/lib/logParser.ts:122-129 | the distinct elements come in the order of their first appearance, like the keys of an insertion-ordered map |
| ErrorPatterns.WithMessageKey | src/lib/logParser.ts:124-128 | the entries with a given key are exactly those of the input that have it |
| ErrorPatterns.GroupByKey | src/lib/logParser.ts:122-129 | one group per distinct key in first-appearance order, each holding exactly its key's entries in input order; the group sizes add up to the input length |
| ErrorPatterns.AddToGroups | src/lib/logParser.ts:126-128 | `get`, `push`, `set` for one entry: the keys gain `k` at the end exactly when it is new; the group with key `k` gains the entry at its end, a new key starts a group holding just the entry, and every other group is unchanged |
| ErrorPatterns.AddStep | src/lib/logParser.ts:124-129 | one `get`, `push`, `set` keeps the map a correct grouping of the entries seen so far |
| ErrorPatterns.GroupsNonEmpty | src/lib/logParser.ts:126-128 | every group is non-empty and its members carry its key |
| ErrorPatterns.Summaries | src/lib/logParser.ts:133-141 | the `map` callback applied to every group, in map order |
| ErrorPatterns.Summarise | src/lib/logParser.ts:134-140 | a cluster keeps the group's entries, counts them, takes `pattern` and `severity` from the first entry, and has a percentage in (0, 100] when the group is part of a positive total |
| ErrorPatterns.SummaryDescribes | src/lib/logParser.ts:126-140 | the cluster built from a group holds exactly the flagged entries with its key, counts them, takes its pattern and severity from the first of them, and has the percentage `count / total * 100` |
| ErrorPatterns.Percentage | src/lib/logParser.ts:138 | 0 when the total is 0, and otherwise the value whose product with the total is the count times 100 |
| ErrorPatterns.PercentageBounds | src/lib/logParser.ts:138 | a count within the total gives a percentage between 0 and 100, positive when the count is |
| ErrorPatterns.UnsortedPatterns | src/lib/logParser.ts:118-141 | before sorting, each pattern describes its cluster (below), the patterns follow the map's order, and the counts add up to the flagged count |
| ErrorPatterns.SummariesCount | src/lib/logParser.ts:136 | the counts add up to the group sizes |
| ErrorPatterns.ExtractErrorPatterns | src/lib/logParser.ts:117-144 | each cluster is non-empty, holds exactly the flagged entries with its key in input order, takes `pattern` and `severity` from its first member, has `count` its size and `percentage` count·100/flagged; the counts sum to the flagged count; counts never increase; empty exactly when nothing is flagged |
| ErrorPatterns.PatternKeysDistinct | src/lib/logParser.ts:122-129 | distinct clusters have distinct keys |
| ErrorPatterns.PatternsCoverFlagged | src/lib/logParser.ts:118-129 | every WARN, ERROR and FATAL entry lands in some cluster |
| ErrorPatterns.TiesKeepFirstAppearance | src/lib/logParser.ts:143 | clusters of equal count keep the order in which their keys first occur |
| ErrorPatterns.TieOrder | src/lib/logParser.ts:122-133 | before sorting, the clusters come in the order their keys first occur |
| ErrorPatterns.TotalPercentageOfCounts | src/lib/logParser.ts:138 | the percentages sum to the counts' sum times 100 over the total |
| ErrorPatterns.PercentagesSumTo100 | src/lib/logParser.ts:131-138 | when something is flagged, the percentages add up to exactly 100 |
| TimeSeries.HourOf | src/lib/logParser.ts:154 | the hour index contains the instant: the bucket the ISO hour prefix names |
| TimeSeries.Tally | src/lib/logParser.ts:158-164 | one increment keeps the hour and adds exactly one to the bucket's total |
| TimeSeries.Bucketize | src/lib/logParser.ts:151-167 | one bucket per distinct hour in first-appearance order, each counting exactly its hour's entries by column; the totals add up to the number of entries |
| TimeSeries.AddStep | src/lib/logParser.ts:153-167 | one `get`, tally, `set` keeps the map a correct bucketing of the entries seen so far |
| TimeSeries.AddToSeries | src/lib/logParser.ts:153-166 | `get`, tally, `set` for one entry: the hours gain the entry's hour at the end exactly when it is new; that hour's bucket is tallied, a new hour starts with a total of one, and every other bucket is unchanged |
| TimeSeries.CountInAbsent | src/lib/logParser.ts:156 | an hour nobody has reached has all-zero counts, the `{0, 0, 0}` default |
| TimeSeries.BucketsReached | src/lib/logParser.ts:153-167 | every bucket has a total of at least one |
| TimeSeries.GenerateTimeSeriesData | src/lib/logParser.ts:146-175 | each bucket counts errors as ERROR plus FATAL, warnings as WARN and info as the rest among the timestamped entries of its hour; totals are at least one and sum to the number of timestamped entries; hours strictly increase |
| TimeSeries.SortedStrictly | src/lib/logParser.ts:169-174 | sorting buckets with distinct hours makes the hours strictly increase |
| TimeSeries.BucketsHaveEntries | src/lib/logParser.ts:147-167 | every bucket is the hour of some timestamped entry |
| TimeSeries.EntriesHaveBuckets | src/lib/logParser.ts:147-167 | every timestamped entry has a bucket for its hour |
| TimeSeries.NoTimestampsNoSeries | src/lib/logParser.ts:147-149 | the series is empty exactly when no entry has a timestamp |
| TimeSeries.TimedMembers | src/lib/logParser.ts:147 | the entries taking part are exactly the timestamped ones |

## Left out

- The date parser behind `new Date(text)` for the ISO, US and textual matches depends on the
  JavaScript engine, locale and time zone. It is a parameter `parse: string -> Option<int>`,
  and the model proves the ordering and fall-through logic around it.
- `toISOString().slice(0, 13)` and `localeCompare` are replaced by the integer hour index
  (milliseconds divided by 3600000, rounded down), ordered as integers. This agrees with the
  source's string order for years 0000 to 9999 only.
- The entry `id` is built from `Date.now()`, is not a function of the input, and is dropped.
- `percentage` is an exact `real` rather than a floating-point number, so the sum to 100 is
  exact. The source's floating-point sum may be off in the last place.
- `\w`, `\b` and `\d` are ASCII-only in non-Unicode JavaScript regular expressions, and the
  model has them so. Case folding under the `i` flag is not ASCII-only: every code unit is
  upper-cased, but a unit outside ASCII is never mapped onto an ASCII one. All keywords are
  upper-case ASCII (`SeverityClassifier.Keywords`), so only ASCII letters of the text can match
  them, and `Chars.ToUpper` (ASCII upper-casing) decides the same comparisons. The classifier
  is exact; the full Unicode case mapping is not modelled. `trim` uses the ECMAScript
  whitespace set, with code points as characters. No Unicode normalisation is modelled.
- The React state, the search and severity filters, the components, the file upload, the
  download and the analytics script are UI and I/O outside the pipeline.
- The learning guide's sample output for the normaliser contradicts the code and is not modelled.
- Normalizer.MaskHex: the contract states only that digit-free text is left alone. That is the
  only way the pipeline uses the rule, because it always runs after the digit rule.
- Normalizer.MaskQuoted: its own contract states only that no character outside the input and
  `STR` appears. What the rule does to a quoted section is stated by
  `Normalizer.MaskQuotedPair`, `MaskQuotedLone`, `MaskQuotedAbsent` and `MaskQuotedSuffix`.
- Normalizer.MaskUuidsFrom: its own contract states only a length bound. What it does to a
  match is stated by `Normalizer.MaskUuidsFromFirst`, `MaskUuidsFromNone` and `MaskUuids`.
- SeverityClassifier.Keywords: its own contract states only that each group has one or two
  keywords. Their letters are stated by `SeverityClassifier.KeywordsUpperAscii`.
- Normalizer.MaskQuoted: the precondition limits the quote character to `"` and `'`, the only
  two the source uses.
- Statistics.CalculateStats: the `default` arm of the `switch` cannot be reached, because
  `Severity` has six constructors. It has no branch in the model, and `otherCount == 0` is
  proved.
- TimeSeries.HourOf: the model buckets every instant by hour. For an instant outside the
  years 0000 to 9999, `toISOString` writes a signed six-digit year (`+010000-01-01T00:30:00.000Z`),
  so `slice(0, 13)` stops at the end of the date (`+010000-01-01`) and the source buckets such
  entries by day, ordered with `localeCompare`. Only the date-parser parameter can produce such
  instants (a 13-digit epoch ends in year 2286): for example `9999-12-31T23:30:00-01:00` is
  `10000-01-01T00:30Z`. The model does not reproduce those buckets or their order.
