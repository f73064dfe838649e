/** The pattern aggregator (`extractErrorPatterns`, src/lib/logParser.ts): the WARN, ERROR and
    FATAL entries grouped by normalised message in an insertion-ordered map, summarised, and
    stably sorted by group size, largest first. The grouping is stated for any key function;
    the aggregator instantiates it with `normalizeMessage` of the entry's message. */
module ErrorPatterns {
  import opened LogTypes
  import opened Seqs
  import opened Sorting
  import Normalizer

  /** The grouping key of an entry. */
  function KeyOf(e: LogEntry): string {
    Normalizer.NormalizeMessage(e.message)
  }

  function KeysOf(s: seq<LogEntry>, key: LogEntry -> string): (keys: seq<string>)
    ensures |keys| == |s|
    ensures forall i :: 0 <= i < |s| ==> keys[i] == key(s[i])
  {
    seq(|s|, i requires 0 <= i < |s| => key(s[i]))
  }

  /** The entries of `s` whose key is `k`, in input order. */
  function WithMessageKey(s: seq<LogEntry>, key: LogEntry -> string, k: string): (r: seq<LogEntry>)
    ensures forall e :: e in r <==> e in s && key(e) == k
  {
    Filter(s, e => key(e) == k)
  }

  /** One entry of the `patternMap`: a key and the entries pushed under it. */
  datatype Group = Group(key: string, members: seq<LogEntry>)

  function GroupKeys(groups: seq<Group>): (keys: seq<string>)
    ensures |keys| == |groups|
    ensures forall i :: 0 <= i < |groups| ==> keys[i] == groups[i].key
  {
    seq(|groups|, i requires 0 <= i < |groups| => groups[i].key)
  }

  function Size(g: Group): int {
    |g.members|
  }

  /** The map after `s` has been folded in: one group per distinct key, in order of first
      appearance, each holding exactly the entries with its key, in input order. */
  ghost predicate GroupsOf(s: seq<LogEntry>, key: LogEntry -> string, groups: seq<Group>) {
    && GroupKeys(groups) == Distinct(KeysOf(s, key))
    && forall i :: 0 <= i < |groups| ==> groups[i].members == WithMessageKey(s, key, groups[i].key)
  }

  /** One step of the `forEach`: `get(key) || []`, `push(entry)`, `set(key, …)`. Setting an
      existing key keeps its place in the map; a new key goes last. */
  function AddToGroups(groups: seq<Group>, k: string, e: LogEntry): (r: seq<Group>)
    ensures GroupKeys(r) == if k in GroupKeys(groups) then GroupKeys(groups) else GroupKeys(groups) + [k]
    ensures forall j :: 0 <= j < |groups| ==>
      r[j].members == groups[j].members || (r[j].key == k && r[j].members == groups[j].members + [e])
    ensures k !in GroupKeys(groups) ==> r[|groups|].members == [e]
  {
    var keys := GroupKeys(groups);
    if k in keys then
      var i := FirstIndex(keys, k);
      groups[i := Group(k, groups[i].members + [e])]
    else groups + [Group(k, [e])]
  }

  /** `patternMap` once every entry of `s` has been added. */
  function GroupByKey(s: seq<LogEntry>, key: LogEntry -> string): (groups: seq<Group>)
    ensures GroupsOf(s, key, groups)
    ensures SumBy(groups, Size) == |s|
  {
    if |s| == 0 then []
    else
      var s' := s[..|s| - 1];
      var e := s[|s| - 1];
      assert s == s' + [e];
      var groups' := GroupByKey(s', key);
      AddStep(s', e, key, groups');
      AddStepSize(key(e), e, groups');
      AddToGroups(groups', key(e), e)
  }

  lemma WithMessageKeySnoc(s': seq<LogEntry>, e: LogEntry, key: LogEntry -> string, k: string)
    ensures WithMessageKey(s' + [e], key, k)
      == WithMessageKey(s', key, k) + (if key(e) == k then [e] else [])
  {
    assert (s' + [e])[..|s'|] == s';
  }

  lemma KeysOfSnoc(s': seq<LogEntry>, e: LogEntry, key: LogEntry -> string)
    ensures KeysOf(s' + [e], key) == KeysOf(s', key) + [key(e)]
    ensures Distinct(KeysOf(s' + [e], key)) ==
      if key(e) in KeysOf(s', key) then Distinct(KeysOf(s', key))
      else Distinct(KeysOf(s', key)) + [key(e)]
  {
    var keys := KeysOf(s' + [e], key);
    assert keys == KeysOf(s', key) + [key(e)];
    assert keys[..|keys| - 1] == KeysOf(s', key);
  }

  lemma AddStep(s': seq<LogEntry>, e: LogEntry, key: LogEntry -> string, groups': seq<Group>)
    requires GroupsOf(s', key, groups')
    ensures GroupsOf(s' + [e], key, AddToGroups(groups', key(e), e))
  {
    KeysOfSnoc(s', e, key);
    assert key(e) in GroupKeys(groups') <==> key(e) in KeysOf(s', key);
    if key(e) in GroupKeys(groups') {
      AddExisting(s', e, key, groups');
    } else {
      AddNew(s', e, key, groups');
    }
  }

  lemma AddExisting(s': seq<LogEntry>, e: LogEntry, key: LogEntry -> string, groups': seq<Group>)
    requires GroupsOf(s', key, groups')
    requires key(e) in GroupKeys(groups') && key(e) in KeysOf(s', key)
    ensures GroupsOf(s' + [e], key, AddToGroups(groups', key(e), e))
  {
    KeysOfSnoc(s', e, key);
    var keys := GroupKeys(groups');
    var i := FirstIndex(keys, key(e));
    var groups := groups'[i := Group(key(e), groups'[i].members + [e])];
    assert AddToGroups(groups', key(e), e) == groups;
    UpdateKeepsKeys(groups', i, groups[i]);
    KeysApart(groups', i);
    UpdateMembers(s', e, key, groups', i, groups);
  }

  /** With distinct keys, no group but the `k`th has the `k`th group's key. */
  lemma KeysApart(groups: seq<Group>, k: nat)
    requires k < |groups|
    requires forall i, j :: 0 <= i < j < |GroupKeys(groups)| ==> GroupKeys(groups)[i] != GroupKeys(groups)[j]
    ensures forall j :: 0 <= j < |groups| && j != k ==> groups[j].key != groups[k].key
  {
    var keys := GroupKeys(groups);
    forall j | 0 <= j < |groups| && j != k
      ensures groups[j].key != groups[k].key
    {
      assert keys[j] == groups[j].key && keys[k] == groups[k].key;
    }
  }

  /** Pushing `e` onto the only group with its key keeps every group right. */
  lemma UpdateMembers(s': seq<LogEntry>, e: LogEntry, key: LogEntry -> string, groups': seq<Group>,
                      k: nat, groups: seq<Group>)
    requires forall j :: 0 <= j < |groups'| ==> groups'[j].members == WithMessageKey(s', key, groups'[j].key)
    requires k < |groups'| && groups'[k].key == key(e)
    requires forall j :: 0 <= j < |groups'| && j != k ==> groups'[j].key != groups'[k].key
    requires groups == groups'[k := Group(key(e), groups'[k].members + [e])]
    ensures forall j :: 0 <= j < |groups| ==> groups[j].members == WithMessageKey(s' + [e], key, groups[j].key)
  {
    forall j | 0 <= j < |groups|
      ensures groups[j].members == WithMessageKey(s' + [e], key, groups[j].key)
    {
      GroupStep(s', e, key, groups'[j], groups[j]);
    }
  }

  /** A group keeps exactly the entries with its key when the next entry is pushed onto it
      if it has the entry's key, and is left alone otherwise. */
  lemma GroupStep(s': seq<LogEntry>, e: LogEntry, key: LogEntry -> string, g': Group, g: Group)
    requires g'.members == WithMessageKey(s', key, g'.key)
    requires g == if g'.key == key(e) then Group(g'.key, g'.members + [e]) else g'
    ensures g.members == WithMessageKey(s' + [e], key, g.key)
  {
    WithMessageKeySnoc(s', e, key, g'.key);
  }

  lemma UpdateKeepsKeys(groups: seq<Group>, i: nat, g: Group)
    requires i < |groups| && g.key == groups[i].key
    ensures GroupKeys(groups[i := g]) == GroupKeys(groups)
  {
    assert forall j :: 0 <= j < |groups| ==> groups[i := g][j].key == groups[j].key;
  }

  lemma AddNew(s': seq<LogEntry>, e: LogEntry, key: LogEntry -> string, groups': seq<Group>)
    requires GroupsOf(s', key, groups')
    requires key(e) !in GroupKeys(groups') && key(e) !in KeysOf(s', key)
    ensures GroupsOf(s' + [e], key, AddToGroups(groups', key(e), e))
  {
    KeysOfSnoc(s', e, key);
    var groups := groups' + [Group(key(e), [e])];
    assert AddToGroups(groups', key(e), e) == groups;
    GroupKeysSnoc(groups', Group(key(e), [e]));
    forall j | 0 <= j < |groups'| ensures groups'[j].key != key(e) {
      assert GroupKeys(groups')[j] == groups'[j].key;
    }
    NoKeyNoMembers(s', key, key(e));
    AppendMembers(s', e, key, groups', groups);
  }

  lemma GroupKeysSnoc(groups: seq<Group>, g: Group)
    ensures GroupKeys(groups + [g]) == GroupKeys(groups) + [g.key]
  {
    assert forall j :: 0 <= j < |groups| ==> (groups + [g])[j] == groups[j];
  }

  /** A new group for `e`'s key holds just `e`, and the old groups, none of which has that
      key, stay right. */
  lemma AppendMembers(s': seq<LogEntry>, e: LogEntry, key: LogEntry -> string, groups': seq<Group>,
                      groups: seq<Group>)
    requires forall j :: 0 <= j < |groups'| ==> groups'[j].members == WithMessageKey(s', key, groups'[j].key)
    requires forall j :: 0 <= j < |groups'| ==> groups'[j].key != key(e)
    requires WithMessageKey(s', key, key(e)) == []
    requires groups == groups' + [Group(key(e), [e])]
    ensures forall j :: 0 <= j < |groups| ==> groups[j].members == WithMessageKey(s' + [e], key, groups[j].key)
  {
    forall j | 0 <= j < |groups|
      ensures groups[j].members == WithMessageKey(s' + [e], key, groups[j].key)
    {
      if j < |groups'| {
        GroupStep(s', e, key, groups'[j], groups[j]);
      } else {
        WithMessageKeySnoc(s', e, key, key(e));
      }
    }
  }

  lemma NoKeyNoMembers(s: seq<LogEntry>, key: LogEntry -> string, k: string)
    requires k !in KeysOf(s, key)
    ensures WithMessageKey(s, key, k) == []
  {
    var r := WithMessageKey(s, key, k);
    if |r| > 0 {
      KeyListed(s, key, r[0]);
    }
  }

  /** The key of every entry of `s` is among the keys of `s`. */
  lemma KeyListed(s: seq<LogEntry>, key: LogEntry -> string, e: LogEntry)
    requires e in s
    ensures key(e) in KeysOf(s, key)
  {
    var i :| 0 <= i < |s| && s[i] == e;
    assert KeysOf(s, key)[i] == key(e);
  }

  lemma AddStepSize(k: string, e: LogEntry, groups': seq<Group>)
    ensures SumBy(AddToGroups(groups', k, e), Size) == SumBy(groups', Size) + 1
  {
    var keys' := GroupKeys(groups');
    if k in keys' {
      var i := FirstIndex(keys', k);
      SumByUpdate(groups', i, Group(k, groups'[i].members + [e]), Size);
    } else {
      SumByAppend(groups', [Group(k, [e])], Size);
      assert SumBy([Group(k, [e])], Size) == 1;
    }
  }

  /** Every group of a grouping has at least one member, and all its members carry its key. */
  lemma GroupsNonEmpty(s: seq<LogEntry>, key: LogEntry -> string, groups: seq<Group>)
    requires GroupsOf(s, key, groups)
    ensures forall i :: 0 <= i < |groups| ==> |groups[i].members| > 0
    ensures forall i :: 0 <= i < |groups| ==> key(groups[i].members[0]) == groups[i].key
  {
    forall i | 0 <= i < |groups|
      ensures |groups[i].members| > 0
    {
      var k := groups[i].key;
      assert GroupKeys(groups)[i] == k;
      assert k in KeysOf(s, key);
      var m :| 0 <= m < |s| && KeysOf(s, key)[m] == k;
      assert s[m] in WithMessageKey(s, key, k);
    }
    forall i | 0 <= i < |groups|
      ensures key(groups[i].members[0]) == groups[i].key
    {
      assert groups[i].members[0] in WithMessageKey(s, key, groups[i].key);
    }
  }

  /** `(entries.length / totalErrors) * 100`, or 0 when there is nothing to divide by. */
  function Percentage(count: nat, total: nat): (p: real)
    ensures total == 0 ==> p == 0.0
    ensures total > 0 ==> p * (total as real) == (count as real) * 100.0
  {
    if total > 0 then (count as real / total as real) * 100.0 else 0.0
  }

  /** A share of the total is between 0 and 100 per cent, and above 0 when not empty. */
  lemma PercentageBounds(count: nat, total: nat)
    ensures count <= total ==> 0.0 <= Percentage(count, total) <= 100.0
    ensures 0 < count <= total ==> 0.0 < Percentage(count, total)
  {
    if 0 < total && count <= total {
      var c, t := count as real, total as real;
      assert c / t <= 1.0;
    }
  }

  /** The `map` callback: pattern and severity from the first member of the group. */
  function Summarise(g: Group, total: nat): (p: ErrorPattern)
    requires |g.members| > 0
    ensures p.entries == g.members && p.count == |p.entries|
    ensures p.pattern == p.entries[0].message && p.severity == p.entries[0].severity
    ensures 0 < p.count <= total ==> 0.0 < p.percentage <= 100.0
  {
    PercentageBounds(|g.members|, total);
    ErrorPattern(g.members[0].message, |g.members|, g.members[0].severity,
      Percentage(|g.members|, total), g.members)
  }

  function Summaries(groups: seq<Group>, total: nat): (ps: seq<ErrorPattern>)
    requires forall i :: 0 <= i < |groups| ==> |groups[i].members| > 0
    ensures |ps| == |groups|
    ensures forall i :: 0 <= i < |groups| ==> ps[i] == Summarise(groups[i], total)
  {
    seq(|groups|, i requires 0 <= i < |groups| => Summarise(groups[i], total))
  }

  function CountOf(p: ErrorPattern): int {
    p.count
  }

  /** The sort key of the comparator `(a, b) => b.count - a.count`: ascending in `-count`
      is descending in `count`. */
  function DescendingCount(p: ErrorPattern): int {
    -(p.count as int)
  }

  /** The grouping key of a pattern, read off its first member. */
  function PatternKey(p: ErrorPattern): string {
    if |p.entries| > 0 then KeyOf(p.entries[0]) else ""
  }

  /** What a pattern promises about the flagged entries it was built from. */
  ghost predicate Describes(p: ErrorPattern, flagged: seq<LogEntry>) {
    && |p.entries| > 0
    && p.count == |p.entries|
    && p.pattern == p.entries[0].message
    && p.severity == p.entries[0].severity
    && p.percentage == Percentage(p.count, |flagged|)
    && p.entries == WithMessageKey(flagged, KeyOf, PatternKey(p))
    && PatternKey(p) in KeysOf(flagged, KeyOf)
  }

  function Flagged(entries: seq<LogEntry>): seq<LogEntry> {
    Filter(entries, IsFlagged)
  }

  /** The patterns before sorting, in the map's insertion order. */
  function UnsortedPatterns(flagged: seq<LogEntry>): (ps: seq<ErrorPattern>)
    ensures forall i :: 0 <= i < |ps| ==> Describes(ps[i], flagged)
    ensures |ps| == |GroupByKey(flagged, KeyOf)|
    ensures forall i :: 0 <= i < |ps| ==> PatternKey(ps[i]) == GroupByKey(flagged, KeyOf)[i].key
    ensures SumBy(ps, CountOf) == |flagged|
  {
    var groups := GroupByKey(flagged, KeyOf);
    GroupsNonEmpty(flagged, KeyOf, groups);
    SummariesDescribe(flagged, groups);
    SummariesCount(groups, |flagged|);
    Summaries(groups, |flagged|)
  }

  /** Each summary describes its group: the group's key is the pattern's key. */
  lemma SummariesDescribe(flagged: seq<LogEntry>, groups: seq<Group>)
    requires GroupsOf(flagged, KeyOf, groups)
    requires forall i :: 0 <= i < |groups| ==> |groups[i].members| > 0
    requires forall i :: 0 <= i < |groups| ==> KeyOf(groups[i].members[0]) == groups[i].key
    ensures var ps := Summaries(groups, |flagged|);
      forall i :: 0 <= i < |ps| ==> Describes(ps[i], flagged) && PatternKey(ps[i]) == groups[i].key
  {
    var ps := Summaries(groups, |flagged|);
    forall i | 0 <= i < |ps|
      ensures Describes(ps[i], flagged) && PatternKey(ps[i]) == groups[i].key
    {
      assert GroupKeys(groups)[i] == groups[i].key;
      SummaryDescribes(flagged, groups[i], ps[i]);
    }
  }

  lemma SummaryDescribes(flagged: seq<LogEntry>, g: Group, p: ErrorPattern)
    requires |g.members| > 0 && KeyOf(g.members[0]) == g.key
    requires g.members == WithMessageKey(flagged, KeyOf, g.key)
    requires g.key in Distinct(KeysOf(flagged, KeyOf))
    requires p == Summarise(g, |flagged|)
    ensures Describes(p, flagged) && PatternKey(p) == g.key
  {
    SummaryShape(g, |flagged|, p);
    DistinctListed(KeysOf(flagged, KeyOf), g.key);
  }

  /** The fields of a summary, read off its group. */
  lemma SummaryShape(g: Group, total: nat, p: ErrorPattern)
    requires |g.members| > 0 && p == Summarise(g, total)
    ensures p.entries == g.members && p.count == |g.members|
    ensures p.percentage == Percentage(|g.members|, total)
    ensures PatternKey(p) == KeyOf(g.members[0])
  {
  }

  lemma {:induction false} SummariesCount(groups: seq<Group>, total: nat)
    requires forall i :: 0 <= i < |groups| ==> |groups[i].members| > 0
    ensures SumBy(Summaries(groups, total), CountOf) == SumBy(groups, Size)
  {
    if |groups| > 0 {
      var g' := groups[..|groups| - 1];
      SummariesCount(g', total);
      assert Summaries(groups, total)[..|groups| - 1] == Summaries(g', total);
    }
  }

  /** `extractErrorPatterns`. The clusters partition the WARN, ERROR and FATAL entries: each is
      non-empty, holds exactly the flagged entries with its normalised message in input
      order, and takes its `pattern` and `severity` from its first member (so later members
      may have another severity); the counts add up to the number of flagged entries. The
      result is ordered by count, largest first, and is empty exactly when nothing is
      flagged. */
  function ExtractErrorPatterns(entries: seq<LogEntry>): (patterns: seq<ErrorPattern>)
    ensures forall i :: 0 <= i < |patterns| ==> Describes(patterns[i], Flagged(entries))
    ensures SumBy(patterns, CountOf) == |Flagged(entries)|
    ensures forall i, j :: 0 <= i < j < |patterns| ==> patterns[i].count >= patterns[j].count
    ensures patterns == [] <==> Flagged(entries) == []
  {
    var flagged := Flagged(entries);
    var u := UnsortedPatterns(flagged);
    SortedFacts(u, flagged);
    SortBy(u, DescendingCount)
  }

  lemma SortedFacts(u: seq<ErrorPattern>, flagged: seq<LogEntry>)
    requires forall i :: 0 <= i < |u| ==> Describes(u[i], flagged)
    requires SumBy(u, CountOf) == |flagged|
    ensures var ps := SortBy(u, DescendingCount);
      && (forall i :: 0 <= i < |ps| ==> Describes(ps[i], flagged))
      && SumBy(ps, CountOf) == |flagged|
      && (forall i, j :: 0 <= i < j < |ps| ==> ps[i].count >= ps[j].count)
      && (ps == [] <==> flagged == [])
  {
    var ps := SortBy(u, DescendingCount);
    SortBySum(u, DescendingCount, CountOf);
    forall i | 0 <= i < |ps| ensures Describes(ps[i], flagged) {
      assert ps[i] in multiset(u);
    }
    forall i, j | 0 <= i < j < |ps| ensures ps[i].count >= ps[j].count {
      assert DescendingCount(ps[i]) <= DescendingCount(ps[j]);
    }
    if ps != [] {
      assert ps[0].count > 0;
    }
    if flagged != [] {
      assert |u| > 0;
    }
  }

  /** Distinct clusters have distinct normalised messages. */
  lemma PatternKeysDistinct(entries: seq<LogEntry>)
    ensures var ps := ExtractErrorPatterns(entries);
      forall i, j :: 0 <= i < j < |ps| ==> PatternKey(ps[i]) != PatternKey(ps[j])
  {
    var flagged := Flagged(entries);
    var u := UnsortedPatterns(flagged);
    UnsortedKeysDistinct(flagged);
    SortByDistinct(u, DescendingCount, PatternKey);
    assert ExtractErrorPatterns(entries) == SortBy(u, DescendingCount);
  }

  lemma UnsortedKeysDistinct(flagged: seq<LogEntry>)
    ensures DistinctBy(UnsortedPatterns(flagged), PatternKey)
  {
    var u := UnsortedPatterns(flagged);
    var groups := GroupByKey(flagged, KeyOf);
    var keys := GroupKeys(groups);
    forall i, j | 0 <= i < j < |u|
      ensures PatternKey(u[i]) != PatternKey(u[j])
    {
      assert keys[i] == groups[i].key && keys[j] == groups[j].key;
    }
  }

  /** Every flagged entry lands in some cluster (and, keys being distinct, in only one). */
  /** Some pattern of `ps` holds the entry `e`. */
  ghost predicate InSomePattern(e: LogEntry, ps: seq<ErrorPattern>) {
    exists i :: 0 <= i < |ps| && e in ps[i].entries
  }

  lemma PatternsCoverFlagged(entries: seq<LogEntry>)
    ensures forall e :: e in Flagged(entries) ==> InSomePattern(e, ExtractErrorPatterns(entries))
  {
    var flagged := Flagged(entries);
    var ps := SortBy(UnsortedPatterns(flagged), DescendingCount);
    SortedCoverFlagged(flagged, ps);
    assert ExtractErrorPatterns(entries) == ps;
  }

  lemma SortedCoverFlagged(flagged: seq<LogEntry>, ps: seq<ErrorPattern>)
    requires ps == SortBy(UnsortedPatterns(flagged), DescendingCount)
    ensures forall e :: e in flagged ==> InSomePattern(e, ps)
  {
    var u := UnsortedPatterns(flagged);
    forall e | e in flagged
      ensures InSomePattern(e, ps)
    {
      var a := UnsortedCovers(flagged, e);
      var i := PositionAfterSort(u, ps, a);
      assert e in ps[i].entries;
    }
  }

  /** Where an element of `u` ends up in a permutation `ps` of it. */
  lemma PositionAfterSort(u: seq<ErrorPattern>, ps: seq<ErrorPattern>, a: nat) returns (i: nat)
    requires multiset(ps) == multiset(u) && a < |u|
    ensures i < |ps| && ps[i] == u[a]
  {
    assert u[a] in multiset(ps);
    i :| 0 <= i < |ps| && ps[i] == u[a];
  }

  /** Under any key function, an entry sits in the group of its own key. */
  lemma EntryInItsGroup(s: seq<LogEntry>, key: LogEntry -> string, groups: seq<Group>, e: LogEntry)
      returns (a: nat)
    requires GroupsOf(s, key, groups)
    requires e in s
    ensures a < |groups| && e in groups[a].members
  {
    var m :| 0 <= m < |s| && s[m] == e;
    var keys := KeysOf(s, key);
    assert keys[m] == key(e);
    assert key(e) in Distinct(keys);
    a :| 0 <= a < |groups| && GroupKeys(groups)[a] == key(e);
  }

  /** The index of the unsorted pattern that holds a given flagged entry. */
  lemma UnsortedCovers(flagged: seq<LogEntry>, e: LogEntry) returns (a: nat)
    requires e in flagged
    ensures var u := UnsortedPatterns(flagged); a < |u| && e in u[a].entries
  {
    var groups := GroupByKey(flagged, KeyOf);
    a := EntryInItsGroup(flagged, KeyOf, groups, e);
    GroupsNonEmpty(flagged, KeyOf, groups);
    assert UnsortedPatterns(flagged) == Summaries(groups, |flagged|);
  }

  /** The position of the first flagged entry with key `k` (or the length of the input when
      there is none). */
  function FirstSeen(flagged: seq<LogEntry>, k: string): nat {
    var keys := KeysOf(flagged, KeyOf);
    if k in keys then FirstIndex(keys, k) else |flagged|
  }

  /** The sort is stable: clusters of equal size keep the map's insertion order, which is the
      order in which their keys first occur among the flagged entries. */
  lemma TiesKeepFirstAppearance(entries: seq<LogEntry>)
    ensures var ps := ExtractErrorPatterns(entries);
      forall i, j :: 0 <= i < j < |ps| && ps[i].count == ps[j].count ==>
        FirstSeen(Flagged(entries), PatternKey(ps[i])) < FirstSeen(Flagged(entries), PatternKey(ps[j]))
  {
    var flagged := Flagged(entries);
    var ps := SortBy(UnsortedPatterns(flagged), DescendingCount);
    SortedTies(flagged, ps);
    assert ExtractErrorPatterns(entries) == ps;
  }

  lemma SortedTies(flagged: seq<LogEntry>, ps: seq<ErrorPattern>)
    requires ps == SortBy(UnsortedPatterns(flagged), DescendingCount)
    ensures forall i, j :: 0 <= i < j < |ps| && ps[i].count == ps[j].count ==>
      FirstSeen(flagged, PatternKey(ps[i])) < FirstSeen(flagged, PatternKey(ps[j]))
  {
    var u := UnsortedPatterns(flagged);
    forall a, b | 0 <= a < b < |u|
      ensures FirstSeen(flagged, PatternKey(u[a])) < FirstSeen(flagged, PatternKey(u[b]))
    {
      TieOrder(flagged, u, a, b);
    }
    TiesByFirstSeen(flagged, u, ps);
  }

  lemma TiesByFirstSeen(flagged: seq<LogEntry>, u: seq<ErrorPattern>, ps: seq<ErrorPattern>)
    requires forall a, b :: 0 <= a < b < |u| ==>
      FirstSeen(flagged, PatternKey(u[a])) < FirstSeen(flagged, PatternKey(u[b]))
    requires ps == SortBy(u, DescendingCount)
    ensures forall i, j :: 0 <= i < j < |ps| && ps[i].count == ps[j].count ==>
      FirstSeen(flagged, PatternKey(ps[i])) < FirstSeen(flagged, PatternKey(ps[j]))
  {
    var rank := (p: ErrorPattern) => FirstSeen(flagged, PatternKey(p)) as int;
    SortByTiesRanked(u, DescendingCount, rank);
    forall i, j | 0 <= i < j < |ps| && ps[i].count == ps[j].count
      ensures FirstSeen(flagged, PatternKey(ps[i])) < FirstSeen(flagged, PatternKey(ps[j]))
    {
      assert DescendingCount(ps[i]) == DescendingCount(ps[j]);
      assert rank(ps[i]) < rank(ps[j]);
    }
  }

  /** The unsorted patterns come in the order in which their keys first occur. */
  lemma TieOrder(flagged: seq<LogEntry>, u: seq<ErrorPattern>, a: nat, b: nat)
    requires u == UnsortedPatterns(flagged)
    requires a < b < |u|
    ensures FirstSeen(flagged, PatternKey(u[a])) < FirstSeen(flagged, PatternKey(u[b]))
  {
    var groups := GroupByKey(flagged, KeyOf);
    var keys := KeysOf(flagged, KeyOf);
    DistinctFollowsFirstAppearance(keys);
    var order := GroupKeys(groups);
    assert PatternKey(u[a]) == groups[a].key == order[a];
    assert PatternKey(u[b]) == groups[b].key == order[b];
    assert order[a] in keys && order[b] in keys;
  }

  /** The sum of the `percentage` fields. */
  function TotalPercentage(ps: seq<ErrorPattern>): real {
    if |ps| == 0 then 0.0 else TotalPercentage(ps[..|ps| - 1]) + ps[|ps| - 1].percentage
  }

  lemma {:induction false} TotalPercentageOfCounts(ps: seq<ErrorPattern>, total: nat)
    requires total > 0
    requires forall i :: 0 <= i < |ps| ==> ps[i].percentage == Percentage(ps[i].count, total)
    ensures TotalPercentage(ps) == (SumBy(ps, CountOf) as real) * (100.0 / total as real)
  {
    if |ps| > 0 {
      var ps' := ps[..|ps| - 1];
      TotalPercentageOfCounts(ps', total);
      var c := ps[|ps| - 1].count as real;
      var t := total as real;
      assert ps[|ps| - 1].percentage == (c / t) * 100.0;
      assert (c / t) * 100.0 == c * (100.0 / t);
    }
  }

  /** When something is flagged, the percentages add up to exactly 100 (in exact arithmetic;
      the source's floating-point sum may be off in the last place). */
  lemma PercentagesSumTo100(entries: seq<LogEntry>)
    requires Flagged(entries) != []
    ensures TotalPercentage(ExtractErrorPatterns(entries)) == 100.0
  {
    var ps := ExtractErrorPatterns(entries);
    var total := |Flagged(entries)|;
    forall i | 0 <= i < |ps|
      ensures ps[i].percentage == Percentage(ps[i].count, total)
    {
      assert Describes(ps[i], Flagged(entries));
    }
    PercentagesOfTotal(ps, total);
  }

  lemma PercentagesOfTotal(ps: seq<ErrorPattern>, total: nat)
    requires total > 0
    requires forall i :: 0 <= i < |ps| ==> ps[i].percentage == Percentage(ps[i].count, total)
    requires SumBy(ps, CountOf) == total
    ensures TotalPercentage(ps) == 100.0
  {
    TotalPercentageOfCounts(ps, total);
    ScaleBack(total as real);
  }

  lemma ScaleBack(t: real)
    requires t > 0.0
    ensures t * (100.0 / t) == 100.0
  {
  }
}
