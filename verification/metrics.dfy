/**
  The team and driver leaderboards: the pit events are grouped by a key
  (season and team, or season, driver and team), every group is summarised
  by its stop count and the statistics of its present durations, and the
  rows are ordered by season and then by average duration.
 */
module Metrics {
  import opened Wrappers
  import opened Sequences
  import opened Ordering
  import opened Stats
  import opened Pairing

  /** A group key: the season and the names that follow it in the key tuple. */
  datatype GroupKey = GroupKey(season: int, names: seq<string>)

  /** The key of the team table: (season, Team). */
  function TeamKey(e: PitEvent): GroupKey {
    GroupKey(e.season, [e.team])
  }

  /** The key of the driver table: (season, Driver, Team). */
  function DriverKey(e: PitEvent): GroupKey {
    GroupKey(e.season, [e.driver, e.team])
  }

  /** One output row; a statistic that pandas leaves NaN is `None`. The
      `popVariance` field is the square of `std_s`. */
  datatype MetricsRow = MetricsRow(
    key: GroupKey,
    nStops: nat,
    avg: Option<real>,
    median: Option<real>,
    p90: Option<real>,
    p95: Option<real>,
    popVariance: Option<real>,
    consistency: Option<real>
  )

  function RowKey(r: MetricsRow): GroupKey {
    r.key
  }

  predicate HasDuration(e: PitEvent) {
    e.duration.Some?
  }

  /** The durations of the events that have one, in event order: the sample
      pandas' `mean`, `median`, `quantile` and `std` work on. */
  function PresentDurations(events: seq<PitEvent>): (xs: seq<real>)
    ensures |xs| == |Filter(events, HasDuration)|
    ensures forall j :: 0 <= j < |xs| ==> Filter(events, HasDuration)[j].duration == Some(xs[j])
  {
    if |events| == 0 then []
    else
      var rest := PresentDurations(events[1..]);
      match events[0].duration
      case None => rest
      case Some(d) =>
        assert Filter(events, HasDuration) == [events[0]] + Filter(events[1..], HasDuration);
        [d] + rest
  }

  /** The events whose duration is `x`. */
  function DurationIs(x: real): PitEvent -> bool {
    (e: PitEvent) => e.duration == Some(x)
  }

  /** Each value occurs in the sample once per event with that duration. */
  lemma {:induction false} PresentDurationsCount(events: seq<PitEvent>, x: real)
    ensures multiset(PresentDurations(events))[x] == |Filter(events, DurationIs(x))|
  {
    if |events| > 0 {
      PresentDurationsCount(events[1..], x);
      assert events == [events[0]] + events[1..];
      FilterCons(events[0], events[1..], DurationIs(x));
    }
  }

  /** Dropping the events without a duration leaves the sample unchanged. */
  lemma {:induction false} PresentDurationsOfTimed(events: seq<PitEvent>)
    ensures PresentDurations(Filter(events, HasDuration)) == PresentDurations(events)
  {
    if |events| > 0 {
      var rest := events[1..];
      PresentDurationsOfTimed(rest);
      match events[0].duration
      case None =>
        assert Filter(events, HasDuration) == Filter(rest, HasDuration);
        assert PresentDurations(events) == PresentDurations(rest);
      case Some(d) =>
        var timed := Filter(events, HasDuration);
        assert timed == [events[0]] + Filter(rest, HasDuration);
        assert timed[1..] == Filter(rest, HasDuration);
        assert PresentDurations(timed) == [d] + PresentDurations(timed[1..]);
        assert PresentDurations(events) == [d] + PresentDurations(rest);
    }
  }

  /** Every statistic is missing. */
  predicate NoStatistics(r: MetricsRow) {
    && r.avg.None? && r.median.None? && r.p90.None? && r.p95.None?
    && r.popVariance.None? && r.consistency.None?
  }

  /** Every statistic is present and is the corresponding statistic of the
      sample `xs`, and they relate to each other as the order statistics and
      moments of a non-empty sample must. */
  predicate StatisticsOf(r: MetricsRow, xs: seq<real>)
    requires |xs| > 0
  {
    && r.avg.Some? && r.median.Some? && r.p90.Some? && r.p95.Some?
    && r.popVariance.Some? && r.consistency.Some?
    && r.avg.value == Mean(xs)
    && r.median.value == Median(xs) == Quantile(xs, 0.5)
    && r.p90.value == Quantile(xs, 0.9)
    && r.p95.value == Quantile(xs, 0.95)
    && r.popVariance.value == PopVariance(xs)
    && Min(xs) <= r.avg.value <= Max(xs)
    && Min(xs) <= r.median.value <= r.p90.value <= r.p95.value <= Max(xs)
    && r.consistency.value >= 0.0
    && r.consistency.value == r.p95.value - r.median.value
    && r.popVariance.value >= 0.0
    && (r.popVariance.value == 0.0 <==> forall i :: 0 <= i < |xs| ==> xs[i] == xs[0])
  }

  /** The row of a group of `n` stops whose present durations are `xs`. */
  function SampleRow(key: GroupKey, n: nat, xs: seq<real>): (r: MetricsRow)
    ensures r.key == key && r.nStops == n
    ensures |xs| == 0 ==> NoStatistics(r)
    ensures |xs| > 0 ==> StatisticsOf(r, xs)
  {
    if |xs| == 0 then
      MetricsRow(key, n, None, None, None, None, None, None)
    else
      var median := Median(xs);
      var p90 := Quantile(xs, 0.9);
      var p95 := Quantile(xs, 0.95);
      MedianIsHalfQuantile(xs);
      QuantileMonotone(xs, 0.5, 0.9);
      QuantileMonotone(xs, 0.9, 0.95);
      PopVarianceZeroIffConstant(xs);
      MetricsRow(key, n, Some(Mean(xs)), Some(median), Some(p90), Some(p95),
                 Some(PopVariance(xs)), Some(p95 - median))
  }

  /** One group's row: `size()` counts every member, the statistics use the
      present durations only and are all missing when there are none. */
  function Summarize(key: GroupKey, members: seq<PitEvent>): (r: MetricsRow)
    ensures r.key == key && r.nStops == |members|
    ensures |PresentDurations(members)| == 0 ==> NoStatistics(r)
    ensures |PresentDurations(members)| > 0 ==> StatisticsOf(r, PresentDurations(members))
  {
    SampleRow(key, |members|, PresentDurations(members))
  }

  /** A group's statistics are those of its timed members alone: only the
      stop count sees the events without a duration. */
  lemma SummarizeSkipsMissing(key: GroupKey, members: seq<PitEvent>)
    ensures Summarize(key, members)
            == Summarize(key, Filter(members, HasDuration)).(nStops := |members|)
  {
    var timed := Filter(members, HasDuration);
    var xs := PresentDurations(members);
    PresentDurationsOfTimed(members);
    assert Summarize(key, members) == SampleRow(key, |members|, xs);
    assert Summarize(key, timed) == SampleRow(key, |timed|, xs);
  }

  /** Strictly earlier average, with a missing average (NaN) after every
      present one. */
  predicate AvgLt(a: Option<real>, b: Option<real>) {
    a.Some? && (b.None? || a.value < b.value)
  }

  /** The output order: ascending season, then ascending average with missing
      averages last, then the group key (the order `groupby` produced, which
      the stable `sort_values` keeps among ties). */
  predicate RowLe(a: MetricsRow, b: MetricsRow) {
    a.key.season < b.key.season
    || (a.key.season == b.key.season
        && (AvgLt(a.avg, b.avg) || (a.avg == b.avg && NamesLe(a.key.names, b.key.names))))
  }

  lemma RowLeIsTotalPreorder()
    ensures TotalPreorder(RowLe)
  {
    forall a: MetricsRow, b: MetricsRow
      ensures RowLe(a, b) || RowLe(b, a)
    {
      NamesLeTotal(a.key.names, b.key.names);
    }
    forall a: MetricsRow, b: MetricsRow, c: MetricsRow | RowLe(a, b) && RowLe(b, c)
      ensures RowLe(a, c)
    {
      if NamesLe(a.key.names, b.key.names) && NamesLe(b.key.names, c.key.names) {
        NamesLeTransitive(a.key.names, b.key.names, c.key.names);
      }
    }
  }

  /** Two rows the order cannot tell apart have the same key, so among rows
      with distinct keys the order is strict. */
  lemma RowLeSeparatesKeys(a: MetricsRow, b: MetricsRow)
    requires RowLe(a, b) && RowLe(b, a)
    ensures a.key == b.key
  {
    NamesLeAntisymmetric(a.key.names, b.key.names);
  }

  /** The distinct keys of the events, in order of first appearance. */
  function KeysOf(events: seq<PitEvent>, keyOf: PitEvent -> GroupKey): (ks: seq<GroupKey>)
    ensures forall i, j :: 0 <= i < j < |ks| ==> ks[i] != ks[j]
    ensures forall k :: k in ks <==> exists i :: 0 <= i < |events| && keyOf(events[i]) == k
  {
    if |events| == 0 then []
    else
      var front := events[..|events| - 1];
      var ks := KeysOf(front, keyOf);
      var k := keyOf(events[|events| - 1]);
      assert forall i :: 0 <= i < |front| ==> front[i] == events[i];
      if k in ks then ks else ks + [k]
  }

  /** The events whose key is `k`, in event order. */
  function Members(events: seq<PitEvent>, keyOf: PitEvent -> GroupKey, k: GroupKey): (m: seq<PitEvent>)
    ensures forall i :: 0 <= i < |m| ==> m[i] in events && keyOf(m[i]) == k
    ensures forall i :: 0 <= i < |events| && keyOf(events[i]) == k ==> events[i] in m
  {
    Filter(events, HasKey(keyOf, k))
  }

  /** The events whose key is `k`. */
  function HasKey(keyOf: PitEvent -> GroupKey, k: GroupKey): PitEvent -> bool {
    e => keyOf(e) == k
  }

  /** A group holds every occurrence of each event with its key, and no other
      event. */
  lemma MembersMultiplicity(events: seq<PitEvent>, keyOf: PitEvent -> GroupKey, k: GroupKey, e: PitEvent)
    ensures multiset(Members(events, keyOf, k))[e] == if keyOf(e) == k then multiset(events)[e] else 0
  {
    FilterMultiplicity(events, HasKey(keyOf, k), e);
  }

  /** One summary row per key of `ks`, in the order of `ks`. */
  function Summaries(events: seq<PitEvent>, keyOf: PitEvent -> GroupKey, ks: seq<GroupKey>): (rows: seq<MetricsRow>)
    ensures |rows| == |ks|
    ensures forall j :: 0 <= j < |rows| ==> rows[j].key == ks[j]
  {
    if |ks| == 0 then []
    else [Summarize(ks[0], Members(events, keyOf, ks[0]))] + Summaries(events, keyOf, ks[1..])
  }

  lemma {:induction false} SummariesAreSummaries(events: seq<PitEvent>, keyOf: PitEvent -> GroupKey, ks: seq<GroupKey>)
    ensures forall j :: 0 <= j < |ks| ==>
              Summaries(events, keyOf, ks)[j] == Summarize(ks[j], Members(events, keyOf, ks[j]))
  {
    if |ks| > 0 {
      var tail := Summaries(events, keyOf, ks[1..]);
      SummariesAreSummaries(events, keyOf, ks[1..]);
      assert Summaries(events, keyOf, ks) == [Summarize(ks[0], Members(events, keyOf, ks[0]))] + tail;
      forall j | 1 <= j < |ks|
        ensures Summaries(events, keyOf, ks)[j] == Summarize(ks[j], Members(events, keyOf, ks[j]))
      {
        assert Summaries(events, keyOf, ks)[j] == tail[j - 1] && ks[1..][j - 1] == ks[j];
      }
    }
  }

  /** The keys the events carry. */
  function EventKeys(events: seq<PitEvent>, keyOf: PitEvent -> GroupKey): set<GroupKey> {
    set i | 0 <= i < |events| :: keyOf(events[i])
  }

  /** The keys of the rows. */
  function RowKeys(rows: seq<MetricsRow>): set<GroupKey> {
    set j | 0 <= j < |rows| :: rows[j].key
  }

  /** The group-by: one row per distinct key, ordered by `RowLe`. */
  function Aggregate(events: seq<PitEvent>, keyOf: PitEvent -> GroupKey): (rows: seq<MetricsRow>)
    ensures SortedBy(rows, RowLe)
    ensures DistinctUnder(rows, RowKey)
    ensures RowKeys(rows) == EventKeys(events, keyOf)
    ensures forall j :: 0 <= j < |rows| ==>
              rows[j].nStops == |Members(events, keyOf, rows[j].key)| && rows[j].nStops >= 1
  {
    var ks := KeysOf(events, keyOf);
    var unsorted := Summaries(events, keyOf, ks);
    RowLeIsTotalPreorder();
    var rows := SortBy(unsorted, RowLe);
    AggregateFacts(events, keyOf, ks, unsorted, rows);
    rows
  }

  /** Every row is its group's summary, so its statistics are those of the
      group's present durations. */
  lemma AggregateRowsSummarizeGroups(events: seq<PitEvent>, keyOf: PitEvent -> GroupKey)
    ensures var rows := Aggregate(events, keyOf);
            forall j :: 0 <= j < |rows| ==> rows[j] == Summarize(rows[j].key, Members(events, keyOf, rows[j].key))
  {
    var ks := KeysOf(events, keyOf);
    var unsorted := Summaries(events, keyOf, ks);
    RowLeIsTotalPreorder();
    assert Aggregate(events, keyOf) == SortBy(unsorted, RowLe);
    AggregateFacts(events, keyOf, ks, unsorted, Aggregate(events, keyOf));
  }

  /** What sorting the per-key summaries keeps. */
  lemma AggregateFacts(events: seq<PitEvent>, keyOf: PitEvent -> GroupKey, ks: seq<GroupKey>,
                       unsorted: seq<MetricsRow>, rows: seq<MetricsRow>)
    requires ks == KeysOf(events, keyOf)
    requires unsorted == Summaries(events, keyOf, ks)
    requires multiset(rows) == multiset(unsorted)
    ensures DistinctUnder(rows, RowKey)
    ensures RowKeys(rows) == EventKeys(events, keyOf)
    ensures forall j :: 0 <= j < |rows| ==>
              rows[j] == Summarize(rows[j].key, Members(events, keyOf, rows[j].key)) && rows[j].nStops >= 1
  {
    assert DistinctUnder(unsorted, RowKey);
    DistinctUnderPermutation(unsorted, rows, RowKey);
    EveryKeyHasRow(events, keyOf, ks, unsorted, rows);
    EveryRowIsGroupSummary(events, keyOf, ks, unsorted, rows);
  }

  lemma EveryRowIsGroupSummary(events: seq<PitEvent>, keyOf: PitEvent -> GroupKey, ks: seq<GroupKey>,
                               unsorted: seq<MetricsRow>, rows: seq<MetricsRow>)
    requires ks == KeysOf(events, keyOf)
    requires unsorted == Summaries(events, keyOf, ks)
    requires multiset(rows) == multiset(unsorted)
    ensures RowKeys(rows) <= EventKeys(events, keyOf)
    ensures forall j :: 0 <= j < |rows| ==>
              rows[j] == Summarize(rows[j].key, Members(events, keyOf, rows[j].key)) && rows[j].nStops >= 1
  {
    forall j | 0 <= j < |rows|
      ensures rows[j].key in EventKeys(events, keyOf)
      ensures rows[j] == Summarize(rows[j].key, Members(events, keyOf, rows[j].key)) && rows[j].nStops >= 1
    {
      assert rows[j] in multiset(rows);
      RowIsGroupSummary(events, keyOf, ks, unsorted, rows[j]);
    }
  }

  lemma EveryKeyHasRow(events: seq<PitEvent>, keyOf: PitEvent -> GroupKey, ks: seq<GroupKey>,
                       unsorted: seq<MetricsRow>, rows: seq<MetricsRow>)
    requires ks == KeysOf(events, keyOf)
    requires unsorted == Summaries(events, keyOf, ks)
    requires multiset(rows) == multiset(unsorted)
    ensures EventKeys(events, keyOf) <= RowKeys(rows)
  {
    forall k | k in EventKeys(events, keyOf)
      ensures k in RowKeys(rows)
    {
      assert k in ks;
      var j :| 0 <= j < |ks| && ks[j] == k;
      assert unsorted[j] in multiset(rows);
      var j' :| 0 <= j' < |rows| && rows[j'] == unsorted[j];
      assert rows[j'].key == k;
    }
  }

  lemma RowIsGroupSummary(events: seq<PitEvent>, keyOf: PitEvent -> GroupKey, ks: seq<GroupKey>,
                          unsorted: seq<MetricsRow>, r: MetricsRow)
    requires ks == KeysOf(events, keyOf)
    requires unsorted == Summaries(events, keyOf, ks)
    requires r in unsorted
    ensures r.key in EventKeys(events, keyOf)
    ensures r == Summarize(r.key, Members(events, keyOf, r.key)) && r.nStops >= 1
  {
    SummariesAreSummaries(events, keyOf, ks);
    var j :| 0 <= j < |unsorted| && unsorted[j] == r;
    assert ks[j] in ks;
    var i :| 0 <= i < |events| && keyOf(events[i]) == ks[j];
    assert events[i] in Members(events, keyOf, ks[j]);
  }

  /** Rows sorted by `RowLe` with distinct keys are unique: every ordering of
      the same rows by `RowLe` is this one, whatever order the groups came in. */
  lemma SortedRowsUnique(a: seq<MetricsRow>, b: seq<MetricsRow>)
    requires multiset(a) == multiset(b)
    requires SortedBy(a, RowLe) && SortedBy(b, RowLe)
    requires DistinctUnder(a, RowKey)
    ensures a == b
  {
    forall x: MetricsRow, y: MetricsRow | RowLe(x, y) && RowLe(y, x)
      ensures RowKey(x) == RowKey(y)
    {
      RowLeSeparatesKeys(x, y);
    }
    SortedUnique(a, b, RowLe, RowKey);
  }

  /** The number of events whose key is among `ks`. */
  function CountKeysIn(events: seq<PitEvent>, keyOf: PitEvent -> GroupKey, ks: seq<GroupKey>): nat {
    if |events| == 0 then 0
    else (if keyOf(events[0]) in ks then 1 else 0) + CountKeysIn(events[1..], keyOf, ks)
  }

  lemma {:induction false} MembersCount(events: seq<PitEvent>, keyOf: PitEvent -> GroupKey, k: GroupKey)
    ensures |Members(events, keyOf, k)| == CountKeysIn(events, keyOf, [k])
  {
    if |events| > 0 {
      MembersCount(events[1..], keyOf, k);
    }
  }

  /** Counting over a key list splits into its head and its tail when the
      head does not recur. */
  lemma {:induction false} CountKeysSplit(events: seq<PitEvent>, keyOf: PitEvent -> GroupKey, ks: seq<GroupKey>)
    requires |ks| > 0 && ks[0] !in ks[1..]
    ensures CountKeysIn(events, keyOf, ks) == CountKeysIn(events, keyOf, [ks[0]]) + CountKeysIn(events, keyOf, ks[1..])
  {
    if |events| > 0 {
      assert ks == [ks[0]] + ks[1..];
      CountKeysSplit(events[1..], keyOf, ks);
    }
  }

  lemma {:induction false} CountKeysAll(events: seq<PitEvent>, keyOf: PitEvent -> GroupKey, ks: seq<GroupKey>)
    requires forall i :: 0 <= i < |events| ==> keyOf(events[i]) in ks
    ensures CountKeysIn(events, keyOf, ks) == |events|
  {
    if |events| > 0 {
      assert forall i :: 0 <= i < |events[1..]| ==> events[1..][i] == events[i + 1];
      CountKeysAll(events[1..], keyOf, ks);
    }
  }

  /** The sum of the stop counts of the rows. */
  function TotalStops(rows: seq<MetricsRow>): nat {
    if |rows| == 0 then 0 else rows[0].nStops + TotalStops(rows[1..])
  }

  lemma {:induction false} TotalStopsRemove(rows: seq<MetricsRow>, i: nat)
    requires i < |rows|
    ensures TotalStops(rows) == rows[i].nStops + TotalStops(rows[..i] + rows[i + 1..])
  {
    if i == 0 {
      assert rows[..0] + rows[1..] == rows[1..];
    } else {
      TotalStopsRemove(rows[1..], i - 1);
      assert rows[1..][..i - 1] + rows[1..][i..] == (rows[..i] + rows[i + 1..])[1..];
    }
  }

  lemma {:induction false} TotalStopsPermutation(a: seq<MetricsRow>, b: seq<MetricsRow>)
    requires multiset(a) == multiset(b)
    ensures TotalStops(a) == TotalStops(b)
  {
    assert |multiset(a)| == |multiset(b)|;
    if |a| > 0 {
      assert a[0] in multiset(b);
      var i :| 0 <= i < |b| && b[i] == a[0];
      var rest := b[..i] + b[i + 1..];
      MultisetRemove(b, i);
      assert a == [a[0]] + a[1..];
      assert multiset(a[1..]) == multiset(a) - multiset{a[0]} == multiset(rest);
      TotalStopsPermutation(a[1..], rest);
      TotalStopsRemove(b, i);
      assert TotalStops(a) == a[0].nStops + TotalStops(a[1..]);
    }
  }

  lemma {:induction false} SummariesStops(events: seq<PitEvent>, keyOf: PitEvent -> GroupKey, ks: seq<GroupKey>)
    requires forall i, j :: 0 <= i < j < |ks| ==> ks[i] != ks[j]
    ensures TotalStops(Summaries(events, keyOf, ks)) == CountKeysIn(events, keyOf, ks)
  {
    if |ks| == 0 {
      CountKeysNone(events, keyOf);
    } else {
      SummariesStops(events, keyOf, ks[1..]);
      MembersCount(events, keyOf, ks[0]);
      CountKeysSplit(events, keyOf, ks);
    }
  }

  lemma {:induction false} CountKeysNone(events: seq<PitEvent>, keyOf: PitEvent -> GroupKey)
    ensures CountKeysIn(events, keyOf, []) == 0
  {
    if |events| > 0 {
      CountKeysNone(events[1..], keyOf);
    }
  }

  /** Every event is counted in exactly one row: the stop counts add up to
      the number of events. */
  lemma AggregateCountsEveryEvent(events: seq<PitEvent>, keyOf: PitEvent -> GroupKey)
    ensures TotalStops(Aggregate(events, keyOf)) == |events|
  {
    var ks := KeysOf(events, keyOf);
    var unsorted := Summaries(events, keyOf, ks);
    RowLeIsTotalPreorder();
    assert Aggregate(events, keyOf) == SortBy(unsorted, RowLe);
    TotalStopsPermutation(unsorted, Aggregate(events, keyOf));
    SummariesStops(events, keyOf, ks);
    CountKeysAll(events, keyOf, ks);
  }

  /** The number of events of one team in one season. */
  function TeamStops(events: seq<PitEvent>, season: int, team: string): nat {
    if |events| == 0 then 0
    else (if events[0].season == season && events[0].team == team then 1 else 0)
         + TeamStops(events[1..], season, team)
  }

  /** The number of events of one driver driving for one team in one season. */
  function DriverStops(events: seq<PitEvent>, season: int, driver: string, team: string): nat {
    if |events| == 0 then 0
    else (if events[0].season == season && events[0].driver == driver && events[0].team == team then 1 else 0)
         + DriverStops(events[1..], season, driver, team)
  }

  lemma TeamStopsCount(events: seq<PitEvent>, k: GroupKey)
    requires |k.names| == 1
    ensures |Members(events, TeamKey, k)| == TeamStops(events, k.season, k.names[0])
  {
    assert k == GroupKey(k.season, [k.names[0]]);
    MembersCount(events, TeamKey, k);
    TeamCountsAgree(events, k.season, k.names[0]);
  }

  lemma {:induction false} TeamCountsAgree(events: seq<PitEvent>, season: int, team: string)
    ensures CountKeysIn(events, TeamKey, [GroupKey(season, [team])]) == TeamStops(events, season, team)
  {
    if |events| > 0 {
      TeamCountsAgree(events[1..], season, team);
    }
  }

  lemma DriverStopsCount(events: seq<PitEvent>, k: GroupKey)
    requires |k.names| == 2
    ensures |Members(events, DriverKey, k)| == DriverStops(events, k.season, k.names[0], k.names[1])
  {
    assert k == GroupKey(k.season, [k.names[0], k.names[1]]);
    MembersCount(events, DriverKey, k);
    DriverCountsAgree(events, k.season, k.names[0], k.names[1]);
  }

  lemma {:induction false} DriverCountsAgree(events: seq<PitEvent>, season: int, driver: string, team: string)
    ensures CountKeysIn(events, DriverKey, [GroupKey(season, [driver, team])]) == DriverStops(events, season, driver, team)
  {
    if |events| > 0 {
      DriverCountsAgree(events[1..], season, driver, team);
    }
  }

  /** `build_team_metrics`: one row per (season, team) that has an event,
      counting that team's events of that season. */
  function TeamMetrics(events: seq<PitEvent>): (rows: seq<MetricsRow>)
    ensures SortedBy(rows, RowLe) && DistinctUnder(rows, RowKey)
    ensures RowKeys(rows) == set e | e in events :: GroupKey(e.season, [e.team])
    ensures forall j :: 0 <= j < |rows| ==>
              |rows[j].key.names| == 1 && rows[j].nStops == TeamStops(events, rows[j].key.season, rows[j].key.names[0])
  {
    var rows := Aggregate(events, TeamKey);
    TeamKeysAre(events);
    TeamRowsCount(events, rows);
    rows
  }

  lemma TeamKeysAre(events: seq<PitEvent>)
    ensures EventKeys(events, TeamKey) == set e | e in events :: GroupKey(e.season, [e.team])
  {
    forall k | k in set e | e in events :: GroupKey(e.season, [e.team])
      ensures k in EventKeys(events, TeamKey)
    {
      var e :| e in events && k == GroupKey(e.season, [e.team]);
      var i :| 0 <= i < |events| && events[i] == e;
      assert TeamKey(events[i]) == k;
    }
  }

  lemma TeamRowsCount(events: seq<PitEvent>, rows: seq<MetricsRow>)
    requires RowKeys(rows) == EventKeys(events, TeamKey)
    requires forall j :: 0 <= j < |rows| ==> rows[j].nStops == |Members(events, TeamKey, rows[j].key)|
    ensures forall j :: 0 <= j < |rows| ==>
              |rows[j].key.names| == 1 && rows[j].nStops == TeamStops(events, rows[j].key.season, rows[j].key.names[0])
  {
    forall j | 0 <= j < |rows|
      ensures |rows[j].key.names| == 1 && rows[j].nStops == TeamStops(events, rows[j].key.season, rows[j].key.names[0])
    {
      assert rows[j].key in RowKeys(rows);
      TeamStopsCount(events, rows[j].key);
    }
  }

  /** `build_driver_metrics`: one row per (season, driver, team) that has an
      event, counting that driver's events for that team in that season. */
  function DriverMetrics(events: seq<PitEvent>): (rows: seq<MetricsRow>)
    ensures SortedBy(rows, RowLe) && DistinctUnder(rows, RowKey)
    ensures RowKeys(rows) == set e | e in events :: GroupKey(e.season, [e.driver, e.team])
    ensures forall j :: 0 <= j < |rows| ==>
              |rows[j].key.names| == 2
              && rows[j].nStops == DriverStops(events, rows[j].key.season, rows[j].key.names[0], rows[j].key.names[1])
  {
    var rows := Aggregate(events, DriverKey);
    DriverKeysAre(events);
    DriverRowsCount(events, rows);
    rows
  }

  lemma DriverKeysAre(events: seq<PitEvent>)
    ensures EventKeys(events, DriverKey) == set e | e in events :: GroupKey(e.season, [e.driver, e.team])
  {
    forall k | k in set e | e in events :: GroupKey(e.season, [e.driver, e.team])
      ensures k in EventKeys(events, DriverKey)
    {
      var e :| e in events && k == GroupKey(e.season, [e.driver, e.team]);
      var i :| 0 <= i < |events| && events[i] == e;
      assert DriverKey(events[i]) == k;
    }
  }

  lemma DriverRowsCount(events: seq<PitEvent>, rows: seq<MetricsRow>)
    requires RowKeys(rows) == EventKeys(events, DriverKey)
    requires forall j :: 0 <= j < |rows| ==> rows[j].nStops == |Members(events, DriverKey, rows[j].key)|
    ensures forall j :: 0 <= j < |rows| ==>
              |rows[j].key.names| == 2
              && rows[j].nStops == DriverStops(events, rows[j].key.season, rows[j].key.names[0], rows[j].key.names[1])
  {
    forall j | 0 <= j < |rows|
      ensures |rows[j].key.names| == 2
              && rows[j].nStops == DriverStops(events, rows[j].key.season, rows[j].key.names[0], rows[j].key.names[1])
    {
      assert rows[j].key in RowKeys(rows);
      DriverStopsCount(events, rows[j].key);
    }
  }
}
