# Pit-stop leaderboard: a Dafny model of pairing and aggregation

This project models the two pure stages of the pit-stop leaderboard pipeline
in `src/pitstop_leaderboard.py` and proves properties of them.

- **Pairing** (`pit_events_for_race`). The laps of one race are sorted by
  (DriverNumber, LapNumber). Each lap receives the pit-out time of the same
  driver's next row, which is what a per-driver `shift(-1)` does. Every lap
  with a pit-in time then becomes one event row. The row's duration is the
  next pit-out time minus the pit-in time, and the row is stamped with the
  season and race name.
- **Aggregation** (`build_team_metrics` and `build_driver_metrics`). Both are
  one generic group-by over a key function: (season, Team) for teams and
  (season, Driver, Team) for drivers. Each group reports:
  - its stop count;
  - the mean, median, 90th and 95th percentiles and population variance of
    its present durations;
  - the consistency score, p95 − median.

  The rows are then ordered by season and average duration.

The model is built from immutable datatypes over `seq` and pure functions.
Times are exact `real` seconds. A missing value is `Option.None`, standing
for pandas' NaN/NaT. The statistics follow pandas in exact arithmetic:
- quantiles use linear interpolation at position q·(n−1) of the sorted sample;
- the median is the middle element, or the mean of the two middle elements;
- `std(ddof=0)` is kept as its square, the population variance.

Modules, one per file:

| file | module | contents |
|---|---|---|
| wrappers.dfy | Wrappers | `Option` |
| sequences.dfy | Sequences | stable insertion sort over a total preorder, filtering, permutation facts |
| ordering.dfy | Ordering | Python's order on strings and on tuples of strings |
| pairing.dfy | Pairing | laps, pit events, the pairing stage and its reference definition |
| stats.dfy | Stats | mean, quantile, median, population variance |
| metrics.dfy | Metrics | group keys, per-group summary, group-by, output order, team and driver tables |
| scenarios.dfy | Scenarios | worked examples |

## Behaviour of the code worth knowing

- **Unresolved pit-ins are kept.** A pit-in lap whose next row has no pit-out
  time, or that is the driver's last row, still becomes an event row, with a
  NaN duration (src/pitstop_leaderboard.py:22-25). The model emits these events
  with `duration == None`. `Summarize` counts them in `nStops` but leaves them
  out of every statistic, which is what pandas `size()` and the NaN-skipping
  reductions do (`SummarizeSkipsMissing`).
- **Duplicate laps are not removed.** Nothing de-duplicates two rows with the
  same (DriverNumber, LapNumber). The model sorts stably (`SortByIsStable`)
  and pairs each row with the next row of the same driver, duplicates
  included.
  - `PitEventsPerPitInLap` holds for every input: each pit-in lap, duplicate
    or not, yields its own event row.
  - `PitEventsMatchNextLap` assumes distinct (DriverNumber, LapNumber) keys.
  - `EventsComeFromPitInLaps` holds for every input. Its pit-out lap has a lap
    number at least as large as the pit-in lap's, and may be equal.
- **The aggregator sorts.** Both tables are sorted by (season, avg_s) before
  they are returned (src/pitstop_leaderboard.py:64 and 78), so the order is
  part of what the model states.

## Model

| member | source | states |
|---|---|---|
| Pairing.LapKeyLeIsTotalPreorder | src/pitstop_leaderboard.py:21 | ordering laps by DriverNumber (compared as a string) and then LapNumber is total and transitive, so the sort is well defined |
| Pairing.SortLaps | src/pitstop_leaderboard.py:21 | the sorted frame is ordered by (DriverNumber, LapNumber) and is a permutation of the input laps |
| Sequences.SortByIsStable | src/pitstop_leaderboard.py:21 | the sort keeps the rows it ranks equal in their input order, so two laps with the same DriverNumber and LapNumber stay in the order they were given, as pandas' multi-column `sort_values` does |
| Pairing.NextInGroup | src/pitstop_leaderboard.py:22 | the row that `shift(-1)` hands down belongs to the same driver and comes later in the frame; no row of that driver lies in between; it is missing exactly when no later row of that driver exists |
| Pairing.SortedSameDriver | src/pitstop_leaderboard.py:21-22 | on the sorted frame a later row of the same driver has a lap number at least as large, and strictly larger when keys are distinct |
| Pairing.Elapsed | src/pitstop_leaderboard.py:25 | the difference is present iff both times are present; when present, pit-in plus duration equals pit-out |
| Pairing.PitEventsForRace | src/pitstop_leaderboard.py:20-35 | exactly as many event rows as laps with a pit-in time; every row carries the caller's season and race name |
| Pairing.PitEventsPerPitInLap | src/pitstop_leaderboard.py:20-29 | for every input, duplicate laps included, each (driver, car number, team, lap) has exactly as many event rows as pit-in laps with that identity, so no lap with a pit-in is dropped, merged or counted twice |
| Pairing.EventsComeFromPitInLaps | src/pitstop_leaderboard.py:22-29 | for any input, each event comes from a pit-in lap of the input with the same driver, driver number, team and lap number; a present duration is the pit-out of a lap of the same driver at or after that lap, minus the pit-in |
| Pairing.EventAtIsExpected | src/pitstop_leaderboard.py:22-25 | with distinct keys, the event for a sorted row equals the reference event, which is defined without sorting from the driver's next-higher lap |
| Pairing.PitEventsMatchNextLap | src/pitstop_leaderboard.py:20-35 | with distinct keys, every emitted row is the reference event of some pit-in lap, and every pit-in lap's reference event is emitted; this includes the missing duration when there is no next lap or it has no pit-out |
| Stats.SortReals | src/pitstop_leaderboard.py:58-60 | the sample that median and quantile interpolate over is sorted and is a permutation of the durations |
| Stats.Mean | src/pitstop_leaderboard.py:57 | the mean lies between the smallest and largest duration |
| Stats.AverageAbove | src/pitstop_leaderboard.py:57 | any lower bound of all durations bounds the mean from below |
| Stats.AverageBelow | src/pitstop_leaderboard.py:57 | any upper bound of all durations bounds the mean from above |
| Stats.Quantile | src/pitstop_leaderboard.py:59-60 | a linear-interpolation quantile lies between the minimum and maximum |
| Stats.QuantileMonotone | src/pitstop_leaderboard.py:59-60 | a larger q never gives a smaller quantile |
| Stats.QuantileEndpoints | src/pitstop_leaderboard.py:59-60 | the 0-quantile is the minimum and the 1-quantile the maximum |
| Stats.InterpolateMonotone | src/pitstop_leaderboard.py:59-60 | on a sorted sample, interpolation at a later fractional position never gives a smaller value |
| Stats.MedianIsHalfQuantile | src/pitstop_leaderboard.py:58 | pandas' median (middle element, or mean of the two middle elements) equals the 0.5 quantile |
| Stats.PopVariance | src/pitstop_leaderboard.py:61 | the population variance is non-negative |
| Stats.PopVarianceZeroIffConstant | src/pitstop_leaderboard.py:61 | the population variance is zero iff all durations are equal |
| Metrics.PresentDurations | src/pitstop_leaderboard.py:54-61 | the statistics' sample is, position by position, the durations of the group's events that have one, in event order |
| Metrics.PresentDurationsCount | src/pitstop_leaderboard.py:57-61 | each value occurs in the sample exactly as often as events with that duration occur in the group, so repeated durations weigh in the statistics as often as they occur |
| Metrics.Summarize | src/pitstop_leaderboard.py:55-63 | `nStops` counts every member, including those with missing durations; with no present duration every statistic is missing; otherwise avg is the mean, median the pandas median, p90 and p95 the linear-interpolation 0.9 and 0.95 quantiles, and popVariance the population variance of the present durations, with consistency = p95 − median; hence min ≤ avg ≤ max, median = 0.5 quantile, min ≤ median ≤ p90 ≤ p95 ≤ max, consistency ≥ 0, variance ≥ 0 and 0 iff all durations are equal |
| Metrics.SummarizeSkipsMissing | src/pitstop_leaderboard.py:55-62 | a group's row equals the row of its timed members alone, except for the stop count: events without a duration only add to `nStops` |
| Metrics.RowLeIsTotalPreorder | src/pitstop_leaderboard.py:64 | the output order (season, then average with NaN last, then group key) is total and transitive |
| Metrics.RowLeSeparatesKeys | src/pitstop_leaderboard.py:64 | rows the output order cannot tell apart have the same group key |
| Metrics.KeysOf | src/pitstop_leaderboard.py:54 | the group keys are distinct and are exactly the keys the events carry |
| Metrics.Members | src/pitstop_leaderboard.py:54 | a group holds exactly the events carrying its key |
| Metrics.MembersMultiplicity | src/pitstop_leaderboard.py:54 | a group holds each event with its key as often as the input does, and no other event |
| Metrics.Aggregate | src/pitstop_leaderboard.py:53-65 | the rows are sorted by (season, avg, key) and have distinct keys; their keys are exactly the events' keys; each row's `nStops` is the size of its group and at least 1 |
| Metrics.AggregateRowsSummarizeGroups | src/pitstop_leaderboard.py:55-62 | every output row is the summary of the events with its key |
| Metrics.AggregateCountsEveryEvent | src/pitstop_leaderboard.py:56 | the stop counts of all rows add up to the number of events, so each event is counted in exactly one group |
| Metrics.SortedRowsUnique | src/pitstop_leaderboard.py:64 | any two orderings of the same distinct-key rows by the output order are identical, so the output does not depend on the order in which the groups are built |
| Metrics.TeamMetrics | src/pitstop_leaderboard.py:53-65 | one row per (season, team) that occurs in the events, in output order; `nStops` is the number of that team's events in that season |
| Metrics.DriverMetrics | src/pitstop_leaderboard.py:67-79 | one row per (season, driver, team) that occurs in the events, in output order; `nStops` is the number of that driver's events for that team in that season |
| Metrics.TeamStopsCount | src/pitstop_leaderboard.py:54-56 | the size of a team group equals an independent count of the events with that season and team |
| Metrics.DriverStopsCount | src/pitstop_leaderboard.py:68-70 | the size of a driver group equals an independent count of the events with that season, driver and team |
| Scenarios.PairedStop | src/pitstop_leaderboard.py:20-35 | a pit-in at 100.0 s on lap 20 and a pit-out at 123.4 s on lap 21, given in reverse order, yield one event on lap 20 lasting 23.4 s |
| Scenarios.UnresolvedStopKept | src/pitstop_leaderboard.py:22-25 | a pit-in on the driver's last lap yields an event with a missing duration |
| Scenarios.OtherDriverNotPaired | src/pitstop_leaderboard.py:22 | the next row's pit-out is not used when that row belongs to another driver |
| Scenarios.TwoSampleStatistics | src/pitstop_leaderboard.py:57-61 | for durations 22.0 and 24.0: mean and median 23.0, p90 23.8, p95 23.9, variance 1.0 |
| Scenarios.TwoTimedStops | src/pitstop_leaderboard.py:55-63 | a group of two timed stops and one untimed stop reports 3 stops with the statistics of the two timed ones and consistency 0.9 |

## Left out

- Data fetching is not modelled: `enable_cache`, `list_event_names` and the session fetch and load (src/pitstop_leaderboard.py:7-18) are remote I/O through a foreign library. The lap list is a parameter of `PitEventsForRace` instead.
- The `run` batch driver (src/pitstop_leaderboard.py:81-115) is not modelled. It consists of directory creation, CSV writing, printing, and skipping a race whose fetch raises. It also stops before writing anything when no race produced events (lines 103-105). The model takes the concatenated events as the input of `TeamMetrics` and `DriverMetrics`.
- The command-line entry point (src/pitstop_leaderboard.py:117-128) is not modelled; it only parses arguments.
- The commented-out merge-based pairing with its 1.5 s / 25 s plausibility filter (src/pitstop_leaderboard.py:37-51) sits after the `return`. It is dead code and is not modelled.
- The square root in `std_s` is not modelled. Floating-point square root is not exact, so the model keeps its square, the population variance.
- Timestamp arithmetic and `.dt.total_seconds()` are not modelled. Times are already seconds as exact reals, so there is no floating-point rounding anywhere.
- Missing group keys and lap numbers are not modelled. Driver, team and season are always present here, so `groupby`'s dropping of NaN keys never arises. A NaN lap number, which pandas would sort last, cannot occur either.
- `src/app.py` is not modelled: it is a display layer that reads the CSV files, filters and plots them.
- Metrics.SortedRowsUnique: pandas orders the rows in two steps. `groupby` emits them in key order, then a stable `sort_values` sorts by (season, avg_s). The model sorts once by the combined order `RowLe` and does not model the two steps separately. The argument that they agree is that the stable second sort leaves tied rows in key order, which is `RowLe`. `SortedRowsUnique` then makes any `RowLe`-sorted arrangement the same one.
