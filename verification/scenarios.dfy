/**
  Worked examples of the pipeline on small inputs: a stop paired with the
  next lap's pit-out, a pit-in that stays unresolved, and the statistics of
  a two-stop team.
 */
module Scenarios {
  import opened Wrappers
  import opened Ordering
  import opened Pairing
  import opened Stats
  import opened Metrics

  const Race := "Bahrain Grand Prix"

  function VerLap(n: int, pitIn: Option<real>, pitOut: Option<real>): Lap {
    Lap("VER", "1", "Red Bull Racing", n, pitIn, pitOut)
  }

  /** Lap 20 enters the pits at 100.0 s and lap 21 leaves them at 123.4 s:
      one event on lap 20 lasting 23.4 s, whatever order the laps came in. */
  lemma PairedStop()
    ensures PitEventsForRace(2024, Race, [VerLap(21, None, Some(123.4)), VerLap(20, Some(100.0), None)])
            == [PitEvent(2024, Race, "VER", "1", "Red Bull Racing", 20, Some(23.4))]
  {
    var s := [VerLap(20, Some(100.0), None), VerLap(21, None, Some(123.4))];
    LapsSwapped();
    assert NextInGroup(s, 0, 1) == Some(1);
  }

  lemma LapsSwapped()
    ensures SortLaps([VerLap(21, None, Some(123.4)), VerLap(20, Some(100.0), None)])
            == [VerLap(20, Some(100.0), None), VerLap(21, None, Some(123.4))]
  {
  }

  /** A pit-in on the driver's last lap has no next pit-out: the event is
      still emitted, with the duration missing. */
  lemma UnresolvedStopKept()
    ensures PitEventsForRace(2024, Race, [VerLap(57, Some(5400.0), None)])
            == [PitEvent(2024, Race, "VER", "1", "Red Bull Racing", 57, None)]
  {
    var s := [VerLap(57, Some(5400.0), None)];
    assert SortLaps(s) == s;
  }

  /** Another driver's pit-out on the following row is never borrowed. */
  lemma OtherDriverNotPaired()
    ensures PitEventsForRace(2024, Race,
              [VerLap(20, Some(100.0), None), Lap("HAM", "44", "Mercedes", 21, None, Some(123.4))])
            == [PitEvent(2024, Race, "VER", "1", "Red Bull Racing", 20, None)]
  {
    var ham := Lap("HAM", "44", "Mercedes", 21, None, Some(123.4));
    var s := [VerLap(20, Some(100.0), None), ham];
    assert StrLt("1", "44");
    assert SortLaps(s) == s;
    assert NextInGroup(s, 0, 1) == None;
  }

  function TeamStop(lap: int, d: Option<real>): PitEvent {
    PitEvent(2024, Race, "VER", "1", "Red Bull Racing", lap, d)
  }

  /** The statistics of the sample [22.0, 24.0]. */
  lemma TwoSampleStatistics()
    ensures Mean([22.0, 24.0]) == 23.0 && Median([22.0, 24.0]) == 23.0
    ensures Quantile([22.0, 24.0], 0.9) == 23.8 && Quantile([22.0, 24.0], 0.95) == 23.9
    ensures PopVariance([22.0, 24.0]) == 1.0
  {
    var xs := [22.0, 24.0];
    SortedPair();
    assert Sum(xs) == 46.0;
    assert Position(2, 0.9) == 0.9 && 0.9.Floor == 0;
    assert Position(2, 0.95) == 0.95 && 0.95.Floor == 0;
    assert SumSqDev(xs, 23.0) == 2.0;
  }

  lemma SortedPair()
    ensures SortReals([22.0, 24.0]) == [22.0, 24.0]
  {
  }

  /** Two timed stops of 22.0 s and 24.0 s and one untimed stop: three stops,
      mean and median 23.0, p90 23.8, p95 23.9, variance 1.0 (std 1.0) and
      consistency 0.9. */
  lemma TwoTimedStops()
    ensures Summarize(GroupKey(2024, ["Red Bull Racing"]),
                      [TeamStop(18, Some(22.0)), TeamStop(40, None), TeamStop(41, Some(24.0))])
            == MetricsRow(GroupKey(2024, ["Red Bull Racing"]), 3, Some(23.0), Some(23.0),
                          Some(23.8), Some(23.9), Some(1.0), Some(0.9))
  {
    var members := [TeamStop(18, Some(22.0)), TeamStop(40, None), TeamStop(41, Some(24.0))];
    TimedOfThree();
    TwoSampleStatistics();
    var xs := [22.0, 24.0];
    assert Summarize(GroupKey(2024, ["Red Bull Racing"]), members)
           == MetricsRow(GroupKey(2024, ["Red Bull Racing"]), 3, Some(Mean(xs)), Some(Median(xs)),
                         Some(Quantile(xs, 0.9)), Some(Quantile(xs, 0.95)), Some(PopVariance(xs)),
                         Some(Quantile(xs, 0.95) - Median(xs)));
  }

  lemma TimedOfThree()
    ensures PresentDurations([TeamStop(18, Some(22.0)), TeamStop(40, None), TeamStop(41, Some(24.0))])
            == [22.0, 24.0]
  {
    var members := [TeamStop(18, Some(22.0)), TeamStop(40, None), TeamStop(41, Some(24.0))];
    assert members[1..][1..] == [TeamStop(41, Some(24.0))];
  }
}
