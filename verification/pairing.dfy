/**
  Pit-event pairing for one race: the laps are sorted by (DriverNumber,
  LapNumber), every lap is given the pit-out time of the same driver's next
  row (pandas' per-group `shift(-1)`), and every lap with a pit-in time
  becomes one event row whose duration is that next pit-out minus the pit-in.
  Times are seconds as exact reals; a missing time is `None`.
 */
module Pairing {
  import opened Wrappers
  import opened Sequences
  import opened Ordering

  /** One timing row of a race session. */
  datatype Lap = Lap(
    driver: string,           // three-letter abbreviation ("Driver")
    driverNumber: string,     // "DriverNumber", a string in the timing feed
    team: string,
    lapNumber: int,
    pitInTime: Option<real>,  // the car entered the pits at the end of this lap
    pitOutTime: Option<real>  // the car left the pits at the start of this lap
  )

  /** One output row of the pairing stage. */
  datatype PitEvent = PitEvent(
    season: int,
    raceName: string,
    driver: string,
    driverNumber: string,
    team: string,
    lapIn: int,
    duration: Option<real>
  )

  /** The sort key of a lap. */
  function LapKey(l: Lap): (string, int) {
    (l.driverNumber, l.lapNumber)
  }

  /** Ascending (DriverNumber, LapNumber), driver numbers compared as strings. */
  predicate LapKeyLe(a: Lap, b: Lap) {
    StrLt(a.driverNumber, b.driverNumber)
    || (a.driverNumber == b.driverNumber && a.lapNumber <= b.lapNumber)
  }

  lemma LapKeyLeIsTotalPreorder()
    ensures TotalPreorder(LapKeyLe)
  {
    forall a: Lap, b: Lap
      ensures LapKeyLe(a, b) || LapKeyLe(b, a)
    {
      StrLtTrichotomy(a.driverNumber, b.driverNumber);
    }
    forall a: Lap, b: Lap, c: Lap | LapKeyLe(a, b) && LapKeyLe(b, c)
      ensures LapKeyLe(a, c)
    {
      if StrLt(a.driverNumber, b.driverNumber) && StrLt(b.driverNumber, c.driverNumber) {
        StrLtTransitive(a.driverNumber, b.driverNumber, c.driverNumber);
      }
    }
  }

  /** `laps.sort_values(["DriverNumber", "LapNumber"])`. */
  function SortLaps(laps: seq<Lap>): (r: seq<Lap>)
    ensures SortedBy(r, LapKeyLe)
    ensures multiset(r) == multiset(laps)
  {
    LapKeyLeIsTotalPreorder();
    SortBy(laps, LapKeyLe)
  }

  /** The first row at or after `j` that belongs to the same driver as row
      `i`: the row whose value a per-driver `shift(-1)` hands to row `i`. */
  function NextInGroup(s: seq<Lap>, i: nat, j: nat): (r: Option<nat>)
    requires i < j <= |s|
    decreases |s| - j
    ensures r.Some? ==> j <= r.value < |s| && s[r.value].driverNumber == s[i].driverNumber
    ensures forall k :: j <= k < |s| && (r.None? || k < r.value) ==>
              s[k].driverNumber != s[i].driverNumber
  {
    if j == |s| then None
    else if s[j].driverNumber == s[i].driverNumber then Some(j)
    else NextInGroup(s, i, j + 1)
  }

  /** The "NextPitOutTime" column of row `i`. */
  function NextPitOut(s: seq<Lap>, i: nat): Option<real>
    requires i < |s|
  {
    match NextInGroup(s, i, i + 1)
    case None => None
    case Some(j) => s[j].pitOutTime
  }

  /** Timestamp difference with pandas' missing-value propagation. */
  function Elapsed(pitOut: Option<real>, pitIn: Option<real>): (r: Option<real>)
    ensures r.Some? <==> pitOut.Some? && pitIn.Some?
    ensures r.Some? ==> pitIn.value + r.value == pitOut.value
  {
    if pitOut.Some? && pitIn.Some? then Some(pitOut.value - pitIn.value) else None
  }

  /** The event row produced for row `i` of the sorted frame. */
  function EventAt(season: int, raceName: string, s: seq<Lap>, i: nat): PitEvent
    requires i < |s|
  {
    PitEvent(season, raceName, s[i].driver, s[i].driverNumber, s[i].team,
             s[i].lapNumber, Elapsed(NextPitOut(s, i), s[i].pitInTime))
  }

  predicate HasPitIn(l: Lap) {
    l.pitInTime.Some?
  }

  /** The event rows of rows `i..` of the sorted frame, in frame order. */
  function EventsFrom(season: int, raceName: string, s: seq<Lap>, i: nat): (r: seq<PitEvent>)
    requires i <= |s|
    decreases |s| - i
    ensures |r| == |Filter(s[i..], HasPitIn)|
    ensures forall e :: e in r <==>
              exists k :: i <= k < |s| && HasPitIn(s[k]) && e == EventAt(season, raceName, s, k)
  {
    if i == |s| then []
    else
      assert s[i..] == [s[i]] + s[i + 1..];
      var rest := EventsFrom(season, raceName, s, i + 1);
      if HasPitIn(s[i]) then [EventAt(season, raceName, s, i)] + rest else rest
  }

  /** `pit_events_for_race` after the session has been loaded: one row per lap
      that has a pit-in time, stamped with the season and race name. */
  function PitEventsForRace(season: int, raceName: string, laps: seq<Lap>): (r: seq<PitEvent>)
    ensures |r| == |Filter(laps, HasPitIn)|
    ensures forall e :: e in r ==> e.season == season && e.raceName == raceName
  {
    var s := SortLaps(laps);
    FilterPermutation(s, laps, HasPitIn);
    assert s[0..] == s;
    EventsFrom(season, raceName, s, 0)
  }

  /** Who stopped and on which lap: the columns an event row copies from its
      pit-in lap. */
  datatype StopId = StopId(driver: string, driverNumber: string, team: string, lap: int)

  /** The laps with a pit-in time whose identity is `x`. */
  function PitInLapIs(x: StopId): Lap -> bool {
    (l: Lap) => HasPitIn(l) && StopId(l.driver, l.driverNumber, l.team, l.lapNumber) == x
  }

  /** The event rows whose identity is `x`. */
  function EventIs(x: StopId): PitEvent -> bool {
    (e: PitEvent) => StopId(e.driver, e.driverNumber, e.team, e.lapIn) == x
  }

  lemma {:induction false} EventsFromCount(season: int, raceName: string, s: seq<Lap>, i: nat, x: StopId)
    requires i <= |s|
    decreases |s| - i
    ensures |Filter(EventsFrom(season, raceName, s, i), EventIs(x))| == |Filter(s[i..], PitInLapIs(x))|
  {
    if i < |s| {
      var rest := EventsFrom(season, raceName, s, i + 1);
      EventsFromCount(season, raceName, s, i + 1, x);
      assert s[i..] == [s[i]] + s[i + 1..];
      FilterCons(s[i], s[i + 1..], PitInLapIs(x));
      if HasPitIn(s[i]) {
        assert EventsFrom(season, raceName, s, i) == [EventAt(season, raceName, s, i)] + rest;
        FilterCons(EventAt(season, raceName, s, i), rest, EventIs(x));
      } else {
        assert EventsFrom(season, raceName, s, i) == rest;
      }
    }
  }

  /** Whatever the input, duplicates included, each lap with a pit-in time
      yields its own event row: for every driver, car number, team and lap,
      there are exactly as many event rows with that identity as there are
      pit-in laps with it. */
  lemma PitEventsPerPitInLap(season: int, raceName: string, laps: seq<Lap>, x: StopId)
    ensures |Filter(PitEventsForRace(season, raceName, laps), EventIs(x))| == |Filter(laps, PitInLapIs(x))|
  {
    var s := SortLaps(laps);
    assert PitEventsForRace(season, raceName, laps) == EventsFrom(season, raceName, s, 0);
    EventsFromCount(season, raceName, s, 0, x);
    assert s[0..] == s;
    FilterPermutation(s, laps, PitInLapIs(x));
  }

  /** On the sorted frame, a later row of the same driver has a lap number at
      least as large, and strictly larger when (DriverNumber, LapNumber) keys
      are distinct. */
  lemma SortedSameDriver(s: seq<Lap>, p: nat, q: nat)
    requires SortedBy(s, LapKeyLe)
    requires p < |s| && q < |s| && s[p].driverNumber == s[q].driverNumber
    ensures p < q ==> s[p].lapNumber <= s[q].lapNumber
    ensures p < q && DistinctUnder(s, LapKey) ==> s[p].lapNumber < s[q].lapNumber
  {
    if p < q {
      assert LapKeyLe(s[p], s[q]);
    }
  }

  /** Whatever the input, every event row comes from a lap of the input that
      has a pit-in time and carries that lap's driver, team and lap number;
      a present duration is the pit-out time of a lap of the SAME driver with
      a lap number at least as large, minus the pit-in time. */
  lemma EventsComeFromPitInLaps(season: int, raceName: string, laps: seq<Lap>)
    ensures forall e :: e in PitEventsForRace(season, raceName, laps) ==>
              exists l :: l in laps && HasPitIn(l)
                && e.driver == l.driver && e.driverNumber == l.driverNumber
                && e.team == l.team && e.lapIn == l.lapNumber
                && (e.duration.Some? ==>
                      exists m :: m in laps && m.driverNumber == l.driverNumber
                        && m.lapNumber >= l.lapNumber
                        && e.duration == Elapsed(m.pitOutTime, l.pitInTime))
  {
    var s := SortLaps(laps);
    assert s[0..] == s;
    forall e | e in PitEventsForRace(season, raceName, laps)
      ensures exists l :: l in laps && HasPitIn(l)
                && e.driver == l.driver && e.driverNumber == l.driverNumber
                && e.team == l.team && e.lapIn == l.lapNumber
                && (e.duration.Some? ==>
                      exists m :: m in laps && m.driverNumber == l.driverNumber
                        && m.lapNumber >= l.lapNumber
                        && e.duration == Elapsed(m.pitOutTime, l.pitInTime))
    {
      var k :| 0 <= k < |s| && HasPitIn(s[k]) && e == EventAt(season, raceName, s, k);
      assert s[k] in multiset(laps);
      if e.duration.Some? {
        var j := NextInGroup(s, k, k + 1).value;
        SortedSameDriver(s, k, j);
        assert s[j] in multiset(laps);
      }
    }
  }

  /** `m` is the lap of `l`'s driver with the smallest lap number above `l`'s. */
  ghost predicate IsNextLap(laps: seq<Lap>, l: Lap, m: Lap) {
    && m in laps
    && m.driverNumber == l.driverNumber
    && m.lapNumber > l.lapNumber
    && forall k :: k in laps && k.driverNumber == l.driverNumber && k.lapNumber > l.lapNumber
         ==> m.lapNumber <= k.lapNumber
  }

  /** Reference duration of a stop beginning on lap `l`, defined without any
      sorting: pit-out of the driver's next-higher lap minus pit-in of `l`,
      missing when there is no such lap or it has no pit-out time. */
  ghost function ExpectedDuration(laps: seq<Lap>, l: Lap): Option<real> {
    if exists m :: IsNextLap(laps, l, m) then
      var m :| IsNextLap(laps, l, m);
      Elapsed(m.pitOutTime, l.pitInTime)
    else None
  }

  /** Reference event row for a pit-in lap `l`. */
  ghost function ExpectedEvent(season: int, raceName: string, laps: seq<Lap>, l: Lap): PitEvent {
    PitEvent(season, raceName, l.driver, l.driverNumber, l.team, l.lapNumber,
             ExpectedDuration(laps, l))
  }

  /** Row `i` of the sorted frame gets exactly the reference event. */
  lemma EventAtIsExpected(season: int, raceName: string, laps: seq<Lap>, s: seq<Lap>, i: nat)
    requires multiset(s) == multiset(laps)
    requires SortedBy(s, LapKeyLe) && DistinctUnder(s, LapKey)
    requires i < |s|
    ensures EventAt(season, raceName, s, i) == ExpectedEvent(season, raceName, laps, s[i])
  {
    var l := s[i];
    match NextInGroup(s, i, i + 1)
    case Some(j) =>
      SortedSameDriver(s, i, j);
      assert s[j] in multiset(laps);
      forall k | k in laps && k.driverNumber == l.driverNumber && k.lapNumber > l.lapNumber
        ensures s[j].lapNumber <= k.lapNumber
      {
        assert k in multiset(s);
        var p :| 0 <= p < |s| && s[p] == k;
        SortedSameDriver(s, p, i);
        SortedSameDriver(s, j, p);
      }
      assert IsNextLap(laps, l, s[j]);
      forall m | IsNextLap(laps, l, m)
        ensures m == s[j]
      {
        assert m in multiset(s);
        var p :| 0 <= p < |s| && s[p] == m;
        assert LapKey(s[p]) == LapKey(s[j]);
      }
    case None =>
      forall m | m in laps && m.driverNumber == l.driverNumber
        ensures m.lapNumber <= l.lapNumber
      {
        assert m in multiset(s);
        var p :| 0 <= p < |s| && s[p] == m;
        SortedSameDriver(s, p, i);
      }
  }

  /** With distinct (DriverNumber, LapNumber) keys the pairing emits exactly
      the reference events: each emitted row is the reference event of some
      pit-in lap, each pit-in lap's reference event is emitted, and the row
      count equals the number of pit-in laps. */
  lemma PitEventsMatchNextLap(season: int, raceName: string, laps: seq<Lap>)
    requires DistinctUnder(laps, LapKey)
    ensures forall e :: e in PitEventsForRace(season, raceName, laps) ==>
              exists l :: l in laps && HasPitIn(l) && e == ExpectedEvent(season, raceName, laps, l)
    ensures forall l :: l in laps && HasPitIn(l) ==>
              ExpectedEvent(season, raceName, laps, l) in PitEventsForRace(season, raceName, laps)
  {
    var s := SortLaps(laps);
    assert s[0..] == s;
    DistinctUnderPermutation(laps, s, LapKey);
    forall e | e in PitEventsForRace(season, raceName, laps)
      ensures exists l :: l in laps && HasPitIn(l) && e == ExpectedEvent(season, raceName, laps, l)
    {
      var k :| 0 <= k < |s| && HasPitIn(s[k]) && e == EventAt(season, raceName, s, k);
      EventAtIsExpected(season, raceName, laps, s, k);
      assert s[k] in multiset(laps);
    }
    forall l | l in laps && HasPitIn(l)
      ensures ExpectedEvent(season, raceName, laps, l) in PitEventsForRace(season, raceName, laps)
    {
      assert l in multiset(s);
      var k :| 0 <= k < |s| && s[k] == l;
      EventAtIsExpected(season, raceName, laps, s, k);
    }
  }
}
