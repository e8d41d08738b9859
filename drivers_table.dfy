// The leaderboard projection of src/components/DriversTable.tsx: one row per
// driver, reduced from the unordered position, lap and interval feeds, then
// ordered by position with unknown positions last.

module DriversTable {
  import opened Wrappers
  import opened Records
  import opened Ordering
  import opened Text

  /** A leaderboard row: the driver's identity and the fields derived from the feeds. */
  datatype Row = Row(
    driver: Driver,
    position: Option<int>,
    lastLapTime: Option<real>,
    lapCount: nat,
    bestLapTime: Option<real>,
    sector1: Option<real>,
    sector2: Option<real>,
    sector3: Option<real>,
    sector1Prev: Option<real>,
    sector2Prev: Option<real>,
    sector3Prev: Option<real>,
    interval: Option<Nullable<real>>,
    gapToLeader: Option<real>,
    i1Speed: Option<real>,
    i2Speed: Option<real>)

  // ---------------------------------------------------------------------------
  // Record predicates
  // ---------------------------------------------------------------------------

  function PositionOf(n: int): Position -> bool { (p: Position) => p.driverNumber == n }
  function TimingOf(n: int): Timing -> bool { (t: Timing) => t.driverNumber == n }
  function IntervalOf(n: int): Interval -> bool { (i: Interval) => i.driverNumber == n }

  /** `t.lap_duration && t.lap_duration > 0`: null and 0 are falsy. */
  predicate HasValidLap(t: Timing)
  {
    t.lapDuration.Some? && t.lapDuration.value > 0.0
  }

  /** `t.lap_duration` as a JavaScript relational operator sees it: null is 0. */
  function LapSeconds(t: Timing): real
  {
    if t.lapDuration.Some? then t.lapDuration.value else 0.0
  }

  /** `t.lap_number || 0`. */
  function LapOrZero(t: Timing): int
  {
    if t.lapNumber.Some? then t.lapNumber.value else 0
  }

  /** `t.lap_number === m`: a missing lap number equals no number. */
  function LapIs(m: int): Timing -> bool { (t: Timing) => t.lapNumber == Some(m) }

  function ValidLapOf(n: int): Timing -> bool { (t: Timing) => t.driverNumber == n && HasValidLap(t) }
  function LapOf(n: int, m: int): Timing -> bool { (t: Timing) => t.driverNumber == n && t.lapNumber == Some(m) }
  function LapOrZeroOf(n: int, m: int): Timing -> bool { (t: Timing) => t.driverNumber == n && LapOrZero(t) == m }

  // ---------------------------------------------------------------------------
  // Per-driver reducers (DriversTable.tsx:31-84)
  // ---------------------------------------------------------------------------

  function LatestPosition(n: int, positions: seq<Position>): Option<Position>
  {
    Head(SortDesc(PositionDate, Filter(PositionOf(n), positions)))
  }

  /** `driverTiming`: the driver's lap records, newest first. */
  function DriverTiming(n: int, timing: seq<Timing>): seq<Timing>
  {
    SortDesc(TimingDate, Filter(TimingOf(n), timing))
  }

  /** The driver's records with a valid lap, newest first. */
  function ValidTiming(n: int, timing: seq<Timing>): (r: seq<Timing>)
    ensures forall t :: t in r <==> t in timing && t.driverNumber == n && HasValidLap(t)
  {
    DriverTimingMembers(n, timing);
    Filter(HasValidLap, DriverTiming(n, timing))
  }

  function LatestValidLap(n: int, timing: seq<Timing>): Option<Timing>
  {
    Head(ValidTiming(n, timing))
  }

  /** The `reduce` of DriversTable.tsx:48-53: a record replaces the best so far
      when there is none yet, or when its duration is positive and smaller. */
  function BestLap(laps: seq<Timing>): (r: Option<Timing>)
    ensures r.None? <==> laps == []
    ensures r.Some? ==> r.value in laps
    ensures (forall t :: t in laps ==> HasValidLap(t)) ==>
              r.Some? ==> forall t :: t in laps ==> LapSeconds(r.value) <= LapSeconds(t)
  {
    if laps == [] then None
    else
      var rest := laps[..|laps| - 1];
      var current := laps[|laps| - 1];
      assert laps == rest + [current];
      var best := BestLap(rest);
      if best.None? || (LapSeconds(current) > 0.0 && LapSeconds(current) < LapSeconds(best.value))
      then Some(current)
      else best
  }

  function LapNumbers(ts: seq<Timing>): (r: seq<int>)
    ensures |r| == |ts|
    ensures forall i :: 0 <= i < |ts| ==> r[i] == LapOrZero(ts[i])
  {
    seq(|ts|, i requires 0 <= i < |ts| => LapOrZero(ts[i]))
  }

  /** `Math.max(...driverTiming.map(t => t.lap_number || 0))`; `None` is `-Infinity`. */
  function MaxLap(n: int, timing: seq<Timing>): Option<int>
  {
    MaxOf(LapNumbers(DriverTiming(n, timing)))
  }

  /** `maxLap > 0 ? maxLap : 0`. */
  function LapCount(maxLap: Option<int>): nat
  {
    if maxLap.Some? && maxLap.value > 0 then maxLap.value else 0
  }

  /** `driverTiming.find(t => t.lap_number === maxLap)`; nothing equals `-Infinity`. */
  function CurrentLapRecord(n: int, timing: seq<Timing>): Option<Timing>
  {
    var maxLap := MaxLap(n, timing);
    if maxLap.Some? then Find(LapIs(maxLap.value), DriverTiming(n, timing)) else None
  }

  /** `lapCount > 1 ? lapCount - 1 : lapCount`. */
  function PreviousLapNumber(lapCount: nat): nat
  {
    if lapCount > 1 then lapCount - 1 else lapCount
  }

  function PreviousLapRecord(n: int, timing: seq<Timing>): Option<Timing>
  {
    Find(LapIs(PreviousLapNumber(LapCount(MaxLap(n, timing)))), DriverTiming(n, timing))
  }

  /** `currentLapData || driverTimingSortedByLap[0]`. The comparator of
      DriversTable.tsx:75-82 orders by lap number, then by date; applied stably
      to `driverTiming`, which is already newest first, it yields the same order
      as a stable sort on the lap number alone. */
  function LiveRecord(n: int, timing: seq<Timing>): Option<Timing>
  {
    var current := CurrentLapRecord(n, timing);
    if current.Some? then current else Head(SortDesc(LapOrZero, DriverTiming(n, timing)))
  }

  function LatestInterval(n: int, intervals: seq<Interval>): Option<Interval>
  {
    Head(SortDesc(IntervalDate, Filter(IntervalOf(n), intervals)))
  }

  /** `record?.field` for an optional field of an optional record. */
  function Then<T, U>(o: Option<T>, f: T -> Option<U>): Option<U>
  {
    if o.Some? then f(o.value) else None
  }

  /** The row built at DriversTable.tsx:105-121. */
  function ProjectDriver(d: Driver, positions: seq<Position>, timing: seq<Timing>, intervals: seq<Interval>): Row
  {
    var n := d.driverNumber;
    var latestPosition := LatestPosition(n, positions);
    var latestValid := LatestValidLap(n, timing);
    var best := BestLap(ValidTiming(n, timing));
    var live := LiveRecord(n, timing);
    var previous := PreviousLapRecord(n, timing);
    var latestInterval := LatestInterval(n, intervals);
    Row(
      driver := d,
      position := Then(latestPosition, (p: Position) => Some(p.position)),
      lastLapTime := Then(latestValid, (t: Timing) => t.lapDuration),
      lapCount := LapCount(MaxLap(n, timing)),
      bestLapTime := Then(best, (t: Timing) => t.lapDuration),
      sector1 := Then(live, (t: Timing) => t.sector1),
      sector2 := Then(live, (t: Timing) => t.sector2),
      sector3 := Then(live, (t: Timing) => t.sector3),
      sector1Prev := Then(previous, (t: Timing) => t.sector1),
      sector2Prev := Then(previous, (t: Timing) => t.sector2),
      sector3Prev := Then(previous, (t: Timing) => t.sector3),
      interval := Then(latestInterval, (i: Interval) => Some(i.interval)),
      gapToLeader := Then(latestInterval, (i: Interval) => Some(i.gapToLeader)),
      i1Speed := Then(live, (t: Timing) => t.i1Speed),
      i2Speed := Then(live, (t: Timing) => t.i2Speed))
  }

  /** `drivers.map(...)`, before ordering. */
  function Rows(drivers: seq<Driver>, positions: seq<Position>, timing: seq<Timing>, intervals: seq<Interval>): (rows: seq<Row>)
    ensures |rows| == |drivers|
    ensures forall i :: 0 <= i < |drivers| ==> rows[i] == ProjectDriver(drivers[i], positions, timing, intervals)
  {
    seq(|drivers|, i requires 0 <= i < |drivers| => ProjectDriver(drivers[i], positions, timing, intervals))
  }

  /** `a.position || 999`: an absent or zero position sorts as 999. */
  function SortPosition(r: Row): int
  {
    if r.position.Some? && r.position.value != 0 then r.position.value else 999
  }

  /** Sorting newest-first on the negated position is the ascending sort by position. */
  function Rank(r: Row): int
  {
    -SortPosition(r)
  }

  /** `driversWithPositions`: DriversTable.tsx:29-123. */
  function Project(drivers: seq<Driver>, positions: seq<Position>, timing: seq<Timing>, intervals: seq<Interval>): (rows: seq<Row>)
    ensures |rows| == |drivers|
    ensures multiset(rows) == multiset(Rows(drivers, positions, timing, intervals))
  {
    SortDesc(Rank, Rows(drivers, positions, timing, intervals))
  }

  // ---------------------------------------------------------------------------
  // Properties of the projection
  // ---------------------------------------------------------------------------

  lemma DriverTimingMembers(n: int, timing: seq<Timing>)
    ensures forall t :: t in DriverTiming(n, timing) <==> t in timing && t.driverNumber == n
  {
    var f := Filter(TimingOf(n), timing);
    forall t
      ensures t in DriverTiming(n, timing) <==> t in f
    {
      assert t in DriverTiming(n, timing) <==> t in multiset(DriverTiming(n, timing));
      assert t in f <==> t in multiset(f);
    }
    forall t | t in timing && t.driverNumber == n
      ensures t in f
    {
      var i :| 0 <= i < |timing| && timing[i] == t;
    }
  }

  /** One row per driver: the output is a permutation of the per-driver rows,
      each row carries its driver's identity unchanged, and every row is the
      projection of a listed driver. */
  lemma OneRowPerDriver(drivers: seq<Driver>, positions: seq<Position>, timing: seq<Timing>, intervals: seq<Interval>)
    ensures var out := Project(drivers, positions, timing, intervals);
      && |out| == |drivers|
      && (forall r :: r in out ==> r.driver in drivers && r == ProjectDriver(r.driver, positions, timing, intervals))
      && (forall i :: 0 <= i < |drivers| ==> ProjectDriver(drivers[i], positions, timing, intervals) in out)
  {
    var rows := Rows(drivers, positions, timing, intervals);
    SortDescMembers(Rank, rows);
    forall r | r in rows
      ensures r.driver in drivers && r == ProjectDriver(r.driver, positions, timing, intervals)
    {
      var i :| 0 <= i < |rows| && rows[i] == r;
    }
    forall i | 0 <= i < |drivers|
      ensures ProjectDriver(drivers[i], positions, timing, intervals) in rows
    {
      assert rows[i] in rows;
    }
  }

  /** Rows are ordered by `position || 999`, ascending. */
  lemma OrderedByPosition(drivers: seq<Driver>, positions: seq<Position>, timing: seq<Timing>, intervals: seq<Interval>)
    ensures var out := Project(drivers, positions, timing, intervals);
      forall i, j :: 0 <= i < j < |out| ==> SortPosition(out[i]) <= SortPosition(out[j])
  {
    SortDescSorted(Rank, Rows(drivers, positions, timing, intervals));
  }

  /** Rows that sort equal keep the order of the driver list: for every rank
      `k` (the negated `position || 999`, so `k == -999` collects the drivers
      without a position), the rows of that rank appear in driver-list order. */
  lemma TiesKeepDriverOrder(drivers: seq<Driver>, positions: seq<Position>, timing: seq<Timing>, intervals: seq<Interval>, k: int)
    ensures Filter(KeyIs(Rank, k), Project(drivers, positions, timing, intervals))
         == Filter(KeyIs(Rank, k), Rows(drivers, positions, timing, intervals))
  {
    SortDescStable(Rank, k, Rows(drivers, positions, timing, intervals));
  }

  /** `position` comes from the driver's position record with the greatest
      timestamp, ties going to the first in feed order. */
  lemma PositionIsLatest(d: Driver, positions: seq<Position>, timing: seq<Timing>, intervals: seq<Interval>)
    ensures var row := ProjectDriver(d, positions, timing, intervals);
      && (row.position.None? <==> forall j :: 0 <= j < |positions| ==> positions[j].driverNumber != d.driverNumber)
      && (row.position.Some? ==>
            exists i :: IsFirstNewest(PositionOf(d.driverNumber), PositionDate, positions, i)
                     && row.position.value == positions[i].position)
  {
    LatestOfFiltered(PositionOf(d.driverNumber), PositionDate, positions);
  }

  /** `interval` and `gapToLeader` come from the driver's newest interval record;
      a stored null interval stays null, distinct from having no record. */
  lemma IntervalIsLatest(d: Driver, positions: seq<Position>, timing: seq<Timing>, intervals: seq<Interval>)
    ensures var row := ProjectDriver(d, positions, timing, intervals);
      && (row.interval.None? <==> forall j :: 0 <= j < |intervals| ==> intervals[j].driverNumber != d.driverNumber)
      && (row.interval.None? <==> row.gapToLeader.None?)
      && (row.interval.Some? ==>
            exists i :: IsFirstNewest(IntervalOf(d.driverNumber), IntervalDate, intervals, i)
                     && row.interval.value == intervals[i].interval
                     && row.gapToLeader == Some(intervals[i].gapToLeader))
  {
    var n := d.driverNumber;
    var latest := LatestInterval(n, intervals);
    LatestOfFiltered(IntervalOf(n), IntervalDate, intervals);
    assert latest == Pick(intervals, NewestIndex(IntervalOf(n), IntervalDate, intervals));
    var row := ProjectDriver(d, positions, timing, intervals);
    assert row.interval == Then(latest, (i: Interval) => Some(i.interval));
    assert row.gapToLeader == Then(latest, (i: Interval) => Some(i.gapToLeader));
  }

  /** `lastLapTime` is the duration of the driver's newest lap record with a
      positive duration. */
  lemma LastLapIsNewestValid(d: Driver, positions: seq<Position>, timing: seq<Timing>, intervals: seq<Interval>)
    ensures var row := ProjectDriver(d, positions, timing, intervals);
      && (row.lastLapTime.None? <==> forall j :: 0 <= j < |timing| ==> !ValidLapOf(d.driverNumber)(timing[j]))
      && (row.lastLapTime.Some? ==>
            row.lastLapTime.value > 0.0
            && exists i :: IsFirstNewest(ValidLapOf(d.driverNumber), TimingDate, timing, i)
                        && row.lastLapTime == timing[i].lapDuration)
  {
    var n := d.driverNumber;
    HeadOfFilter(HasValidLap, DriverTiming(n, timing));
    FindInSortedFiltered(TimingOf(n), HasValidLap, ValidLapOf(n), TimingDate, timing);
  }

  /** `bestLapTime` is the smallest positive duration among the driver's lap records. */
  lemma BestLapIsMinimum(d: Driver, positions: seq<Position>, timing: seq<Timing>, intervals: seq<Interval>)
    ensures var row := ProjectDriver(d, positions, timing, intervals);
      && (row.bestLapTime.None? <==> forall t :: t in timing ==> !ValidLapOf(d.driverNumber)(t))
      && (row.bestLapTime.Some? ==>
            (exists t :: t in timing && ValidLapOf(d.driverNumber)(t) && t.lapDuration == row.bestLapTime)
            && forall t :: t in timing && ValidLapOf(d.driverNumber)(t) ==> row.bestLapTime.value <= t.lapDuration.value)
  {
    var n := d.driverNumber;
    var valid := ValidTiming(n, timing);
    DriverTimingMembers(n, timing);
    assert forall t :: t in valid <==> t in timing && ValidLapOf(n)(t);
    var best := BestLap(valid);
    if best.None? {
      assert forall t :: t in timing ==> !ValidLapOf(n)(t);
    }
  }

  /** `lapCount` is the greatest `lap_number || 0` over the driver's lap records
      when that is positive, and 0 otherwise, including when there are none. */
  lemma LapCountIsMaxLap(d: Driver, positions: seq<Position>, timing: seq<Timing>, intervals: seq<Interval>)
    ensures var row := ProjectDriver(d, positions, timing, intervals);
      && (forall t :: t in timing && t.driverNumber == d.driverNumber ==> LapOrZero(t) <= row.lapCount)
      && (row.lapCount > 0 ==>
            exists t :: t in timing && t.driverNumber == d.driverNumber && t.lapNumber == Some(row.lapCount))
  {
    var n := d.driverNumber;
    MaxLapIsMax(n, timing);
  }

  lemma MaxLapIsMax(n: int, timing: seq<Timing>)
    ensures MaxLap(n, timing).None? <==> forall t :: t in timing ==> t.driverNumber != n
    ensures MaxLap(n, timing).Some? ==>
      && (exists t :: t in timing && t.driverNumber == n && LapOrZero(t) == MaxLap(n, timing).value)
      && (forall t :: t in timing && t.driverNumber == n ==> LapOrZero(t) <= MaxLap(n, timing).value)
  {
    var dt := DriverTiming(n, timing);
    DriverTimingMembers(n, timing);
    var laps := LapNumbers(dt);
    forall t | t in dt
      ensures LapOrZero(t) in laps
    {
      var i :| 0 <= i < |dt| && dt[i] == t;
      assert laps[i] == LapOrZero(t);
    }
    if MaxLap(n, timing).Some? {
      var m := MaxLap(n, timing).value;
      var i :| 0 <= i < |laps| && laps[i] == m;
      assert dt[i] in timing && dt[i].driverNumber == n;
    } else {
      assert dt == [];
    }
  }

  /** Without lap records there is no live record. */
  lemma LiveRecordWithoutLaps(n: int, timing: seq<Timing>)
    requires forall t :: t in timing ==> t.driverNumber != n
    ensures LiveRecord(n, timing) == None
  {
    FilterNone(TimingOf(n), timing);
  }

  /** The live sectors come from the newest record of the highest lap, ties
      going to the first in feed order. */
  lemma LiveRecordIsNewestOfMaxLap(n: int, timing: seq<Timing>)
    requires CurrentLapRecord(n, timing).Some?
    ensures MaxLap(n, timing).Some?
    ensures LiveRecord(n, timing) == Pick(timing, NewestIndex(LapOf(n, MaxLap(n, timing).value), TimingDate, timing))
  {
    var m := MaxLap(n, timing).value;
    FindInSortedFiltered(TimingOf(n), LapIs(m), LapOf(n, m), TimingDate, timing);
  }

  /** No record carries the highest lap number only when that number is the
      0 that `lap_number || 0` gives a record without a lap number. */
  lemma FallbackOnlyAtLapZero(n: int, timing: seq<Timing>)
    requires exists t :: t in timing && t.driverNumber == n
    requires CurrentLapRecord(n, timing).None?
    ensures MaxLap(n, timing) == Some(0)
  {
    MaxLapIsMax(n, timing);
    DriverTimingMembers(n, timing);
    var m := MaxLap(n, timing).value;
    var w :| w in timing && w.driverNumber == n && LapOrZero(w) == m;
    assert w in DriverTiming(n, timing);
    assert !LapIs(m)(w);
  }

  /** When no record carries the highest lap number, the live sectors come
      from the record that sorts first by lap number, then by date. */
  lemma LiveRecordFallback(n: int, timing: seq<Timing>)
    requires exists t :: t in timing && t.driverNumber == n
    requires CurrentLapRecord(n, timing).None?
    ensures MaxLap(n, timing) == Some(0)
    ensures LiveRecord(n, timing).Some?
    ensures var live := LiveRecord(n, timing).value;
      && live in timing && live.driverNumber == n
      && forall t :: t in timing && t.driverNumber == n ==>
           LapOrZero(t) < LapOrZero(live) || (LapOrZero(t) == LapOrZero(live) && t.date <= live.date)
    ensures LiveRecord(n, timing) == Pick(timing, NewestIndex(LapOrZeroOf(n, 0), TimingDate, timing))
  {
    FallbackOnlyAtLapZero(n, timing);
    MaxLapIsMax(n, timing);
    var dt := DriverTiming(n, timing);
    DriverTimingMembers(n, timing);
    var w :| w in timing && w.driverNumber == n;
    assert w in dt;
    SortDescSorted(TimingDate, Filter(TimingOf(n), timing));
    ResortHead(LapOrZero, TimingDate, dt);
    assert LiveRecord(n, timing) == Head(SortDesc(LapOrZero, dt));
    FirstOfGreatestKey(LapOrZero, dt, 0);
    FindInSortedFiltered(TimingOf(n), KeyIs(LapOrZero, 0), LapOrZeroOf(n, 0), TimingDate, timing);
  }

  /** The previous-lap sectors come from the newest record of lap `lapCount - 1`
      when `lapCount > 1`, and otherwise of lap `lapCount` itself. */
  lemma PreviousLapChoice(d: Driver, positions: seq<Position>, timing: seq<Timing>, intervals: seq<Interval>)
    ensures var row := ProjectDriver(d, positions, timing, intervals);
      var prevLap := if row.lapCount > 1 then row.lapCount - 1 else row.lapCount;
      && PreviousLapRecord(d.driverNumber, timing) == Pick(timing, NewestIndex(LapOf(d.driverNumber, prevLap), TimingDate, timing))
      && row.sector1Prev == Then(PreviousLapRecord(d.driverNumber, timing), (t: Timing) => t.sector1)
      && row.sector2Prev == Then(PreviousLapRecord(d.driverNumber, timing), (t: Timing) => t.sector2)
      && row.sector3Prev == Then(PreviousLapRecord(d.driverNumber, timing), (t: Timing) => t.sector3)
  {
    var n := d.driverNumber;
    var prevLap := PreviousLapNumber(LapCount(MaxLap(n, timing)));
    FindInSortedFiltered(TimingOf(n), LapIs(prevLap), LapOf(n, prevLap), TimingDate, timing);
  }

  /** On the first lap the "previous" sectors are the live sectors. */
  lemma FirstLapPreviousIsLive(d: Driver, positions: seq<Position>, timing: seq<Timing>, intervals: seq<Interval>)
    requires ProjectDriver(d, positions, timing, intervals).lapCount == 1
    ensures var row := ProjectDriver(d, positions, timing, intervals);
      row.sector1Prev == row.sector1 && row.sector2Prev == row.sector2 && row.sector3Prev == row.sector3
  {
    var n := d.driverNumber;
    MaxLapIsMax(n, timing);
    var w :| w in timing && w.driverNumber == n && LapOrZero(w) == 1;
    DriverTimingMembers(n, timing);
    assert LapIs(1)(w) && w in DriverTiming(n, timing);
  }

  /** A driver absent from every feed still gets a row, with every derived field
      empty and a lap count of 0. */
  lemma DriverWithoutData(d: Driver, positions: seq<Position>, timing: seq<Timing>, intervals: seq<Interval>)
    requires forall p :: p in positions ==> p.driverNumber != d.driverNumber
    requires forall t :: t in timing ==> t.driverNumber != d.driverNumber
    requires forall i :: i in intervals ==> i.driverNumber != d.driverNumber
    ensures ProjectDriver(d, positions, timing, intervals)
         == Row(d, None, None, 0, None, None, None, None, None, None, None, None, None, None, None)
  {
    var n := d.driverNumber;
    FilterNone(PositionOf(n), positions);
    FilterNone(TimingOf(n), timing);
    FilterNone(IntervalOf(n), intervals);
  }

  // ---------------------------------------------------------------------------
  // Cell classifiers (DriversTable.tsx:143-160)
  // ---------------------------------------------------------------------------

  datatype IntervalCell = NoGap | Lead | Behind(seconds: real)

  /** `formatIntervalTime`: '-' for null, undefined or negative, 'LEAD' for 0,
      and '+' followed by the seconds otherwise. */
  function FormatInterval(v: Option<Nullable<real>>): (c: IntervalCell)
    ensures c == NoGap <==> (v.None? || v.value.Null? || v.value.value < 0.0)
    ensures c == Lead <==> v == Some(NonNull(0.0))
    ensures c.Behind? ==> v == Some(NonNull(c.seconds)) && c.seconds > 0.0
  {
    if v.None? || v.value.Null? then NoGap
    else if v.value.value < 0.0 then NoGap
    else if v.value.value == 0.0 then Lead
    else Behind(v.value.value)
  }

  /** `getPositionIcon`. */
  function PositionIcon(position: Option<int>): (s: string)
    ensures s == "\U{2753}" <==> position.None? || position == Some(0)
    ensures position == Some(1) ==> s == "\U{1F947}"
    ensures position == Some(2) ==> s == "\U{1F948}"
    ensures position == Some(3) ==> s == "\U{1F949}"
    ensures position.Some? && position.value !in {0, 1, 2, 3} ==> ParseInt(s) == Some(position.value) && NoLeadingZero(s)
  {
    if position.None? || position.value == 0 then "\U{2753}"
    else if position.value == 1 then "\U{1F947}"
    else if position.value == 2 then "\U{1F948}"
    else if position.value == 3 then "\U{1F949}"
    else
      assert IntToString(position.value)[0] != '\U{2753}' by {
        assert IntToString(position.value)[0] == '-' || IsDigit(IntToString(position.value)[0]);
      }
      IntToStringRoundTrip(position.value);
      IntToString(position.value)
  }
}
