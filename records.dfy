// The records the upstream telemetry feed delivers (src/types/index.ts).
// Timestamps are abstract integers: the model compares them, it does not parse them.
// Fields that are numbers in the feed and only ever compared or displayed are
// `real`; lap and driver numbers, positions, gears and DRS states are `int`.

module Records {
  import opened Wrappers

  datatype Session = Session(
    sessionKey: int,
    sessionName: string,
    dateStart: int,
    dateEnd: int,
    sessionType: string,
    circuitShortName: string,
    countryName: string,
    location: string,
    year: int)

  /** A driver's identity for one session; `driverNumber` joins every feed. */
  datatype Driver = Driver(
    driverNumber: int,
    broadcastName: string,
    fullName: string,
    nameAcronym: string,
    countryCode: string,
    teamName: string,
    teamColour: string)

  datatype Position = Position(date: int, driverNumber: int, position: int, sessionKey: int)

  /** A lap record. `lapDuration` is null until the lap completes and
      `lapNumber` may be missing; the three sector durations and the speed-trap
      readings are optional. */
  datatype Timing = Timing(
    date: int,
    driverNumber: int,
    sessionKey: int,
    lapDuration: Option<real>,
    lapNumber: Option<int>,
    isPitOutLap: bool,
    sector1: Option<real>,
    sector2: Option<real>,
    sector3: Option<real>,
    i1Speed: Option<real>,
    i2Speed: Option<real>,
    stSpeed: Option<real>)

  /** `interval` is JSON null for the leader or a lapped car. */
  datatype Interval = Interval(
    date: int,
    driverNumber: int,
    sessionKey: int,
    interval: Nullable<real>,
    gapToLeader: real)

  datatype CarData = CarData(
    date: int,
    driverNumber: int,
    sessionKey: int,
    speed: real,
    gear: int,
    throttle: real,
    brake: bool,
    drs: int,
    rpm: real)

  datatype RaceControl = RaceControl(
    date: int,
    sessionKey: int,
    driverNumber: Nullable<int>,
    lapNumber: int,
    category: string,
    flag: Nullable<string>,
    scope: Nullable<string>,
    sector: Nullable<int>,
    message: string)

  function PositionDate(p: Position): int { p.date }
  function TimingDate(t: Timing): int { t.date }
  function IntervalDate(i: Interval): int { i.date }
  function CarDataDate(c: CarData): int { c.date }
  function RaceControlDate(m: RaceControl): int { m.date }
}
