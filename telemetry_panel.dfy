// The live telemetry panel (src/components/TelemetryPanel.tsx): each driver's
// newest car-data record, drivers without data dropped, at most six cards, and
// the classifiers that render speed, RPM, gear and DRS.

module TelemetryPanel {
  import opened Wrappers
  import opened Records
  import opened Ordering
  import opened Text

  function CarDataOf(n: int): CarData -> bool { (c: CarData) => c.driverNumber == n }

  /** `driverCarData[0] || null`: the driver's car data sorted newest first, its head. */
  function LatestCarData(n: int, carData: seq<CarData>): Option<CarData>
  {
    Head(SortDesc(CarDataDate, Filter(CarDataOf(n), carData)))
  }

  /** A driver and their newest record (`latestData`, null when they have none). */
  datatype DriverTelemetry = DriverTelemetry(driver: Driver, latestData: Option<CarData>)

  predicate HasLatest(e: DriverTelemetry) { e.latestData.Some? }

  /** `drivers.map(...)`: one entry per driver, in driver-list order. */
  function Entries(drivers: seq<Driver>, carData: seq<CarData>): (r: seq<DriverTelemetry>)
    ensures |r| == |drivers|
    ensures forall i :: 0 <= i < |drivers| ==>
      r[i].driver == drivers[i] && r[i].latestData == LatestCarData(drivers[i].driverNumber, carData)
    decreases |drivers|
  {
    if drivers == [] then []
    else [DriverTelemetry(drivers[0], LatestCarData(drivers[0].driverNumber, carData))] + Entries(drivers[1..], carData)
  }

  /** `driverTelemetry`: the entries of drivers that have car data. */
  function Telemetry(drivers: seq<Driver>, carData: seq<CarData>): (r: seq<DriverTelemetry>)
    ensures |r| <= |drivers|
    ensures forall i :: 0 <= i < |r| ==> r[i].latestData.Some?
  {
    var r := Filter(HasLatest, Entries(drivers, carData));
    assert forall i :: 0 <= i < |r| ==> r[i] in r;
    r
  }

  /** The drivers of a list of entries. */
  function DriversOf(entries: seq<DriverTelemetry>): (r: seq<Driver>)
    ensures |r| == |entries|
    decreases |entries|
  {
    if entries == [] then [] else [entries[0].driver] + DriversOf(entries[1..])
  }

  /** A driver with at least one car-data record. */
  function HasCarData(carData: seq<CarData>): Driver -> bool
  {
    (d: Driver) => exists j :: 0 <= j < |carData| && carData[j].driverNumber == d.driverNumber
  }

  /** A driver's newest record exists exactly when they have a record, and it
      is the first, in feed order, of their records with the latest date. */
  lemma LatestCarDataIsNewest(n: int, carData: seq<CarData>)
    ensures LatestCarData(n, carData).None? <==> forall j :: 0 <= j < |carData| ==> carData[j].driverNumber != n
    ensures LatestCarData(n, carData).Some? ==>
      exists i :: IsFirstNewest(CarDataOf(n), CarDataDate, carData, i) && LatestCarData(n, carData).value == carData[i]
  {
    LatestOfFiltered(CarDataOf(n), CarDataDate, carData);
  }

  /** The panel lists exactly the drivers with car data, in driver-list order. */
  lemma {:induction false} TelemetryKeepsDriversWithData(drivers: seq<Driver>, carData: seq<CarData>)
    ensures DriversOf(Telemetry(drivers, carData)) == Filter(HasCarData(carData), drivers)
    decreases |drivers|
  {
    if drivers != [] {
      var d := drivers[0];
      var rest := drivers[1..];
      LatestCarDataIsNewest(d.driverNumber, carData);
      assert HasLatest(DriverTelemetry(d, LatestCarData(d.driverNumber, carData))) <==> HasCarData(carData)(d);
      TelemetryKeepsDriversWithData(rest, carData);
      var e := Entries(drivers, carData);
      var tail := Entries(rest, carData);
      assert e == [e[0]] + tail;
      var kept := Filter(HasLatest, tail);
      if HasLatest(e[0]) {
        assert Filter(HasLatest, e) == [e[0]] + kept;
        assert ([e[0]] + kept)[1..] == kept;
        assert Filter(HasCarData(carData), drivers) == [d] + Filter(HasCarData(carData), rest);
      } else {
        assert Filter(HasLatest, e) == kept;
        assert Filter(HasCarData(carData), drivers) == Filter(HasCarData(carData), rest);
      }
    }
  }

  /** Every listed entry carries its driver's newest record. */
  lemma TelemetryEntriesAreNewest(drivers: seq<Driver>, carData: seq<CarData>, e: DriverTelemetry)
    requires e in Telemetry(drivers, carData)
    ensures e.driver in drivers
    ensures e.latestData == LatestCarData(e.driver.driverNumber, carData)
  {
    EntryOfDriver(drivers, carData, e);
  }

  lemma {:induction false} EntryOfDriver(drivers: seq<Driver>, carData: seq<CarData>, e: DriverTelemetry)
    requires e in Entries(drivers, carData)
    ensures e.driver in drivers
    ensures e.latestData == LatestCarData(e.driver.driverNumber, carData)
    decreases |drivers|
  {
    var r := Entries(drivers, carData);
    if e != r[0] {
      assert e in r[1..];
      EntryOfDriver(drivers[1..], carData, e);
    }
  }

  // ---------------------------------------------------------------------------
  // The view (TelemetryPanel.tsx:54-70)
  // ---------------------------------------------------------------------------

  const MaxCards := 6

  datatype TelemetryView = NoTelemetry | Grid(cards: seq<DriverTelemetry>)

  /** The "No telemetry" message when no driver has data, otherwise the first
      six entries of `driverTelemetry`. */
  function View(telemetry: seq<DriverTelemetry>): (v: TelemetryView)
    ensures v.NoTelemetry? <==> telemetry == []
    ensures v.Grid? ==>
      && 0 < |v.cards| <= MaxCards && |v.cards| <= |telemetry|
      && v.cards == telemetry[..|v.cards|]
      && (|v.cards| < MaxCards ==> v.cards == telemetry)
  {
    if |telemetry| == 0 then NoTelemetry
    else
      var n := Min(MaxCards, |telemetry|);
      assert n < MaxCards ==> telemetry[..n] == telemetry;
      Grid(telemetry[..n])
  }

  /** The empty view appears exactly when no driver in the list has car data. */
  lemma NoTelemetryWhenNoData(drivers: seq<Driver>, carData: seq<CarData>)
    ensures View(Telemetry(drivers, carData)).NoTelemetry? <==>
      forall i, j :: 0 <= i < |drivers| && 0 <= j < |carData| ==> carData[j].driverNumber != drivers[i].driverNumber
  {
    TelemetryKeepsDriversWithData(drivers, carData);
    var kept := Filter(HasCarData(carData), drivers);
    if forall i, j :: 0 <= i < |drivers| && 0 <= j < |carData| ==> carData[j].driverNumber != drivers[i].driverNumber {
      FilterNone(HasCarData(carData), drivers);
    } else {
      var i, j :| 0 <= i < |drivers| && 0 <= j < |carData| && carData[j].driverNumber == drivers[i].driverNumber;
      assert HasCarData(carData)(drivers[i]);
      assert drivers[i] in kept;
    }
  }

  // ---------------------------------------------------------------------------
  // Classifiers (TelemetryPanel.tsx:28-46)
  // ---------------------------------------------------------------------------

  const NoValue := "-"

  /** A number rounded and followed by its unit; '-' for a missing or zero
      value, both falsy. */
  function WithUnit(x: Option<real>, unit: string): (r: string)
    requires unit != ""
    ensures r == NoValue <==> x.None? || x.value == 0.0
    ensures x.Some? && x.value != 0.0 ==>
      && |r| > |unit|
      && r[|r| - |unit|..] == unit
      && ParseInt(r[..|r| - |unit|]) == Some(Round(x.value))
      && NoLeadingZero(r[..|r| - |unit|])
  {
    if x.None? || x.value == 0.0 then NoValue
    else
      var digits := IntToString(Round(x.value));
      IntToStringRoundTrip(Round(x.value));
      assert (digits + unit)[..|digits|] == digits;
      digits + unit
  }

  /** `formatSpeed`. */
  function FormatSpeed(speed: Option<real>): (r: string)
    ensures r == NoValue <==> speed.None? || speed.value == 0.0
    ensures speed.Some? && speed.value != 0.0 ==>
      && |r| > 5 && r[|r| - 5..] == " km/h"
      && ParseInt(r[..|r| - 5]) == Some(Round(speed.value))
      && NoLeadingZero(r[..|r| - 5])
  {
    WithUnit(speed, " km/h")
  }

  /** `formatRPM`. */
  function FormatRpm(rpm: Option<real>): (r: string)
    ensures r == NoValue <==> rpm.None? || rpm.value == 0.0
    ensures rpm.Some? && rpm.value != 0.0 ==>
      && |r| > 4 && r[|r| - 4..] == " RPM"
      && ParseInt(r[..|r| - 4]) == Some(Round(rpm.value))
      && NoLeadingZero(r[..|r| - 4])
  {
    WithUnit(rpm, " RPM")
  }

  /** `getGearDisplay`: '-' when missing, 'N' for neutral, 'R' for any
      negative gear, otherwise the gear number. */
  function GearDisplay(gear: Option<int>): (r: string)
    ensures r == NoValue <==> gear.None?
    ensures r == "N" <==> gear == Some(0)
    ensures r == "R" <==> gear.Some? && gear.value < 0
    ensures gear.Some? && gear.value > 0 ==> ParseInt(r) == Some(gear.value) && NoLeadingZero(r)
  {
    if gear.None? then NoValue
    else if gear.value == 0 then "N"
    else if gear.value < 0 then "R"
    else
      IntToStringRoundTrip(gear.value);
      assert IsDigit(IntToString(gear.value)[0]);
      IntToString(gear.value)
  }

  const DrsUnknown := "\U{2753}"
  const DrsOpen := "\U{2705} Open"
  const DrsClosed := "\U{274C} Closed"

  /** `getDRSStatus`: unknown when missing, open for any positive state,
      closed for zero and negative states. */
  function DrsStatus(drs: Option<int>): (r: string)
    ensures r in {DrsUnknown, DrsOpen, DrsClosed}
    ensures r == DrsUnknown <==> drs.None?
    ensures r == DrsOpen <==> drs.Some? && drs.value > 0
  {
    if drs.None? then DrsUnknown else if drs.value > 0 then DrsOpen else DrsClosed
  }
}
