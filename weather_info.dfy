// The track-conditions widget (src/components/WeatherInfo.tsx): the weather
// icon, the Wet/Dry label and the 16-point compass label of the wind bearing.
// The readings are JavaScript doubles, modelled as reals (NaN is not modelled).

module WeatherInfo {
  import opened Wrappers
  import opened Text

  const Rain := "\U{1F327}\U{FE0F}"
  const Sun := "\U{2600}\U{FE0F}"
  const PartCloud := "\U{26C5}"
  const Cloud := "\U{2601}\U{FE0F}"

  /** `getWeatherIcon`: rain whenever it rains; otherwise sun above 30 degrees,
      part-cloud above 20 and cloud at 20 or below. */
  function WeatherIcon(rainfall: real, temperature: real): (r: string)
    ensures r == Rain <==> rainfall > 0.0
    ensures r == Sun <==> rainfall <= 0.0 && temperature > 30.0
    ensures r == PartCloud <==> rainfall <= 0.0 && 20.0 < temperature <= 30.0
    ensures r == Cloud <==> rainfall <= 0.0 && temperature <= 20.0
  {
    if rainfall > 0.0 then Rain
    else if temperature > 30.0 then Sun
    else if temperature > 20.0 then PartCloud
    else Cloud
  }

  /** The conditions label. */
  function ConditionsLabel(rainfall: real): (r: string)
    ensures r == "Wet" || r == "Dry"
    ensures r == "Wet" <==> rainfall > 0.0
  {
    if rainfall > 0.0 then "Wet" else "Dry"
  }

  /** The label says "Wet" exactly when the icon shows rain. */
  lemma LabelAgreesWithIcon(rainfall: real, temperature: real)
    ensures ConditionsLabel(rainfall) == "Wet" <==> WeatherIcon(rainfall, temperature) == Rain
  {
  }

  /** The thresholds are strict: 30 degrees is part-cloud and 20 is cloud. */
  lemma ThresholdsAreStrict(rainfall: real)
    requires rainfall <= 0.0
    ensures WeatherIcon(rainfall, 30.0) == PartCloud
    ensures WeatherIcon(rainfall, 20.0) == Cloud
  {
  }

  // ---------------------------------------------------------------------------
  // Wind direction (WeatherInfo.tsx:16-20)
  // ---------------------------------------------------------------------------

  const Directions: seq<string> :=
    ["N", "NNE", "NE", "ENE", "E", "ESE", "SE", "SSE", "S", "SSW", "SW", "WSW", "W", "WNW", "NW", "NNW"]

  const SectorWidth: real := 22.5

  /** JavaScript's `a % 16` on integers: the remainder takes the sign of `a`. */
  function JsRemainder16(a: int): (r: int)
    ensures a >= 0 ==> 0 <= r < 16 && r == a % 16
    ensures a < 0 ==> -16 < r <= 0 && (a - r) % 16 == 0
  {
    if a >= 0 then a % 16 else -((-a) % 16)
  }

  /** `directions[Math.round(degrees / 22.5) % 16]`, `None` where the index is
      negative and the array lookup is `undefined`. */
  function WindDirection(degrees: real): (r: Option<string>)
    ensures degrees >= 0.0 ==> r.Some?
    ensures r.Some? ==> r.value in Directions
  {
    var index := JsRemainder16(Round(degrees / SectorWidth));
    if index >= 0 then Some(Directions[index]) else None
  }

  /** For a bearing of 0 or more, the label is the sector whose centre is the
      nearest multiple of 22.5 degrees, counted modulo 16. */
  lemma WindDirectionSector(degrees: real)
    requires degrees >= 0.0
    ensures var k := Round(degrees / SectorWidth);
      && k >= 0
      && SectorWidth * k as real - SectorWidth / 2.0 <= degrees < SectorWidth * k as real + SectorWidth / 2.0
      && WindDirection(degrees) == Some(Directions[k % 16])
  {
    var x := degrees / SectorWidth;
    var k := Round(x);
    assert degrees == SectorWidth * x;
  }

  /** `Math.round` commutes with adding a whole number. */
  lemma RoundShift(x: real, n: int)
    ensures Round(x + n as real) == Round(x) + n
  {
    var a := Round(x + n as real);
    var b := Round(x) + n;
    assert b as real - 0.5 <= x + n as real < b as real + 0.5;
  }

  /** A full turn does not change the label. */
  lemma WindDirectionFullTurn(degrees: real)
    requires degrees >= 0.0
    ensures WindDirection(degrees + 360.0) == WindDirection(degrees)
  {
    var x := degrees / SectorWidth;
    var k := Round(x);
    assert (degrees + 360.0) / SectorWidth == x + 16 as real;
    RoundShift(x, 16);
    assert Round((degrees + 360.0) / SectorWidth) == k + 16;
    WindDirectionSector(degrees);
    WindDirectionSector(degrees + 360.0);
    assert (k + 16) % 16 == k % 16;
  }

  /** The cardinal points, and the half-sector bearing that rounds up. */
  lemma CardinalPoints()
    ensures WindDirection(0.0) == Some("N")
    ensures WindDirection(360.0) == Some("N")
    ensures WindDirection(90.0) == Some("E")
    ensures WindDirection(180.0) == Some("S")
    ensures WindDirection(270.0) == Some("W")
    ensures WindDirection(11.25) == Some("NNE")
  {
    assert Round(0.0 / SectorWidth) == 0;
    assert Round(360.0 / SectorWidth) == 16;
    assert Round(90.0 / SectorWidth) == 4;
    assert Round(180.0 / SectorWidth) == 8;
    assert Round(270.0 / SectorWidth) == 12;
    assert Round(11.25 / SectorWidth) == 1;
  }

  /** A negative bearing more than half a sector below north, within one turn,
      gives a negative index and no label. */
  lemma NegativeBearingHasNoLabel(degrees: real)
    requires -348.75 <= degrees < -11.25
    ensures WindDirection(degrees).None?
  {
    var x := degrees / SectorWidth;
    assert -15.5 <= x < -0.5;
    var k := Round(x);
    assert -15 <= k <= -1;
  }
}
