/** The retry loop that fetches one measurement: read the sensor, convert the
    temperature to the configured unit, and accept the reading only when the
    converted temperature is plausible. The sensor is the sequence of readings
    it would deliver one after another; temperatures are exact reals. */
module MeasurementAcquirer {
  import opened Wrappers

  /** What one pass of the loop reads: the sensor's temperature (degrees
      Celsius), pressure (pascal) and humidity (percent), and `millis()`. */
  datatype Reading = Reading(temperatureC: real, pressurePa: real, humidity: real, millis: nat)

  /** The measurement that is published. */
  datatype Measurement = Measurement(temperature: real, pressure: real, humidity: real, millis: nat)

  /** Degrees Celsius as degrees Fahrenheit, `32 + (t / 5) * 9`. */
  function ToFahrenheit(t: real): real { 32.0 + (t / 5.0) * 9.0 }

  /** A reading in the units the configuration asks for: the temperature in
      Fahrenheit when `fahrenheit` is set, the pressure in hectopascal. */
  function Convert(rd: Reading, fahrenheit: bool): Measurement
  {
    Measurement(if fahrenheit then ToFahrenheit(rd.temperatureC) else rd.temperatureC,
                rd.pressurePa / 100.0, rd.humidity, rd.millis)
  }

  /** The gate: strictly between -100 and 150, in the converted unit. */
  predicate Plausible(t: real) { t < 150.0 && t > -100.0 }

  predicate Accepted(rd: Reading, fahrenheit: bool)
  {
    Plausible(Convert(rd, fahrenheit).temperature)
  }

  /** The position of the first reading that passes the gate (`|readings|` when
      none does). */
  function FirstAccepted(readings: seq<Reading>, fahrenheit: bool): (k: nat)
    ensures k <= |readings|
    ensures forall j | 0 <= j < k :: !Accepted(readings[j], fahrenheit)
    ensures k < |readings| ==> Accepted(readings[k], fahrenheit)
  {
    if readings == [] then 0
    else if Accepted(readings[0], fahrenheit) then 0
    else 1 + FirstAccepted(readings[1..], fahrenheit)
  }

  /** `fetchMeasurement`: take readings until one passes the gate and return it
      converted, with the number of readings rejected before it. The firmware retries for
      ever; here the readings can run out, and then there is no measurement. */
  method FetchMeasurement(readings: seq<Reading>, fahrenheit: bool) returns (rejected: nat, m: Option<Measurement>)
    ensures rejected == FirstAccepted(readings, fahrenheit)
    ensures rejected < |readings| ==> m == Some(Convert(readings[rejected], fahrenheit))
    ensures rejected == |readings| ==> m == None
  {
    var i := 0;
    while i < |readings|
      invariant i <= |readings|
      invariant forall j | 0 <= j < i :: !Accepted(readings[j], fahrenheit)
    {
      var result := Convert(readings[i], fahrenheit);
      if Plausible(result.temperature) {
        FirstAcceptedIs(readings, fahrenheit, i);
        return i, Some(result);
      }
      i := i + 1;
    }
    FirstAcceptedIs(readings, fahrenheit, i);
    return i, None;
  }

  /** The first accepted position is the one every earlier reading fails and
      the reading there (if any) passes. */
  lemma {:induction false} FirstAcceptedIs(readings: seq<Reading>, fahrenheit: bool, k: nat)
    requires k <= |readings|
    requires forall j | 0 <= j < k :: !Accepted(readings[j], fahrenheit)
    requires k < |readings| ==> Accepted(readings[k], fahrenheit)
    ensures FirstAccepted(readings, fahrenheit) == k
  {
    if k > 0 {
      assert !Accepted(readings[0], fahrenheit);
      FirstAcceptedIs(readings[1..], fahrenheit, k - 1);
    }
  }

  /** The bounds are exclusive. */
  lemma GateBounds()
    ensures !Plausible(150.0) && !Plausible(-100.0)
    ensures Plausible(149.9) && Plausible(-99.9)
  {
  }

  /** In Fahrenheit mode the gate applies to the Fahrenheit value: it
      accepts exactly the readings strictly between -73 1/3 and 65 5/9 degrees
      Celsius. */
  lemma FahrenheitGate(rd: Reading)
    ensures Accepted(rd, true) <==> -(220.0 / 3.0) < rd.temperatureC < 590.0 / 9.0
  {
  }

  /** So a 70 degree Celsius reading passes in Celsius mode and is retried in
      Fahrenheit mode. */
  lemma GateDependsOnUnit()
    ensures Accepted(Reading(70.0, 100000.0, 50.0, 0), false)
    ensures !Accepted(Reading(70.0, 100000.0, 50.0, 0), true)
  {
  }
}
