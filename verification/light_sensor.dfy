/**
 * LightSensor: the LEGO light sensor's calibration arithmetic and floodlight state. The
 * raw A/D reading is a parameter of each read; the sensor-type writes to the port are
 * recorded as a sequence of floodlight settings (true: active, lit; false: inactive).
 * Arithmetic is on Java `int`, so every step wraps to 32 bits.
 */
module LightSensor {
  import opened Bytes

  const RAW_MAX: int := 1023

  /** The colour codes of lejos.robotics.Color that the floodlight understands. */
  const RED: int := 0
  const NONE: int := -1

  /**
   * The sensor: the raw readings calibrated as 0% (`zero`) and 100% (`hundred`), whether
   * the floodlight is on, and the port-type writes made.
   */
  datatype Light = Light(zero: Int32, hundred: Int32, floodlight: bool, portTypes: seq<bool>)

  /** The constructor: defaults zero 1023 and hundred 0, the port set to the requested floodlight. */
  function NewLight(floodlight: bool): (l: Light)
    ensures l.floodlight == floodlight && l.portTypes == [floodlight]
  {
    Light(RAW_MAX, 0, floodlight, [floodlight])
  }

  /** setFloodlight(boolean). */
  function SetFloodlight(l: Light, on: bool): (r: Light)
    ensures IsFloodlightOn(r) == on && r.portTypes == l.portTypes + [on]
    ensures r.zero == l.zero && r.hundred == l.hundred
  {
    l.(floodlight := on, portTypes := l.portTypes + [on])
  }

  /** setFloodlight(int): RED turns the light on and NONE off, both answering true; any other colour answers false and changes nothing. */
  function SetFloodlightColor(l: Light, color: int): (r: (bool, Light))
    ensures r.0 <==> color == RED || color == NONE
    ensures !r.0 ==> r.1 == l
    ensures r.0 ==> GetFloodlight(r.1) == color && r.1.portTypes == l.portTypes + [color == RED]
  {
    if color == RED then (true, SetFloodlight(l, true))
    else if color == NONE then (true, SetFloodlight(l, false))
    else (false, l)
  }

  function IsFloodlightOn(l: Light): bool
  {
    l.floodlight
  }

  /** getFloodlight: RED when lit, NONE otherwise. */
  function GetFloodlight(l: Light): (c: int)
    ensures c == RED <==> IsFloodlightOn(l)
    ensures c == RED || c == NONE
  {
    if l.floodlight then RED else NONE
  }

  /** getLightValue: 0 when the two calibration points coincide, otherwise 100 * (raw - zero) / (hundred - zero), truncated, in 32-bit arithmetic. */
  function GetLightValue(l: Light, raw: Int32): (v: Int32)
    ensures l.hundred == l.zero ==> v == 0
  {
    if l.hundred == l.zero then 0
    else
      var span := Wrap32(l.hundred - l.zero);
      assert span != 0;
      Wrap32(JavaDiv(Wrap32(100 * Wrap32(raw - l.zero)), span))
  }

  /** getNormalizedLightValue: the raw reading flipped, so that brighter reads higher. */
  function GetNormalizedLightValue(raw: Int32): (v: Int32)
    ensures 0 <= raw <= RAW_MAX ==> 0 <= v <= RAW_MAX && v + raw == RAW_MAX
  {
    Wrap32(RAW_MAX - raw)
  }

  /** calibrateLow and calibrateHigh: the current raw reading becomes the 0% or the 100% point. */
  function CalibrateLow(l: Light, raw: Int32): (r: Light)
    ensures GetLightValue(r, raw) == 0
    ensures r.hundred == l.hundred && r.floodlight == l.floodlight
  {
    ReadsZeroAtLow(l.(zero := raw));
    l.(zero := raw)
  }

  function CalibrateHigh(l: Light, raw: Int32): (r: Light)
    ensures r.zero == l.zero && r.floodlight == l.floodlight && r.hundred == raw
  {
    l.(hundred := raw)
  }

  /** setLow, setHigh: the calibration points given as normalized values. */
  function SetLow(l: Light, low: Int32): (r: Light)
    ensures GetLow(r) == low && r.hundred == l.hundred
  {
    Wrap32Congruent(RAW_MAX - Wrap32(RAW_MAX - low), low);
    l.(zero := Wrap32(RAW_MAX - low))
  }

  function SetHigh(l: Light, high: Int32): (r: Light)
    ensures GetHigh(r) == high && r.zero == l.zero
  {
    Wrap32Congruent(RAW_MAX - Wrap32(RAW_MAX - high), high);
    l.(hundred := Wrap32(RAW_MAX - high))
  }

  function GetLow(l: Light): Int32
  {
    Wrap32(RAW_MAX - l.zero)
  }

  function GetHigh(l: Light): Int32
  {
    Wrap32(RAW_MAX - l.hundred)
  }

  /** A new sensor reports the full normalized range as its calibration: low 0, high 1023. */
  lemma DefaultCalibration(floodlight: bool)
    ensures GetLow(NewLight(floodlight)) == 0 && GetHigh(NewLight(floodlight)) == RAW_MAX
  {
  }

  /** Setting a calibration point from a normalized reading is calibrating at that raw reading. */
  lemma SetFromNormalized(l: Light, raw: Int32)
    requires 0 <= raw <= RAW_MAX
    ensures SetLow(l, GetNormalizedLightValue(raw)) == CalibrateLow(l, raw)
    ensures SetHigh(l, GetNormalizedLightValue(raw)) == CalibrateHigh(l, raw)
  {
    Wrap32Idempotent(RAW_MAX - raw);
    Wrap32Idempotent(raw);
    assert GetNormalizedLightValue(raw) == RAW_MAX - raw;
    assert Wrap32(RAW_MAX - (RAW_MAX - raw)) == raw;
  }

  /** At the 0% point the sensor reads 0, whatever the calibration. */
  lemma ReadsZeroAtLow(l: Light)
    ensures GetLightValue(l, l.zero) == 0
  {
    if l.hundred != l.zero {
      Wrap32Idempotent(0);
      assert Wrap32(l.zero - l.zero) == 0;
      assert Wrap32(100 * 0) == 0;
      var span := Wrap32(l.hundred - l.zero);
      assert JavaDiv(0, span) == 0;
    }
  }

  /** At the 100% point the sensor reads 100, for raw calibration points within the A/D range. */
  lemma ReadsHundredAtHigh(l: Light)
    requires 0 <= l.zero <= RAW_MAX && 0 <= l.hundred <= RAW_MAX && l.zero != l.hundred
    ensures GetLightValue(l, l.hundred) == 100
  {
    var d := l.hundred - l.zero;
    NoWrapInRange(l, l.hundred);
    assert Abs(100 * d) == 100 * Abs(d);
    DivModUnique(100 * Abs(d), Abs(d), 100, 0);
    assert JavaDiv(100 * d, d) == 100;
    Wrap32Idempotent(100);
  }

  /** A reading between the calibration points (in either order) lies in 0..100. */
  lemma ReadsPercentBetween(l: Light, raw: Int32)
    requires 0 <= l.zero <= RAW_MAX && 0 <= l.hundred <= RAW_MAX && 0 <= raw <= RAW_MAX
    requires l.zero <= raw <= l.hundred || l.hundred <= raw <= l.zero
    ensures 0 <= GetLightValue(l, raw) <= 100
  {
    if l.zero != l.hundred {
      var n := raw - l.zero;
      var d := l.hundred - l.zero;
      NoWrapInRange(l, raw);
      assert Abs(n) <= Abs(d);
      PercentBound(Abs(n), Abs(d));
      SameSignDiv(n, d);
      Wrap32Idempotent(JavaDiv(100 * n, d));
    }
  }

  /** Within the A/D range only the final quotient could wrap. */
  lemma NoWrapInRange(l: Light, raw: Int32)
    requires 0 <= l.zero <= RAW_MAX && 0 <= l.hundred <= RAW_MAX && 0 <= raw <= RAW_MAX && l.zero != l.hundred
    ensures GetLightValue(l, raw) == Wrap32(JavaDiv(100 * (raw - l.zero), l.hundred - l.zero))
  {
    var n := raw - l.zero;
    var d := l.hundred - l.zero;
    Wrap32Idempotent(n);
    Wrap32Idempotent(100 * n);
    Wrap32Idempotent(d);
  }

  lemma SameSignDiv(n: int, d: int)
    requires d != 0 && Abs(n) <= Abs(d) && (n == 0 || (n < 0) == (d < 0))
    requires 0 <= (100 * Abs(n)) / Abs(d) <= 100
    ensures 0 <= JavaDiv(100 * n, d) <= 100
  {
    assert Abs(100 * n) == 100 * Abs(n);
  }

  lemma PercentBound(a: nat, b: nat)
    requires a <= b && b > 0
    ensures 0 <= (100 * a) / b <= 100
  {
    var q := (100 * a) / b;
    assert b * q <= 100 * a <= 100 * b;
    assert b * (q - 100) <= 0;
  }
}
