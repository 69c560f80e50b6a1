/**
 * PSPNXController: the Mindsensors PSP-Nx interface for a PlayStation 2 pad, over the
 * I2C transfers of I2CSensor. Read replies and write statuses are parameters; register
 * writes and read requests are logged as transfers.
 */
module Pspnx {
  import opened Bytes
  import opened Results
  import I2cSensor

  const MODE: int := 0x41
  const ENERGIZED: Byte := 0x45
  const DE_ENERGIZED: Byte := 0x44
  const SET_DIGITAL_MODE: Byte := 0x41
  const SET_ANALOG_MODE: Byte := 0x73
  const SET_ADPA_MODE_ON: Byte := 0x4E
  const SET_ADPA_MODE_OFF: Byte := 0x4F

  const BUTTON_1: int := 0x42
  const BUTTON_2: int := 0x43
  const X_LEFT_JOYSTICK: int := 0x44
  const Y_LEFT_JOYSTICK: int := 0x45
  const X_RIGHT_JOYSTICK: int := 0x46
  const Y_RIGHT_JOYSTICK: int := 0x47

  /** What the stick and mode readers return when the read fails. */
  const READ_FAILED: int := -1

  type Transfer = I2cSensor.Transfer

  /** The controller: its two-byte buffer and the register transfers made. */
  datatype Pad = Pad(buf: seq<Byte>, sent: seq<Transfer>)

  predicate Valid(p: Pad)
  {
    |p.buf| == 2
  }

  /** setMode(command): the command byte written to the mode register; the write's status is returned. */
  function SendMode(p: Pad, command: Byte, answer: int): (r: (int, Pad))
    requires Valid(p)
    ensures r.0 == answer && Valid(r.1) && r.1.buf[0] == command && r.1.buf[1] == p.buf[1]
    ensures r.1.sent == p.sent + [I2cSensor.Wrote(MODE, [command])]
  {
    (answer, Pad([command] + p.buf[1..], p.sent + [I2cSensor.Wrote(MODE, [command])]))
  }

  /** The command byte each boolean mode setter sends. */
  function PowerUpCommand(activate: bool): Byte { if activate then ENERGIZED else DE_ENERGIZED }
  function DigitalModeCommand(activate: bool): Byte { if activate then SET_DIGITAL_MODE else SET_ANALOG_MODE }
  function AdpaModeCommand(activate: bool): Byte { if activate then SET_ADPA_MODE_ON else SET_ADPA_MODE_OFF }

  /** The six mode commands are distinct, so the device can tell every setter's choice apart. */
  lemma ModeCommandsDistinct(a: bool, b: bool)
    ensures PowerUpCommand(a) != DigitalModeCommand(b) && PowerUpCommand(a) != AdpaModeCommand(b)
    ensures DigitalModeCommand(a) != AdpaModeCommand(b)
    ensures PowerUpCommand(a) == PowerUpCommand(b) <==> a == b
    ensures DigitalModeCommand(a) == DigitalModeCommand(b) <==> a == b
    ensures AdpaModeCommand(a) == AdpaModeCommand(b) <==> a == b
  {
  }

  /** The constructor: power up, then digital mode. */
  function NewPad(powerAnswer: int, digitalAnswer: int): (p: Pad)
    ensures Valid(p)
    ensures p.sent == [I2cSensor.Wrote(MODE, [ENERGIZED]), I2cSensor.Wrote(MODE, [SET_DIGITAL_MODE])]
  {
    var p0 := Pad([0, 0], []);
    SendMode(SendMode(p0, PowerUpCommand(true), powerAnswer).1, DigitalModeCommand(true), digitalAnswer).1
  }

  /** Java `(b >> i) & 1` for a byte and 0 <= i < 8: bit i of its pattern. */
  function Bit(b: Byte, i: nat): (r: int)
    ensures r == 0 || r == 1
  {
    Shr(b, i) % 2
  }

  /** Button k is 1 (pressed) iff bit 7 - k mod 8 of byte k / 8 is clear: the buttons are active-low. */
  function ButtonsOf(b0: Byte, b1: Byte): (r: seq<int>)
    ensures |r| == 16
  {
    seq(16, k requires 0 <= k < 16 => if Bit(if k < 8 then b0 else b1, 7 - k % 8) > 0 then 0 else 1)
  }

  /**
   * getButtons: both button bytes in one read; when the read does not return 0 every
   * entry is 0.
   */
  function GetButtons(p: Pad, reply: Option<seq<Byte>>): (r: Result<(seq<int>, Pad), I2cSensor.I2cError>)
    requires Valid(p)
    ensures r.Err? <==> reply.Some? && |reply.value| > 2
    ensures r.Ok? ==> |r.value.0| == 16 && Valid(r.value.1) && r.value.1.sent == p.sent + [I2cSensor.Asked(BUTTON_1, 2)]
    ensures r.Ok? && reply.None? ==> r.value.0 == seq(16, _ => 0)
    ensures r.Ok? && reply.Some? && |reply.value| == 2 ==> r.value.0 == ButtonsOf(reply.value[0], reply.value[1])
  {
    match I2cSensor.ReadIntoBuffer(p.buf, reply)
    case Err(e) => Err(e)
    case Ok((ret, buf)) =>
      var p' := Pad(buf, p.sent + [I2cSensor.Asked(BUTTON_1, 2)]);
      if ret == 0 then Ok((ButtonsOf(buf[0], buf[1]), p'))
      else Ok((seq(16, _ => 0), p'))
  }

  /** The byte a pad with these buttons pressed (most significant first) reports: a pressed button is a clear bit. */
  function PackButtons(pressed: seq<bool>): (r: nat)
    ensures r < Pow2(|pressed|)
  {
    if |pressed| == 0 then 0
    else 2 * PackButtons(pressed[..|pressed| - 1]) + (if pressed[|pressed| - 1] then 0 else 1)
  }

  /** Bit |pressed| - 1 - k of the packed byte is clear exactly when button k is pressed. */
  lemma {:induction false} PackButtonsBit(pressed: seq<bool>, k: nat)
    requires k < |pressed|
    ensures Shr(PackButtons(pressed), |pressed| - 1 - k) % 2 == (if pressed[k] then 0 else 1)
  {
    var n := |pressed|;
    var init := pressed[..n - 1];
    var c := if pressed[n - 1] then 0 else 1;
    assert PackButtons(pressed) == 2 * PackButtons(init) + c;
    if k < n - 1 {
      assert (2 * PackButtons(init) + c) / 2 == PackButtons(init);
      assert Shr(PackButtons(pressed), n - 1 - k) == Shr(PackButtons(init), n - 2 - k);
      PackButtonsBit(init, k);
      assert init[k] == pressed[k];
    }
  }

  /** Decoding the two bytes of any pad state gives back exactly which of the 16 buttons are pressed. */
  lemma ButtonsRoundTrip(pressed: seq<bool>)
    requires |pressed| == 16
    ensures PackButtons(pressed[..8]) < 256 && PackButtons(pressed[8..]) < 256
    ensures ButtonsOf(PackButtons(pressed[..8]), PackButtons(pressed[8..])) == seq(16, k requires 0 <= k < 16 => if pressed[k] then 1 else 0)
  {
    assert Pow2(8) == 256;
    forall k | 0 <= k < 16
      ensures ButtonsOf(PackButtons(pressed[..8]), PackButtons(pressed[8..]))[k] == (if pressed[k] then 1 else 0)
    {
      ButtonAt(pressed, k);
    }
  }

  /** One button of the round trip: entry k of the decoded state is button k. */
  lemma ButtonAt(pressed: seq<bool>, k: nat)
    requires |pressed| == 16 && k < 16
    ensures PackButtons(pressed[..8]) < 256 && PackButtons(pressed[8..]) < 256
    ensures ButtonsOf(PackButtons(pressed[..8]), PackButtons(pressed[8..]))[k] == (if pressed[k] then 1 else 0)
  {
    assert Pow2(8) == 256;
    if k < 8 {
      PackButtonsBit(pressed[..8], k);
      assert pressed[..8][k] == pressed[k];
    } else {
      PackButtonsBit(pressed[8..], k - 8);
      assert pressed[8..][k - 8] == pressed[k];
    }
  }

  /** A stick byte scaled to a percentage: Java `((b & 0xFF) - 128) * 100 / 128`, truncating. */
  function Stick(b: Byte): (r: int)
    ensures -100 <= r <= 99
    ensures r > 0 ==> b > 128
    ensures r < 0 ==> b < 128
    ensures b == 0 ==> r == -100
  {
    JavaDiv((b - 128) * 100, 128)
  }

  /** A centred stick reads 0, and one reading (byte 126) is indistinguishable from a failed read. */
  lemma StickReadings()
    ensures Stick(128) == 0 && Stick(255) == 99
    ensures Stick(126) == READ_FAILED
  {
  }

  /** Moving a stick further never lowers its reading. */
  lemma StickMonotone(a: Byte, b: Byte)
    requires a <= b
    ensures Stick(a) <= Stick(b)
  {
    if a < 128 && b < 128 {
      assert (128 - b) * 100 <= (128 - a) * 100;
      DivMonotone((128 - b) * 100, (128 - a) * 100, 128);
    } else if a >= 128 {
      DivMonotone((a - 128) * 100, (b - 128) * 100, 128);
    }
  }

  lemma DivMonotone(x: nat, y: nat, d: int)
    requires x <= y && d > 0
    ensures x / d <= y / d
  {
    var qx, qy := x / d, y / d;
    assert d * qx <= x;
    assert y < d * (qy + 1);
    assert d * qx < d * (qy + 1);
  }

  /**
   * getLeftX, getLeftY, getRightX, getRightY: one byte read from the stick's register
   * (X_LEFT_JOYSTICK .. Y_RIGHT_JOYSTICK), scaled, or -1 when the read fails.
   */
  function GetStick(p: Pad, register: int, reply: Option<seq<Byte>>): (r: Result<(int, Pad), I2cSensor.I2cError>)
    requires Valid(p)
    ensures r.Err? <==> reply.Some? && |reply.value| > 2
    ensures r.Ok? ==> -100 <= r.value.0 <= 99 && Valid(r.value.1) && r.value.1.sent == p.sent + [I2cSensor.Asked(register, 1)]
    ensures r.Ok? && reply.None? ==> r.value.0 == READ_FAILED
    ensures r.Ok? && reply.Some? && |reply.value| >= 1 ==> r.value.0 == Stick(reply.value[0])
  {
    match I2cSensor.ReadIntoBuffer(p.buf, reply)
    case Err(e) => Err(e)
    case Ok((ret, buf)) => Ok((if ret == 0 then Stick(buf[0]) else READ_FAILED, Pad(buf, p.sent + [I2cSensor.Asked(register, 1)])))
  }

  /** getMode: the mode register as a signed byte, or -1 when the read fails. */
  function GetMode(p: Pad, reply: Option<seq<Byte>>): (r: Result<(int, Pad), I2cSensor.I2cError>)
    requires Valid(p)
    ensures r.Err? <==> reply.Some? && |reply.value| > 2
    ensures r.Ok? ==> -128 <= r.value.0 < 128 && Valid(r.value.1) && r.value.1.sent == p.sent + [I2cSensor.Asked(MODE, 1)]
    ensures r.Ok? && reply.None? ==> r.value.0 == READ_FAILED
    ensures r.Ok? && reply.Some? && |reply.value| >= 1 ==> ByteOf(r.value.0) == reply.value[0]
  {
    match I2cSensor.ReadIntoBuffer(p.buf, reply)
    case Err(e) => Err(e)
    case Ok((ret, buf)) => Ok((if ret == 0 then Signed8(buf[0]) else READ_FAILED, Pad(buf, p.sent + [I2cSensor.Asked(MODE, 1)])))
  }
}
