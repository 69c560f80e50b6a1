/**
 * RemoteMotor: a motor of an NXT driven over LCP direct commands. The model records the
 * commands the motor issues, as values; how NXTCommand encodes and sends them is not
 * part of this model, and their I/O failures are swallowed, as in the source.
 */
module RemoteMotor {
  import opened Bytes
  import opened Results

  /** Output modes, regulation modes and run states of the NXT direct commands (LEGO MINDSTORMS NXT Direct Commands, SETOUTPUTSTATE). */
  const MOTORON: int := 0x01
  const BRAKE: int := 0x02
  const REGULATED: int := 0x04
  const REGULATION_MODE_MOTOR_SPEED: int := 0x01
  const MOTOR_RUN_STATE_IDLE: int := 0x00
  const MOTOR_RUN_STATE_RUNNING: int := 0x20

  const DEFAULT_POWER: int := 80

  /** The degrees per second one percent of power stands for (900 at full power). */
  const SPEED_PER_POWER: int := 9

  datatype Command =
    | SetOutputState(port: int, power: int, mode: int, regulation: int, turnRatio: int, runState: int, tachoLimit: Int32)
    | ResetMotorPosition(port: int, relative: bool)

  /** The motor: its port number, the settings sent with each command, and the commands sent. */
  datatype Motor = Motor(id: int, power: int, mode: int, regulationMode: int, turnRatio: int, runState: int, sent: seq<Command>)

  /** The power is held in a Java `byte`. */
  predicate Valid(m: Motor)
  {
    -128 <= m.power < 128
  }

  /** Java `(byte) x`. */
  function JavaByte(x: int): (b: int)
    ensures -128 <= b < 128 && ByteOf(b) == ByteOf(x)
    ensures -128 <= x < 128 ==> b == x
  {
    Signed8(ByteOf(x))
  }

  /** The constructor: power 80, braking and regulated, speed regulation, even turn ratio, idle. */
  function NewMotor(id: int): (m: Motor)
    ensures Valid(m) && m.sent == [] && m.power == DEFAULT_POWER && m.turnRatio == 0
    ensures m.runState == MOTOR_RUN_STATE_IDLE && m.mode == BRAKE + REGULATED
  {
    Motor(id, DEFAULT_POWER, BRAKE + REGULATED, REGULATION_MODE_MOTOR_SPEED, 0, MOTOR_RUN_STATE_IDLE, [])
  }

  /** getId: ports 0, 1, 2 are 'A', 'B', 'C'; any other number reads as 'A'. */
  function GetId(m: Motor): (c: char)
    ensures c in {'A', 'B', 'C'}
    ensures 0 <= m.id <= 2 ==> c as int == 'A' as int + m.id
    ensures !(0 <= m.id <= 2) ==> c == 'A'
  {
    if m.id == 1 then 'B' else if m.id == 2 then 'C' else 'A'
  }

  /** `c` drives the motor at `power` for `limit` degrees (0: no limit). */
  predicate Drives(c: Command, power: int, limit: Int32)
  {
    c.SetOutputState? && c.power == power && c.tachoLimit == limit && c.runState == MOTOR_RUN_STATE_RUNNING
  }

  /** Since `m`, `r` has issued one command, which drives the motor at `power` for `limit` degrees. */
  predicate SentDrive(m: Motor, r: Motor, power: int, limit: Int32)
  {
    |r.sent| == |m.sent| + 1 && r.sent[..|m.sent|] == m.sent && Drives(r.sent[|m.sent|], power, limit)
  }

  /** The motor running at `power` with its current settings, until `limit` degrees (0: no limit). */
  function Run(m: Motor, power: int, limit: Int32): (r: Motor)
    ensures r.runState == MOTOR_RUN_STATE_RUNNING && r.power == m.power && r.mode == m.mode
    ensures r.sent == m.sent + [SetOutputState(m.id, power, m.mode + MOTORON, m.regulationMode, m.turnRatio, MOTOR_RUN_STATE_RUNNING, limit)]
  {
    var m' := m.(runState := MOTOR_RUN_STATE_RUNNING);
    m'.(sent := m.sent + [SetOutputState(m.id, power, m.mode + MOTORON, m.regulationMode, m.turnRatio, MOTOR_RUN_STATE_RUNNING, limit)])
  }

  function Forward(m: Motor): (r: Motor)
    requires Valid(m)
    ensures Valid(r) && SentDrive(m, r, m.power, 0)
  {
    Run(m, m.power, 0)
  }

  function Backward(m: Motor): (r: Motor)
    requires Valid(m)
    ensures Valid(r) && SentDrive(m, r, JavaByte(-m.power), 0)
  {
    Run(m, JavaByte(-m.power), 0)
  }

  /** Backward runs at the opposite power to forward, except at power -128, whose negation is itself as a byte. */
  lemma BackwardOpposesForward(m: Motor)
    requires Valid(m)
    ensures m.power != -128 ==> Backward(m).sent[|m.sent|].power == -Forward(m).sent[|m.sent|].power
    ensures m.power == -128 ==> Backward(m).sent[|m.sent|].power == -128
  {
  }

  /** setSpeed: speeds outside 0..900 are ignored; otherwise the power becomes speed * 100 / 900. */
  function SetSpeed(m: Motor, speed: Int32): (r: Motor)
    requires Valid(m)
    ensures Valid(r)
    ensures speed < 0 || speed > 900 ==> r == m
    ensures 0 <= speed <= 900 ==> 0 <= r.power <= 100 && r == m.(power := r.power)
  {
    if speed > 900 || speed < 0 then m
    else m.(power := JavaByte(speed * 100 / 900))
  }

  /** setPower: the low byte of the argument. */
  function SetPower(m: Motor, power: Int32): (r: Motor)
    ensures Valid(r) && ByteOf(GetPower(r)) == ByteOf(power)
    ensures -128 <= power < 128 ==> GetPower(r) == power
    ensures r == m.(power := r.power)
  {
    m.(power := JavaByte(power))
  }

  /** getSpeed: power * 900 / 100, truncating. */
  function GetSpeed(m: Motor): (s: int)
    requires Valid(m)
    ensures s == SPEED_PER_POWER * m.power
  {
    JavaDiv(m.power * 900, 100)
  }

  function GetPower(m: Motor): int
  {
    m.power
  }

  /** A speed set in 0..900 reads back rounded down to a multiple of 9, so at most 8 lower. */
  lemma SpeedRoundTrip(m: Motor, speed: Int32)
    requires Valid(m) && 0 <= speed <= 900
    ensures GetSpeed(SetSpeed(m, speed)) == SPEED_PER_POWER * (speed / SPEED_PER_POWER)
    ensures speed - 8 <= GetSpeed(SetSpeed(m, speed)) <= speed
  {
    assert speed * 100 / 900 == speed / 9;
  }

  /**
   * rotate(count): the motor is marked running; a count of 0 sends nothing (the firmware
   * would read a zero limit as "run forever"); a positive count runs at the power for count
   * degrees, a negative one at the negated power for Math.abs(count) degrees.
   */
  function Rotate(m: Motor, count: Int32): (r: Motor)
    requires Valid(m)
    ensures Valid(r) && r.runState == MOTOR_RUN_STATE_RUNNING && r.power == m.power
    ensures count == 0 <==> r.sent == m.sent
    ensures count > 0 ==> SentDrive(m, r, m.power, count)
    ensures count < 0 ==> SentDrive(m, r, JavaByte(-m.power), JavaAbs(count))
  {
    if count == 0 then m.(runState := MOTOR_RUN_STATE_RUNNING)
    else if count > 0 then Run(m, m.power, count)
    else Run(m, JavaByte(-m.power), JavaAbs(count))
  }

  /**
   * The tacho limit the firmware receives is an unsigned 32-bit field, and read that way it
   * is exactly |count| for every non-zero count, including Integer.MIN_VALUE, whose
   * Math.abs is itself.
   */
  lemma RotateLimitIsDistance(m: Motor, count: Int32)
    requires Valid(m) && count != 0
    ensures U32(Rotate(m, count).sent[|m.sent|].tachoLimit) == Abs(count)
  {
  }

  /** rotateTo(limit): rotate by limit minus the tacho count (-1 when it cannot be read), in 32-bit arithmetic. */
  function RotateTo(m: Motor, limit: Int32, tacho: Option<Int32>): (r: Motor)
    requires Valid(m)
    ensures Valid(r)
    ensures r == Rotate(m, Wrap32(limit - GetTachoCount(tacho)))
  {
    Rotate(m, Wrap32(limit - GetTachoCount(tacho)))
  }

  /** getTachoCount: the rotation count, or -1 when the state cannot be read. */
  function GetTachoCount(tacho: Option<Int32>): (c: Int32)
    ensures tacho.Some? ==> c == tacho.value
    ensures tacho.None? ==> c == -1
  {
    match tacho
    case Some(t) => t
    case None => -1
  }

  /** When the count is read and the difference fits an int, the rotation rotateTo requests ends at the limit; at the limit nothing is sent. */
  lemma RotateToLandsOnLimit(m: Motor, limit: Int32, t: Int32)
    requires Valid(m) && INT_MIN <= limit - t <= INT_MAX
    ensures var r := RotateTo(m, limit, Some(t));
      (limit == t <==> r.sent == m.sent)
      && (limit != t ==> t + (if limit > t then 1 else -1) * U32(r.sent[|m.sent|].tachoLimit) == limit)
  {
    Wrap32Idempotent(limit - t);
  }

  /** stop: brake at power 0, marked running. */
  function Stop(m: Motor): (r: Motor)
    requires Valid(m)
    ensures Valid(r) && r.runState == MOTOR_RUN_STATE_RUNNING
    ensures r.sent == m.sent + [SetOutputState(m.id, 0, BRAKE + MOTORON + REGULATED, m.regulationMode, m.turnRatio, MOTOR_RUN_STATE_RUNNING, 0)]
  {
    m.(runState := MOTOR_RUN_STATE_RUNNING,
       sent := m.sent + [SetOutputState(m.id, 0, BRAKE + MOTORON + REGULATED, m.regulationMode, m.turnRatio, MOTOR_RUN_STATE_RUNNING, 0)])
  }

  /** flt: power 0 and no mode bits (coast), idle; the stored mode is set to the idle run state's value, 0. */
  function Flt(m: Motor): (r: Motor)
    requires Valid(m)
    ensures Valid(r) && r.runState == MOTOR_RUN_STATE_IDLE && r.mode == 0
    ensures r.sent == m.sent + [SetOutputState(m.id, 0, 0, m.regulationMode, m.turnRatio, MOTOR_RUN_STATE_IDLE, 0)]
  {
    m.(runState := MOTOR_RUN_STATE_IDLE, mode := MOTOR_RUN_STATE_IDLE,
       sent := m.sent + [SetOutputState(m.id, 0, 0x00, m.regulationMode, m.turnRatio, MOTOR_RUN_STATE_IDLE, 0)])
  }

  /** After flt, forward drives the motor without brake or regulation bits: only MOTORON is set. */
  lemma FltDropsBrakeMode(m: Motor)
    requires Valid(m)
    ensures Forward(Flt(m)).sent[|m.sent| + 1].mode == MOTORON
  {
  }

  /** resetTachoCount (absolute) and resetBlockTacho (relative). */
  function ResetTachoCount(m: Motor): (r: Motor)
    ensures r.sent == m.sent + [ResetMotorPosition(m.id, false)] && r.power == m.power && r.runState == m.runState
  {
    m.(sent := m.sent + [ResetMotorPosition(m.id, false)])
  }

  function ResetBlockTacho(m: Motor, delivered: bool): (r: (int, Motor))
    ensures r.0 == 0 <==> delivered
    ensures r.0 == 0 || r.0 == -1
    ensures r.1.sent == m.sent + [ResetMotorPosition(m.id, true)]
  {
    (if delivered then 0 else -1, m.(sent := m.sent + [ResetMotorPosition(m.id, true)]))
  }

  /** isMoving: the reported run state is not idle; false when it cannot be read. */
  function IsMoving(runState: Option<int>): (b: bool)
    ensures b <==> runState.Some? && runState.value != MOTOR_RUN_STATE_IDLE
  {
    match runState
    case Some(rs) => rs != MOTOR_RUN_STATE_IDLE
    case None => false
  }

  function SetRegulationMode(m: Motor, mode: int): (r: Motor)
    ensures r.regulationMode == mode && r == m.(regulationMode := mode)
  {
    m.(regulationMode := mode)
  }
}
