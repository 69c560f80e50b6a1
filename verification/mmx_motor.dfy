/**
 * MMXMotor: one motor of the NXTMMX multiplexer. Every action is an I2C register write
 * through the multiplexer; the model records them as (register, byte) pairs.
 */
module MmxMotor {
  import opened Bytes
  import SambaFormat

  const CONTROL_SPEED: int := 0x01
  const CONTROL_RAMP: int := 0x02
  const CONTROL_GO: int := 0x80
  const REG_MUX_COMMAND: int := 0x41
  /** The "never set" power that forces the first setPower to send. */
  const POWER_INIT: int := -9999

  /** The registers and command codes of one motor. */
  datatype Registers = Registers(rotateTo: int, speed: int, runTime: int, commandReg: int, tacPos: int,
                                 status: int, tasks: int, resetTacho: int, stop: int, float: int)

  /** The constructor's register layout: motor 1 (index 0) registers, shifted by the motor index. */
  function RegistersOf(motor: int): Registers
  {
    Registers(0x42 + motor * 8, 0x46 + motor * 8, 0x47 + motor * 8, 0x49 + motor * 8, 0x62 + motor * 4,
              0x72 + motor, 0x76 + motor, 0x72 + motor, 'A' as int + motor, 'a' as int + motor)
  }

  /** The two motors of the multiplexer use the A and B register banks of the device's register map. */
  lemma RegisterBanks()
    ensures RegistersOf(0) == Registers(0x42, 0x46, 0x47, 0x49, 0x62, 0x72, 0x76, 0x72, 0x41, 0x61)
    ensures RegistersOf(1) == Registers(0x4A, 0x4E, 0x4F, 0x51, 0x66, 0x73, 0x77, 0x73, 0x42, 0x62)
  {
  }

  type Direction = d: int | d == 1 || d == -1 witness 1

  /** A motor: its registers, the multiplexer's auto-start flag, its fields, and every register write made. */
  datatype Motor = Motor(regs: Registers, autoStart: bool, rampUp: bool, running: bool, currentPower: Int32,
                         direction: Direction, sent: seq<(int, Byte)>)

  /** What the fields keep: the power is unset, or a percentage whose sign is the motor's direction. */
  predicate Valid(m: Motor)
  {
    m.currentPower == POWER_INIT || 0 <= m.currentPower * m.direction <= 100
  }

  /** new MMXMotor(mux, motor): ramping, idle, forward, power unset, nothing sent. */
  function NewMotor(motor: int, autoStart: bool): (m: Motor)
    ensures Valid(m) && GetPower(m) == 0 && !IsMoving(m) && m.sent == []
    ensures m.regs == RegistersOf(motor)
  {
    Motor(RegistersOf(motor), autoStart, true, false, POWER_INIT, 1, [])
  }

  /** The command byte motorGO(0) writes. */
  function GoCommand(m: Motor): int
  {
    CONTROL_SPEED + (if m.rampUp then CONTROL_RAMP else 0) + (if m.autoStart || m.running then CONTROL_GO else 0)
  }

  /** motorGO(0): writes the command byte to the motor's command register. */
  function MotorGo(m: Motor): (r: Motor)
    ensures r == m.(sent := m.sent + [(m.regs.commandReg, GoCommand(m))])
    ensures var c := GoCommand(m);
            c % 2 == 1 && ((c / 2) % 2 == 1 <==> m.rampUp) && (c / 0x80 == 1 <==> m.autoStart || m.running)
            && c / 4 % 0x20 == 0
  {
    m.(sent := m.sent + [(m.regs.commandReg, GoCommand(m))])
  }

  /** setPower as written: Math.abs, which leaves Integer.MIN_VALUE negative, then the clamp and the sign. */
  function SetPowerAsWritten(m: Motor, power: Int32): Motor
  {
    var p0 := JavaAbs(power);
    var p1 := if p0 > 100 then 100 else p0;
    var p := Wrap32(p1 * m.direction);
    if m.currentPower == p then m
    else
      var m' := m.(sent := m.sent + [(m.regs.speed, ByteOf(p))], currentPower := p);
      if m.running then MotorGo(m') else m'
  }

  /** The power setPower stores: the magnitude clamped to 100, with the motor's direction as sign. */
  function SignedPower(m: Motor, power: int): (p: Int32)
    ensures 0 <= p * m.direction <= 100 && Abs(p) == (if Abs(power) > 100 then 100 else Abs(power))
  {
    (if Abs(power) > 100 then 100 else Abs(power)) * m.direction
  }

  /**
   * setPower: stores the clamped, signed power; writes it to the speed register only when
   * it changes, and re-issues the go command when a run command is active.
   */
  function SetPower(m: Motor, power: Int32): (r: Motor)
    ensures Valid(r) && r.currentPower == SignedPower(m, power)
    ensures GetPower(r) == (if Abs(power) > 100 then 100 else Abs(power))
    ensures r.running == m.running && r.direction == m.direction && r.rampUp == m.rampUp
    ensures m.currentPower == SignedPower(m, power) ==> r == m
    ensures m.currentPower != SignedPower(m, power) ==>
      r.sent == m.sent + [(m.regs.speed, ByteOf(SignedPower(m, power)))]
        + (if m.running then [(m.regs.commandReg, GoCommand(m))] else [])
  {
    var p := SignedPower(m, power);
    if m.currentPower == p then m
    else
      var m' := m.(sent := m.sent + [(m.regs.speed, ByteOf(p))], currentPower := p);
      assert GoCommand(m') == GoCommand(m);
      if m.running then MotorGo(m') else m'
  }

  /** For every power but Integer.MIN_VALUE the two readings store the same value. */
  lemma SetPowerAgreement(m: Motor, power: Int32)
    requires power != INT_MIN
    ensures SetPowerAsWritten(m, power) == SetPower(m, power)
  {
  }

  /** setPower(Integer.MIN_VALUE) as written stores Integer.MIN_VALUE, and getPower then reports a negative power. */
  lemma SetPowerMinValue()
    ensures var m := SetPowerAsWritten(NewMotor(0, true), INT_MIN);
            m.currentPower == INT_MIN && GetPower(m) == INT_MIN
            && m.sent == [(RegistersOf(0).speed, 0)]
  {
    var m := SetPowerAsWritten(NewMotor(0, true), INT_MIN);
    assert JavaAbs(INT_MIN) == INT_MIN;
    assert Wrap32(INT_MIN * 1) == INT_MIN;
    assert ByteOf(INT_MIN) == 0;
  }

  /** getPower: 0 before any power was set, otherwise Math.abs of the stored power. */
  function GetPower(m: Motor): int
  {
    if m.currentPower == POWER_INIT then 0 else JavaAbs(m.currentPower)
  }

  lemma GetPowerRange(m: Motor)
    requires Valid(m)
    ensures 0 <= GetPower(m) <= 100
  {
  }

  /**
   * forward/backward (doMotorDirection): marks a run command active; a change of direction
   * goes through setPower with the stored power, so a non-zero power (even an unset one,
   * which clamps to 100) is re-sent with the new sign and followed by a go command, while
   * power 0 sends nothing; the same direction just re-issues the go command.
   */
  function DoMotorDirection(m: Motor, direction: Direction): (r: Motor)
    requires Valid(m)
    ensures Valid(r) && r.running && r.direction == direction
    ensures direction == m.direction ==> r == m.(running := true, sent := m.sent + [(m.regs.commandReg, GoCommand(m.(running := true)))])
    ensures direction != m.direction ==> r.currentPower == -m.currentPower || (m.currentPower == POWER_INIT && r.currentPower == 100 * direction)
    ensures direction != m.direction && m.currentPower == 0 ==> r.sent == m.sent
    ensures direction != m.direction && m.currentPower != 0 ==>
      r.sent == m.sent + [(m.regs.speed, ByteOf(r.currentPower)), (m.regs.commandReg, GoCommand(m.(running := true)))]
  {
    var m' := m.(running := true);
    if m.direction != direction then SetPower(m'.(direction := direction), m.currentPower)
    else MotorGo(m')
  }

  function Forward(m: Motor): (r: Motor)
    requires Valid(m)
    ensures r == DoMotorDirection(m, 1) && r.direction == 1 && IsMoving(r)
  {
    DoMotorDirection(m, 1)
  }

  function Backward(m: Motor): (r: Motor)
    requires Valid(m)
    ensures r == DoMotorDirection(m, -1) && r.direction == -1 && IsMoving(r)
  {
    DoMotorDirection(m, -1)
  }

  /** flt: if a run command is active, the motor's float command to the multiplexer command register; afterwards not moving. */
  function Flt(m: Motor): (r: Motor)
    ensures !IsMoving(r)
    ensures !m.running ==> r == m
    ensures m.running ==> r == m.(running := false, sent := m.sent + [(REG_MUX_COMMAND, ByteOf(m.regs.float))])
  {
    if !m.running then m
    else m.(sent := m.sent + [(REG_MUX_COMMAND, ByteOf(m.regs.float))], running := false)
  }

  /** stop: if a run command is active, the motor's brake command; afterwards not moving. */
  function Stop(m: Motor): (r: Motor)
    ensures !IsMoving(r)
    ensures !m.running ==> r == m
    ensures m.running ==> r == m.(running := false, sent := m.sent + [(REG_MUX_COMMAND, ByteOf(m.regs.stop))])
  {
    if !m.running then m
    else m.(sent := m.sent + [(REG_MUX_COMMAND, ByteOf(m.regs.stop))], running := false)
  }

  /** resetTachoCount: the motor's reset command to the multiplexer command register. */
  function ResetTachoCount(m: Motor): (r: Motor)
    ensures r == m.(sent := m.sent + [(REG_MUX_COMMAND, ByteOf(m.regs.resetTacho))])
  {
    m.(sent := m.sent + [(REG_MUX_COMMAND, ByteOf(m.regs.resetTacho))])
  }

  function IsMoving(m: Motor): bool
  {
    m.running
  }

  // ---------------------------------------------------------------------------------------
  // The int codec of the tacho registers

  /** intToByteArray: the four bytes of an int, least significant first (the same encoding as SAM-BA's encodeInt). */
  function IntToBytes(v: Int32): (r: seq<Byte>)
    ensures |r| == 4 && r == EncodeLE(U32(v), 4)
  {
    SambaFormat.EncodeIntLE(v);
    SambaFormat.EncodeInt(v)
  }

  /** byteArrayToInt: the top byte sign-extended and shifted, the others unsigned. */
  function BytesToInt(b: seq<Byte>): (v: Int32)
    requires |b| >= 4
  {
    Signed8(b[3]) * 0x100_0000 + b[2] as int * 0x1_0000 + b[1] as int * 0x100 + b[0] as int
  }

  /** The four bytes as an unsigned little-endian number. */
  lemma DecodeFour(b: seq<Byte>)
    requires |b| == 4
    ensures DecodeLE(b) == b[0] as int + 0x100 * b[1] as int + 0x1_0000 * b[2] as int + 0x100_0000 * b[3] as int
  {
    assert DecodeLE(b[3..]) == b[3] by { assert b[3..][1..] == []; }
    assert DecodeLE(b[2..]) == b[2] + 256 * DecodeLE(b[3..]) by { assert b[2..][1..] == b[3..]; }
    assert DecodeLE(b[1..]) == b[1] + 256 * DecodeLE(b[2..]) by { assert b[1..][1..] == b[2..]; }
  }

  /** byteArrayToInt reads any four bytes as the int with that little-endian bit pattern. */
  lemma BytesToIntLE(b: seq<Byte>)
    requires |b| == 4
    ensures BytesToInt(b) == Wrap32(DecodeLE(b))
  {
    DecodeFour(b);
    var u := DecodeLE(b);
    if b[3] >= 128 {
      assert BytesToInt(b) == u - TWO_32;
      Wrap32Congruent(u - TWO_32, u);
      Wrap32Idempotent(u - TWO_32);
    } else {
      Wrap32Idempotent(u);
    }
  }

  /** byteArrayToInt(intToByteArray(v)) == v for every int. */
  lemma IntBytesRoundTrip(v: Int32)
    ensures BytesToInt(IntToBytes(v)) == v
  {
    var b := IntToBytes(v);
    BytesToIntLE(b);
    DecodeEncodeLE(U32(v), 4);
    assert Pow256(4) == TWO_32;
  }

  /** intToByteArray(byteArrayToInt(b)) == b for every four bytes. */
  lemma BytesIntRoundTrip(b: seq<Byte>)
    requires |b| == 4
    ensures IntToBytes(BytesToInt(b)) == b
  {
    var u := DecodeLE(b);
    BytesToIntLE(b);
    DecodeLEBound(b);
    assert Pow256(4) == TWO_32;
    U32OfWrap(u);
    EncodeDecodeLE(b);
    assert IntToBytes(BytesToInt(b)) == EncodeLE(u, 4);
  }

  /** getTachoCount: the tacho position register's four bytes, once a read succeeds. */
  function GetTachoCount(reply: seq<Byte>): (v: Int32)
    requires |reply| == 4
    ensures IntToBytes(v) == reply
  {
    BytesIntRoundTrip(reply);
    BytesToInt(reply)
  }
}
