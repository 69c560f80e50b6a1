/**
 * UltrasonicSensor: the LEGO sonar's mode state machine and its distance reads, over the
 * I2C transfers of I2CSensor. Each read's reply and each write's status are parameters;
 * register writes and read requests are logged as transfers. Timing is not modelled.
 */
module Ultrasonic {
  import opened Bytes
  import opened Results
  import I2cSensor

  const MODE_OFF: int := 0x00
  const MODE_PING: int := 0x01
  const MODE_CONTINUOUS: int := 0x02
  const MODE_CAPTURE: int := 0x03
  const MODE_RESET: int := 0x04

  const REG_FACTORY_DATA: int := 0x11
  const REG_UNITS: int := 0x14
  const REG_CONTINUOUS_INTERVAL: int := 0x40
  const REG_MODE: int := 0x41
  const REG_DISTANCE: int := 0x42
  const REG_CALIBRATION: int := 0x4a

  /** The distance getDistance reports when the read fails. */
  const NO_ECHO: int := 255

  type Transfer = I2cSensor.Transfer

  /** The sensor: the mode it believes the device is in, its 8-byte buffer, and the register transfers made. */
  datatype Sonar = Sonar(mode: int, buff: seq<Byte>, sent: seq<Transfer>)

  datatype SonarError = I2c(cause: I2cSensor.I2cError) | IllegalArgument | IllegalState | IndexOutOfBounds

  predicate ValidMode(mode: int)
  {
    MODE_OFF <= mode <= MODE_CAPTURE
  }

  predicate Valid(s: Sonar)
  {
    ValidMode(s.mode) && |s.buff| == 8
  }

  /** sendData(register, byteBuff, 1), with byteBuff[0] set to `value` first. */
  function SendOne(s: Sonar, register: int, value: Byte): (r: Sonar)
    requires |s.buff| == 8
    ensures r.mode == s.mode && r.buff == [value] + s.buff[1..] && r.sent == s.sent + [I2cSensor.Wrote(register, [value])]
  {
    Sonar(s.mode, [value] + s.buff[1..], s.sent + [I2cSensor.Wrote(register, [value])])
  }

  /** getData(register, byteBuff, count): the request is logged and the reply, if any, lands at the front of the buffer. */
  function Fetch(s: Sonar, register: int, count: int, reply: Option<seq<Byte>>): (r: Result<(int, Sonar), SonarError>)
    requires Valid(s)
    ensures r.Err? <==> reply.Some? && |reply.value| > 8
    ensures r.Ok? ==> Valid(r.value.1) && r.value.1.mode == s.mode && r.value.1.sent == s.sent + [I2cSensor.Asked(register, count)]
    ensures r.Ok? ==> (r.value.0 == -1 <==> reply.None?) && (r.value.0 == 0 <==> reply.Some?)
    ensures r.Ok? && reply.None? ==> r.value.1.buff == s.buff
    ensures r.Ok? && reply.Some? ==> r.value.1.buff[..|reply.value|] == reply.value
  {
    match I2cSensor.ReadIntoBuffer(s.buff, reply)
    case Err(e) => Err(I2c(e))
    case Ok((ret, buff)) =>
      assert reply.Some? ==> buff[..|reply.value|] == reply.value;
      Ok((ret, Sonar(s.mode, buff, s.sent + [I2cSensor.Asked(register, count)])))
  }

  /**
   * setMode: an unknown mode throws. The mode byte is written to the mode register, and
   * only when the write returns 0 does the sensor record the new mode, with reset recorded
   * as off. The write's status is returned.
   */
  function SetMode(s: Sonar, mode: int, answer: int): (r: Result<(int, Sonar), SonarError>)
    requires Valid(s)
    ensures r.Err? <==> !(MODE_OFF <= mode <= MODE_RESET)
    ensures r.Ok? ==> Valid(r.value.1) && r.value.0 == answer
    ensures r.Ok? ==> r.value.1.sent == s.sent + [I2cSensor.Wrote(REG_MODE, [mode])]
    ensures r.Ok? && answer != 0 ==> r.value.1.mode == s.mode
    ensures r.Ok? && answer == 0 ==> r.value.1.mode == (if mode == MODE_RESET then MODE_OFF else mode)
  {
    if !(MODE_OFF <= mode <= MODE_RESET) then Err(IllegalArgument)
    else
      var s' := SendOne(s, REG_MODE, mode);
      if answer == 0 then Ok((answer, s'.(mode := if mode == MODE_RESET then MODE_OFF else mode)))
      else Ok((answer, s'))
  }

  /** The constructor: a reset, then continuous mode if the reset's status is not negative. */
  function NewSonar(resetAnswer: int, continuousAnswer: int): (s: Sonar)
    ensures Valid(s)
    ensures s.sent == [I2cSensor.Wrote(REG_MODE, [MODE_RESET])] + (if resetAnswer >= 0 then [I2cSensor.Wrote(REG_MODE, [MODE_CONTINUOUS])] else [])
    ensures s.mode == (if resetAnswer >= 0 && continuousAnswer == 0 then MODE_CONTINUOUS
                       else if resetAnswer == 0 then MODE_OFF else MODE_CONTINUOUS)
  {
    var s0 := Sonar(MODE_CONTINUOUS, seq(8, _ => 0), []);
    var s1 := SetMode(s0, MODE_RESET, resetAnswer).value.1;
    if resetAnswer >= 0 then SetMode(s1, MODE_CONTINUOUS, continuousAnswer).value.1 else s1
  }

  /** getDistance: refused when off; one byte asked of the distance register, or 255 when the read fails. */
  function GetDistance(s: Sonar, reply: Option<seq<Byte>>): (r: Result<(int, Sonar), SonarError>)
    requires Valid(s)
    ensures s.mode == MODE_OFF ==> r == Err(IllegalState)
    ensures r.Ok? ==> 0 <= r.value.0 <= 255 && Valid(r.value.1)
    ensures r.Ok? ==> r.value.1.sent == s.sent + [I2cSensor.Asked(REG_DISTANCE, 1)]
    ensures r.Ok? && reply.None? ==> r.value.0 == NO_ECHO
    ensures r.Ok? && reply.Some? && |reply.value| >= 1 ==> r.value.0 == reply.value[0]
    ensures s.mode != MODE_OFF ==> (r.Err? <==> reply.Some? && |reply.value| > 8)
  {
    if s.mode == MODE_OFF then Err(IllegalState)
    else match Fetch(s, REG_DISTANCE, 1, reply)
      case Err(e) => Err(e)
      case Ok((ret, s')) =>
        if ret < 0 then Ok((NO_ECHO, s'))
        else Ok((s'.buff[0] as int, s'))
  }

  /** The most echoes one read returns: 1 in capture mode, 8 otherwise. */
  function MaxEchoes(mode: int): int
  {
    if mode == MODE_CAPTURE then 1 else 8
  }

  /** The echoes before the first 0xFF (no echo) among the first n bytes. */
  function Echoes(b: seq<Byte>, n: nat): (count: nat)
    requires n <= |b|
    ensures count <= n && forall k :: 0 <= k < count ==> b[k] != 0xFF
    ensures count < n ==> b[count] == 0xFF
  {
    if n == 0 || b[0] == 0xFF then 0 else 1 + Echoes(b[1..], n - 1)
  }

  /**
   * getDistances(dist, off, len): 0 for len 0; a negative len throws, and so does a sensor
   * that is off. Otherwise asks the distance register for min(len, MaxEchoes) bytes and copies them into
   * dist from off, stopping at the first 0xFF; returns how many, or the read's -1.
   */
  function GetDistances(s: Sonar, dist: seq<int>, off: int, len: int, reply: Option<seq<Byte>>): (r: Result<(int, seq<int>, Sonar), SonarError>)
    requires Valid(s)
    ensures len == 0 ==> r == Ok((0, dist, s))
    ensures len < 0 ==> r == Err(IllegalArgument)
    ensures len > 0 && s.mode == MODE_OFF ==> r == Err(IllegalState)
    ensures r.Ok? ==> Valid(r.value.2) && |r.value.1| == |dist| && r.value.2.mode == s.mode
    ensures r.Ok? && len > 0 ==>
      r.value.2.sent == s.sent + [I2cSensor.Asked(REG_DISTANCE, if len > MaxEchoes(s.mode) then MaxEchoes(s.mode) else len)]
    ensures r.Ok? && len > 0 && reply.None? ==> r.value.0 == -1 && r.value.1 == dist
    ensures r.Ok? && r.value.0 >= 0 ==>
      var n := r.value.0;
      var clamped := if len > MaxEchoes(s.mode) then MaxEchoes(s.mode) else len;
      n <= clamped && n <= MaxEchoes(s.mode)
      && (n > 0 ==> 0 <= off && off + n <= |dist|)
      && (forall k :: 0 <= k < n ==> r.value.1[off + k] == r.value.2.buff[k] != 0xFF)
      && (n < clamped ==> r.value.2.buff[n] == 0xFF)
      && (forall k :: 0 <= k < |dist| && !(off <= k < off + n) ==> r.value.1[k] == dist[k])
  {
    if len == 0 then Ok((0, dist, s))
    else if len < 0 then Err(IllegalArgument)
    else if s.mode == MODE_OFF then Err(IllegalState)
    else
      var n := if len > MaxEchoes(s.mode) then MaxEchoes(s.mode) else len;
      match Fetch(s, REG_DISTANCE, n, reply)
      case Err(e) => Err(e)
      case Ok((ret, s')) =>
        if ret < 0 then Ok((ret, dist, s'))
        else
          var buff := s'.buff;
          var count := Echoes(buff, n);
          if count > 0 && (off < 0 || off + count > |dist|) then Err(IndexOutOfBounds)
          else if count == 0 then Ok((0, dist, s'))
          else
            var dist' := dist[..off] + buff[..count] + dist[off + count..];
            assert forall k :: 0 <= k < count ==> dist'[off + k] == buff[k];
            Ok((count, dist', s'))
  }

  /** setContinuousInterval: only 0..255 is accepted; the byte goes to the interval register. */
  function SetContinuousInterval(s: Sonar, interval: int, answer: int): (r: Result<(int, Sonar), SonarError>)
    requires Valid(s)
    ensures r.Err? <==> interval < 0 || interval > 0xFF
    ensures r.Ok? ==> r.value.0 == answer && Valid(r.value.1) && r.value.1.sent == s.sent + [I2cSensor.Wrote(REG_CONTINUOUS_INTERVAL, [interval])]
  {
    if interval < 0 || interval > 0xFF then Err(IllegalArgument)
    else Ok((answer, SendOne(s, REG_CONTINUOUS_INTERVAL, interval)))
  }

  /** One byte asked of a register: its unsigned value, or the read's -1. */
  function ReadRegisterByte(s: Sonar, register: int, reply: Option<seq<Byte>>): (r: Result<(int, Sonar), SonarError>)
    requires Valid(s)
    ensures r.Err? <==> reply.Some? && |reply.value| > 8
    ensures r.Ok? ==> Valid(r.value.1) && r.value.1.mode == s.mode && r.value.1.sent == s.sent + [I2cSensor.Asked(register, 1)]
    ensures r.Ok? ==> -1 <= r.value.0 <= 255 && (r.value.0 == -1 <==> reply.None?)
    ensures r.Ok? && reply.Some? && |reply.value| >= 1 ==> r.value.0 == reply.value[0]
  {
    match Fetch(s, register, 1, reply)
    case Err(e) => Err(e)
    case Ok((ret, s')) => Ok((if ret < 0 then ret else s'.buff[0] as int, s'))
  }

  /** getContinuousInterval: the byte of the continuous-interval register. */
  function GetContinuousInterval(s: Sonar, reply: Option<seq<Byte>>): (r: Result<(int, Sonar), SonarError>)
    requires Valid(s)
    ensures r.Ok? ==> r.value.1.sent == s.sent + [I2cSensor.Asked(REG_CONTINUOUS_INTERVAL, 1)]
    ensures r.Ok? && reply.Some? && |reply.value| >= 1 ==> r.value.0 == reply.value[0]
    ensures r.Ok? && reply.None? ==> r.value.0 == -1
  {
    ReadRegisterByte(s, REG_CONTINUOUS_INTERVAL, reply)
  }

  /** getActualMode: the byte of the mode register, as the hardware reports it. */
  function GetActualMode(s: Sonar, reply: Option<seq<Byte>>): (r: Result<(int, Sonar), SonarError>)
    requires Valid(s)
    ensures r.Ok? ==> r.value.1.sent == s.sent + [I2cSensor.Asked(REG_MODE, 1)]
    ensures r.Ok? && reply.Some? && |reply.value| >= 1 ==> r.value.0 == reply.value[0]
    ensures r.Ok? && reply.None? ==> r.value.0 == -1
  {
    ReadRegisterByte(s, REG_MODE, reply)
  }

  /**
   * getMultiBytes(reg, data, len): one single-byte read per register reg, reg+1, ...,
   * stopping at the first failure (-1), with the bytes read so far already stored in data.
   */
  function GetMultiBytes(s: Sonar, reg: int, data: seq<Byte>, i: nat, len: nat, replies: seq<Option<seq<Byte>>>): (r: Result<(int, seq<Byte>, Sonar), SonarError>)
    requires Valid(s) && len <= |data| && i <= len && |replies| == len
    ensures r.Ok? ==> Valid(r.value.2) && r.value.2.mode == s.mode && |r.value.1| == |data| && r.value.0 in {0, -1}
    ensures r.Ok? ==> (r.value.0 == 0 <==> forall k :: i <= k < len ==> replies[k].Some?)
    ensures r.Ok? && r.value.0 == 0 ==> forall k :: i <= k < len && |replies[k].value| >= 1 ==> r.value.1[k] == replies[k].value[0]
    ensures r.Ok? && r.value.0 == 0 ==> r.value.2.sent == s.sent + seq(len - i, k requires 0 <= k < len - i => I2cSensor.Asked(reg + i + k, 1))
    ensures r.Ok? ==> r.value.1[..i] == data[..i] && r.value.1[len..] == data[len..]
    decreases len - i
  {
    if i == len then Ok((0, data, s))
    else match ReadRegisterByte(s, reg + i, replies[i])
      case Err(e) => Err(e)
      case Ok((v, s')) =>
        if v < 0 then Ok((v, data, s'))
        else
          var r := GetMultiBytes(s', reg, data[i := v], i + 1, len, replies);
          assert s'.sent + seq(len - (i + 1), k requires 0 <= k < len - (i + 1) => I2cSensor.Asked(reg + (i + 1) + k, 1))
                 == s.sent + seq(len - i, k requires 0 <= k < len - i => I2cSensor.Asked(reg + i + k, 1));
          r
  }

  /** setMultiBytes(reg, data, len): one single-byte write per register, stopping at the first negative status. */
  function SetMultiBytes(s: Sonar, reg: int, data: seq<Byte>, i: nat, len: nat, answers: seq<int>): (r: (int, Sonar))
    requires Valid(s) && len <= |data| && i <= len && |answers| == len
    ensures Valid(r.1) && r.1.mode == s.mode
    ensures r.0 == 0 <==> forall k :: i <= k < len ==> answers[k] >= 0
    ensures r.0 == 0 ==> r.1.sent == s.sent + seq(len - i, k requires 0 <= k < len - i => I2cSensor.Wrote(reg + i + k, [data[i + k]]))
    ensures r.0 != 0 ==> r.0 < 0
    decreases len - i
  {
    if i == len then (0, s)
    else
      var s' := SendOne(s, reg + i, data[i]);
      if answers[i] < 0 then (answers[i], s')
      else
        var r := SetMultiBytes(s', reg, data, i + 1, len, answers);
        assert s'.sent + seq(len - (i + 1), k requires 0 <= k < len - (i + 1) => I2cSensor.Wrote(reg + (i + 1) + k, [data[i + 1 + k]]))
               == s.sent + seq(len - i, k requires 0 <= k < len - i => I2cSensor.Wrote(reg + i + k, [data[i + k]]));
        r
  }

  /** getFactoryData, getCalibrationData: an array shorter than 3 throws; otherwise single-byte reads of reg, reg+1, reg+2. */
  function GetThree(s: Sonar, reg: int, data: seq<Byte>, replies: seq<Option<seq<Byte>>>): (r: Result<(int, seq<Byte>, Sonar), SonarError>)
    requires Valid(s) && |replies| == 3
    ensures |data| < 3 ==> r == Err(IllegalArgument)
    ensures r.Ok? ==> (r.value.0 == 0 <==> replies[0].Some? && replies[1].Some? && replies[2].Some?)
    ensures r.Ok? ==> |r.value.1| == |data| && r.value.1[3..] == data[3..]
    ensures r.Ok? && r.value.0 == 0 ==>
      r.value.2.sent == s.sent + [I2cSensor.Asked(reg, 1), I2cSensor.Asked(reg + 1, 1), I2cSensor.Asked(reg + 2, 1)]
      && (forall k :: 0 <= k < 3 && |replies[k].value| >= 1 ==> r.value.1[k] == replies[k].value[0])
  {
    if |data| < 3 then Err(IllegalArgument)
    else
      var r := GetMultiBytes(s, reg, data, 0, 3, replies);
      assert r.Ok? ==> (r.value.0 == 0 <==> forall k :: 0 <= k < 3 ==> replies[k].Some?);
      r
  }

  /** getFactoryData: the three factory bytes from 0x11. */
  function GetFactoryData(s: Sonar, data: seq<Byte>, replies: seq<Option<seq<Byte>>>): (r: Result<(int, seq<Byte>, Sonar), SonarError>)
    requires Valid(s) && |replies| == 3
    ensures |data| < 3 ==> r == Err(IllegalArgument)
    ensures r.Ok? && r.value.0 == 0 ==>
      r.value.2.sent == s.sent + [I2cSensor.Asked(0x11, 1), I2cSensor.Asked(0x12, 1), I2cSensor.Asked(0x13, 1)]
  {
    GetThree(s, REG_FACTORY_DATA, data, replies)
  }

  /** getCalibrationData: the three calibration bytes from 0x4A. */
  function GetCalibrationData(s: Sonar, data: seq<Byte>, replies: seq<Option<seq<Byte>>>): (r: Result<(int, seq<Byte>, Sonar), SonarError>)
    requires Valid(s) && |replies| == 3
    ensures |data| < 3 ==> r == Err(IllegalArgument)
    ensures r.Ok? && r.value.0 == 0 ==>
      r.value.2.sent == s.sent + [I2cSensor.Asked(0x4A, 1), I2cSensor.Asked(0x4B, 1), I2cSensor.Asked(0x4C, 1)]
  {
    GetThree(s, REG_CALIBRATION, data, replies)
  }

  /** setCalibrationData: an array shorter than 3 throws; otherwise three single-byte writes to the calibration registers. */
  function SetCalibrationData(s: Sonar, data: seq<Byte>, answers: seq<int>): (r: Result<(int, Sonar), SonarError>)
    requires Valid(s) && |answers| == 3
    ensures |data| < 3 <==> r == Err(IllegalArgument)
    ensures r.Ok? ==> r.value == SetMultiBytes(s, REG_CALIBRATION, data, 0, 3, answers)
  {
    if |data| < 3 then Err(IllegalArgument) else Ok(SetMultiBytes(s, REG_CALIBRATION, data, 0, 3, answers))
  }

  /** setCalibrationData writes exactly the three registers getCalibrationData reads, in the same order. */
  lemma CalibrationAccessorsAgree(s: Sonar, data: seq<Byte>, answers: seq<int>, replies: seq<Option<seq<Byte>>>)
    requires Valid(s) && |data| >= 3 && |answers| == 3 && |replies| == 3
    requires SetCalibrationData(s, data, answers).Ok? && SetCalibrationData(s, data, answers).value.0 == 0
    requires GetCalibrationData(s, data, replies).Ok? && GetCalibrationData(s, data, replies).value.0 == 0
    ensures var w := SetCalibrationData(s, data, answers).value.1.sent[|s.sent|..];
            var g := GetCalibrationData(s, data, replies).value.2.sent[|s.sent|..];
            |w| == |g| == 3 && forall k :: 0 <= k < 3 ==> w[k].Wrote? && g[k].Asked? && w[k].register == g[k].register
  {
  }

  /** After a successful switch to off or reset, every distance read is refused; after any other successful switch, none is. */
  lemma SwitchedOffRefusesReads(s: Sonar, mode: int, reply: Option<seq<Byte>>, dist: seq<int>, off: int, len: int)
    requires Valid(s) && MODE_OFF <= mode <= MODE_RESET
    ensures var s' := SetMode(s, mode, 0).value.1;
      (GetDistance(s', reply) == Err(IllegalState) <==> mode == MODE_OFF || mode == MODE_RESET)
      && (len > 0 ==> (GetDistances(s', dist, off, len, reply) == Err(IllegalState) <==> mode == MODE_OFF || mode == MODE_RESET))
  {
  }

  /** A failed mode write leaves what reads are allowed unchanged. */
  lemma FailedSwitchKeepsMode(s: Sonar, mode: int, answer: int, reply: Option<seq<Byte>>)
    requires Valid(s) && MODE_OFF <= mode <= MODE_RESET && answer != 0
    ensures GetDistance(SetMode(s, mode, answer).value.1, reply) == Err(IllegalState) <==> s.mode == MODE_OFF
  {
  }

  /** Echoes counts exactly the bytes before the first 0xFF, capped at n: any prefix without 0xFF is no longer. */
  lemma {:induction false} EchoesMaximal(b: seq<Byte>, n: nat, m: nat)
    requires n <= |b| && m <= n
    requires forall k :: 0 <= k < m ==> b[k] != 0xFF
    ensures m <= Echoes(b, n)
    decreases n
  {
    if m > 0 {
      EchoesMaximal(b[1..], n - 1, m - 1);
    }
  }
}
