/**
 * OpticalDistanceSensor (mindsensors DIST-Nx): 8- and 16-bit register reads and writes
 * through a two-byte buffer the sensor object keeps, and the addressing of the custom
 * calibration points. Register writes and read requests are logged as transfers; a read's
 * reply is a parameter.
 */
module OpticalDistance {
  import opened Bytes
  import opened Results
  import I2cSensor

  const COMMAND: int := 0x41
  const DIST_DATA_LSB: int := 0x42
  const DIST_DATA_MSB: int := 0x43
  const VOLT_DATA_LSB: int := 0x44
  const VOLT_DATA_MSB: int := 0x45
  const SENSOR_MOD_TYPE: int := 0x50
  const CURVE: int := 0x51
  const DIST_MIN_DATA_LSB: int := 0x52
  const DIST_MIN_DATA_MSB: int := 0x53
  const DIST_MAX_DATA_LSB: int := 0x54
  const DIST_MAX_DATA_MSB: int := 0x55
  const VOLT_DATA_POINT_LSB: int := 0x52
  const VOLT_DATA_POINT_MSB: int := 0x53
  const DIST_DATA_POINT_LSB: int := 0x54
  const DIST_DATA_POINT_MSB: int := 0x55

  const GP2D12: Byte := 0x31
  const GP2D120: Byte := 0x32
  const GP2YA21: Byte := 0x33
  const GP2YA02: Byte := 0x34
  const CUSTOM: Byte := 0x35

  const DE_ENERGIZED: Byte := 0x44
  const ENERGIZED: Byte := 0x45
  const ARPA_ON: Byte := 0x4E
  const ARPA_OFF: Byte := 0x4F

  type Transfer = I2cSensor.Transfer

  /** The sensor: its two-byte buffer and the register transfers made so far. */
  datatype Ods = Ods(buf: seq<Byte>, sent: seq<Transfer>)

  predicate Valid(o: Ods)
  {
    |o.buf| == 2
  }

  type OdsError = I2cSensor.I2cError

  /** The constructor: an empty buffer, and the sensor powered on. */
  function NewOds(): (o: Ods)
    ensures Valid(o) && o.sent == [I2cSensor.Wrote(COMMAND, [ENERGIZED])]
  {
    SendByte(Ods([0, 0], []), COMMAND, ENERGIZED)
  }

  /** sendData(register, value). */
  function SendByte(o: Ods, register: int, value: Byte): (r: Ods)
    ensures r == o.(sent := o.sent + [I2cSensor.Wrote(register, [value])])
  {
    o.(sent := o.sent + [I2cSensor.Wrote(register, [value])])
  }

  /** setSensorModule, powerOn, powerOff, setAPDAOn, setAPDAOff: one byte to the command register. */
  function Command(o: Ods, cmd: Byte): (r: Ods)
    ensures r.buf == o.buf && r.sent == o.sent + [I2cSensor.Wrote(COMMAND, [cmd])]
  {
    SendByte(o, COMMAND, cmd)
  }

  /**
   * readDISTNX(register, bytes): asks for `bytes` bytes from the register, reads them into the
   * buffer and decodes it, ignoring whether the read worked: a failed read (None) decodes the
   * buffer's previous contents. A reply longer than the buffer throws.
   */
  function ReadDistnx(o: Ods, register: int, bytes: int, reply: Option<seq<Byte>>): (r: Result<(int, Ods), OdsError>)
    requires Valid(o)
    ensures r.Err? <==> reply.Some? && |reply.value| > 2
    ensures r.Ok? ==> Valid(r.value.1) && r.value.1.sent == o.sent + [I2cSensor.Asked(register, bytes)]
    ensures r.Ok? && reply.None? ==> r.value.1.buf == o.buf
    ensures r.Ok? && reply.Some? ==> r.value.1.buf[..|reply.value|] == reply.value
    ensures r.Ok? ==> var b := r.value.1.buf;
      r.value.0 == (if bytes == 1 then b[0] as int else 256 * b[1] as int + b[0] as int)
    ensures r.Ok? ==> 0 <= r.value.0 < (if bytes == 1 then 256 else 0x1_0000)
  {
    match I2cSensor.ReadIntoBuffer(o.buf, reply)
    case Err(e) => Err(e)
    case Ok((_, buf)) =>
      assert reply.Some? ==> buf[..|reply.value|] == reply.value;
      var o' := Ods(buf, o.sent + [I2cSensor.Asked(register, bytes)]);
      if bytes == 1 then Ok((buf[0] as int, o')) else Ok((buf[1] as int * 256 + buf[0] as int, o'))
  }

  /**
   * writeDISTNX(register, value): the remainder and quotient by 256 (Java's, truncating
   * toward zero) as two bytes, stored in the buffer and written to the register.
   */
  function WriteDistnx(o: Ods, register: int, value: Int32): (r: Ods)
    ensures r.buf == [ByteOf(JavaRem(value, 256)), ByteOf(JavaDiv(value, 256))]
    ensures r.sent == o.sent + [I2cSensor.Wrote(register, r.buf)]
    ensures 0 <= value < 0x1_0000 ==> r.buf == EncodeLE(value, 2)
  {
    var b := [ByteOf(JavaRem(value, 256)), ByteOf(JavaDiv(value, 256))];
    assert 0 <= value < 0x1_0000 ==> b == EncodeLE(value, 2) by {
      if 0 <= value < 0x1_0000 {
        assert EncodeLE(value / 256, 1) == [value / 256 % 256];
      }
    }
    Ods(b, o.sent + [I2cSensor.Wrote(register, b)])
  }

  /** What writeDISTNX sends for every value the sensor's 16-bit registers can hold, a 2-byte read returns. */
  lemma WriteReadRoundTrip(o: Ods, register: int, value: Int32)
    requires 0 <= value < 0x1_0000
    ensures var w := WriteDistnx(o, register, value);
            var r := ReadDistnx(Ods([0, 0], []), register, 2, Some(w.sent[|w.sent| - 1].data));
            r.Ok? && r.value.0 == value
  {
    var w := WriteDistnx(o, register, value);
    assert w.buf[1] == value / 256 && w.buf[0] == value % 256;
  }

  /** A negative value is sent as its remainder byte and a zero high byte (for -255..-1), not as a 16-bit pattern. */
  lemma WriteNegative()
    ensures WriteDistnx(Ods([0, 0], []), DIST_MIN_DATA_LSB, -1).buf == [0xFF, 0]
    ensures WriteDistnx(Ods([0, 0], []), DIST_MIN_DATA_LSB, -256).buf == [0, 0xFF]
  {
  }

  /** The setters of the minimum and maximum distance pass the value through a byte cast first. */
  function SetLimit(o: Ods, register: int, value: int): (r: Ods)
    ensures r == WriteDistnx(o, register, Signed8(ByteOf(value)))
    ensures 0 <= value < 128 ==> r.buf == [value, 0]
  {
    var v := Signed8(ByteOf(value));
    assert 0 <= value < 128 ==> v == value && JavaRem(v, 256) == v && JavaDiv(v, 256) == 0;
    WriteDistnx(o, register, v)
  }

  /** setCurveCount: one byte to the curve register. */
  function SetCurveCount(o: Ods, value: int): (r: Ods)
    ensures r.sent == o.sent + [I2cSensor.Wrote(CURVE, [ByteOf(value)])]
  {
    SendByte(o, CURVE, ByteOf(value))
  }

  /** The register of calibration point `index` in the bank at `base`: index 0 is taken as 1, four registers per point. */
  function PointRegister(base: int, index: Int32): (reg: int)
    ensures index != 0 ==> reg == Wrap32(base + 4 * index)
    ensures index == 0 ==> reg == Wrap32(base + 4)
    ensures base == VOLT_DATA_POINT_LSB && 1 <= index <= 10 ==> 0x56 <= reg <= 0x7A
  {
    Wrap32(base + 4 * (if index == 0 then 1 else index))
  }

  /** Points 0 and 1 share their registers. */
  lemma PointZeroIsOne(base: int)
    requires 0 <= base < 0x100
    ensures PointRegister(base, 0) == PointRegister(base, 1) == base + 4
  {
    Wrap32Idempotent(base + 4);
  }

  /** getVoltPointLSB/MSB, getDistPointLSB/MSB: a 2-byte read of the point's register. */
  function GetPoint(o: Ods, base: int, index: Int32, reply: Option<seq<Byte>>): (r: Result<(int, Ods), OdsError>)
    requires Valid(o)
    ensures r.Err? <==> reply.Some? && |reply.value| > 2
    ensures r.Ok? ==> r.value.1.sent == o.sent + [I2cSensor.Asked(Wrap32(base + 4 * (if index == 0 then 1 else index)), 2)]
    ensures r.Ok? && reply.Some? && |reply.value| == 2 ==> r.value.0 == 256 * reply.value[1] as int + reply.value[0] as int
    ensures r.Ok? ==> 0 <= r.value.0 < 0x1_0000
  {
    ReadDistnx(o, PointRegister(base, index), 2, reply)
  }

  /** setVoltPointLSB: the one point setter that writes a single byte. */
  function SetVoltPointLSB(o: Ods, index: Int32, value: int): (r: Ods)
    ensures r.buf == o.buf && r.sent == o.sent + [I2cSensor.Wrote(PointRegister(VOLT_DATA_POINT_LSB, index), [ByteOf(value)])]
  {
    SendByte(o, PointRegister(VOLT_DATA_POINT_LSB, index), ByteOf(value))
  }

  /** setVoltPointMSB, setDistPointLSB, setDistPointMSB: a 2-byte write of the point's register. */
  function SetPoint(o: Ods, base: int, index: Int32, value: Int32): (r: Ods)
    ensures r == WriteDistnx(o, PointRegister(base, index), value)
    ensures |r.sent| == |o.sent| + 1 && |r.sent[|o.sent|].data| == 2
  {
    WriteDistnx(o, PointRegister(base, index), value)
  }

  /**
   * Every point accessor addresses the same register for the same point: a getter reads
   * exactly where the matching setter writes, and index 0 is the same point as index 1.
   */
  lemma PointAccessorsAgree(o: Ods, base: int, index: Int32, reply: Option<seq<Byte>>, value: Int32)
    requires Valid(o)
    requires GetPoint(o, base, index, reply).Ok?
    ensures var g := GetPoint(o, base, index, reply).value.1.sent;
            var w := SetPoint(o, base, index, value).sent;
            g[|o.sent|].register == w[|o.sent|].register == PointRegister(base, index)
    ensures GetPoint(o, base, 0, reply) == GetPoint(o, base, 1, reply)
    ensures SetPoint(o, base, 0, value) == SetPoint(o, base, 1, value)
  {
  }
}
