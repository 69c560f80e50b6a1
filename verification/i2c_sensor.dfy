/**
 * I2CSensor: the register transfers of a low-speed (I2C) sensor, expressed as the LCP
 * low-speed commands it issues. The LCP link (LSWrite, LSGetStatus, LSRead) is an oracle:
 * the calls made are recorded, and the answers are parameters.
 */
module I2cSensor {
  import opened Bytes
  import opened Results

  const REG_VERSION: int := 0x00
  const REG_VENDOR_ID: int := 0x08
  const REG_PRODUCT_ID: int := 0x10
  const DEFAULT_I2C_ADDRESS: int := 0x02

  /**
   * The two LSGetStatus codes that mean "not yet": pending communication transaction in
   * progress, and channel not configured or busy (NXT direct-command status codes).
   */
  const PENDING: Byte := 0x20
  const BUSY: Byte := 0xE0

  /** A sensor: the port id and the current I2C address. */
  datatype Sensor = Sensor(port: int, address: int)

  /** One LSWrite call: port, bytes transmitted, number of reply bytes expected. */
  datatype LsWrite = LsWrite(port: Byte, tx: seq<Byte>, rxLen: Byte)

  /** One LSGetStatus answer: a status code, or an IOException. */
  datatype LsStatus = Status(code: Byte) | StatusFails

  /** The LSRead answer: the bytes read, null, or an IOException. */
  datatype LsReply = Reply(bytes: seq<Byte>) | NullReply | ReplyFails

  /**
   * One register transfer a sensor driver makes, as the drivers built on getData and sendData
   * log it: bytes written to a register, or a request for `count` bytes from a register.
   */
  datatype Transfer = Wrote(register: int, data: seq<Byte>) | Asked(register: int, count: int)

  datatype I2cError = IndexOutOfBounds | NegativeLength | NullData | BadAddressFormat | Hang

  /** The constructor's sensor (its flushing status and read calls are not modelled). */
  function NewSensor(port: int, address: int): (s: Sensor)
    ensures ByteOf(GetId(s)) == ByteOf(port) && -128 <= GetId(s) < 128 && s.address == address
    ensures 0 <= port < 128 ==> GetId(s) == port
  {
    Sensor(port, address)
  }

  /** The port as the constructor stores it, in a Java `byte` field: the byte every LCP call is given. */
  function PortByte(s: Sensor): Byte
  {
    ByteOf(s.port)
  }

  /** getId: the stored port byte, widened to int with its sign. */
  function GetId(s: Sensor): int
  {
    Signed8(PortByte(s))
  }

  /** The status poll of getData: the first answer that is neither pending nor busy, and how many were taken. */
  function Poll(statuses: seq<LsStatus>): (r: Result<(LsStatus, nat), I2cError>)
    ensures r.Ok? ==> r.value.1 < |statuses| && statuses[r.value.1] == r.value.0
    ensures r.Ok? ==> r.value.0 !in {Status(PENDING), Status(BUSY)}
    ensures r.Ok? ==> forall k :: 0 <= k < r.value.1 ==> statuses[k] in {Status(PENDING), Status(BUSY)}
    ensures r.Err? <==> forall k :: 0 <= k < |statuses| ==> statuses[k] in {Status(PENDING), Status(BUSY)}
    ensures r.Err? ==> r.error == Hang
  {
    if |statuses| == 0 then Err(Hang)
    else if statuses[0] in {Status(PENDING), Status(BUSY)} then
      match Poll(statuses[1..])
      case Err(e) => Err(e)
      case Ok((st, k)) => Ok((st, k + 1))
    else Ok((statuses[0], 0))
  }

  /**
   * getData(register, buf, offset, length): asks for `length` bytes from `register`, polls
   * the status until the transaction is over, then copies the reply into buf at offset.
   * The result is 0, or -1 when the status poll or the read fails or the reply is null.
   * A failed LSWrite is ignored. A reply that does not fit in buf throws.
   */
  function GetData(s: Sensor, register: int, buf: seq<Byte>, offset: int, length: int,
                   statuses: seq<LsStatus>, reply: LsReply): (r: Result<(int, seq<Byte>, LsWrite), I2cError>)
    ensures r.Ok? ==> r.value.2 == LsWrite(PortByte(s), [ByteOf(s.address), ByteOf(register)], ByteOf(length))
    ensures r.Ok? ==> |r.value.1| == |buf| && r.value.0 in {0, -1}
    ensures r.Ok? && r.value.0 == -1 ==> r.value.1 == buf
    ensures r.Ok? && r.value.0 == 0 ==>
      reply.Reply? && 0 <= offset && offset + |reply.bytes| <= |buf|
      && r.value.1[offset..offset + |reply.bytes|] == reply.bytes
      && r.value.1[..offset] == buf[..offset] && r.value.1[offset + |reply.bytes|..] == buf[offset + |reply.bytes|..]
    ensures Poll(statuses).Ok? && Poll(statuses).value.0.Status? ==>
      (r.Ok? && r.value.0 == 0 <==> reply.Reply? && 0 <= offset && offset + |reply.bytes| <= |buf|)
    ensures Poll(statuses).Ok? && Poll(statuses).value.0.StatusFails? ==> r.Ok? && r.value.0 == -1
    ensures r.Err? ==> r.error in {Hang, IndexOutOfBounds}
  {
    var call := LsWrite(PortByte(s), [ByteOf(s.address), ByteOf(register)], ByteOf(length));
    match Poll(statuses)
    case Err(e) => Err(e)
    case Ok((st, _)) =>
      if st.StatusFails? then Ok((-1, buf, call))
      else match reply
        case NullReply => Ok((-1, buf, call))
        case ReplyFails => Ok((-1, buf, call))
        case Reply(ret) =>
          if offset < 0 || offset + |ret| > |buf| then Err(IndexOutOfBounds)
          else
            var buf' := buf[..offset] + ret + buf[offset + |ret|..];
            assert buf'[offset..offset + |ret|] == ret;
            Ok((0, buf', call))
  }

  /**
   * A read as the sensor drivers see it, into the start of their own buffer: a failed read
   * (None: the status poll or LSRead failed, or the reply was null) returns -1 and leaves
   * the buffer alone; a reply is copied to the start and 0 returned; one longer than the
   * buffer throws.
   */
  function ReadIntoBuffer(buf: seq<Byte>, reply: Option<seq<Byte>>): (r: Result<(int, seq<Byte>), I2cError>)
    ensures r.Err? <==> reply.Some? && |reply.value| > |buf|
    ensures r.Ok? ==> |r.value.1| == |buf|
    ensures r.Ok? && reply.None? ==> r.value == (-1, buf)
    ensures r.Ok? && reply.Some? ==> r.value.0 == 0 && r.value.1 == reply.value + buf[|reply.value|..]
  {
    match reply
    case None => Ok((-1, buf))
    case Some(ret) => if |ret| > |buf| then Err(IndexOutOfBounds) else Ok((0, ret + buf[|ret|..]))
  }

  /** sendData(register, value): transmits exactly address, register, value; the LSWrite result, or -1 on an IOException. */
  function SendByte(s: Sensor, register: int, value: Byte, answer: Option<int>): (r: (int, LsWrite))
    ensures r.1.tx == [ByteOf(s.address), ByteOf(register), value] && r.1.rxLen == 0 && r.1.port == PortByte(s)
    ensures r.0 == (if answer.Some? then answer.value else -1)
  {
    (if answer.Some? then answer.value else -1, LsWrite(PortByte(s), [ByteOf(s.address), ByteOf(register), value], 0))
  }

  /**
   * sendData(register, data, offset, length): transmits address, register and
   * data[offset..offset+length). With length 0 the data (even a null array) is not touched;
   * a negative length, a slice out of range or a null array throw.
   */
  function SendBytes(s: Sensor, register: int, data: Option<seq<Byte>>, offset: int, length: int,
                     answer: Option<int>): (r: Result<(int, LsWrite), I2cError>)
    ensures r.Ok? <==> length == 0 || (length > 0 && data.Some? && 0 <= offset && offset + length <= |data.value|)
    ensures r.Ok? ==> |r.value.1.tx| == length + 2 && r.value.1.tx[..2] == [ByteOf(s.address), ByteOf(register)]
    ensures r.Ok? && length > 0 ==> r.value.1.tx[2..] == data.value[offset..offset + length]
    ensures r.Ok? ==> r.value.1.rxLen == 0 && r.value.0 == (if answer.Some? then answer.value else -1)
  {
    var head := [ByteOf(s.address), ByteOf(register)];
    var result := if answer.Some? then answer.value else -1;
    if length < 0 then Err(NegativeLength)
    else if length == 0 then Ok((result, LsWrite(PortByte(s), head, 0)))
    else if data.None? then Err(NullData)
    else if offset < 0 || offset + length > |data.value| then Err(IndexOutOfBounds)
    else
      var tx := head + data.value[offset..offset + length];
      assert tx[2..] == data.value[offset..offset + length];
      Ok((result, LsWrite(PortByte(s), tx, 0)))
  }

  /** The characters of the bytes before the first zero byte (each byte read as an unsigned char code). */
  function UntilZero(b: seq<Byte>): (r: string)
    ensures |r| <= |b|
    ensures forall k :: 0 <= k < |r| ==> r[k] as int == b[k] && b[k] != 0
    ensures |r| < |b| ==> b[|r|] == 0
  {
    if |b| == 0 || b[0] == 0 then "" else [b[0] as char] + UntilZero(b[1..])
  }

  /**
   * fetchString(reg, len): reads len bytes into a fresh zeroed buffer and returns the
   * characters before the first zero byte, or "" when the read fails.
   */
  function FetchString(s: Sensor, reg: int, len: int, statuses: seq<LsStatus>, reply: LsReply): (r: Result<string, I2cError>)
    ensures r.Ok? ==> |r.value| <= len
    ensures r.Ok? && Poll(statuses).Ok? && (Poll(statuses).value.0.StatusFails? || !reply.Reply?) ==> r.value == ""
    ensures len >= 0 && Poll(statuses).Ok? && Poll(statuses).value.0.Status? && reply.Reply? && |reply.bytes| <= len ==>
      r.Ok? && r.value == UntilZero(reply.bytes)
  {
    if len < 0 then Err(NegativeLength)
    else
      var buf := seq(len, _ => 0);
      match GetData(s, reg, buf, 0, len, statuses, reply)
      case Err(e) => Err(e)
      case Ok((ret, filled, _)) =>
        if ret != 0 then Ok("")
        else
          assert filled == reply.bytes + buf[|reply.bytes|..];
          assert buf[|reply.bytes|..] == seq(len - |reply.bytes|, _ => 0);
          ZeroPadded(reply.bytes, len - |reply.bytes|);
          Ok(UntilZero(filled))
  }

  /** Padding with zeros does not change the text before the first zero. */
  lemma {:induction false} ZeroPadded(b: seq<Byte>, n: nat)
    ensures UntilZero(b + seq(n, _ => 0)) == UntilZero(b)
  {
    if |b| == 0 {
      assert b + seq(n, _ => 0) == seq(n, _ => 0);
    } else {
      assert (b + seq(n, _ => 0))[1..] == b[1..] + seq(n, _ => 0);
      ZeroPadded(b[1..], n);
    }
  }

  /** The bytes of a text with no NUL: its character codes. */
  function TextBytes(t: string): seq<Byte>
    requires forall k :: 0 <= k < |t| ==> 0 < t[k] as int < 256
  {
    seq(|t|, k requires 0 <= k < |t| => t[k] as int)
  }

  /** A zero-terminated text the sensor answers with reads back as that text, whatever follows the terminator. */
  lemma {:induction false} UntilZeroText(t: string, rest: seq<Byte>)
    requires forall k :: 0 <= k < |t| ==> 0 < t[k] as int < 256
    ensures UntilZero(TextBytes(t) + [0] + rest) == t
  {
    if |t| > 0 {
      var w := TextBytes(t) + [0] + rest;
      assert w[1..] == TextBytes(t[1..]) + [0] + rest;
      UntilZeroText(t[1..], rest);
      assert t == [t[0]] + t[1..];
    } else {
      assert (TextBytes(t) + [0] + rest)[0] == 0;
    }
  }

  /** setAddress: refused when the CURRENT address has its low bit set; the new one is not checked. */
  function SetAddress(s: Sensor, addr: int): (r: Result<Sensor, I2cError>)
    ensures r.Err? <==> s.address % 2 == 1
    ensures r.Ok? ==> r.value == s.(address := addr)
  {
    if s.address % 2 != 0 then Err(BadAddressFormat) else Ok(s.(address := addr))
  }

  /** An odd address is accepted once, and then blocks every later change. */
  lemma SetAddressChecksOldValue(s: Sensor, odd: int, next: int)
    requires s.address % 2 == 0 && odd % 2 == 1
    ensures SetAddress(s, odd).Ok? && SetAddress(SetAddress(s, odd).value, next) == Err(BadAddressFormat)
  {
  }
}
