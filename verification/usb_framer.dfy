/**
 * The USB connection of NXTCommUSB: raw device reads and writes, the input and output
 * buffers, the optional packet framing (a two-byte little-endian length before each
 * message, a zero length meaning end of stream), packet-mode negotiation on open and the
 * end-of-stream handshake on close.
 *
 * The native device is a script: `readScript` holds the successive answers of devRead, `writeScript`
 * the successive answers of devWrite, and `sent` logs every byte the device has accepted.
 * An exhausted script is a device that stays silent: every further call times out (returns 0).
 * A call that does not wait then gets nothing; a waiting call would wait forever, which the
 * model reports as the error `Hang`.
 */
module UsbFramer {
  import opened Bytes
  import opened Results

  const USB_BUFSZ: nat := 64
  /** Capacity of the input and the output buffer (USB_BUFSZ * 8). */
  const BUF_SIZE: nat := USB_BUFSZ * 8

  /** Connection modes of NXTComm. */
  const PACKET: int := 0
  const LCP: int := 1
  const RAW: int := 2

  /** Largest payload a two-byte length header can describe. */
  const MAX_PACKET: nat := 0xFFFF

  /**
   * One answer of devRead: the bytes delivered (no bytes: the call timed out and returned 0),
   * or a negative result. A call asking for fewer bytes than the chunk holds receives the
   * first ones; the rest is delivered by the following calls.
   */
  datatype ReadReply = Chunk(data: seq<Byte>) | ReadFailed

  /** One answer of devWrite: how many of the offered bytes were taken (0: timed out), or a negative result. */
  datatype WriteReply = Accepted(count: nat) | WriteFailed

  datatype Device = Device(readScript: seq<ReadReply>, writeScript: seq<WriteReply>, sent: seq<Byte>)

  /** The IOExceptions of the connection; `Hang` stands for a call that would wait forever on a silent device. */
  datatype IoError = NotOpen | ReadError | WriteError | Hang

  /**
   * The connection state: `open` is `nxtPtr != 0`, `pending` the unread part
   * inBuf[inOffset..inCnt) of the input buffer, `outBuf` the first outCnt bytes of the output buffer.
   */
  datatype Framer = Framer(open: bool, packetMode: bool, eof: bool, pending: seq<Byte>, outBuf: seq<Byte>)

  /** The outcome of an operation together with the connection and device afterwards. */
  datatype Step<+T> = Step(result: Result<T, IoError>, f: Framer, dev: Device)

  /** A closed connection as constructed. */
  const Initial: Framer := Framer(false, false, false, [], [])

  /** Every byte the read script will still deliver, in order. */
  function Stream(readScript: seq<ReadReply>): seq<Byte>
  {
    if |readScript| == 0 then []
    else match readScript[0]
      case Chunk(d) => d + Stream(readScript[1..])
      case ReadFailed => Stream(readScript[1..])
  }

  /** A measure of what the read script still holds: each answer, and each byte, counts one. */
  function ScriptSize(readScript: seq<ReadReply>): nat
  {
    if |readScript| == 0 then 0
    else match readScript[0]
      case Chunk(d) => 1 + |d| + ScriptSize(readScript[1..])
      case ReadFailed => 1 + ScriptSize(readScript[1..])
  }

  /** The bytes a reader of the connection will see next: the buffered ones, then the device's. */
  function Incoming(f: Framer, dev: Device): seq<Byte>
  {
    f.pending + Stream(dev.readScript)
  }

  /** A read script without negative results. */
  predicate NoReadFailures(readScript: seq<ReadReply>)
  {
    forall i :: 0 <= i < |readScript| ==> readScript[i].Chunk?
  }

  /** Dropping the first answer keeps a script free of negative results. */
  lemma NoReadFailuresTail(readScript: seq<ReadReply>)
    requires |readScript| > 0
    ensures NoReadFailures(readScript) ==> NoReadFailures(readScript[1..])
  {
    if NoReadFailures(readScript) {
      forall i | 0 <= i < |readScript| - 1
        ensures readScript[1..][i].Chunk?
      {
        assert readScript[1..][i] == readScript[i + 1];
      }
    }
  }

  /** The two-byte little-endian length header written before a packet of `len` bytes. */
  function Header(len: nat): (h: seq<Byte>)
    ensures |h| == 2
  {
    [ByteOf(len), ByteOf(len / 256)]
  }

  /** A packet on the wire: its header followed by its payload. */
  function Frame(data: seq<Byte>): seq<Byte>
  {
    Header(|data|) + data
  }

  lemma HeaderDecodes(len: nat)
    ensures DecodeLE(Header(len)) == len % 0x1_0000
  {
    var h := Header(len);
    assert h[1..] == [ByteOf(len / 256)];
    assert DecodeLE(h[1..]) == (len / 256) % 256;
    ModDivStep(len, 256);
  }

  // ---------------------------------------------------------------------------------------
  // Raw device access

  /**
   * rawRead: one devRead of at most `cap` bytes. With `wait` the call is repeated while it
   * times out; without, a timeout returns no bytes.
   */
  function RawRead(f: Framer, dev: Device, cap: nat, wait: bool): (r: Step<seq<Byte>>)
    requires cap > 0
    ensures r.f == f
    ensures r.dev.writeScript == dev.writeScript && r.dev.sent == dev.sent
    ensures !f.open ==> r.result == Err(NotOpen) && r.dev == dev
    ensures r.result.Ok? ==> |r.result.value| <= cap
    ensures r.result.Ok? && wait ==> |r.result.value| > 0
    ensures r.result.Ok? ==> Stream(dev.readScript) == r.result.value + Stream(r.dev.readScript)
    ensures r.result.Err? ==> r.result.error != WriteError
    ensures f.open && wait && NoReadFailures(dev.readScript) && |Stream(dev.readScript)| > 0 ==> r.result.Ok?
    ensures NoReadFailures(dev.readScript) ==> NoReadFailures(r.dev.readScript)
    ensures ScriptSize(r.dev.readScript) <= ScriptSize(dev.readScript)
    ensures r.result.Ok? && |r.result.value| > 0 ==> ScriptSize(r.dev.readScript) < ScriptSize(dev.readScript)
    decreases |dev.readScript|
  {
    if !f.open then Step(Err(NotOpen), f, dev)
    else if |dev.readScript| == 0 then
      if wait then Step(Err(Hang), f, dev) else Step(Ok([]), f, dev)
    else
      var rest := dev.readScript[1..];
      NoReadFailuresTail(dev.readScript);
      match dev.readScript[0]
      case ReadFailed => Step(Err(ReadError), f, dev.(readScript := rest))
      case Chunk(d) =>
        if |d| == 0 then
          if wait then RawRead(f, dev.(readScript := rest), cap, wait)
          else Step(Ok([]), f, dev.(readScript := rest))
        else if |d| <= cap then
          Step(Ok(d), f, dev.(readScript := rest))
        else
          assert d == d[..cap] + d[cap..];
          Step(Ok(d[..cap]), f, dev.(readScript := [Chunk(d[cap..])] + rest))
  }

  /** The devWrite loop of rawWrite, from `written` bytes already taken. */
  function WriteFrom(dev: Device, buf: seq<Byte>, written: nat, wait: bool): (r: (Result<nat, IoError>, Device))
    requires written <= |buf|
    ensures r.1.readScript == dev.readScript
    ensures r.0.Ok? ==> written <= r.0.value <= |buf| && r.1.sent == dev.sent + buf[written..r.0.value]
    ensures r.0.Ok? && wait ==> r.0.value == |buf|
    ensures r.0.Err? ==> r.0.error == WriteError || (wait && r.0.error == Hang)
    decreases |buf| - written, |dev.writeScript|
  {
    if written == |buf| then (Ok(written), dev)
    else if |dev.writeScript| == 0 then
      if wait then (Err(Hang), dev) else (Ok(written), dev)
    else
      var rest := dev.writeScript[1..];
      match dev.writeScript[0]
      case WriteFailed => (Err(WriteError), dev.(writeScript := rest))
      case Accepted(c) =>
        if c == 0 then
          if wait then WriteFrom(dev.(writeScript := rest), buf, written, wait)
          else (Ok(written), dev.(writeScript := rest))
        else
          var took := if c <= |buf| - written then c else |buf| - written;
          var dev' := dev.(writeScript := rest, sent := dev.sent + buf[written..written + took]);
          var r := WriteFrom(dev', buf, written + took, wait);
          assert r.0.Ok? ==> buf[written..r.0.value] == buf[written..written + took] + buf[written + took..r.0.value];
          r
  }

  /**
   * rawWrite: offers `buf` to the device until all of it is taken. Without `wait` a timeout
   * ends the call early and the count taken so far is returned.
   */
  function RawWrite(f: Framer, dev: Device, buf: seq<Byte>, wait: bool): (r: (Result<nat, IoError>, Device))
    ensures r.1.readScript == dev.readScript
    ensures !f.open ==> r.0 == Err(NotOpen) && r.1 == dev
    ensures r.0.Ok? ==> r.0.value <= |buf| && r.1.sent == dev.sent + buf[..r.0.value]
    ensures r.0.Ok? && wait ==> r.0.value == |buf|
    ensures r.0.Err? ==> r.0.error in {NotOpen, WriteError, Hang}
    ensures r.0.Err? && !wait ==> r.0.error in {NotOpen, WriteError}
  {
    if !f.open then (Err(NotOpen), dev) else WriteFrom(dev, buf, 0, wait)
  }

  // ---------------------------------------------------------------------------------------
  // Buffered reading

  /** fillBuffer: refills the input buffer with one blocking device read. */
  function FillBuffer(f: Framer, dev: Device): (r: Step<()>)
    ensures r.f == f.(pending := r.f.pending)
    ensures r.dev.writeScript == dev.writeScript && r.dev.sent == dev.sent
    ensures r.result.Ok? ==> 0 < |r.f.pending| <= BUF_SIZE
    ensures r.result.Ok? ==> Stream(dev.readScript) == r.f.pending + Stream(r.dev.readScript)
    ensures r.result.Err? ==> r.f.pending == [] && r.result.error != WriteError
    ensures f.open && NoReadFailures(dev.readScript) && |Stream(dev.readScript)| > 0 ==> r.result.Ok?
    ensures NoReadFailures(dev.readScript) ==> NoReadFailures(r.dev.readScript)
  {
    var emptied := f.(pending := []);
    var s := RawRead(emptied, dev, BUF_SIZE, true);
    match s.result
    case Err(e) => Step(Err(e), emptied, s.dev)
    case Ok(got) =>
      if |got| == 0 then Step(Err(ReadError), emptied, s.dev)
      else Step(Ok(()), f.(pending := got), s.dev)
  }

  /** Takes the next byte out of a non-empty input buffer. */
  function Pop(f: Framer, dev: Device): (r: Step<Byte>)
    requires |f.pending| > 0
    ensures r.f == f.(pending := f.pending[1..]) && r.dev == dev && r.result == Ok(f.pending[0])
    ensures Incoming(f, dev) == [r.result.value] + Incoming(r.f, r.dev)
  {
    Step(Ok(f.pending[0]), f.(pending := f.pending[1..]), dev)
  }

  /** readByte: the next input byte, refilling the buffer only when it is exhausted. */
  function ReadByte(f: Framer, dev: Device): (r: Step<Byte>)
    ensures r.f == f.(pending := r.f.pending)
    ensures r.dev.writeScript == dev.writeScript && r.dev.sent == dev.sent
    ensures |f.pending| > 0 ==> r == Pop(f, dev)
    ensures r.result.Ok? ==> Incoming(f, dev) == [r.result.value] + Incoming(r.f, r.dev)
    ensures r.result.Err? ==> r.result.error != WriteError
    ensures f.open && NoReadFailures(dev.readScript) && |Incoming(f, dev)| > 0 ==> r.result.Ok?
    ensures NoReadFailures(dev.readScript) ==> NoReadFailures(r.dev.readScript)
  {
    if |f.pending| > 0 then Pop(f, dev)
    else
      var s := FillBuffer(f, dev);
      if s.result.Err? then Step(Err(s.result.error), s.f, s.dev)
      else Pop(s.f, s.dev)
  }

  /** `n` successive readByte calls. */
  function ReadBytes(f: Framer, dev: Device, n: nat): (r: Step<seq<Byte>>)
    ensures r.f == f.(pending := r.f.pending)
    ensures r.dev.writeScript == dev.writeScript && r.dev.sent == dev.sent
    ensures r.result.Ok? ==> |r.result.value| == n && Incoming(f, dev) == r.result.value + Incoming(r.f, r.dev)
    ensures r.result.Err? ==> r.result.error != WriteError
    ensures f.open && NoReadFailures(dev.readScript) && |Incoming(f, dev)| >= n ==> r.result.Ok?
    ensures NoReadFailures(dev.readScript) ==> NoReadFailures(r.dev.readScript)
    ensures n <= |f.pending| ==> r.dev == dev && r.result == Ok(f.pending[..n]) && r.f.pending == f.pending[n..]
    decreases n
  {
    if n == 0 then Step(Ok([]), f, dev)
    else
      var b := ReadByte(f, dev);
      match b.result
      case Err(e) => Step(Err(e), b.f, b.dev)
      case Ok(x) =>
        var rest := ReadBytes(b.f, b.dev, n - 1);
        match rest.result
        case Err(e) => Step(Err(e), rest.f, rest.dev)
        case Ok(xs) =>
          TakeAfterHead(f.pending, n);
          Step(Ok([x] + xs), rest.f, rest.dev)
  }

  lemma TakeAfterHead(s: seq<Byte>, n: nat)
    requires 0 < n
    ensures n <= |s| ==> s[..n] == [s[0]] + s[1..][..n - 1]
  {
    if n <= |s| {
      assert s[..n] == [s[0]] + s[1..][..n - 1];
    }
  }

  /** The body of read in packet mode: one header, then the payload it announces. */
  function ReadPacket(f: Framer, dev: Device): (r: Step<Option<seq<Byte>>>)
    ensures r.f.open == f.open && r.f.packetMode == f.packetMode && r.f.outBuf == f.outBuf
    ensures r.dev.writeScript == dev.writeScript && r.dev.sent == dev.sent
    ensures r.result.Err? ==> r.f.eof == f.eof && r.result.error != WriteError
    ensures NoReadFailures(dev.readScript) ==> NoReadFailures(r.dev.readScript)
    ensures r.result.Ok? ==>
      |Incoming(f, dev)| >= 2 &&
      var len := DecodeLE(Incoming(f, dev)[..2]);
      match r.result.value
      case None => len == 0 && r.f.eof && Incoming(f, dev) == Incoming(f, dev)[..2] + Incoming(r.f, r.dev)
      case Some(p) =>
        len == |p| > 0 && r.f.eof == f.eof && Incoming(f, dev) == Incoming(f, dev)[..2] + p + Incoming(r.f, r.dev)
    ensures (f.open && NoReadFailures(dev.readScript) && |Incoming(f, dev)| >= 2
             && |Incoming(f, dev)| >= 2 + DecodeLE(Incoming(f, dev)[..2])) ==> r.result.Ok?
  {
    var h := ReadBytes(f, dev, 2);
    match h.result
    case Err(e) => Step(Err(e), h.f, h.dev)
    case Ok(hdr) =>
      var len := DecodeLE(hdr);
      var after := Incoming(h.f, h.dev);
      assert Incoming(f, dev) == hdr + after;
      assert (hdr + after)[..2] == hdr;
      if len == 0 then Step(Ok(None), h.f.(eof := true), h.dev)
      else
        var body := ReadBytes(h.f, h.dev, len);
        match body.result
        case Err(e) => Step(Err(e), body.f, body.dev)
        case Ok(p) =>
          assert after == p + Incoming(body.f, body.dev);
          assert hdr + after == hdr + p + Incoming(body.f, body.dev);
          Step(Ok(Some(p)), body.f, body.dev)
  }

  /** The body of read unframed: everything buffered, after one refill when the buffer is empty. */
  function ReadUnframed(f: Framer, dev: Device): (r: Step<Option<seq<Byte>>>)
    ensures r.f == f.(pending := r.f.pending)
    ensures r.dev.writeScript == dev.writeScript && r.dev.sent == dev.sent
    ensures r.result.Err? ==> r.result.error != WriteError
    ensures NoReadFailures(dev.readScript) ==> NoReadFailures(r.dev.readScript)
    ensures r.result.Ok? ==>
      r.result.value.Some? && 0 < |r.result.value.value| <= |f.pending| + BUF_SIZE && r.f.pending == [] &&
      Incoming(f, dev) == r.result.value.value + Incoming(r.f, r.dev)
    ensures |f.pending| > 0 ==> r == Step(Ok(Some(f.pending)), f.(pending := []), dev)
  {
    var filled := if |f.pending| == 0 then FillBuffer(f, dev) else Step(Ok(()), f, dev);
    match filled.result
    case Err(e) => Step(Err(e), filled.f, filled.dev)
    case Ok(_) =>
      var body := ReadBytes(filled.f, filled.dev, |filled.f.pending|);
      assert filled.f.pending[..|filled.f.pending|] == filled.f.pending;
      Step(Ok(Some(body.result.value)), body.f, body.dev)
  }

  /**
   * read: the next message, or None at end of stream. In packet mode a message is exactly the
   * payload announced by its header and a zero header latches end of stream; unframed, a
   * message is whatever the input buffer holds.
   */
  function Read(f: Framer, dev: Device): (r: Step<Option<seq<Byte>>>)
    ensures r.f.open == f.open && r.f.packetMode == f.packetMode && r.f.outBuf == f.outBuf
    ensures r.dev.writeScript == dev.writeScript && r.dev.sent == dev.sent
    ensures f.eof ==> r == Step(Ok(None), f, dev)
    ensures r.result == Ok(None) ==> r.f.eof
    ensures !f.packetMode && !f.eof && r.result.Ok? ==> r.result.value.Some? && |r.result.value.value| > 0
  {
    if f.eof then Step(Ok(None), f, dev)
    else if f.packetMode then ReadPacket(f, dev)
    else ReadUnframed(f, dev)
  }

  // ---------------------------------------------------------------------------------------
  // Buffered writing

  /** flushBuffer: hands the output buffer to the device, blocking until all of it is taken. */
  function FlushBuffer(f: Framer, dev: Device): (r: Step<()>)
    ensures r.f == f.(outBuf := r.f.outBuf)
    ensures r.dev.readScript == dev.readScript
    ensures r.result.Ok? ==> r.f.outBuf == [] && r.dev.sent == dev.sent + f.outBuf
    ensures r.result.Err? ==> r.f.outBuf == f.outBuf
    ensures |f.outBuf| == 0 ==> r == Step(Ok(()), f, dev)
  {
    if |f.outBuf| == 0 then Step(Ok(()), f, dev)
    else
      var (w, dev') := RawWrite(f, dev, f.outBuf, true);
      match w
      case Err(e) => Step(Err(e), f, dev')
      case Ok(n) =>
        if n != |f.outBuf| then Step(Err(WriteError), f, dev')
        else
          assert f.outBuf[..n] == f.outBuf;
          Step(Ok(()), f.(outBuf := []), dev')
  }

  /** writeByte: appends one byte to the output buffer, flushing it first when it is full. */
  function WriteByte(f: Framer, dev: Device, b: Byte): (r: Step<()>)
    ensures r.f == f.(outBuf := r.f.outBuf)
    ensures r.dev.readScript == dev.readScript
    ensures r.result.Ok? ==> r.dev.sent + r.f.outBuf == dev.sent + f.outBuf + [b]
    ensures r.result.Ok? ==> 0 < |r.f.outBuf| <= BUF_SIZE || |f.outBuf| + 1 > BUF_SIZE
  {
    var s := if |f.outBuf| >= BUF_SIZE then FlushBuffer(f, dev) else Step(Ok(()), f, dev);
    match s.result
    case Err(e) => Step(Err(e), s.f, s.dev)
    case Ok(_) => Step(Ok(()), s.f.(outBuf := s.f.outBuf + [b]), s.dev)
  }

  /** writeByte for each byte of `bytes`, in order. */
  function WriteBytes(f: Framer, dev: Device, bytes: seq<Byte>): (r: Step<()>)
    ensures r.f == f.(outBuf := r.f.outBuf)
    ensures r.dev.readScript == dev.readScript
    ensures r.result.Ok? ==> r.dev.sent + r.f.outBuf == dev.sent + f.outBuf + bytes
    decreases |bytes|
  {
    if |bytes| == 0 then Step(Ok(()), f, dev)
    else
      var s := WriteByte(f, dev, bytes[0]);
      match s.result
      case Err(e) => Step(Err(e), s.f, s.dev)
      case Ok(_) =>
        var t := WriteBytes(s.f, s.dev, bytes[1..]);
        assert t.result.Ok? ==> t.dev.sent + t.f.outBuf == dev.sent + f.outBuf + [bytes[0]] + bytes[1..];
        assert [bytes[0]] + bytes[1..] == bytes;
        t
  }

  /** The bytes `write` puts on the wire for one message. */
  function Outgoing(f: Framer, data: seq<Byte>): seq<Byte>
  {
    if f.packetMode then Frame(data) else data
  }

  /** write: sends one message (with its length header in packet mode) and flushes. */
  function Write(f: Framer, dev: Device, data: seq<Byte>): (r: Step<()>)
    ensures r.f == f.(outBuf := r.f.outBuf)
    ensures r.dev.readScript == dev.readScript
    ensures r.result.Ok? ==> r.f.outBuf == [] && r.dev.sent == dev.sent + f.outBuf + Outgoing(f, data)
    ensures r.result.Ok? && f.packetMode ==>
      r.dev.sent == dev.sent + f.outBuf + [ByteOf(|data|), ByteOf(|data| / 256)] + data
  {
    var s := WriteBytes(f, dev, Outgoing(f, data));
    match s.result
    case Err(e) => Step(Err(e), s.f, s.dev)
    case Ok(_) => FlushBuffer(s.f, s.dev)
  }

  /**
   * sendRequest: writes the request, then reads one reply message unless none is expected. The
   * reply, when one is read, is the next message of the input stream after the request went out.
   */
  function SendRequest(f: Framer, dev: Device, data: seq<Byte>, replyLen: int): (r: Step<Option<seq<Byte>>>)
    ensures r.f.open == f.open && r.f.packetMode == f.packetMode
    ensures r.result.Ok? ==> r.f.outBuf == [] && r.dev.sent == dev.sent + f.outBuf + Outgoing(f, data)
    ensures r.result.Ok? && replyLen == 0 ==>
      r.result.value == Some([]) && Incoming(r.f, r.dev) == Incoming(f, dev) && r.f.eof == f.eof
    ensures replyLen != 0 && Write(f, dev, data).result.Ok? ==>
      r == Read(Write(f, dev, data).f, Write(f, dev, data).dev)
  {
    var w := Write(f, dev, data);
    match w.result
    case Err(e) => Step(Err(e), w.f, w.dev)
    case Ok(_) => if replyLen == 0 then Step(Ok(Some([])), w.f, w.dev) else Read(w.f, w.dev)
  }

  // ---------------------------------------------------------------------------------------
  // Open and close

  /** The reply of an NXT that accepts packet mode starts 0x02 0xFE 0xEF. */
  predicate AcceptsPacketMode(reply: Option<seq<Byte>>)
  {
    reply.Some? && |reply.value| >= 3 && reply.value[0] == 0x02 && reply.value[1] == 0xFE && reply.value[2] == 0xEF
  }

  /**
   * Why open does not return normally: the connection is already open (IllegalStateException),
   * or the packet-mode exchange waits forever on a silent device, so open never returns.
   */
  datatype OpenError = AlreadyOpen | Blocked

  /** The reply a packet-mode exchange produced; an IOException during the exchange counts as no reply. */
  function NegotiationReply(s: Step<Option<seq<Byte>>>): Option<seq<Byte>>
  {
    if s.result.Ok? then s.result.value else None
  }

  /**
   * Tries packet mode on a freshly opened connection: sends `probe` (the packet-mode system
   * command) and enables packet mode when the reply is the acceptance. An IOException during
   * the exchange is swallowed; an exchange that waits forever is reported as `Hang`.
   */
  function Negotiate(f: Framer, dev: Device, probe: seq<Byte>): (r: Step<()>)
    requires f.open
    ensures var s := SendRequest(f, dev, probe, USB_BUFSZ);
            (r.result.Err? <==> s.result == Err(Hang)) &&
            (r.result.Err? ==> r.result.error == Hang) &&
            (r.result.Ok? ==> r.f.open && !r.f.eof && r.dev == s.dev &&
                              (r.f.packetMode <==> f.packetMode || AcceptsPacketMode(NegotiationReply(s)))) &&
            (s.result.Ok? ==> r.dev.sent == dev.sent + f.outBuf + Outgoing(f, probe))
  {
    var s := SendRequest(f, dev, probe, USB_BUFSZ);
    if s.result == Err(Hang) then Step(Err(Hang), s.f, s.dev)
    else Step(Ok(()), s.f.(packetMode := s.f.packetMode || AcceptsPacketMode(NegotiationReply(s)), eof := false), s.dev)
  }

  /**
   * open as written: `handle` is what devOpen returned for the device (0: failure), `found`
   * whether an NXTInfo was supplied. The connection's other fields keep whatever value the
   * previous session left in them.
   */
  function OpenAsWritten(f: Framer, dev: Device, found: bool, handle: nat, mode: int, probe: seq<Byte>)
    : (r: Result<(bool, Framer, Device), OpenError>)
    ensures r == Err(AlreadyOpen) <==> f.open
    ensures r == Err(Blocked) ==> found && handle != 0 && mode != RAW && mode != LCP
    ensures r.Ok? && r.value.0 ==> r.value.1.open
  {
    if f.open then Err(AlreadyOpen)
    else if !found || handle == 0 then Ok((false, f, dev))
    else
      var reopened := f.(open := true);
      if mode != RAW && mode != LCP then
        var n := Negotiate(reopened, dev, probe);
        if n.result.Err? then Err(Blocked) else Ok((true, n.f, n.dev))
      else Ok((true, reopened, dev))
  }

  /** The state every corrected open starts a session from: open, unframed, not at end of stream, no buffered bytes. */
  const Fresh: Framer := Framer(true, false, false, [], [])

  /**
   * open, corrected so that every session starts from a fresh connection state: unframed, not
   * at end of stream, both buffers empty. Outside RAW and LCP mode the session then negotiates
   * packet mode.
   */
  function Open(f: Framer, dev: Device, found: bool, handle: nat, mode: int, probe: seq<Byte>)
    : (r: Result<(bool, Framer, Device), OpenError>)
    ensures r == Err(AlreadyOpen) <==> f.open
    ensures r.Ok? && !r.value.0 ==> r.value.1 == f && r.value.2 == dev
    ensures r.Ok? && r.value.0 ==> r.value.1.open && !r.value.1.eof
    ensures r.Ok? && (!found || handle == 0) ==> !r.value.0
    ensures !f.open && found && handle != 0 && (mode == RAW || mode == LCP) ==> r == Ok((true, Fresh, dev))
    ensures !f.open && found && handle != 0 && mode != RAW && mode != LCP ==>
      var n := Negotiate(Fresh, dev, probe);
      if n.result.Ok? then r == Ok((true, n.f, n.dev)) else r == Err(Blocked)
  {
    if f.open then Err(AlreadyOpen)
    else if !found || handle == 0 then Ok((false, f, dev))
    else if mode != RAW && mode != LCP then
      var n := Negotiate(Fresh, dev, probe);
      if n.result.Err? then Err(Blocked) else Ok((true, n.f, n.dev))
    else Ok((true, Fresh, dev))
  }

  /**
   * The `while (!EOF) read()` loop of close: reads messages until the peer's end of stream.
   * An IOException ends the loop and is returned; `Hang` means the loop waits forever. The
   * stream length bounds the number of packets still to drain.
   */
  function DrainUntilEof(f: Framer, dev: Device): (r: Step<()>)
    requires f.packetMode
    ensures r.f.open == f.open && r.f.packetMode && r.f.outBuf == f.outBuf
    ensures r.dev.sent == dev.sent
    ensures r.result.Ok? <==> r.f.eof
    ensures r.result.Err? ==> r.result.error != WriteError
    decreases |Incoming(f, dev)|
  {
    if f.eof then Step(Ok(()), f, dev)
    else
      var s := Read(f, dev);
      if s.result.Err? then Step(Err(s.result.error), s.f, s.dev)
      else if s.f.eof then Step(Ok(()), s.f, s.dev)
      else DrainUntilEof(s.f, s.dev)
  }

  /** writeEOF: offers the zero-length header [0, 0] without waiting. */
  function WriteEof(f: Framer, dev: Device): (r: (Result<bool, IoError>, Device))
    ensures r.1.readScript == dev.readScript
    ensures r.0 == Ok(true) ==> r.1.sent == dev.sent + [0, 0]
  {
    var (w, dev') := RawWrite(f, dev, [0, 0], false);
    match w
    case Err(e) => (Err(e), dev')
    case Ok(n) => assert n == 2 ==> [0, 0][..n] == [0, 0]; (Ok(n == 2), dev')
  }

  /**
   * close: flushes the output buffer; in packet mode sends the end-of-stream header and reads
   * until the peer's own end of stream. An IOException ends the handshake and the handle is
   * released. A flush or a read that waits forever on a silent device means close never
   * returns: the result is `Hang` and the handle stays open.
   */
  function Close(f: Framer, dev: Device): (r: Step<()>)
    ensures r.result.Ok? <==> !r.f.open
    ensures r.result.Err? ==> r.result.error == Hang
    ensures !f.open ==> r == Step(Ok(()), f, dev)
    ensures r.f.packetMode == f.packetMode
    ensures f.open && !f.packetMode && f.outBuf == [] ==> r == Step(Ok(()), f.(open := false), dev)
  {
    if !f.open then Step(Ok(()), f, dev)
    else
      var fl := FlushBuffer(f, dev);
      if fl.result == Err(Hang) then Step(Err(Hang), fl.f, fl.dev)
      else if fl.result.Err? || !f.packetMode then Step(Ok(()), fl.f.(open := false), fl.dev)
      else
        var (w, dev1) := WriteEof(fl.f, fl.dev);
        if w.Err? then Step(Ok(()), fl.f.(open := false), dev1)
        else
          var d := DrainUntilEof(fl.f, dev1);
          if d.result == Err(Hang) then Step(Err(Hang), d.f, d.dev)
          else Step(Ok(()), d.f.(open := false), d.dev)
  }

  // ---------------------------------------------------------------------------------------
  // Properties of the packet protocol

  /** A payload a header can describe, other than the empty end-of-stream packet. */
  predicate IsPacket(p: seq<Byte>)
  {
    0 < |p| <= MAX_PACKET
  }

  /** Several packets back to back on the wire. */
  function Frames(ps: seq<seq<Byte>>): seq<Byte>
  {
    if |ps| == 0 then [] else Frame(ps[0]) + Frames(ps[1..])
  }

  /** A connection ready to read packets. */
  predicate ReadyForPackets(f: Framer, dev: Device)
  {
    f.open && f.packetMode && !f.eof && NoReadFailures(dev.readScript)
  }

  /** With a whole packet ahead, read returns exactly its payload and consumes exactly its frame. */
  lemma ReadFrameAhead(f: Framer, dev: Device, p: seq<Byte>, rest: seq<Byte>)
    requires ReadyForPackets(f, dev) && IsPacket(p)
    requires Incoming(f, dev) == Frame(p) + rest
    ensures Read(f, dev).result == Ok(Some(p))
    ensures ReadyForPackets(Read(f, dev).f, Read(f, dev).dev)
    ensures Incoming(Read(f, dev).f, Read(f, dev).dev) == rest
  {
    PacketFrameAhead(f, dev, p, rest);
  }

  lemma PacketFrameAhead(f: Framer, dev: Device, p: seq<Byte>, rest: seq<Byte>)
    requires ReadyForPackets(f, dev) && IsPacket(p)
    requires Incoming(f, dev) == Frame(p) + rest
    ensures var r := ReadPacket(f, dev);
            r.result == Ok(Some(p)) && ReadyForPackets(r.f, r.dev) && Incoming(r.f, r.dev) == rest
  {
    var s := Incoming(f, dev);
    var r := ReadPacket(f, dev);
    FrameHeader(p, rest);
    assert r.result.Ok?;
    assert r.result.value.Some?;
    SplitAfterHeader(s, r.result.value.value, Incoming(r.f, r.dev), p, rest);
  }

  /** The first two bytes of a frame decode to its payload length. */
  lemma FrameHeader(p: seq<Byte>, rest: seq<Byte>)
    requires IsPacket(p)
    ensures |Frame(p) + rest| >= 2 + |p|
    ensures DecodeLE((Frame(p) + rest)[..2]) == |p|
  {
    assert (Frame(p) + rest)[..2] == Header(|p|);
    HeaderDecodes(|p|);
    assert |p| % 0x1_0000 == |p|;
  }

  /** Two readings of the same bytes past a two-byte header that agree on the payload length agree on all. */
  lemma SplitAfterHeader(s: seq<Byte>, q: seq<Byte>, after: seq<Byte>, p: seq<Byte>, rest: seq<Byte>)
    requires |s| >= 2 && |q| == |p|
    requires s == s[..2] + q + after
    requires s == Header(|p|) + p + rest
    ensures q == p && after == rest
  {
    assert s[2..] == q + after;
    assert s[2..] == p + rest;
    assert q == s[2..][..|p|] == p;
    assert after == s[2..][|p|..] == rest;
  }

  /** With the zero header ahead, read reports end of stream, consumes the header and latches. */
  lemma ReadEofAhead(f: Framer, dev: Device, rest: seq<Byte>)
    requires ReadyForPackets(f, dev)
    requires Incoming(f, dev) == [0, 0] + rest
    ensures Read(f, dev).result == Ok(None)
    ensures Read(f, dev).f.eof && Incoming(Read(f, dev).f, Read(f, dev).dev) == rest
    ensures Read(Read(f, dev).f, Read(f, dev).dev) == Step(Ok(None), Read(f, dev).f, Read(f, dev).dev)
  {
    var s := Incoming(f, dev);
    assert s[..2] == [0, 0];
    assert DecodeLE([0, 0]) == 0 by {
      assert [0, 0][1..] == [0];
      assert [0][1..] == [];
    }
    var r := ReadPacket(f, dev);
    assert r.result.Ok?;
    match r.result.value
    case None =>
      assert s == s[..2] + Incoming(r.f, r.dev);
    case Some(q) =>
  }

  /**
   * Loopback: a packet written by one connection and delivered, in any chunking, to another
   * is read back whole and unchanged.
   */
  lemma {:induction false} PacketRoundTrip(a: Framer, devA: Device, b: Framer, devB: Device, p: seq<Byte>, rest: seq<Byte>)
    requires a.packetMode && a.outBuf == [] && IsPacket(p)
    requires Write(a, devA, p).result.Ok?
    requires ReadyForPackets(b, devB)
    requires Incoming(b, devB) == Write(a, devA, p).dev.sent[|devA.sent|..] + rest
    ensures Read(b, devB).result == Ok(Some(p))
    ensures Incoming(Read(b, devB).f, Read(b, devB).dev) == rest
  {
    var w := Write(a, devA, p);
    assert w.dev.sent[|devA.sent|..] == Frame(p);
    ReadFrameAhead(b, devB, p, rest);
  }

  /** An empty message written in packet mode is exactly the end-of-stream header. */
  lemma EmptyWriteIsEof(a: Framer, devA: Device)
    requires a.packetMode && a.outBuf == []
    requires Write(a, devA, []).result.Ok?
    ensures Write(a, devA, []).dev.sent == devA.sent + [0, 0]
  {
    assert ByteOf(0) == 0;
  }

  /** Draining reads every packet ahead of the end-of-stream header and stops right after it. */
  lemma {:induction false} DrainFrames(f: Framer, dev: Device, ps: seq<seq<Byte>>, rest: seq<Byte>)
    requires ReadyForPackets(f, dev)
    requires forall i :: 0 <= i < |ps| ==> IsPacket(ps[i])
    requires Incoming(f, dev) == Frames(ps) + [0, 0] + rest
    ensures DrainUntilEof(f, dev).result == Ok(()) && DrainUntilEof(f, dev).f.eof
    ensures Incoming(DrainUntilEof(f, dev).f, DrainUntilEof(f, dev).dev) == rest
    decreases |ps|
  {
    if |ps| == 0 {
      ReadEofAhead(f, dev, rest);
    } else {
      assert Incoming(f, dev) == Frame(ps[0]) + (Frames(ps[1..]) + [0, 0] + rest);
      ReadFrameAhead(f, dev, ps[0], Frames(ps[1..]) + [0, 0] + rest);
      var s := Read(f, dev);
      DrainFrames(s.f, s.dev, ps[1..], rest);
    }
  }

  /**
   * The close handshake in packet mode: with the output buffer empty and the device taking the
   * end-of-stream header, close sends exactly [0, 0], then consumes the peer's remaining packets
   * and its end of stream, and nothing after it.
   */
  lemma CloseHandshake(f: Framer, dev: Device, ps: seq<seq<Byte>>, rest: seq<Byte>)
    requires ReadyForPackets(f, dev) && f.outBuf == []
    requires |dev.writeScript| > 0 && dev.writeScript[0] == Accepted(2)
    requires forall i :: 0 <= i < |ps| ==> IsPacket(ps[i])
    requires Incoming(f, dev) == Frames(ps) + [0, 0] + rest
    ensures Close(f, dev).result == Ok(()) && !Close(f, dev).f.open && Close(f, dev).f.eof
    ensures Close(f, dev).dev.sent == dev.sent + [0, 0]
    ensures Incoming(Close(f, dev).f, Close(f, dev).dev) == rest
  {
    var dev1 := dev.(writeScript := dev.writeScript[1..], sent := dev.sent + [0, 0]);
    EofAccepted(f, dev);
    CloseAfterEof(f, dev, dev1);
    assert Incoming(f, dev1) == Incoming(f, dev);
    DrainFrames(f, dev1, ps, rest);
  }

  /** A device answering "2 taken" takes the whole end-of-stream header. */
  lemma EofAccepted(f: Framer, dev: Device)
    requires f.open && |dev.writeScript| > 0 && dev.writeScript[0] == Accepted(2)
    ensures WriteEof(f, dev) == (Ok(true), dev.(writeScript := dev.writeScript[1..], sent := dev.sent + [0, 0]))
  {
    var dev' := dev.(writeScript := dev.writeScript[1..], sent := dev.sent + [0, 0][0..2]);
    assert [0, 0][0..2] == [0, 0];
    assert WriteFrom(dev, [0, 0], 0, false) == WriteFrom(dev', [0, 0], 2, false);
  }

  /** With nothing buffered and the end-of-stream header taken, close is the drain that follows. */
  lemma CloseAfterEof(f: Framer, dev: Device, dev1: Device)
    requires f.open && f.packetMode && f.outBuf == []
    requires WriteEof(f, dev) == (Ok(true), dev1)
    ensures var d := DrainUntilEof(f, dev1);
            Close(f, dev) == if d.result == Err(Hang) then Step(Err(Hang), d.f, d.dev) else Step(Ok(()), d.f.(open := false), d.dev)
  {
    assert FlushBuffer(f, dev) == Step(Ok(()), f, dev);
  }

  /**
   * open does not restore the state a previous packet-mode session left: reopened for LCP, a
   * connection closed at end of stream reports end of stream at once although the device
   * holds a reply, where the corrected open delivers the reply.
   */
  lemma ReopenKeepsStaleEof()
    ensures var stale := Framer(false, true, true, [], []);
            var dev := Device([Chunk([1, 2, 3])], [], []);
            var asWritten := OpenAsWritten(stale, dev, true, 1, LCP, []);
            var corrected := Open(stale, dev, true, 1, LCP, []);
            asWritten.Ok? && asWritten.value.0 && Read(asWritten.value.1, asWritten.value.2).result == Ok(None)
            && corrected.Ok? && corrected.value.0 && Read(corrected.value.1, corrected.value.2).result == Ok(Some([1, 2, 3]))
  {
    var dev := Device([Chunk([1, 2, 3])], [], []);
    var clean := Framer(true, false, false, [], []);
    var fill := FillBuffer(clean, dev);
    assert RawRead(clean, dev, BUF_SIZE, true) == Step(Ok([1, 2, 3]), clean, dev.(readScript := []));
    assert fill == Step(Ok(()), clean.(pending := [1, 2, 3]), dev.(readScript := []));
    var body := ReadBytes(fill.f, fill.dev, 3);
    assert [1, 2, 3][..3] == [1, 2, 3];
    assert body.result == Ok([1, 2, 3]);
    assert ReadUnframed(clean, dev) == Step(Ok(Some([1, 2, 3])), body.f, body.dev);
  }


  // ---------------------------------------------------------------------------------------
  // Requests and packet-mode negotiation

  /** Bytes that fit in the output buffer are only buffered: nothing reaches the device yet. */
  lemma {:induction false} WriteBytesBuffers(f: Framer, dev: Device, bytes: seq<Byte>)
    requires |f.outBuf| + |bytes| <= BUF_SIZE
    ensures WriteBytes(f, dev, bytes) == Step(Ok(()), f.(outBuf := f.outBuf + bytes), dev)
    decreases |bytes|
  {
    if |bytes| > 0 {
      var g := f.(outBuf := f.outBuf + [bytes[0]]);
      assert WriteByte(f, dev, bytes[0]) == Step(Ok(()), g, dev);
      WriteBytesBuffers(g, dev, bytes[1..]);
      assert f.outBuf + [bytes[0]] + bytes[1..] == f.outBuf + bytes;
    }
  }

  /**
   * An unframed message that fits the buffer, written to a device that takes it in one call,
   * goes out exactly as given and consumes one answer of the write script.
   */
  lemma WriteAccepted(f: Framer, dev: Device, data: seq<Byte>)
    requires f.open && !f.packetMode && f.outBuf == [] && 0 < |data| <= BUF_SIZE
    requires |dev.writeScript| > 0 && dev.writeScript[0] == Accepted(|data|)
    ensures Write(f, dev, data) == Step(Ok(()), f, dev.(writeScript := dev.writeScript[1..], sent := dev.sent + data))
  {
    assert Outgoing(f, data) == data;
    WriteBytesBuffers(f, dev, data);
    var g := f.(outBuf := data);
    assert f.outBuf + data == data;
    assert WriteBytes(f, dev, Outgoing(f, data)) == Step(Ok(()), g, dev);
    var dev' := dev.(writeScript := dev.writeScript[1..], sent := dev.sent + data[0..|data|]);
    assert data[0..|data|] == data;
    assert WriteFrom(dev, data, 0, true) == WriteFrom(dev', data, |data|, true) == (Ok(|data|), dev');
    assert RawWrite(g, dev, data, true) == (Ok(|data|), dev');
    assert FlushBuffer(g, dev) == Step(Ok(()), f, dev');
    assert Write(f, dev, data) == FlushBuffer(g, dev);
  }

  /** Outside packet mode, one device answer that fits the buffer is read as exactly one message. */
  lemma ReadChunkUnframed(f: Framer, dev: Device, reply: seq<Byte>)
    requires f.open && !f.packetMode && !f.eof && f.pending == []
    requires 0 < |reply| <= BUF_SIZE
    requires |dev.readScript| > 0 && dev.readScript[0] == Chunk(reply)
    ensures Read(f, dev) == Step(Ok(Some(reply)), f, dev.(readScript := dev.readScript[1..]))
  {
    var dev' := dev.(readScript := dev.readScript[1..]);
    assert RawRead(f, dev, BUF_SIZE, true) == Step(Ok(reply), f, dev');
    assert FillBuffer(f, dev) == Step(Ok(()), f.(pending := reply), dev');
    assert reply[..|reply|] == reply;
  }

  /**
   * In packet mode, a request whose reply frame is already on its way: the request goes out
   * framed, the reply is exactly the frame's payload, and the bytes after the frame stay unread.
   */
  lemma SendRequestReply(f: Framer, dev: Device, data: seq<Byte>, replyLen: int, p: seq<Byte>, rest: seq<Byte>)
    requires ReadyForPackets(f, dev) && IsPacket(p) && replyLen != 0
    requires Write(f, dev, data).result.Ok?
    requires Incoming(f, dev) == Frame(p) + rest
    ensures SendRequest(f, dev, data, replyLen).result == Ok(Some(p))
    ensures SendRequest(f, dev, data, replyLen).dev.sent == dev.sent + f.outBuf + Frame(data)
    ensures Incoming(SendRequest(f, dev, data, replyLen).f, SendRequest(f, dev, data, replyLen).dev) == rest
  {
    var w := Write(f, dev, data);
    assert Incoming(w.f, w.dev) == Incoming(f, dev);
    ReadFrameAhead(w.f, w.dev, p, rest);
  }

  /**
   * The negotiation on a fresh connection, against a device that takes the probe and answers
   * with one reply: the probe goes out unframed, and packet mode is switched on exactly when
   * the reply starts 0x02 0xFE 0xEF; any other reply leaves the connection unframed.
   */
  lemma NegotiateReply(dev: Device, probe: seq<Byte>, reply: seq<Byte>)
    requires 0 < |probe| <= BUF_SIZE && 0 < |reply| <= BUF_SIZE
    requires |dev.writeScript| > 0 && dev.writeScript[0] == Accepted(|probe|)
    requires |dev.readScript| > 0 && dev.readScript[0] == Chunk(reply)
    ensures var n := Negotiate(Fresh, dev, probe);
            n.result == Ok(()) &&
            n.f == Framer(true, n.f.packetMode, false, [], []) &&
            (n.f.packetMode <==> |reply| >= 3 && reply[..3] == [0x02, 0xFE, 0xEF]) &&
            n.dev.sent == dev.sent + probe &&
            n.dev.readScript == dev.readScript[1..] && n.dev.writeScript == dev.writeScript[1..]
  {
    var dev1 := dev.(writeScript := dev.writeScript[1..], sent := dev.sent + probe);
    WriteAccepted(Fresh, dev, probe);
    ReadChunkUnframed(Fresh, dev1, reply);
    var dev2 := dev1.(readScript := dev.readScript[1..]);
    var s := SendRequest(Fresh, dev, probe, USB_BUFSZ);
    assert s == Step(Ok(Some(reply)), Fresh, dev2);
    AcceptsPrefix(reply);
    assert Negotiate(Fresh, dev, probe) == Step(Ok(()), Fresh.(packetMode := AcceptsPacketMode(Some(reply))), dev2);
  }

  /** The acceptance test of open reads the first three bytes of the reply. */
  lemma AcceptsPrefix(reply: seq<Byte>)
    ensures AcceptsPacketMode(Some(reply)) <==> |reply| >= 3 && reply[..3] == [0x02, 0xFE, 0xEF]
  {
    if |reply| >= 3 && reply[..3] == [0x02, 0xFE, 0xEF] {
      assert reply[0] == reply[..3][0] && reply[1] == reply[..3][1] && reply[2] == reply[..3][2];
    }
  }

  /**
   * open in packet mode (any mode other than RAW and LCP): the connection comes up open, not at
   * end of stream, with empty buffers, framed exactly when the brick accepts packet mode.
   */
  lemma OpenPacketMode(f: Framer, dev: Device, handle: nat, mode: int, probe: seq<Byte>, reply: seq<Byte>)
    requires !f.open && handle != 0 && mode != RAW && mode != LCP
    requires 0 < |probe| <= BUF_SIZE && 0 < |reply| <= BUF_SIZE
    requires |dev.writeScript| > 0 && dev.writeScript[0] == Accepted(|probe|)
    requires |dev.readScript| > 0 && dev.readScript[0] == Chunk(reply)
    ensures var r := Open(f, dev, true, handle, mode, probe);
            r.Ok? && r.value.0 &&
            r.value.1 == Framer(true, AcceptsPacketMode(Some(reply)), false, [], []) &&
            r.value.2.sent == dev.sent + probe
  {
    NegotiateReply(dev, probe, reply);
  }

  // ---------------------------------------------------------------------------------------
  // Silent devices

  /** A waiting raw read on a device with nothing more to deliver waits forever. */
  lemma {:induction false} RawReadSilent(f: Framer, dev: Device, cap: nat)
    requires f.open && cap > 0
    requires NoReadFailures(dev.readScript) && Stream(dev.readScript) == []
    ensures RawRead(f, dev, cap, true).result == Err(Hang)
    decreases |dev.readScript|
  {
    if |dev.readScript| > 0 {
      assert dev.readScript[0].Chunk?;
      NoReadFailuresTail(dev.readScript);
      RawReadSilent(f, dev.(readScript := dev.readScript[1..]), cap);
    }
  }

  /** With nothing buffered and nothing left to deliver, read waits forever, framed or not. */
  lemma ReadSilent(f: Framer, dev: Device)
    requires f.open && !f.eof && NoReadFailures(dev.readScript) && Incoming(f, dev) == []
    ensures Read(f, dev).result == Err(Hang)
  {
    assert f.pending == [] && Stream(dev.readScript) == [];
    RawReadSilent(f, dev, BUF_SIZE);
    assert FillBuffer(f, dev).result == Err(Hang);
    assert ReadByte(f, dev).result == Err(Hang);
  }

  /** A peer that sends packets but never its end of stream keeps the drain waiting forever. */
  lemma {:induction false} DrainSilentPeer(f: Framer, dev: Device, ps: seq<seq<Byte>>)
    requires ReadyForPackets(f, dev)
    requires forall i :: 0 <= i < |ps| ==> IsPacket(ps[i])
    requires Incoming(f, dev) == Frames(ps)
    ensures DrainUntilEof(f, dev).result == Err(Hang)
    decreases |ps|
  {
    if |ps| == 0 {
      ReadSilent(f, dev);
    } else {
      assert Incoming(f, dev) == Frame(ps[0]) + Frames(ps[1..]);
      ReadFrameAhead(f, dev, ps[0], Frames(ps[1..]));
      var s := Read(f, dev);
      DrainSilentPeer(s.f, s.dev, ps[1..]);
    }
  }

  /**
   * close against a peer that never sends its end of stream: the end-of-stream header goes
   * out, then close waits forever and the handle is never released.
   */
  lemma CloseSilentPeerBlocks(f: Framer, dev: Device, ps: seq<seq<Byte>>)
    requires ReadyForPackets(f, dev) && f.outBuf == []
    requires |dev.writeScript| > 0 && dev.writeScript[0] == Accepted(2)
    requires forall i :: 0 <= i < |ps| ==> IsPacket(ps[i])
    requires Incoming(f, dev) == Frames(ps)
    ensures Close(f, dev).result == Err(Hang) && Close(f, dev).f.open
    ensures Close(f, dev).dev.sent == dev.sent + [0, 0]
  {
    var dev1 := dev.(writeScript := dev.writeScript[1..], sent := dev.sent + [0, 0]);
    EofAccepted(f, dev);
    CloseAfterEof(f, dev, dev1);
    assert Incoming(f, dev1) == Incoming(f, dev);
    DrainSilentPeer(f, dev1, ps);
  }

  /**
   * open in packet mode against a device that takes the probe but never answers: the
   * negotiation waits forever, so open does not return.
   */
  lemma OpenSilentDeviceBlocks(f: Framer, dev: Device, handle: nat, mode: int, probe: seq<Byte>)
    requires !f.open && handle != 0 && mode != RAW && mode != LCP
    requires 0 < |probe| <= BUF_SIZE
    requires |dev.writeScript| > 0 && dev.writeScript[0] == Accepted(|probe|)
    requires NoReadFailures(dev.readScript) && Stream(dev.readScript) == []
    ensures Open(f, dev, true, handle, mode, probe) == Err(Blocked)
  {
    var dev1 := dev.(writeScript := dev.writeScript[1..], sent := dev.sent + probe);
    WriteAccepted(Fresh, dev, probe);
    ReadSilent(Fresh, dev1);
    assert SendRequest(Fresh, dev, probe, USB_BUFSZ).result == Err(Hang);
  }

}
