/**
 * NXTSamba's conversation with the SAM-BA boot ROM over a raw (unframed) USB connection.
 * The connection is the USB framer's; the device is its scripted oracle, so every operation
 * takes the framer and the device and returns the device as it leaves it.
 */
module Samba {
  import opened Bytes
  import opened Results
  import opened SambaFormat
  import UsbFramer

  type Device = UsbFramer.Device
  type Framer = UsbFramer.Framer

  /** Memory-mapped registers of the AT91SAM7S, as Java ints. */
  const MC_FMR: Int32 := 0xFFFF_FF60 - TWO_32
  const MC_FCR: Int32 := 0xFFFF_FF64 - TWO_32
  const MC_FSR: Int32 := 0xFFFF_FF68 - TWO_32
  const PMC_MCKR: Int32 := 0xFFFF_FC30 - TWO_32

  /** The IOExceptions and IllegalArgumentExceptions of the class, and the USB layer's. */
  datatype SambaError =
    | Io(cause: UsbFramer.IoError)
    | ReadTimeout
    | WriteTimeout
    | BadPacketLength
    | ProtocolError
    | PageOutOfRange
    | BadArguments
    | AlreadyOpen

  datatype Reply<+T> = Reply(result: Result<T, SambaError>, dev: Device)

  /** The bytes the device will still deliver. */
  function Unread(dev: Device): seq<Byte>
  {
    UsbFramer.Stream(dev.readScript)
  }

  function Size(dev: Device): nat
  {
    UsbFramer.ScriptSize(dev.readScript)
  }

  /** Reading leaves the host-to-device direction alone. */
  predicate WritesUnchanged(dev: Device, dev': Device)
  {
    dev'.writeScript == dev.writeScript && dev'.sent == dev.sent
  }

  // ---------------------------------------------------------------------------------------
  // read and write

  /** read(): one non-waiting rawRead of at most 64 bytes; no bytes is a read timeout. */
  function ReadChunk(f: Framer, dev: Device): (r: Reply<seq<Byte>>)
    ensures WritesUnchanged(dev, r.dev)
    ensures Size(r.dev) <= Size(dev)
    ensures !f.open ==> r.result == Err(Io(UsbFramer.NotOpen))
    ensures r.result.Ok? ==> 0 < |r.result.value| <= UsbFramer.USB_BUFSZ
    ensures r.result.Ok? ==> Unread(dev) == r.result.value + Unread(r.dev) && Size(r.dev) < Size(dev)
    ensures r.result.Err? ==> r.result.error in {Io(UsbFramer.NotOpen), Io(UsbFramer.ReadError), ReadTimeout}
    ensures f.open && |dev.readScript| == 0 ==> r.result == Err(ReadTimeout)
  {
    var s := UsbFramer.RawRead(f, dev, UsbFramer.USB_BUFSZ, false);
    match s.result
    case Err(e) => Reply(Err(Io(e)), s.dev)
    case Ok(v) => if |v| == 0 then Reply(Err(ReadTimeout), s.dev) else Reply(Ok(v), s.dev)
  }

  /** write(): one non-waiting rawWrite; taking fewer bytes than offered is a write timeout. */
  function Send(f: Framer, dev: Device, data: seq<Byte>): (r: Reply<()>)
    ensures r.dev.readScript == dev.readScript
    ensures r.result.Ok? ==> r.dev.sent == dev.sent + data
    ensures !f.open ==> r.result == Err(Io(UsbFramer.NotOpen)) && r.dev == dev
    ensures r.result.Err? ==> r.result.error in {Io(UsbFramer.NotOpen), Io(UsbFramer.WriteError), WriteTimeout}
  {
    var (w, dev') := UsbFramer.RawWrite(f, dev, data, false);
    match w
    case Err(e) => Reply(Err(Io(e)), dev')
    case Ok(n) =>
      if n != |data| then Reply(Err(WriteTimeout), dev')
      else assert data[..n] == data; Reply(Ok(()), dev')
  }

  /** writeString: the line's ISO-8859-1 bytes. */
  function SendLine(f: Framer, dev: Device, line: string): (r: Reply<()>)
    ensures r.dev.readScript == dev.readScript
    ensures r.result.Ok? ==> r.dev.sent == dev.sent + Latin1(line)
  {
    Send(f, dev, Latin1(line))
  }

  // ---------------------------------------------------------------------------------------
  // Answers

  /**
   * readAnswerWord: a single read whose length must be `len`, assembled little-endian
   * into an int.
   */
  function ReadAnswerWord(f: Framer, dev: Device, len: nat): (r: Reply<Int32>)
    ensures WritesUnchanged(dev, r.dev)
    ensures Size(r.dev) <= Size(dev)
    ensures r.result.Ok? ==> Size(r.dev) < Size(dev)
    ensures r.result.Ok? ==>
      0 < len <= |Unread(dev)|
      && Unread(dev) == Unread(dev)[..len] + Unread(r.dev)
      && r.result.value == Wrap32(DecodeLE(Unread(dev)[..len]))
    ensures r.result.Err? ==> r.result.error in {Io(UsbFramer.NotOpen), Io(UsbFramer.ReadError), ReadTimeout, BadPacketLength}
  {
    var c := ReadChunk(f, dev);
    match c.result
    case Err(e) => Reply(Err(e), c.dev)
    case Ok(ret) =>
      if |ret| != len then Reply(Err(BadPacketLength), c.dev)
      else
        assert Unread(dev)[..len] == ret;
        AnswerValueLE(ret);
        Reply(Ok(AnswerValue(ret)), c.dev)
  }

  /**
   * readAnswerStream(data, off, len): successive reads until `len` bytes have arrived, each
   * copied into the caller's array (of length `dataLen`) from `off` on; the result is the
   * bytes copied there. A read longer than the bytes still expected is a bad packet length;
   * a read that does not fit in the array makes the copy throw, after it was consumed.
   */
  function ReadAnswerStream(f: Framer, dev: Device, dataLen: nat, off: int, len: int): (r: Reply<seq<Byte>>)
    ensures WritesUnchanged(dev, r.dev)
    ensures Size(r.dev) <= Size(dev)
    ensures len <= 0 ==> r == Reply(Ok([]), dev)
    ensures r.result.Ok? ==> |r.result.value| == (if len < 0 then 0 else len)
    ensures r.result.Ok? ==> Unread(dev) == r.result.value + Unread(r.dev)
    ensures r.result.Ok? && len > 0 ==> 0 <= off && off + len <= dataLen
    ensures r.result == Err(BadArguments) ==> len > 0 && (off < 0 || off + len > dataLen) && Size(r.dev) < Size(dev)
    ensures r.result.Err? ==> r.result.error in {Io(UsbFramer.NotOpen), Io(UsbFramer.ReadError), ReadTimeout, BadPacketLength, BadArguments}
    decreases Size(dev)
  {
    if len <= 0 then Reply(Ok([]), dev)
    else
      var c := ReadChunk(f, dev);
      match c.result
      case Err(e) => Reply(Err(e), c.dev)
      case Ok(ret) =>
        if |ret| > len then Reply(Err(BadPacketLength), c.dev)
        // System.arraycopy into the caller's array throws when the chunk does not fit
        else if off < 0 || off + |ret| > dataLen then Reply(Err(BadArguments), c.dev)
        else
          var rest := ReadAnswerStream(f, c.dev, dataLen, off + |ret|, len - |ret|);
          match rest.result
          case Err(e) => rest
          case Ok(more) =>
            assert Unread(dev) == (ret + more) + Unread(rest.dev);
            Reply(Ok(ret + more), rest.dev)
  }

  /** How a reply read chunk by chunk ends: readLine stops at a line feed, open's first wait at the prompt. */
  datatype Terminator = Linefeed | Prompt

  predicate Terminated(t: Terminator, ret: seq<Byte>)
  {
    match t
    case Linefeed => EndsWithLinefeed(ret)
    case Prompt => EndsWithPrompt(ret)
  }

  /** Both end tests look only at the last two bytes. */
  lemma TerminatedSuffix(t: Terminator, a: seq<Byte>, b: seq<Byte>)
    requires Terminated(t, b)
    ensures Terminated(t, a + b)
  {
    var s := a + b;
    assert s[|s| - 1] == b[|b| - 1];
    if |b| >= 2 {
      assert s[|s| - 2] == b[|b| - 2];
    }
  }

  /**
   * readLine (and open's wait for the prompt): reads until a read ends with the terminator,
   * and returns everything read.
   */
  function ReadUntil(f: Framer, dev: Device, t: Terminator): (r: Reply<seq<Byte>>)
    ensures WritesUnchanged(dev, r.dev)
    ensures Size(r.dev) <= Size(dev)
    ensures r.result.Ok? ==> Terminated(t, r.result.value)
    ensures r.result.Ok? ==> Unread(dev) == r.result.value + Unread(r.dev) && Size(r.dev) < Size(dev)
    ensures r.result.Err? ==> r.result.error in {Io(UsbFramer.NotOpen), Io(UsbFramer.ReadError), ReadTimeout}
    decreases Size(dev)
  {
    var c := ReadChunk(f, dev);
    match c.result
    case Err(e) => Reply(Err(e), c.dev)
    case Ok(ret) =>
      if Terminated(t, ret) then Reply(Ok(ret), c.dev)
      else
        var rest := ReadUntil(f, c.dev, t);
        match rest.result
        case Err(e) => rest
        case Ok(more) =>
          TerminatedSuffix(t, ret, more);
          assert Unread(dev) == (ret + more) + Unread(rest.dev);
          Reply(Ok(ret + more), rest.dev)
  }

  // ---------------------------------------------------------------------------------------
  // Memory access

  /** writeWord (and writeOctet, writeHalfword with width 1, 2): one write command, no answer. */
  function WriteMemory(f: Framer, dev: Device, cmd: char, width: nat, addr: Int32, value: Int32): (r: Reply<()>)
    ensures r.dev.readScript == dev.readScript
    ensures r.result.Ok? ==> r.dev.sent == dev.sent + Latin1(WriteCommand(cmd, addr, width, value))
  {
    SendLine(f, dev, WriteCommand(cmd, addr, width, value))
  }

  /** The bytes of writeWord(addr, value). */
  function WordWire(addr: Int32, value: Int32): seq<Byte>
  {
    Latin1(WriteCommand(CMD_WRITE_WORD, addr, 4, value))
  }

  function WriteWord(f: Framer, dev: Device, addr: Int32, value: Int32): (r: Reply<()>)
    ensures r.dev.readScript == dev.readScript
    ensures r.result.Ok? ==> r.dev.sent == dev.sent + WordWire(addr, value)
  {
    WriteMemory(f, dev, CMD_WRITE_WORD, 4, addr, value)
  }

  /** readWord (and readOctet, readHalfword): a read command, then an answer of exactly `width` bytes. */
  function ReadMemory(f: Framer, dev: Device, cmd: char, width: nat, addr: Int32): (r: Reply<Int32>)
    ensures Size(r.dev) <= Size(dev)
    ensures r.result.Ok? ==> Size(r.dev) < Size(dev)
    ensures r.result.Ok? ==> r.dev.sent == dev.sent + Latin1(ReadCommand(cmd, addr, width))
    ensures r.result.Ok? ==>
      0 < width <= |Unread(dev)|
      && Unread(dev) == Unread(dev)[..width] + Unread(r.dev)
      && r.result.value == Wrap32(DecodeLE(Unread(dev)[..width]))
  {
    var w := SendLine(f, dev, ReadCommand(cmd, addr, width));
    if w.result.Err? then Reply(Err(w.result.error), w.dev)
    else ReadAnswerWord(f, w.dev, width)
  }

  /** A read of word width returns what the device wrote as an encodeInt. */
  lemma ReadWordOfEncoded(f: Framer, dev: Device, addr: Int32, v: Int32)
    requires |Unread(dev)| >= 4 && Unread(dev)[..4] == EncodeInt(v)
    requires ReadMemory(f, dev, CMD_READ_WORD, 4, addr).result.Ok?
    ensures ReadMemory(f, dev, CMD_READ_WORD, 4, addr).result.value == v
  {
    var r := ReadMemory(f, dev, CMD_READ_WORD, 4, addr);
    assert Unread(dev)[..4] == EncodeInt(v);
    AnswerValueLE(EncodeInt(v));
    EncodeIntAnswerRoundTrip(v);
  }

  // ---------------------------------------------------------------------------------------
  // Flash controller

  /** The bytes of the flash-status poll readWord(0xffffff68). */
  function PollBytes(): seq<Byte>
  {
    Latin1(ReadCommand(CMD_READ_WORD, MC_FSR, 4))
  }

  function Repeat(s: seq<Byte>, k: nat): (r: seq<Byte>)
    ensures |r| == k * |s|
  {
    if k == 0 then [] else s + Repeat(s, k - 1)
  }

  lemma RepeatStep(a: seq<Byte>, s: seq<Byte>, k: nat)
    ensures a + s + Repeat(s, k) == a + Repeat(s, k + 1)
  {
  }

  /** The low byte of the j-th word of a run of answers: the flash status FRDY bit is its bit 0. */
  function StatusAt(c: seq<Byte>, j: nat): Byte
    requires 4 * j < |c|
  {
    c[4 * j]
  }

  /** k status words of which only the last has the ready bit set. */
  predicate PolledUntilReady(c: seq<Byte>, k: nat)
  {
    k >= 1 && |c| == 4 * k
    && (forall j :: 0 <= j < k - 1 ==> StatusAt(c, j) % 2 == 0)
    && StatusAt(c, k - 1) % 2 == 1
  }

  /** Bit 0 of a wrapped little-endian word is bit 0 of its first byte. */
  lemma LowBit(b: seq<Byte>)
    requires |b| > 0
    ensures Wrap32(DecodeLE(b)) % 2 == b[0] % 2
  {
    var d := DecodeLE(b);
    var w := Wrap32(d);
    var k := (w - d) / TWO_32;
    assert w == d + TWO_32 * k;
    EvenShift(d, 0x8000_0000 * k);
    EvenShift(b[0], 128 * DecodeLE(b[1..]));
  }

  lemma EvenShift(x: int, k: int)
    ensures (x + 2 * k) % 2 == x % 2
  {
  }

  lemma PolledStep(w: seq<Byte>, c: seq<Byte>, k: nat)
    requires |w| == 4 && w[0] % 2 == 0 && PolledUntilReady(c, k)
    ensures PolledUntilReady(w + c, k + 1)
  {
    var s := w + c;
    forall j | 0 <= j < k
      ensures StatusAt(s, j) % 2 == 0
    {
      if j > 0 {
        assert StatusAt(s, j) == StatusAt(c, j - 1);
      }
    }
    assert StatusAt(s, k) == StatusAt(c, k - 1);
  }

  /** One more busy status word in front of a run that ends ready. */
  lemma PollAgain(x: seq<Byte>, y: seq<Byte>, z: seq<Byte>, k: nat)
    requires |x| >= 4 && x == x[..4] + y && x[0] % 2 == 0
    requires 4 * k <= |y| && y == y[..4 * k] + z && PolledUntilReady(y[..4 * k], k)
    ensures 4 * (k + 1) <= |x| && x == x[..4 * (k + 1)] + z && PolledUntilReady(x[..4 * (k + 1)], k + 1)
  {
    var a, p := x[..4], y[..4 * k];
    TakeAfterPrefix(a, y, 4 * k);
    assert x[..4 * (k + 1)] == a + p;
    assert x == a + p + z;
    PolledStep(a, p, k);
  }

  /** Taking past a prefix keeps the prefix and takes from what follows it. */
  lemma TakeAfterPrefix(a: seq<Byte>, y: seq<Byte>, n: nat)
    requires n <= |y|
    ensures (a + y)[..|a| + n] == a + y[..n]
  {
  }

  /** The device delivered k status words, of which only the last was ready, and then what `rdev` still holds. */
  predicate PolledPrefix(dev: Device, rdev: Device, k: nat)
  {
    4 * k <= |Unread(dev)| && Unread(dev) == Unread(dev)[..4 * k] + Unread(rdev)
    && PolledUntilReady(Unread(dev)[..4 * k], k)
  }

  /** A busy status word in front of a run of polls that ends ready: one more poll, sent and read. */
  lemma BusyStep(dev: Device, wdev: Device, rdev: Device, k: nat)
    requires |Unread(dev)| >= 4 && Unread(dev) == Unread(dev)[..4] + Unread(wdev) && Unread(dev)[0] % 2 == 0
    requires wdev.sent == dev.sent + PollBytes() && rdev.sent == wdev.sent + Repeat(PollBytes(), k)
    requires PolledPrefix(wdev, rdev, k)
    ensures rdev.sent == dev.sent + Repeat(PollBytes(), k + 1)
    ensures PolledPrefix(dev, rdev, k + 1)
  {
    PollAgain(Unread(dev), Unread(wdev), Unread(rdev), k);
    RepeatStep(dev.sent, PollBytes(), k);
  }

  /** A ready status word ends the polling after one poll. */
  lemma ReadyStep(dev: Device, wdev: Device)
    requires |Unread(dev)| >= 4 && Unread(dev) == Unread(dev)[..4] + Unread(wdev) && Unread(dev)[0] % 2 == 1
    requires wdev.sent == dev.sent + PollBytes()
    ensures wdev.sent == dev.sent + Repeat(PollBytes(), 1)
    ensures PolledPrefix(dev, wdev, 1)
  {
    assert PolledUntilReady(Unread(dev)[..4], 1);
  }

  /** waitReady: polls the flash status register until its ready bit is set; the result counts the polls. */
  function WaitReady(f: Framer, dev: Device): (r: Reply<nat>)
    ensures Size(r.dev) <= Size(dev)
    ensures r.result.Ok? ==> r.result.value >= 1
    decreases Size(dev)
  {
    var w := ReadMemory(f, dev, CMD_READ_WORD, 4, MC_FSR);
    if w.result.Err? then Reply(Err(w.result.error), w.dev)
    // (status & 0x1) == 0
    else if w.result.value % 2 == 0 then
      var rest := WaitReady(f, w.dev);
      if rest.result.Err? then rest else Reply(Ok(rest.result.value + 1), rest.dev)
    else Reply(Ok(1), w.dev)
  }

  /** A successful waitReady sent one poll per status word read, and read busy words up to the first ready one. */
  predicate PolledAsReported(f: Framer, dev: Device)
  {
    Reported(dev, WaitReady(f, dev))
  }

  /** The reply of a waitReady started on `dev` matches what was sent and read. */
  predicate Reported(dev: Device, r: Reply<nat>)
  {
    r.result.Ok? ==> r.dev.sent == dev.sent + Repeat(PollBytes(), r.result.value) && PolledPrefix(dev, r.dev, r.result.value)
  }

  lemma {:induction false} WaitReadyPolls(f: Framer, dev: Device)
    ensures PolledAsReported(f, dev)
    decreases Size(dev)
  {
    var w := ReadMemory(f, dev, CMD_READ_WORD, 4, MC_FSR);
    if w.result.Ok? {
      StatusWordRead(f, dev, w.result.value, w.dev);
      if w.result.value % 2 == 0 {
        WaitReadyPolls(f, w.dev);
        var rest := WaitReady(f, w.dev);
        WaitReadyAfterBusy(f, dev, w.result.value, w.dev, rest);
        PolledAfterBusy(dev, w.dev, rest);
        ReportedAs(f, dev, if rest.result.Ok? then Reply(Ok(rest.result.value + 1), rest.dev) else rest);
      } else {
        PolledWhenReady(f, dev);
      }
    }
  }

  /** What one status poll sent and read. */
  lemma StatusWordRead(f: Framer, dev: Device, status: Int32, wdev: Device)
    requires ReadMemory(f, dev, CMD_READ_WORD, 4, MC_FSR) == Reply(Ok(status), wdev)
    ensures |Unread(dev)| >= 4 && Unread(dev) == Unread(dev)[..4] + Unread(wdev)
    ensures wdev.sent == dev.sent + PollBytes()
    ensures status % 2 == Unread(dev)[0] % 2
  {
    var head := Unread(dev)[..4];
    LowBit(head);
    assert head[0] == Unread(dev)[0];
  }

  /** A busy status word followed by polling that was reported correctly is reported correctly with one poll more. */
  lemma PolledAfterBusy(dev: Device, wdev: Device, rest: Reply<nat>)
    requires |Unread(dev)| >= 4 && Unread(dev) == Unread(dev)[..4] + Unread(wdev) && Unread(dev)[0] % 2 == 0
    requires wdev.sent == dev.sent + PollBytes()
    requires Reported(wdev, rest)
    ensures Reported(dev, if rest.result.Ok? then Reply(Ok(rest.result.value + 1), rest.dev) else rest)
  {
    if rest.result.Ok? {
      var k, rdev := rest.result.value, rest.dev;
      BusyStep(dev, wdev, rdev, k);
      var polled := Reply(Ok(k + 1), rdev);
      assert (if rest.result.Ok? then Reply(Ok(rest.result.value + 1), rest.dev) else rest) == polled;
      assert Reported(dev, polled);
    }
  }

  /** After a busy status word waitReady starts over, and counts one poll more. */
  lemma WaitReadyAfterBusy(f: Framer, dev: Device, status: Int32, wdev: Device, rest: Reply<nat>)
    requires ReadMemory(f, dev, CMD_READ_WORD, 4, MC_FSR) == Reply(Ok(status), wdev) && status % 2 == 0
    requires rest == WaitReady(f, wdev)
    ensures rest.result.Ok? ==> WaitReady(f, dev) == Reply(Ok(rest.result.value + 1), rest.dev)
    ensures rest.result.Err? ==> WaitReady(f, dev) == rest
  {
  }

  lemma ReportedAs(f: Framer, dev: Device, r: Reply<nat>)
    requires WaitReady(f, dev) == r && Reported(dev, r)
    ensures PolledAsReported(f, dev)
  {
  }

  lemma PolledWhenReady(f: Framer, dev: Device)
    requires ReadMemory(f, dev, CMD_READ_WORD, 4, MC_FSR).result.Ok?
    requires ReadMemory(f, dev, CMD_READ_WORD, 4, MC_FSR).result.value % 2 != 0
    ensures PolledAsReported(f, dev)
  {
    var w := ReadMemory(f, dev, CMD_READ_WORD, 4, MC_FSR);
    LowBit(Unread(dev)[..4]);
    ReadyStep(dev, w.dev);
  }

  /** The three word writes of changeLock that follow the wait. */
  function LockWrites(rgn: Int32, lock: bool): seq<Byte>
  {
    WordWire(MC_FMR, 0x0005_0100) + WordWire(MC_FCR, LockCommand(rgn, lock)) + WordWire(MC_FMR, 0x0034_0100)
  }

  /** changeLock: wait for the flash controller, set the flash mode, issue the lock command, restore the mode. */
  function ChangeLock(f: Framer, dev: Device, rgn: Int32, lock: bool): (r: Reply<nat>)
    ensures Size(r.dev) <= Size(dev)
    ensures r.result.Ok? ==>
      r.result.value >= 1
      && r.dev.sent == dev.sent + Repeat(PollBytes(), r.result.value) + LockWrites(rgn, lock)
  {
    var w := WaitReady(f, dev);
    WaitReadyPolls(f, dev);
    match w.result
    case Err(e) => Reply(Err(e), w.dev)
    case Ok(k) =>
      var a := WriteWord(f, w.dev, MC_FMR, 0x0005_0100);
      if a.result.Err? then Reply(Err(a.result.error), a.dev)
      else
        var b := WriteWord(f, a.dev, MC_FCR, LockCommand(rgn, lock));
        if b.result.Err? then Reply(Err(b.result.error), b.dev)
        else
          var c := WriteWord(f, b.dev, MC_FMR, 0x0034_0100);
          if c.result.Err? then Reply(Err(c.result.error), c.dev)
          else
            AppendThree(w.dev.sent, WordWire(MC_FMR, 0x0005_0100), WordWire(MC_FCR, LockCommand(rgn, lock)), WordWire(MC_FMR, 0x0034_0100));
            Reply(Ok(k), c.dev)
  }

  lemma AppendThree(s: seq<Byte>, a: seq<Byte>, b: seq<Byte>, c: seq<Byte>)
    ensures s + a + b + c == s + (a + b + c)
  {
  }

  /** What unlocking regions rgn.. 15 sends, given the number of polls before each. */
  function UnlockWire(rgn: nat, polls: seq<nat>): seq<Byte>
    requires rgn + |polls| <= 16
    decreases |polls|
  {
    if |polls| == 0 then []
    else Repeat(PollBytes(), polls[0]) + LockWrites(rgn, false) + UnlockWire(rgn + 1, polls[1..])
  }

  /** unlockAllPages from region `rgn` on: the regions in ascending order, each unlocked once. */
  function UnlockFrom(f: Framer, dev: Device, rgn: nat): (r: Reply<seq<nat>>)
    requires rgn <= 16
    ensures Size(r.dev) <= Size(dev)
    ensures r.result.Ok? ==>
      |r.result.value| == 16 - rgn
      && EachPolled(r.result.value)
      && r.dev.sent == dev.sent + UnlockWire(rgn, r.result.value)
    decreases 16 - rgn
  {
    if rgn == 16 then Reply(Ok([]), dev)
    else
      var c := ChangeLock(f, dev, rgn, false);
      match c.result
      case Err(e) => Reply(Err(e), c.dev)
      case Ok(k) =>
        var rest := UnlockFrom(f, c.dev, rgn + 1);
        match rest.result
        case Err(e) => rest
        case Ok(ks) =>
          assert ([k] + ks)[1..] == ks;
          PrependPositive(k, ks);
          AppendThree(dev.sent, Repeat(PollBytes(), k), LockWrites(rgn, false), UnlockWire(rgn + 1, ks));
          Reply(Ok([k] + ks), rest.dev)
  }

  /** Every waitReady of a run polled at least once. */
  predicate EachPolled(ks: seq<nat>)
  {
    forall i :: 0 <= i < |ks| ==> ks[i] >= 1
  }

  lemma PrependPositive(k: nat, ks: seq<nat>)
    requires k >= 1 && EachPolled(ks)
    ensures EachPolled([k] + ks)
  {
    assert forall i :: 0 < i < |[k] + ks| ==> ([k] + ks)[i] == ks[i - 1];
  }

  /** unlockAllPages: the lock-region commands of regions 0..15 carry the region number and the unlock code. */
  function UnlockAllPages(f: Framer, dev: Device): (r: Reply<seq<nat>>)
    ensures r.result.Ok? ==> |r.result.value| == 16 && r.dev.sent == dev.sent + UnlockWire(0, r.result.value)
  {
    UnlockFrom(f, dev, 0)
  }

  /** The region and code every lock command of an unlock-all carries. */
  lemma UnlockCommands(rgn: nat)
    requires rgn < 16
    ensures LockCommand(rgn, false) == 0x5A00_0000 + rgn * 0x4000 + 4
  {
    LockCommandFields(rgn, false);
  }

  // ---------------------------------------------------------------------------------------
  // Streams of bytes

  /** writeBytes: a stream-write command for the data, then the data. */
  function WriteBytes(f: Framer, dev: Device, addr: Int32, data: seq<Byte>): (r: Reply<()>)
    requires |data| <= INT_MAX
    ensures r.dev.readScript == dev.readScript
    ensures r.result.Ok? ==> r.dev.sent == dev.sent + Latin1(StreamCommand(CMD_STREAM_WRITE, addr, |data|)) + data
  {
    var c := SendLine(f, dev, StreamCommand(CMD_STREAM_WRITE, addr, |data|));
    if c.result.Err? then c else Send(f, c.dev, data)
  }

  /**
   * readBytes(addr, data, off, len): a stream-read command, then exactly `len` bytes of
   * answer, copied into the caller's array (of length `dataLen`) from `off` on.
   */
  function ReadBytes(f: Framer, dev: Device, addr: Int32, dataLen: nat, off: int, len: Int32): (r: Reply<seq<Byte>>)
    ensures Size(r.dev) <= Size(dev)
    ensures r.result.Ok? || r.result == Err(BadArguments) ==>
      r.dev.sent == dev.sent + Latin1(StreamCommand(CMD_STREAM_READ, addr, len))
    ensures r.result.Ok? ==>
      |r.result.value| == (if len < 0 then 0 else len)
      && Unread(dev) == r.result.value + Unread(r.dev)
    ensures r.result.Ok? && len > 0 ==> 0 <= off && off + len <= dataLen
    ensures r.result == Err(BadArguments) ==> len > 0 && (off < 0 || off + len > dataLen) && Size(r.dev) < Size(dev)
  {
    var c := SendLine(f, dev, StreamCommand(CMD_STREAM_READ, addr, len));
    if c.result.Err? then Reply(Err(c.result.error), c.dev) else ReadAnswerStream(f, c.dev, dataLen, off, len)
  }

  /** jump: a goto command; nothing is read back. */
  function Jump(f: Framer, dev: Device, addr: Int32): (r: Reply<()>)
    ensures r.dev.readScript == dev.readScript
    ensures r.result.Ok? ==> r.dev.sent == dev.sent + Latin1(GotoCommand(addr))
  {
    SendLine(f, dev, GotoCommand(addr))
  }

  /** reboot: a jump to the start of flash. */
  function Reboot(f: Framer, dev: Device): (r: Reply<()>)
    ensures r.result.Ok? ==> r.dev.sent == dev.sent + Latin1(GotoCommand(FLASH_BASE))
  {
    Jump(f, dev, FLASH_BASE)
  }

  // ---------------------------------------------------------------------------------------
  // Flash pages

  /** Where the helper routine expects its page packet: right after its code. */
  function HelperDataAddress(helper: seq<Byte>): Int32
  {
    Wrap32(HELPER_CODEADR + |helper|)
  }

  /** The bytes of one page write: the packet streamed to the helper's data area, then a jump into the helper. */
  function PageWire(helper: seq<Byte>, page: Int32, payload: seq<Byte>): seq<Byte>
    requires |payload| <= PAGE_SIZE
  {
    Latin1(StreamCommand(CMD_STREAM_WRITE, HelperDataAddress(helper), HELPER_PACKET))
    + PagePacket(page, payload) + Latin1(GotoCommand(HELPER_CODEADR))
  }

  /** The bytes of `data` writePage copies: `len` clamped to a page, which must lie inside the array. */
  predicate CopyFits(data: seq<Byte>, offset: int, len: int)
  {
    0 <= offset && 0 <= PageCopy(len) && offset + PageCopy(len) <= |data|
  }

  /** writePage: checks the page number, packs the page and hands it to the flash-writing helper. */
  function WritePage(f: Framer, dev: Device, helper: seq<Byte>, page: Int32, data: seq<Byte>, offset: int, len: int)
    : (r: Reply<()>)
    ensures r.dev.readScript == dev.readScript
    ensures !(0 <= page < PAGE_MAX) ==> r == Reply(Err(PageOutOfRange), dev)
    ensures 0 <= page < PAGE_MAX && !CopyFits(data, offset, len) ==> r == Reply(Err(BadArguments), dev)
    ensures r.result.Ok? ==> 0 <= page < PAGE_MAX && CopyFits(data, offset, len)
    ensures r.result.Ok? ==> r.dev.sent == dev.sent + PageWire(helper, page, data[offset..offset + PageCopy(len)])
  {
    if page < 0 || page >= PAGE_MAX then Reply(Err(PageOutOfRange), dev)
    else
      // the copy into the packet throws unless the clamped range lies inside the data
      if !CopyFits(data, offset, len) then Reply(Err(BadArguments), dev)
      else SendPage(f, dev, helper, page, data[offset..offset + PageCopy(len)])
  }

  /** The part of writePage after the checks: the packet to the helper's data area, then a jump into the helper. */
  function SendPage(f: Framer, dev: Device, helper: seq<Byte>, page: Int32, payload: seq<Byte>): (r: Reply<()>)
    requires |payload| <= PAGE_SIZE
    ensures r.dev.readScript == dev.readScript
    ensures r.result.Ok? ==> r.dev.sent == dev.sent + PageWire(helper, page, payload)
  {
    var pkt := PagePacket(page, payload);
    var w := WriteBytes(f, dev, HelperDataAddress(helper), pkt);
    if w.result.Err? then w
    else
      var g := Jump(f, w.dev, HELPER_CODEADR);
      AppendThree(dev.sent, Latin1(StreamCommand(CMD_STREAM_WRITE, HelperDataAddress(helper), HELPER_PACKET)),
                  pkt, Latin1(GotoCommand(HELPER_CODEADR)));
      g
  }

  /** Every page of a plan is a flash page and its bytes lie inside the data. */
  predicate PlanFits(plan: seq<PageWrite>, data: seq<Byte>)
  {
    forall i :: 0 <= i < |plan| ==>
      0 <= plan[i].page < PAGE_MAX && CopyFits(data, plan[i].offset, plan[i].remaining)
  }

  /** The bytes a plan of page writes sends, page after page. */
  function PlanWire(helper: seq<Byte>, plan: seq<PageWrite>, data: seq<Byte>): seq<Byte>
    requires PlanFits(plan, data)
  {
    if |plan| == 0 then []
    else
      var w := plan[0];
      PageWire(helper, w.page, data[w.offset..w.offset + PageBytes(w)]) + PlanWire(helper, plan[1..], data)
  }

  lemma PlanFitsCons(plan: seq<PageWrite>, data: seq<Byte>)
    requires |plan| > 0 && 0 <= plan[0].page < PAGE_MAX && CopyFits(data, plan[0].offset, plan[0].remaining)
    requires PlanFits(plan[1..], data)
    ensures PlanFits(plan, data)
  {
    forall i | 0 < i < |plan|
      ensures 0 <= plan[i].page < PAGE_MAX && CopyFits(data, plan[i].offset, plan[i].remaining)
    {
      assert plan[i] == plan[1..][i - 1];
    }
  }

  /** writePages: one writePage per 256 bytes, on consecutive pages. */
  function WritePages(f: Framer, dev: Device, helper: seq<Byte>, first: Int32, data: seq<Byte>, offset: int, len: int)
    : (r: Reply<()>)
    ensures r.dev.readScript == dev.readScript
    ensures r.result.Ok? ==>
      PlanFits(WritePlan(first, offset, len), data)
      && r.dev.sent == dev.sent + PlanWire(helper, WritePlan(first, offset, len), data)
    decreases len
  {
    if len <= 0 then Reply(Ok(()), dev)
    else
      var w := WritePage(f, dev, helper, first, data, offset, len);
      if w.result.Err? then w
      else if first + 1 > INT_MAX then
        // a page past the flash; writePage rejected it already
        Reply(Err(PageOutOfRange), w.dev)
      else
        var rest := WritePages(f, w.dev, helper, first + 1, data, offset + PAGE_SIZE, len - PAGE_SIZE);
        if rest.result.Err? then rest
        else
          WritePagesStep(dev.sent, w.dev.sent, rest.dev.sent, helper, first, data, offset, len);
          rest
  }

  /** One page written, then the plan for the rest: together the plan for all of it. */
  lemma WritePagesStep(sent0: seq<Byte>, sent1: seq<Byte>, sent2: seq<Byte>, helper: seq<Byte>,
                       first: int, data: seq<Byte>, offset: int, len: int)
    requires len > 0 && 0 <= first < PAGE_MAX && CopyFits(data, offset, len)
    requires sent1 == sent0 + PageWire(helper, first, data[offset..offset + PageCopy(len)])
    requires PlanFits(WritePlan(first + 1, offset + PAGE_SIZE, len - PAGE_SIZE), data)
    requires sent2 == sent1 + PlanWire(helper, WritePlan(first + 1, offset + PAGE_SIZE, len - PAGE_SIZE), data)
    ensures PlanFits(WritePlan(first, offset, len), data)
    ensures sent2 == sent0 + PlanWire(helper, WritePlan(first, offset, len), data)
  {
    var plan := WritePlan(first, offset, len);
    var rest := WritePlan(first + 1, offset + PAGE_SIZE, len - PAGE_SIZE);
    assert plan == [PageWrite(first, offset, len)] + rest;
    assert plan[0] == PageWrite(first, offset, len) && plan[1..] == rest;
    PlanFitsCons(plan, data);
    var page := PageWire(helper, first, data[offset..offset + PageCopy(len)]);
    assert PlanWire(helper, plan, data) == page + PlanWire(helper, rest, data);
    AppendAssoc(sent0, page, PlanWire(helper, rest, data));
  }

  lemma AppendAssoc(s: seq<Byte>, a: seq<Byte>, b: seq<Byte>)
    ensures s + a + b == s + (a + b)
  {
  }

  /** readPage(page, data, offset): the 256 bytes of one flash page, copied into the caller's array from `offset` on. */
  function ReadPage(f: Framer, dev: Device, dataLen: nat, page: int, offset: int): (r: Reply<seq<Byte>>)
    ensures Size(r.dev) <= Size(dev)
    ensures r.result.Ok? ==> r.dev.sent == dev.sent + Latin1(StreamCommand(CMD_STREAM_READ, PageAddress(page), PAGE_SIZE))
    ensures r.result.Ok? ==> |r.result.value| == PAGE_SIZE && Unread(dev) == r.result.value + Unread(r.dev)
    ensures r.result.Ok? ==> 0 <= offset && offset + PAGE_SIZE <= dataLen
    ensures r.result == Err(BadArguments) ==> (offset < 0 || offset + PAGE_SIZE > dataLen) && Size(r.dev) < Size(dev)
  {
    ReadBytes(f, dev, PageAddress(page), dataLen, offset, PAGE_SIZE)
  }

  /** The read commands of a read plan. */
  function ReadPlanWire(plan: seq<(int, int)>): seq<Byte>
  {
    if |plan| == 0 then []
    else Latin1(StreamCommand(CMD_STREAM_READ, PageAddress(plan[0].0), PAGE_SIZE)) + ReadPlanWire(plan[1..])
  }

  /**
   * readPages from `page` and `offset` while the offset is below `end`: the pages' bytes in
   * order, copied into the caller's array (of length `dataLen`) page after page.
   */
  function ReadPages(f: Framer, dev: Device, dataLen: nat, page: int, offset: int, end: int): (r: Reply<seq<Byte>>)
    ensures Size(r.dev) <= Size(dev)
    ensures r.result.Ok? ==>
      |r.result.value| == PAGE_SIZE * |ReadPlan(page, offset, end)|
      && Unread(dev) == r.result.value + Unread(r.dev)
      && r.dev.sent == dev.sent + ReadPlanWire(ReadPlan(page, offset, end))
    ensures r.result.Ok? && offset < end ==> 0 <= offset && offset + PAGE_SIZE * |ReadPlan(page, offset, end)| <= dataLen
    decreases end - offset
  {
    if offset >= end then Reply(Ok([]), dev)
    else
      var p := ReadPage(f, dev, dataLen, page, offset);
      match p.result
      case Err(e) => p
      case Ok(bytes) =>
        var rest := ReadPages(f, p.dev, dataLen, page + 1, offset + PAGE_SIZE, end);
        match rest.result
        case Err(e) => rest
        case Ok(more) =>
          var plan := ReadPlan(page, offset, end);
          assert plan[1..] == ReadPlan(page + 1, offset + PAGE_SIZE, end);
          assert Unread(dev) == (bytes + more) + Unread(rest.dev);
          Reply(Ok(bytes + more), rest.dev)
  }

  /** readPages(0, new byte[600], 0, 600) cannot succeed: its third page does not fit the array. */
  lemma ReadPagesOverrun(f: Framer, dev: Device)
    ensures ReadPages(f, dev, 600, 0, 0, 600).result.Err?
  {
  }

  // ---------------------------------------------------------------------------------------
  // MemoryInputStream

  /** The stream createInputStream returns: the bytes still owed by the device, and the unread rest of the last read. */
  datatype MemStream = MemStream(owed: int, chunk: seq<Byte>)

  /** Bytes the device still owes the stream. */
  function Owed(m: MemStream): nat
  {
    if m.owed < 0 then 0 else m.owed
  }

  /** Bytes the stream will still deliver. */
  function Budget(m: MemStream): nat
  {
    |m.chunk| + Owed(m)
  }

  /** createInputStream: a stream-read command; the answer is read lazily. */
  function CreateInputStream(f: Framer, dev: Device, addr: Int32, len: Int32): (r: (Result<MemStream, SambaError>, Device))
    ensures r.1.readScript == dev.readScript
    ensures r.0.Ok? ==> r.0.value == MemStream(len, []) && r.1.sent == dev.sent + Latin1(StreamCommand(CMD_STREAM_READ, addr, len))
  {
    var c := SendLine(f, dev, StreamCommand(CMD_STREAM_READ, addr, len));
    if c.result.Err? then (Err(c.result.error), c.dev) else (Ok(MemStream(len, [])), c.dev)
  }

  /**
   * fillBuffer: when the last read is used up and bytes are still owed, reads again. A read
   * longer than what is owed is a protocol error, raised after the read was stored.
   */
  function MemFill(m: MemStream, f: Framer, dev: Device): (r: (Result<bool, SambaError>, MemStream, Device))
    ensures WritesUnchanged(dev, r.2) && Size(r.2) <= Size(dev)
    ensures r.0 == Ok(false) <==> Budget(m) == 0
    ensures r.0.Ok? && |m.chunk| > 0 ==> r == (Ok(true), m, dev)
    ensures r.0.Ok? && Budget(m) == 0 ==> r.1 == m && r.2 == dev
    ensures r.0 == Ok(true) && |m.chunk| == 0 ==>
      |r.1.chunk| > 0 && Owed(r.1) + |r.1.chunk| == Owed(m)
      && Unread(dev) == r.1.chunk + Unread(r.2) && Size(r.2) < Size(dev)
  {
    if |m.chunk| > 0 then (Ok(true), m, dev)
    else if m.owed <= 0 then (Ok(false), m, dev)
    else
      var c := ReadChunk(f, dev);
      match c.result
      case Err(e) => (Err(e), m, c.dev)
      case Ok(ret) =>
        if |ret| > m.owed then (Err(ProtocolError), m.(chunk := ret), c.dev)
        else (Ok(true), MemStream(m.owed - |ret|, ret), c.dev)
  }

  /** read(): the next byte as 0..255, or -1 once every owed byte has been delivered. */
  function MemRead(m: MemStream, f: Framer, dev: Device): (r: (Result<int, SambaError>, MemStream, Device))
    ensures WritesUnchanged(dev, r.2)
    ensures r.0 == Ok(-1) <==> Budget(m) == 0
    ensures r.0 == Ok(-1) ==> r.1 == m && r.2 == dev
    ensures r.0.Ok? && r.0.value != -1 ==>
      0 <= r.0.value < 256 && Budget(r.1) + 1 == Budget(m)
      && m.chunk + Unread(dev) == [r.0.value as Byte] + r.1.chunk + Unread(r.2)
  {
    var (ok, m', dev') := MemFill(m, f, dev);
    match ok
    case Err(e) => (Err(e), m', dev')
    case Ok(more) =>
      if !more then (Ok(-1), m', dev')
      else (Ok(m'.chunk[0] as int), m'.(chunk := m'.chunk[1..]), dev')
  }

  lemma PrefixThen(x: seq<Byte>, a: seq<Byte>, y: seq<Byte>, n: nat, z: seq<Byte>)
    requires x == a + y && n <= |y| && y == y[..n] + z
    ensures |a| + n <= |x| && x == x[..|a| + n] + z
  {
    assert x[..|a| + n] == a + y[..n];
  }

  /** close(): reads and discards whatever the device still owes. */
  function MemClose(m: MemStream, f: Framer, dev: Device): (r: (Result<(), SambaError>, MemStream, Device))
    ensures WritesUnchanged(dev, r.2)
    ensures r.0.Ok? ==> Budget(r.1) == 0
    ensures r.0.Ok? ==> Owed(m) <= |Unread(dev)| && Unread(dev) == Unread(dev)[..Owed(m)] + Unread(r.2)
    decreases Size(dev), |m.chunk|
  {
    var (ok, m', dev') := MemFill(m, f, dev);
    match ok
    case Err(e) => (Err(e), m', dev')
    case Ok(more) =>
      if !more then (Ok(()), m', dev')
      else
        var (res, m2, dev2) := MemClose(m'.(chunk := []), f, dev');
        if res.Err? || |m.chunk| > 0 then (res, m2, dev2)
        else
          PrefixThen(Unread(dev), m'.chunk, Unread(dev'), Owed(m'), Unread(dev2));
          (res, m2, dev2)
  }

  // ---------------------------------------------------------------------------------------
  // Opening

  /** The pieces of SAM-BA's answers to the opening commands. */
  datatype Transcript = Transcript(prompt: seq<Byte>, ack: seq<Byte>, versionLine: seq<Byte>)

  /** Everything open sends once the connection is up, in order. */
  function HandshakeWire(helper: seq<Byte>): seq<Byte>
    requires |helper| <= INT_MAX
  {
    Latin1(InitCommand(CMD_TEXT)) + Latin1(InitCommand(CMD_NON_TEXT)) + Latin1(InitCommand(CMD_VERSION))
    + Latin1(StreamCommand(CMD_STREAM_WRITE, HELPER_CODEADR, |helper|)) + helper
    + WordWire(PMC_MCKR, 7)
  }

  /** One opening exchange: an init command, then the reply up to its terminator. */
  function Exchange(f: Framer, dev: Device, cmd: char, t: Terminator): (r: Reply<seq<Byte>>)
    ensures r.result.Ok? ==> r.dev.sent == dev.sent + Latin1(InitCommand(cmd))
    ensures r.result.Ok? ==> Terminated(t, r.result.value) && Unread(dev) == r.result.value + Unread(r.dev)
  {
    var s := SendLine(f, dev, InitCommand(cmd));
    if s.result.Err? then Reply(Err(s.result.error), s.dev) else ReadUntil(f, s.dev, t)
  }

  lemma AppendSix(s: seq<Byte>, a: seq<Byte>, b: seq<Byte>, c: seq<Byte>, d: seq<Byte>, e: seq<Byte>, g: seq<Byte>)
    ensures s + a + b + c + d + e + g == s + (a + b + c + d + e + g)
  {
  }

  lemma ThreeReplies(x0: seq<Byte>, p: seq<Byte>, x1: seq<Byte>, a: seq<Byte>, x2: seq<Byte>, v: seq<Byte>, x3: seq<Byte>)
    requires x0 == p + x1 && x1 == a + x2 && x2 == v + x3
    ensures x0 == p + a + v + x3
  {
  }

  /**
   * The exchange inside open: text mode and the prompt, quiet mode and its line, the version
   * line, the helper upload and the clock switch to PLL/2.
   */
  function Handshake(f: Framer, dev: Device, helper: seq<Byte>): (r: Reply<Transcript>)
    requires |helper| <= INT_MAX
    ensures r.result.Ok? ==> r.dev.sent == dev.sent + HandshakeWire(helper)
    ensures r.result.Ok? ==>
      var t := r.result.value;
      EndsWithPrompt(t.prompt) && EndsWithLinefeed(t.ack) && EndsWithLinefeed(t.versionLine)
      && Unread(dev) == t.prompt + t.ack + t.versionLine + Unread(r.dev)
  {
    var p := Exchange(f, dev, CMD_TEXT, Prompt);
    if p.result.Err? then Reply(Err(p.result.error), p.dev) else
    var a := Exchange(f, p.dev, CMD_NON_TEXT, Linefeed);
    if a.result.Err? then Reply(Err(a.result.error), a.dev) else
    var v := Exchange(f, a.dev, CMD_VERSION, Linefeed);
    if v.result.Err? then Reply(Err(v.result.error), v.dev) else
    var h := WriteBytes(f, v.dev, HELPER_CODEADR, helper);
    if h.result.Err? then Reply(Err(h.result.error), h.dev) else
    var c := WriteWord(f, h.dev, PMC_MCKR, 7);
    if c.result.Err? then Reply(Err(c.result.error), c.dev) else
    ThreeReplies(Unread(dev), p.result.value, Unread(p.dev), a.result.value, Unread(a.dev), v.result.value, Unread(v.dev));
    AppendSix(dev.sent, Latin1(InitCommand(CMD_TEXT)), Latin1(InitCommand(CMD_NON_TEXT)), Latin1(InitCommand(CMD_VERSION)),
              Latin1(StreamCommand(CMD_STREAM_WRITE, HELPER_CODEADR, |helper|)), helper, WordWire(PMC_MCKR, 7));
    Reply(Ok(Transcript(p.result.value, a.result.value, v.result.value)), c.dev)
  }

  /** What open reports: no device could be opened, or the SAM-BA version of the opened one. */
  datatype Opened = NotOpened | Opened(version: string)

  /**
   * open: opens the USB connection raw and runs the handshake; a failure of the handshake
   * closes the connection again before the exception propagates.
   */
  function Open(f: Framer, dev: Device, helper: seq<Byte>, found: bool, handle: nat)
    : (r: (Result<Opened, SambaError>, Framer, Device))
    requires |helper| <= INT_MAX
    ensures f.open ==> r.0 == Err(AlreadyOpen) && r.1 == f && r.2 == dev
    ensures !f.open && (!found || handle == 0) ==> r == (Ok(NotOpened), f, dev)
    ensures r.0.Err? ==> !r.1.open || f.open
    ensures r.0.Ok? && r.0.value.Opened? ==> r.1 == UsbFramer.Framer(true, false, false, [], [])
    ensures r.0.Ok? && r.0.value.Opened? ==>
      exists t: Transcript {:trigger t.versionLine} ::
        r.0.value.version == VersionAsWritten(Latin1Decode(t.versionLine))
        && EndsWithPrompt(t.prompt) && EndsWithLinefeed(t.ack) && EndsWithLinefeed(t.versionLine)
        && Unread(dev) == t.prompt + t.ack + t.versionLine + Unread(r.2)
        && r.2.sent == dev.sent + HandshakeWire(helper)
  {
    match UsbFramer.Open(f, dev, found, handle, UsbFramer.RAW, [])
    case Err(_) => (Err(AlreadyOpen), f, dev)
    case Ok((ok, f1, dev1)) =>
      if !ok then (Ok(NotOpened), f1, dev1)
      else
        var h := Handshake(f1, dev1, helper);
        match h.result
        case Err(e) =>
          var c := UsbFramer.Close(f1, h.dev);
          (Err(e), c.f, c.dev)
        case Ok(t) => (Ok(Opened(VersionAsWritten(Latin1Decode(t.versionLine)))), f1, h.dev)
  }
}
