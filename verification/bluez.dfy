/**
 * NXTCommBluez, the Linux Bluetooth transport: every message is sent with a two-byte
 * little-endian length header, and read() reassembles packets from whatever the socket
 * delivers, stripping their headers. The socket is a scripted oracle.
 */
module Bluez {
  import opened Bytes
  import opened Results
  import UsbFramer
  import UsbAddress
  import Devices

  const RAW: int := 2

  /** What one rcSocketRecv returns: some bytes (none stands for null or an empty array), or an IOException. */
  datatype Recv = Got(data: seq<Byte>) | RecvFailed

  /** The socket: what it will deliver, and every message sent on it so far. An exhausted script returns null. */
  datatype Socket = Socket(recvScript: seq<Recv>, sent: seq<seq<Byte>>)

  datatype BtError = RecvError | ModeNotSupported | ShortReply | MalformedName

  /**
   * The reassembly state: the payload bytes of the current packet still to come, and the
   * first bytes (fewer than three) of a packet whose header was cut off.
   */
  datatype BtState = BtState(lenRemaining: int, saved: seq<Byte>)

  /** What read() keeps between calls: saved bytes are only kept at a packet boundary. */
  predicate Valid(st: BtState)
  {
    st.lenRemaining >= 0 && |st.saved| <= 2 && (|st.saved| > 0 ==> st.lenRemaining == 0)
  }

  /** Every byte the socket will still deliver, in order. */
  function Delivered(script: seq<Recv>): seq<Byte>
  {
    if |script| == 0 then []
    else match script[0]
      case Got(d) => d + Delivered(script[1..])
      case RecvFailed => Delivered(script[1..])
  }

  /** The bytes delivered between two points of the script. */
  function Taken(before: seq<Recv>, after: seq<Recv>): seq<Byte>
  {
    var d := Delivered(before);
    var e := Delivered(after);
    if |e| <= |d| then d[..|d| - |e|] else []
  }

  /** rcSocketRecv */
  function Receive(sock: Socket): (r: (Result<seq<Byte>, BtError>, Socket))
    ensures r.1.sent == sock.sent && |r.1.recvScript| <= |sock.recvScript|
    ensures r.0.Ok? ==> Delivered(sock.recvScript) == r.0.value + Delivered(r.1.recvScript)
    ensures r.0.Ok? && |r.0.value| == 0 && |sock.recvScript| > 0 ==> |r.1.recvScript| < |sock.recvScript|
    ensures r.0.Ok? && |r.0.value| > 0 ==> |r.1.recvScript| < |sock.recvScript|
  {
    if |sock.recvScript| == 0 then (Ok([]), sock)
    else
      var rest := sock.(recvScript := sock.recvScript[1..]);
      match sock.recvScript[0]
      case Got(d) => (Ok(d), rest)
      case RecvFailed => (Err(RecvError), rest)
  }

  // ---------------------------------------------------------------------------------------
  // Headers

  /** The packet length of a header as read() computes it: the high byte is sign-extended. */
  function HeaderLenAsWritten(lsb: Byte, msb: Byte): int
  {
    lsb + Signed8(msb) * 256
  }

  /** The packet length of a header: the unsigned little-endian value. */
  function HeaderLen(lsb: Byte, msb: Byte): (n: nat)
    ensures n < 0x1_0000
  {
    lsb + 256 * msb
  }

  /** The header write() sends decodes to the length of the data, for every length a header can carry. */
  lemma HeaderLenRoundTrip(len: nat)
    requires len < 0x1_0000
    ensures var h := UsbFramer.Header(len); HeaderLen(h[0], h[1]) == len
  {
    var h := UsbFramer.Header(len);
    UsbFramer.HeaderDecodes(len);
    assert h[1..] == [h[1]];
  }

  /** The two readings agree exactly on headers of packets shorter than 0x8000 bytes. */
  lemma HeaderLenAgreement(lsb: Byte, msb: Byte)
    ensures HeaderLenAsWritten(lsb, msb) == HeaderLen(lsb, msb) <==> msb < 0x80
  {
  }

  /**
   * The header of a 65534-byte packet reads as -2: the scan of read() steps over the header
   * and then two bytes back onto it, so its loop never ends.
   */
  lemma HeaderLenAsWrittenLoops(i: int)
    ensures var h := UsbFramer.Header(65534);
            h == [0xFE, 0xFF] && HeaderLen(h[0], h[1]) == 65534
            && i + 2 + HeaderLenAsWritten(h[0], h[1]) == i
  {
    assert ByteOf(65534) == 0xFE;
    assert ByteOf(65534 / 256) == 0xFF;
  }

  // ---------------------------------------------------------------------------------------
  // The two loops of read()

  /**
   * The first loop of read(), from index i of the received bytes: the number of payload bytes
   * it finds, the tail it saves when fewer than three bytes remain at a packet boundary, and
   * the bytes still missing from a packet that runs past the end.
   */
  function Scan(a: seq<Byte>, i: nat): (r: (nat, seq<Byte>, nat))
    decreases |a| - i
  {
    if i >= |a| then (0, [], 0)
    else if |a| - i < 3 then (0, a[i..], 0)
    else
      var len := HeaderLen(a[i], a[i + 1]);
      var j := i + 2;
      if j + len <= |a| then
        var s := Scan(a, j + len);
        (len + s.0, s.1, s.2)
      else (|a| - j, [], len - (|a| - j))
  }

  /** The second loop of read(): the payload bytes of every packet starting at or after i, the last one possibly cut short. */
  function Gather(a: seq<Byte>, i: nat): seq<Byte>
    decreases |a| - i
  {
    if i + 2 < |a| then
      var len := HeaderLen(a[i], a[i + 1]);
      var j := i + 2;
      var end := if j + len <= |a| then j + len else |a|;
      a[j..end] + Gather(a, j + len)
    else []
  }

  /** The array the first loop sizes is exactly what the second loop fills. */
  lemma {:induction false} ScanSizesGather(a: seq<Byte>, i: nat)
    ensures |Gather(a, i)| == Scan(a, i).0
    decreases |a| - i
  {
    if i + 2 < |a| {
      var len := HeaderLen(a[i], a[i + 1]);
      if i + 2 + len <= |a| {
        ScanSizesGather(a, i + 2 + len);
      }
    }
  }

  /** The scan leaves a valid state behind. */
  lemma {:induction false} ScanValid(a: seq<Byte>, i: nat)
    ensures var s := Scan(a, i); Valid(BtState(s.2, s.1))
    decreases |a| - i
  {
    if i < |a| && |a| - i >= 3 {
      var len := HeaderLen(a[i], a[i + 1]);
      if i + 2 + len <= |a| {
        ScanValid(a, i + 2 + len);
      }
    }
  }

  // ---------------------------------------------------------------------------------------
  // read()

  /** The loop that makes sure at least three bytes are at hand, reading more as needed; an empty read is end of stream. */
  function TopUp(a: seq<Byte>, sock: Socket): (r: (Result<Option<seq<Byte>>, BtError>, Socket))
    ensures r.1.sent == sock.sent
    ensures r.0.Ok? && r.0.value.Some? ==>
      |r.0.value.value| >= 3 && |r.0.value.value| >= |a|
      && a + Delivered(sock.recvScript) == r.0.value.value + Delivered(r.1.recvScript)
    ensures |a| >= 3 ==> r == (Ok(Some(a)), sock)
    decreases |sock.recvScript|
  {
    if |a| >= 3 then (Ok(Some(a)), sock)
    else
      var (more, sock') := Receive(sock);
      match more
      case Err(e) => (Err(e), sock')
      case Ok(m) =>
        if |m| == 0 then (Ok(None), sock')
        else
          var r := TopUp(a + m, sock');
          assert r.0.Ok? && r.0.value.Some? ==> a + Delivered(sock.recvScript) == r.0.value.value + Delivered(r.1.recvScript) by {
            assert a + Delivered(sock.recvScript) == (a + m) + Delivered(sock'.recvScript);
          }
          r
  }

  /** Reading `consumed` turned the owed payload of `st` into `data` followed by what `st'` owes, whatever comes next. */
  ghost predicate Accounts(st: BtState, consumed: seq<Byte>, data: seq<Byte>, st': BtState)
  {
    st.lenRemaining >= 0 && st'.lenRemaining >= 0
    && forall w :: Strip(st.saved + consumed + w, st.lenRemaining) == data + Strip(st'.saved + w, st'.lenRemaining)
  }

  /**
   * read(): None for end of stream. A read no longer than the rest of the current packet is
   * returned as it is; otherwise the saved bytes and the read are parsed into packets whose
   * headers are dropped.
   */
  function Read(st: BtState, sock: Socket): (r: (Result<Option<seq<Byte>>, BtError>, BtState, Socket))
    requires Valid(st)
    ensures Valid(r.1)
    ensures r.2.sent == sock.sent
    ensures r.0.Ok? && r.0.value.Some? ==>
      Delivered(sock.recvScript) == Taken(sock.recvScript, r.2.recvScript) + Delivered(r.2.recvScript)
      && Accounts(st, Taken(sock.recvScript, r.2.recvScript), r.0.value.value, r.1)
  {
    var (got, s1) := Receive(sock);
    match got
    case Err(e) => (Err(e), st, s1)
    case Ok(avail) =>
      if |avail| == 0 then (Ok(None), st, s1)
      else if |avail| <= st.lenRemaining then
        ReadWithinPacket(st, avail);
        assert Taken(sock.recvScript, s1.recvScript) == avail;
        (Ok(Some(avail)), st.(lenRemaining := st.lenRemaining - |avail|), s1)
      else ReadAcross(st, sock, avail, s1)
  }

  /** The branch of read() that parses packets: top up to three bytes, then run the two loops. */
  function ReadAcross(st: BtState, sock: Socket, avail: seq<Byte>, s1: Socket): (r: (Result<Option<seq<Byte>>, BtError>, BtState, Socket))
    requires Valid(st) && st.lenRemaining < |avail|
    requires s1.sent == sock.sent && Delivered(sock.recvScript) == avail + Delivered(s1.recvScript)
    ensures Valid(r.1)
    ensures r.2.sent == sock.sent
    ensures r.0.Ok? && r.0.value.Some? ==>
      Delivered(sock.recvScript) == Taken(sock.recvScript, r.2.recvScript) + Delivered(r.2.recvScript)
      && Accounts(st, Taken(sock.recvScript, r.2.recvScript), r.0.value.value, r.1)
  {
    var (top, s2) := TopUp(st.saved + avail, s1);
    match top
    case Err(e) => (Err(e), st.(saved := []), s2)
    case Ok(None) => (Ok(None), st.(saved := []), s2)
    case Ok(Some(a)) =>
      var k := st.lenRemaining;
      var s := Scan(a, k);
      ScanValid(a, k);
      assert st.saved + Delivered(sock.recvScript) == a + Delivered(s2.recvScript) by {
        assert st.saved + Delivered(sock.recvScript) == (st.saved + avail) + Delivered(s1.recvScript);
      }
      PrefixOfEqual(st.saved, Delivered(sock.recvScript), a, Delivered(s2.recvScript));
      ParsedWereTaken(st.saved, a, a[|st.saved|..], sock.recvScript, s2.recvScript);
      ReadAcrossPackets(st, a, a[|st.saved|..]);
      (Ok(Some(a[..k] + Gather(a, k))), BtState(s.2, s.1), s2)
  }

  /** The bytes the two loops parse beyond the saved ones are exactly those taken from the socket. */
  lemma ParsedWereTaken(saved: seq<Byte>, a: seq<Byte>, consumed: seq<Byte>, before: seq<Recv>, after: seq<Recv>)
    requires |saved| <= |a| && consumed == a[|saved|..] && a[..|saved|] == saved
    requires saved + Delivered(before) == a + Delivered(after)
    ensures Delivered(before) == consumed + Delivered(after) && Taken(before, after) == consumed
  {
    assert a == saved + consumed;
    assert a + Delivered(after) == saved + (consumed + Delivered(after));
    CancelPrefix(saved, Delivered(before), consumed + Delivered(after));
    TakenOf(before, after, consumed);
  }

  lemma PrefixOfEqual(p: seq<Byte>, x: seq<Byte>, a: seq<Byte>, y: seq<Byte>)
    requires p + x == a + y && |p| <= |a|
    ensures a[..|p|] == p
  {
    assert (p + x)[..|p|] == p;
    assert (a + y)[..|p|] == a[..|p|];
  }

  lemma CancelPrefix(p: seq<Byte>, x: seq<Byte>, y: seq<Byte>)
    requires p + x == p + y
    ensures x == y
  {
    assert x == (p + x)[|p|..];
    assert y == (p + y)[|p|..];
  }

  /** Taken names the bytes delivered between two points of the script. */
  lemma TakenOf(before: seq<Recv>, after: seq<Recv>, x: seq<Byte>)
    requires Delivered(before) == x + Delivered(after)
    ensures Taken(before, after) == x
  {
  }

  // ---------------------------------------------------------------------------------------
  // Reference: the payload bytes of a stream of packets

  /**
   * The payload bytes of the wire `w`, read from a point where `k` bytes of the current
   * packet are still to come: headers are dropped, a header cut off at the end yields nothing.
   */
  function Strip(w: seq<Byte>, k: nat): seq<Byte>
    decreases |w|, 1
  {
    if k >= |w| then w else w[..k] + StripHeader(w[k..])
  }

  /** The payload bytes of the wire `w`, which starts at a header. */
  function StripHeader(w: seq<Byte>): seq<Byte>
    decreases |w|, 0
  {
    if |w| < 2 then [] else Strip(w[2..], HeaderLen(w[0], w[1]))
  }

  /** Inside a packet, its bytes pass through. */
  lemma StripInside(x: seq<Byte>, y: seq<Byte>, k: nat)
    requires |x| <= k
    ensures Strip(x + y, k) == x + Strip(y, k - |x|)
  {
    var v := x + y;
    if k < |v| {
      assert v[..k] == x + y[..k - |x|];
      assert v[k..] == y[k - |x|..];
    }
  }

  /** The rest of a packet, then the stream from the next header. */
  lemma StripPast(x: seq<Byte>, y: seq<Byte>, k: nat)
    requires k <= |x|
    ensures Strip(x + y, k) == x[..k] + Strip(x[k..] + y, 0)
  {
    var v := x + y;
    var u := x[k..] + y;
    if k < |v| {
      assert v[..k] == x[..k];
      assert v[k..] == u;
      assert u[..0] == [];
    } else {
      assert u == [];
    }
  }

  /** A header at i: stripping from i drops it and continues with its packet's payload. */
  lemma HeaderStep(a: seq<Byte>, i: nat, w: seq<Byte>)
    requires i + 2 < |a|
    ensures Strip(a[i..] + w, 0) == Strip(a[i + 2..] + w, HeaderLen(a[i], a[i + 1]))
  {
    var v := a[i..] + w;
    assert v[2..] == a[i + 2..] + w;
    assert v[0] == a[i] && v[1] == a[i + 1];
  }

  /** What the two loops return, and the state they leave, account for the received bytes from index i on. */
  lemma {:induction false} ScanGatherStrip(a: seq<Byte>, i: nat, w: seq<Byte>)
    requires i <= |a|
    ensures var s := Scan(a, i); Strip(a[i..] + w, 0) == Gather(a, i) + Strip(s.1 + w, s.2)
    decreases |a| - i
  {
    if i < |a| && |a| - i >= 3 {
      var len := HeaderLen(a[i], a[i + 1]);
      if i + 2 + len <= |a| {
        ScanGatherStrip(a, i + 2 + len, w);
        PacketThenRest(a, i, w, i + 2 + len);
      } else {
        PacketCut(a, i, w);
      }
    } else if i < |a| {
      assert a[i..] + w == Scan(a, i).1 + w;
    } else {
      assert a[i..] + w == w;
    }
  }

  /** A whole packet at i, ending at e, followed by what the loops make of the rest. */
  lemma PacketThenRest(a: seq<Byte>, i: nat, w: seq<Byte>, e: nat)
    requires i + 2 < |a| && e == i + 2 + HeaderLen(a[i], a[i + 1]) && e <= |a|
    requires Strip(a[e..] + w, 0) == Gather(a, e) + Strip(Scan(a, e).1 + w, Scan(a, e).2)
    ensures Strip(a[i..] + w, 0) == Gather(a, i) + Strip(Scan(a, i).1 + w, Scan(a, i).2)
  {
    var len := e - (i + 2);
    var owed := Strip(Scan(a, e).1 + w, Scan(a, e).2);
    HeaderStep(a, i, w);
    WholePacket(a, i + 2, len, w);
    LoopsStep(a, i);
    Compose(Strip(a[i..] + w, 0), Strip(a[i + 2..] + w, len), Strip(a[e..] + w, 0), a[i + 2..e], Gather(a, e), owed, Gather(a, i));
  }

  lemma Compose(x: seq<Byte>, y: seq<Byte>, z: seq<Byte>, packet: seq<Byte>, g: seq<Byte>, owed: seq<Byte>, gi: seq<Byte>)
    requires x == y && y == packet + z && z == g + owed && gi == packet + g
    ensures x == gi + owed
  {
  }

  /** Both loops step over a whole packet at i the same way. */
  lemma LoopsStep(a: seq<Byte>, i: nat)
    requires i + 2 < |a| && i + 2 + HeaderLen(a[i], a[i + 1]) <= |a|
    ensures var e := i + 2 + HeaderLen(a[i], a[i + 1]);
      Gather(a, i) == a[i + 2..e] + Gather(a, e) && Scan(a, i).1 == Scan(a, e).1 && Scan(a, i).2 == Scan(a, e).2
  {
  }

  /** A packet at i that runs past the received bytes: the loops take what there is and owe the rest. */
  lemma PacketCut(a: seq<Byte>, i: nat, w: seq<Byte>)
    requires i + 2 < |a| && i + 2 + HeaderLen(a[i], a[i + 1]) > |a|
    ensures var s := Scan(a, i); Strip(a[i..] + w, 0) == Gather(a, i) + Strip(s.1 + w, s.2)
  {
    var len := HeaderLen(a[i], a[i + 1]);
    var j := i + 2;
    HeaderStep(a, i, w);
    StripInside(a[j..], w, len);
    assert Gather(a, i) == a[j..] + Gather(a, j + len);
    assert Scan(a, i) == (|a| - j, [], len - (|a| - j));
    assert [] + w == w;
  }

  /** A packet that ends inside the received bytes passes whole, and stripping resumes at its end. */
  lemma WholePacket(a: seq<Byte>, j: nat, len: nat, w: seq<Byte>)
    requires j + len <= |a|
    ensures Strip(a[j..] + w, len) == a[j..j + len] + Strip(a[j + len..] + w, 0)
  {
    StripPast(a[j..], w, len);
    assert a[j..][len..] == a[j + len..];
    assert a[j..][..len] == a[j..j + len];
  }

  lemma ReadWithinPacket(st: BtState, avail: seq<Byte>)
    requires Valid(st) && |avail| <= st.lenRemaining && |avail| > 0
    ensures forall w :: Strip(st.saved + avail + w, st.lenRemaining) == avail + Strip(st.saved + w, st.lenRemaining - |avail|)
  {
    assert st.saved == [];
    forall w
      ensures Strip(st.saved + avail + w, st.lenRemaining) == avail + Strip(st.saved + w, st.lenRemaining - |avail|)
    {
      assert st.saved + avail + w == avail + w;
      assert st.saved + w == w;
      StripInside(avail, w, st.lenRemaining);
    }
  }

  lemma ReadAcrossPackets(st: BtState, a: seq<Byte>, consumed: seq<Byte>)
    requires Valid(st) && a == st.saved + consumed && st.lenRemaining <= |a|
    ensures Accounts(st, consumed, a[..st.lenRemaining] + Gather(a, st.lenRemaining), BtState(Scan(a, st.lenRemaining).2, Scan(a, st.lenRemaining).1))
  {
    var k := st.lenRemaining;
    forall w
      ensures Strip(st.saved + consumed + w, k) == a[..k] + Gather(a, k) + Strip(Scan(a, k).1 + w, Scan(a, k).2)
    {
      assert st.saved + consumed + w == a + w;
      StripPast(a, w, k);
      ScanGatherStrip(a, k, w);
    }
  }

  // ---------------------------------------------------------------------------------------
  // write() and the packet round trip

  /** write(): the data behind its two-byte length header, as one message. */
  function Write(sock: Socket, data: seq<Byte>): (r: Socket)
    ensures r.recvScript == sock.recvScript
    ensures |r.sent| == |sock.sent| + 1 && r.sent[..|sock.sent|] == sock.sent
    ensures |data| < 0x1_0000 ==> var m := r.sent[|sock.sent|];
              |m| == |data| + 2 && HeaderLen(m[0], m[1]) == |data| && m[2..] == data
  {
    var m := UsbFramer.Frame(data);
    if |data| < 0x1_0000 then
      HeaderLenRoundTrip(|data|);
      sock.(sent := sock.sent + [m])
    else sock.(sent := sock.sent + [m])
  }

  /** The payloads of a run of packets, in order. */
  function Flatten(ps: seq<seq<Byte>>): seq<Byte>
  {
    if |ps| == 0 then [] else ps[0] + Flatten(ps[1..])
  }

  /** The wire image of a run of writes. */
  function Wire(ps: seq<seq<Byte>>): seq<Byte>
  {
    if |ps| == 0 then [] else UsbFramer.Frame(ps[0]) + Wire(ps[1..])
  }

  /** Stripping the headers from what a run of writes puts on the wire gives back the data written. */
  lemma {:induction false} StripWire(ps: seq<seq<Byte>>)
    requires forall i :: 0 <= i < |ps| ==> |ps[i]| < 0x1_0000
    ensures Strip(Wire(ps), 0) == Flatten(ps)
  {
    if |ps| > 0 {
      var p := ps[0];
      var h := UsbFramer.Header(|p|);
      HeaderLenRoundTrip(|p|);
      var rest := Wire(ps[1..]);
      assert Wire(ps) == h + (p + rest);
      assert (h + (p + rest))[2..] == p + rest;
      StripPast(p + rest, [], |p|);
      assert (p + rest)[..|p|] == p && (p + rest)[|p|..] == rest;
      assert p + rest + [] == p + rest && rest + [] == rest;
      StripWire(ps[1..]);
    }
  }

  /**
   * A freshly opened reader, fed the wire of a run of writes however the socket cuts it into
   * reads, owes exactly the data written.
   */
  lemma OpenedReaderOwesWrites(st: BtState, mode: int, ps: seq<seq<Byte>>)
    requires mode != RAW
    requires forall i :: 0 <= i < |ps| ==> |ps[i]| < 0x1_0000
    ensures var st' := Open(st, mode, true).1; Strip(st'.saved + Wire(ps), st'.lenRemaining) == Flatten(ps)
  {
    assert Open(st, mode, true).1.saved + Wire(ps) == Wire(ps);
    StripWire(ps);
  }

  // ---------------------------------------------------------------------------------------
  // sendRequest, open, search

  /** The header sendRequest puts in front of a request: the low byte of the length, then zero. */
  function RequestHeader(len: nat): seq<Byte>
  {
    [ByteOf(len), 0]
  }

  /** For a request shorter than 256 bytes the header is write()'s; from 256 on it drops the high byte. */
  lemma RequestHeaderAgreement(len: nat)
    requires len < 0x1_0000
    ensures RequestHeader(len) == UsbFramer.Header(len) <==> len < 256
  {
    if len >= 256 {
      assert (len / 256) % 256 != 0;
    }
  }

  /**
   * sendRequest: sends the request behind its header; with a reply expected, one receive
   * whose first two bytes (the reply's own header) are dropped. A reply that is null or
   * shorter than two bytes fails (a NullPointerException or NegativeArraySizeException).
   */
  function SendRequest(sock: Socket, request: seq<Byte>, replyLen: int): (r: (Result<seq<Byte>, BtError>, Socket))
    ensures |r.1.sent| == |sock.sent| + 1 && r.1.sent[..|sock.sent|] == sock.sent
    ensures r.1.sent[|sock.sent|] == RequestHeader(|request|) + request
    ensures replyLen == 0 ==> r.0 == Ok([]) && r.1.recvScript == sock.recvScript
    ensures replyLen != 0 && r.0.Ok? ==>
      var reply := Taken(sock.recvScript, r.1.recvScript);
      Delivered(sock.recvScript) == reply + Delivered(r.1.recvScript)
      && |reply| >= 2 && r.0.value == reply[2..]
  {
    var sock1 := sock.(sent := sock.sent + [RequestHeader(|request|) + request]);
    if replyLen == 0 then (Ok([]), sock1)
    else
      var (got, sock2) := Receive(sock1);
      match got
      case Err(e) => (Err(e), sock2)
      case Ok(d) =>
        if |d| < 2 then (Err(ShortReply), sock2)
        else
          assert Taken(sock.recvScript, sock2.recvScript) == d;
          (Ok(d[2..]), sock2)
  }

  /** open(): resets the reassembly state, then refuses RAW mode; whether the socket connects is the oracle's. */
  function Open(st: BtState, mode: int, connects: bool): (r: (Result<bool, BtError>, BtState))
    ensures r.1 == BtState(0, []) && Valid(r.1)
    ensures r.0.Err? <==> mode == RAW
    ensures r.0.Ok? ==> r.0.value == connects
  {
    if mode == RAW then (Err(ModeNotSupported), BtState(0, []))
    else (Ok(connects), BtState(0, []))
  }

  /** One search answer "name::address" as an NXTInfo. */
  function ParseFound(s: string): (r: Result<Devices.NxtInfo, BtError>)
    ensures r.Ok? ==>
      r.value.name.Some? && r.value.address.Some?
      && s == r.value.name.value + "::" + r.value.address.value
      && UsbAddress.IndexOf(s, 0) == |r.value.name.value|
      && r.value.protocol == Devices.BLUETOOTH && r.value.resource == Some(s)
    ensures r.Err? <==> UsbAddress.IndexOf(s, 0) == -1
  {
    var sep := UsbAddress.IndexOf(s, 0);
    if sep == -1 then Err(MalformedName)
    else
      assert s == s[..sep] + "::" + s[sep + 2..];
      Ok(Devices.NxtInfo(Some(s[..sep]), Some(s[sep + 2..]), Devices.BLUETOOTH, Some(s)))
  }

  /** A search answer search() can turn into an NXTInfo. */
  predicate WellFormed(a: Option<string>)
  {
    a.Some? && UsbAddress.IndexOf(a.value, 0) != -1
  }

  /**
   * search(): the answers of the native search in order. No answer list, or a null answer
   * met before any malformed one, gives no devices at all; a malformed answer met first
   * fails (a StringIndexOutOfBoundsException).
   */
  function Search(answers: Option<seq<Option<string>>>): (r: Result<seq<Devices.NxtInfo>, BtError>)
    ensures answers.None? ==> r == Ok([])
    ensures answers.Some? && (forall j :: 0 <= j < |answers.value| ==> WellFormed(answers.value[j])) ==>
      r.Ok? && |r.value| == |answers.value|
      && forall j :: 0 <= j < |r.value| ==> ParseFound(answers.value[j].value) == Ok(r.value[j])
    ensures r.Err? ==> answers.Some? && exists j :: 0 <= j < |answers.value| && answers.value[j].Some? && !WellFormed(answers.value[j])
    ensures r.Ok? && |r.value| > 0 ==> answers.Some? && forall j :: 0 <= j < |answers.value| ==> WellFormed(answers.value[j])
  {
    match answers
    case None => Ok([])
    case Some(list) =>
      match SearchFrom(list, 0)
      case Err(e) => Err(e)
      case Ok(None) => Ok([])
      case Ok(Some(infos)) => Ok(infos)
  }

  /** The loop of search() from answer i on; None when it meets a null answer. */
  function SearchFrom(list: seq<Option<string>>, i: nat): (r: Result<Option<seq<Devices.NxtInfo>>, BtError>)
    requires i <= |list|
    ensures r.Ok? && r.value.Some? <==> forall j :: i <= j < |list| ==> WellFormed(list[j])
    ensures r.Ok? && r.value.Some? ==>
      |r.value.value| == |list| - i
      && forall j :: 0 <= j < |r.value.value| ==> ParseFound(list[i + j].value) == Ok(r.value.value[j])
    ensures r.Ok? && r.value.Some? && |r.value.value| == 0 ==> i == |list|
    ensures r.Ok? && r.value.None? ==> exists j :: i <= j < |list| && list[j].None?
    ensures r.Err? ==> exists j :: i <= j < |list| && list[j].Some? && !WellFormed(list[j])
    decreases |list| - i
  {
    if i == |list| then Ok(Some([]))
    else match list[i]
      case None => Ok(None)
      case Some(s) =>
        match ParseFound(s)
        case Err(e) => Err(e)
        case Ok(info) =>
          match SearchFrom(list, i + 1)
          case Err(e) => Err(e)
          case Ok(None) => Ok(None)
          case Ok(Some(more)) => Ok(Some([info] + more))
  }
}
