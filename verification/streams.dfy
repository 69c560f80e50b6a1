/**
 * NXTCommInputStream and NXTCommOutputStream: java.io streams over any NXTComm.
 * The input stream hands out the messages NXTComm.read() returns, byte by byte or slice by
 * slice, and latches end of file; the output stream collects bytes and sends them as one
 * message on flush. The transport is a scripted oracle.
 */
module Streams {
  import opened Bytes
  import opened Results

  /** One answer of NXTComm.read(): a message (no bytes stands for null or an empty array), or an IOException. */
  datatype Chunk = Data(bytes: seq<Byte>) | Fails

  /** The input stream's fields: the current message, the index into it, and the end-of-file latch. */
  datatype InStream = InStream(buf: seq<Byte>, idx: nat, eof: bool)

  datatype StreamError = TransportError | IndexOutOfBounds

  /** What one read step yields: the result, the stream, and the transport's remaining answers. */
  datatype Got<+T> = Got(result: Result<T, StreamError>, s: InStream, chunks: seq<Chunk>)

  predicate Valid(s: InStream)
  {
    s.idx <= |s.buf|
  }

  /** A new stream: nothing buffered, not at end of file. */
  function NewStream(): (s: InStream)
    ensures Valid(s) && !s.eof && Available(s) == 0
  {
    InStream([], 0, false)
  }

  /** The bytes the transport will still hand out before its first end of file; failures deliver nothing. */
  function UntilEnd(chunks: seq<Chunk>): seq<Byte>
  {
    if |chunks| == 0 then []
    else match chunks[0]
      case Fails => UntilEnd(chunks[1..])
      case Data(b) => if |b| == 0 then [] else b + UntilEnd(chunks[1..])
  }

  /** Every byte the stream will still return before -1. */
  function Content(s: InStream, chunks: seq<Chunk>): seq<Byte>
    requires Valid(s)
  {
    if s.eof then [] else s.buf[s.idx..] + UntilEnd(chunks)
  }

  /**
   * The refill both read methods share: with bytes left in the current message nothing
   * happens; otherwise the next message is fetched, and null or an empty one latches end of file.
   */
  function Refill(s: InStream, chunks: seq<Chunk>): (r: Got<bool>)
    requires Valid(s) && !s.eof
    ensures Valid(r.s)
    ensures r.result.Ok? && r.result.value <==> r.s.eof
    ensures r.result.Ok? && !r.result.value ==> r.s.idx < |r.s.buf| && !r.s.eof
    ensures r.result.Ok? ==> Content(s, chunks) == Content(r.s, r.chunks)
    ensures r.result.Ok? && r.result.value ==> Content(s, chunks) == []
    ensures r.result.Err? ==> r.s == s && Content(s, chunks) == Content(r.s, r.chunks)
    ensures s.idx < |s.buf| ==> r == Got(Ok(false), s, chunks)
  {
    if s.idx < |s.buf| then Got(Ok(false), s, chunks)
    else
      assert s.buf[s.idx..] == [];
      if |chunks| == 0 then Got(Ok(true), InStream([], 0, true), chunks)
      else match chunks[0]
        case Fails => Got(Err(TransportError), s, chunks[1..])
        case Data(b) =>
          if |b| == 0 then Got(Ok(true), InStream([], 0, true), chunks[1..])
          else
            assert b[0..] == b;
            Got(Ok(false), InStream(b, 0, false), chunks[1..])
  }

  /** Taking n bytes of the current message leaves the rest of the content. */
  lemma ContentTake(t: InStream, chunks: seq<Chunk>, n: nat)
    requires Valid(t) && !t.eof && t.idx + n <= |t.buf|
    ensures Content(t, chunks) == t.buf[t.idx..t.idx + n] + Content(t.(idx := t.idx + n), chunks)
  {
    assert t.buf[t.idx..] == t.buf[t.idx..t.idx + n] + t.buf[t.idx + n..];
  }

  /** read(): the next byte as 0..255, or -1 at end of file. */
  function ReadByte(s: InStream, chunks: seq<Chunk>): (r: Got<int>)
    requires Valid(s)
    ensures Valid(r.s)
    ensures s.eof ==> r == Got(Ok(-1), s, chunks)
    ensures r.result.Ok? ==> (r.result.value == -1 <==> Content(s, chunks) == [])
    ensures r.result.Ok? && r.result.value == -1 ==> r.s.eof
    ensures r.result.Ok? && r.result.value != -1 ==>
      0 <= r.result.value < 256 && Content(s, chunks) == [r.result.value as Byte] + Content(r.s, r.chunks)
    ensures r.result.Err? ==> Content(s, chunks) == Content(r.s, r.chunks)
  {
    if s.eof then Got(Ok(-1), s, chunks)
    else
      var g := Refill(s, chunks);
      match g.result
      case Err(e) => Got(Err(e), g.s, g.chunks)
      case Ok(atEnd) =>
        if atEnd then Got(Ok(-1), g.s, g.chunks)
        else
          var t := g.s;
          ContentTake(t, g.chunks, 1);
          assert t.buf[t.idx..t.idx + 1] == [t.buf[t.idx]];
          Got(Ok(t.buf[t.idx] as int), t.(idx := t.idx + 1), g.chunks)
  }

  /**
   * read(b, off, len): copies at most len bytes of the current message into b at off and
   * returns how many, or -1 at end of file. It never reads past the current message.
   * The bounds of b are checked after the refill, against the shortened len.
   */
  function ReadInto(s: InStream, chunks: seq<Chunk>, b: seq<Byte>, off: int, len: int): (r: (Got<int>, seq<Byte>))
    requires Valid(s)
    ensures Valid(r.0.s) && |r.1| == |b|
    ensures s.eof ==> r == (Got(Ok(-1), s, chunks), b)
    ensures r.0.result.Ok? ==> (r.0.result.value == -1 <==> Content(s, chunks) == [])
    ensures r.0.result.Ok? && r.0.result.value == -1 ==> r.0.s.eof && r.1 == b
    ensures r.0.result.Ok? && r.0.result.value != -1 ==>
      var n := r.0.result.value;
      0 <= n <= len && 0 <= off && off + n <= |b|
      && (n == len || n == |s.buf| - s.idx || (s.idx == |s.buf| && n == |r.0.s.buf|))
      && Content(s, chunks) == r.1[off..off + n] + Content(r.0.s, r.0.chunks)
      && r.1[..off] == b[..off] && r.1[off + n..] == b[off + n..]
    ensures r.0.result.Ok? && r.0.result.value != -1 && 0 < len ==> 0 < r.0.result.value
    ensures r.0.result.Err? ==> Content(s, chunks) == Content(r.0.s, r.0.chunks) && r.1 == b
  {
    if s.eof then (Got(Ok(-1), s, chunks), b)
    else
      var g := Refill(s, chunks);
      match g.result
      case Err(e) => (Got(Err(e), g.s, g.chunks), b)
      case Ok(atEnd) =>
        if atEnd then (Got(Ok(-1), g.s, g.chunks), b)
        else
          var t := g.s;
          var avail := |t.buf| - t.idx;
          var n := if len > avail then avail else len;
          if off < 0 || n < 0 || off + n > |b| then (Got(Err(IndexOutOfBounds), t, g.chunks), b)
          else
            var slice := t.buf[t.idx..t.idx + n];
            var b' := b[..off] + slice + b[off + n..];
            assert b'[off..off + n] == slice;
            assert b'[..off] == b[..off] && b'[off + n..] == b[off + n..];
            ContentTake(t, g.chunks, n);
            (Got(Ok(n), t.(idx := t.idx + n), g.chunks), b')
  }

  /** available(): the bytes left in the current message; no I/O. */
  function Available(s: InStream): (n: int)
    requires Valid(s)
    ensures n >= 0 && (n > 0 ==> n == |s.buf[s.idx..]|)
  {
    |s.buf| - s.idx
  }

  /** close(): latches end of file. */
  function CloseIn(s: InStream): (r: InStream)
    requires Valid(s)
    ensures Valid(r) && r.eof && forall chunks :: Content(r, chunks) == []
  {
    s.(eof := true)
  }

  /**
   * Reading byte after byte hands out exactly the stream's content, then -1: the bytes
   * returned before end of file are the messages of the transport, concatenated.
   */
  function ReadAll(s: InStream, chunks: seq<Chunk>): (r: Result<seq<Byte>, StreamError>)
    requires Valid(s)
    ensures r.Ok? ==> r.value == Content(s, chunks)
    decreases !s.eof, |Content(s, chunks)|, |chunks|, |s.buf| - s.idx
  {
    var g := ReadByte(s, chunks);
    match g.result
    case Err(e) => Err(e)
    case Ok(v) =>
      if v == -1 then Ok([])
      else
        match ReadAll(g.s, g.chunks)
        case Err(e) => Err(e)
        case Ok(rest) => Ok([v as Byte] + rest)
  }

  /** A transport that never fails: ReadAll never fails either. */
  lemma {:induction false} ReadAllWithoutFailures(s: InStream, chunks: seq<Chunk>)
    requires Valid(s)
    requires forall i :: 0 <= i < |chunks| ==> chunks[i].Data?
    ensures ReadAll(s, chunks).Ok?
    decreases !s.eof, |Content(s, chunks)|, |chunks|, |s.buf| - s.idx
  {
    var g := ReadByte(s, chunks);
    if !s.eof {
      var h := Refill(s, chunks);
      assert h.result.Ok?;
    }
    assert g.result.Ok?;
    if g.result.value != -1 {
      assert forall i :: 0 <= i < |g.chunks| ==> g.chunks[i].Data? by {
        assert g.chunks == chunks || g.chunks == chunks[1..];
      }
      ReadAllWithoutFailures(g.s, g.chunks);
    }
  }

  /** Once at end of file, both read methods return -1 and change nothing, for ever. */
  lemma EofLatched(s: InStream, chunks: seq<Chunk>, b: seq<Byte>, off: int, len: int)
    requires Valid(s) && s.eof
    ensures ReadByte(s, chunks) == Got(Ok(-1), s, chunks)
    ensures ReadInto(s, chunks, b, off, len) == (Got(Ok(-1), s, chunks), b)
  {
  }

  // ---------------------------------------------------------------------------------------
  // NXTCommOutputStream

  /** The output stream: its ByteArrayOutputStream, and every message NXTComm.write() has sent. */
  datatype OutStream = OutStream(pending: seq<Byte>, sent: seq<seq<Byte>>)

  /** write(b, off, len): appends b[off..off+len); an out-of-range slice throws. Nothing is sent. */
  function WriteSlice(o: OutStream, b: seq<Byte>, off: int, len: int): (r: Result<OutStream, StreamError>)
    ensures r.Ok? <==> 0 <= off && 0 <= len && off + len <= |b|
    ensures r.Ok? ==> r.value.sent == o.sent && r.value.pending == o.pending + b[off..off + len]
  {
    if off < 0 || len < 0 || off + len > |b| then Err(IndexOutOfBounds)
    else Ok(o.(pending := o.pending + b[off..off + len]))
  }

  /** write(int): appends the low eight bits. Nothing is sent. */
  function WriteInt(o: OutStream, v: int): (r: OutStream)
    ensures r.sent == o.sent && |r.pending| == |o.pending| + 1 && r.pending[..|o.pending|] == o.pending
    ensures r.pending[|o.pending|] == v % 256 && (0 <= v < 256 ==> r.pending[|o.pending|] == v)
  {
    o.(pending := o.pending + [ByteOf(v)])
  }

  /**
   * flush(): sends what is buffered as one message, if there is anything. `writeFails` is
   * whether that NXTComm.write() throws: the exception propagates before the buffer is reset,
   * so the bytes stay buffered and nothing counts as sent.
   */
  function Flush(o: OutStream, writeFails: bool): (r: (Result<(), StreamError>, OutStream))
    ensures r.0.Err? <==> |o.pending| > 0 && writeFails
    ensures r.0.Err? ==> r.0.error == TransportError && r.1 == o
    ensures r.0.Ok? ==> r.1.pending == []
    ensures r.0.Ok? && |o.pending| == 0 ==> r.1.sent == o.sent
    ensures r.0.Ok? && |o.pending| > 0 ==> |r.1.sent| == |o.sent| + 1 && r.1.sent[..|o.sent|] == o.sent && r.1.sent[|o.sent|] == o.pending
    ensures forall m :: m in r.1.sent ==> m in o.sent || (m == o.pending && |m| > 0)
  {
    if |o.pending| == 0 then (Ok(()), o)
    else if writeFails then (Err(TransportError), o)
    else (Ok(()), OutStream([], o.sent + [o.pending]))
  }

  /** close(): exactly a flush, so a failing write makes close throw with the bytes still buffered. */
  function CloseOut(o: OutStream, writeFails: bool): (r: (Result<(), StreamError>, OutStream))
    ensures r.0.Err? <==> |o.pending| > 0 && writeFails
    ensures r.0.Err? ==> r.1 == o
    ensures r.0.Ok? ==> r.1.pending == [] && (|o.pending| == 0 ==> r.1.sent == o.sent)
    ensures r.0.Ok? && |o.pending| > 0 ==> r.1.sent == o.sent + [o.pending]
  {
    Flush(o, writeFails)
  }

  /** A flush whose write failed loses nothing: flushing again sends exactly what the first flush would have. */
  lemma FlushRetry(o: OutStream)
    ensures Flush(o, true).1 == o
    ensures Flush(Flush(o, true).1, false) == Flush(o, false)
  {
  }

  /** A write the output stream can be given. */
  datatype Op = Bytes(b: seq<Byte>) | Int(v: int)

  function Apply(o: OutStream, ops: seq<Op>): OutStream
    decreases |ops|
  {
    if |ops| == 0 then o
    else match ops[0]
      case Bytes(b) => Apply(WriteSlice(o, b, 0, |b|).value, ops[1..])
      case Int(v) => Apply(WriteInt(o, v), ops[1..])
  }

  function OpBytes(ops: seq<Op>): seq<Byte>
  {
    if |ops| == 0 then []
    else match ops[0]
      case Bytes(b) => b + OpBytes(ops[1..])
      case Int(v) => [ByteOf(v)] + OpBytes(ops[1..])
  }

  /** A run of writes sends nothing and buffers every byte in order. */
  lemma {:induction false} WritesBuffer(o: OutStream, ops: seq<Op>)
    ensures Apply(o, ops) == OutStream(o.pending + OpBytes(ops), o.sent)
    decreases |ops|
  {
    if |ops| > 0 {
      match ops[0]
      case Bytes(b) =>
        assert b[0..|b|] == b;
        WritesBuffer(WriteSlice(o, b, 0, |b|).value, ops[1..]);
        assert o.pending + b + OpBytes(ops[1..]) == o.pending + (b + OpBytes(ops[1..]));
      case Int(v) =>
        WritesBuffer(WriteInt(o, v), ops[1..]);
        assert o.pending + [ByteOf(v)] + OpBytes(ops[1..]) == o.pending + ([ByteOf(v)] + OpBytes(ops[1..]));
    } else {
      assert o.pending + [] == o.pending;
    }
  }

  /**
   * Writes then flush on an empty stream send exactly one message, the bytes written in
   * order, unless nothing was written; a second flush (or close) sends nothing more.
   */
  lemma WritesThenFlush(sent: seq<seq<Byte>>, ops: seq<Op>)
    ensures var f := Flush(Apply(OutStream([], sent), ops), false);
            var r := f.1;
            f.0.Ok? && (r.sent == sent + [OpBytes(ops)] || (OpBytes(ops) == [] && r.sent == sent))
            && Flush(r, false) == (Ok(()), r) && CloseOut(r, true) == (Ok(()), r)
  {
    WritesBuffer(OutStream([], sent), ops);
    assert [] + OpBytes(ops) == OpBytes(ops);
  }
}
