# leJOS NXT host communication, modelled in Dafny

This project models the host side of the leJOS NXT communication stack as it is used by an
Android app: the transports that carry bytes to and from a LEGO NXT brick, and the sensor and
motor classes that drive the brick's I2C and LCP interfaces over them. Every operation is a pure
function (or a method with loop invariants) over immutable state, and each contract is proved
against a partner: an inverse, a reference definition, or an invariant the operation keeps.

What is modelled:

- **USB transport** (`NXTCommUSB`). Modules `UsbAddress`, `UsbDiscovery` and `UsbFramer`:
  - the `::`-separated address-field parser;
  - device discovery: `find`, the name probe and `search`, with its named-first placement loop;
  - the 512-byte input and output buffers (`USB_BUFSZ` * 8), raw reads and writes, and the packet framing (a two-byte little-endian length, with length 0 meaning end of stream);
  - the open, close and EOF handshake.
- **Bluetooth transport** (`NXTCommBluez`), module `Bluez`:
  - the inquiry parser;
  - the header-stripping `read` that reassembles packets split across receives;
  - `write` and `sendRequest`.
- **SAM-BA boot loader client** (`NXTSamba`), modules `Samba` and `SambaFormat`:
  - the text command formats and the hex and decimal fields;
  - answer decoding, and flash-ready polling;
  - lock-region commands, page writes and reads;
  - the memory input stream, and the open handshake with its version-string cleanup.
- **Stream adapters** (`NXTCommInputStream`, `NXTCommOutputStream`), module `Streams`.
- **Connection manager** (`NXTConnector`), module `Connector`: URL parsing, the USB-then-Bluetooth search with the name cache, and connecting to the first device that opens.
- **Devices on top**, modules `I2cSensor`, `MmxMotor`, `OpticalDistance`, `Ultrasonic`, `Pspnx`, `LightSensor` and `RemoteMotor`: `I2CSensor`, `MMXMotor`, `OpticalDistanceSensor`, `UltrasonicSensor`, `PSPNXController`, `LightSensor` and `RemoteMotor`.

How the outside world appears:

- **Native calls and remote commands.** USB `devRead`/`devWrite`, the BlueZ socket, the LCP
  `LSWrite`/`LSGetStatus`/`LSRead` calls and the motor's output-state requests are scripts. A
  script is a sequence of replies that the model consumes in order. Everything written is
  appended to a `sent` log, so contracts speak about what went on the wire.
- **Exhausted scripts.** What an exhausted script means depends on the transport. For a USB device it is a silent device: a call that does not wait gets nothing, and a call that waits (`rawRead` or `rawWrite` with `wait`) would block forever. The model reports that as the error `Hang`. `open` reports it as `Blocked`, and `close` returns `Hang` with the handle still open: in the source neither call returns. For the Bluetooth socket, an exhausted script is a receive that returns null. For the SAM-BA monitor, whose reads do not wait, it is a zero-byte read, reported as `ReadTimeout`. For the input stream (`Streams`), an exhausted chunk list is a null read: it latches end of file, and every later read returns -1.
- **Java arithmetic.** Java `int` arithmetic is modelled explicitly:
  - wrap-around (`Wrap32`);
  - truncating `/` and `%` (`JavaDiv`, `JavaRem`);
  - `>>>` (`UShr`), byte casts (`ByteOf`, `Signed8`) and `Math.abs` overflow (`JavaAbs`).
- **Strings** are `seq<char>`. A Dafny `char` is a Unicode scalar value; it covers every Java `char` except an unpaired surrogate, which no modelled string produces.

Shared definitions:

- `Bytes`: the byte type, Java integer semantics, and little-endian codecs.
- `Results`: `Option` and `Result`.
- `Devices`: the `NXTInfo` record and the protocol constants.

## Model

| member | source | states |
|---|---|---|
| Bluez.Receive | LegoMachineLearningAndroidApp/lejosdroidcomms/src/main/java/lejos/pc/comm/NXTCommBluez.java:154-160 | one receive hands over a prefix of the bytes still to be delivered, keeps the sent log, and consumes a script entry whenever it returns data |
| Bluez.HeaderLenRoundTrip | LegoMachineLearningAndroidApp/lejosdroidcomms/src/main/java/lejos/pc/comm/NXTCommBluez.java:192-194 | for every length below 65536, the unsigned decode of the two header bytes a writer emits gives that length back |
| Bluez.HeaderLenAgreement | LegoMachineLearningAndroidApp/lejosdroidcomms/src/main/java/lejos/pc/comm/NXTCommBluez.java:192-194 | the source's sign-extending decode `(lsb & 0xFF) + (msb << 8)` agrees with the unsigned decode exactly when the high byte is below 0x80 |
| Bluez.HeaderLenAsWrittenLoops | LegoMachineLearningAndroidApp/lejosdroidcomms/src/main/java/lejos/pc/comm/NXTCommBluez.java:185-204 | with the decode as written, the header of a 65534-byte packet reads as -2, so the scan index lands back where it started and the scan never advances |
| Bluez.ScanSizesGather | LegoMachineLearningAndroidApp/lejosdroidcomms/src/main/java/lejos/pc/comm/NXTCommBluez.java:182-205 | the data length the sizing pass computes equals the number of payload bytes the copy pass gathers |
| Bluez.ScanValid | LegoMachineLearningAndroidApp/lejosdroidcomms/src/main/java/lejos/pc/comm/NXTCommBluez.java:185-191 | the sizing pass always ends with fewer than three bytes saved, or with none saved |
| Bluez.ScanGatherStrip | LegoMachineLearningAndroidApp/lejosdroidcomms/src/main/java/lejos/pc/comm/NXTCommBluez.java:182-223 | starting a scan at a packet boundary, the bytes gathered plus whatever the saved residue and remaining count later strip equal the header-stripped stream |
| Bluez.TopUp | LegoMachineLearningAndroidApp/lejosdroidcomms/src/main/java/lejos/pc/comm/NXTCommBluez.java:175-180 | topping up ends with at least three bytes, extends the buffer using only delivered bytes, and leaves a buffer that already has three bytes unchanged |
| Bluez.Read | LegoMachineLearningAndroidApp/lejosdroidcomms/src/main/java/lejos/pc/comm/NXTCommBluez.java:153-229 | built on the corrected unsigned header decode (see Findings): the returned data is exactly the payload the consumed bytes carry once packet headers are stripped, and the new saved bytes and remaining count account for the rest of the stream |
| Bluez.ReadAcross | LegoMachineLearningAndroidApp/lejosdroidcomms/src/main/java/lejos/pc/comm/NXTCommBluez.java:167-229 | the branch that starts a new packet keeps the same accounting: payload returned plus the stripping owed by the new state equals the stripping owed by the old |
| Bluez.ReadWithinPacket | LegoMachineLearningAndroidApp/lejosdroidcomms/src/main/java/lejos/pc/comm/NXTCommBluez.java:162-165 | a receive no longer than the current packet's remainder is all payload and shrinks the remainder by its length |
| Bluez.ReadAcrossPackets | LegoMachineLearningAndroidApp/lejosdroidcomms/src/main/java/lejos/pc/comm/NXTCommBluez.java:182-225 | when the receive crosses a packet boundary, the old remainder followed by the gathered packets is the payload, and the scan's saved bytes and new remainder carry the rest |
| Bluez.Write | LegoMachineLearningAndroidApp/lejosdroidcomms/src/main/java/lejos/pc/comm/NXTCommBluez.java:235-240 | every write appends one message: a two-byte little-endian length header followed by the data, whose header decodes to the data length |
| Bluez.StripWire | LegoMachineLearningAndroidApp/lejosdroidcomms/src/main/java/lejos/pc/comm/NXTCommBluez.java:235-240 | stripping the headers from a sequence of written messages gives back their concatenated payloads |
| Bluez.OpenedReaderOwesWrites | LegoMachineLearningAndroidApp/lejosdroidcomms/src/main/java/lejos/pc/comm/NXTCommBluez.java:66-80 | right after a successful open, the reader's state strips the wire of any sequence of writes to exactly their payloads |
| Bluez.RequestHeaderAgreement | LegoMachineLearningAndroidApp/lejosdroidcomms/src/main/java/lejos/pc/comm/NXTCommBluez.java:91-93 | the request header (low byte of the length, then zero) equals the general two-byte header exactly when the request is shorter than 256 bytes |
| Bluez.SendRequest | LegoMachineLearningAndroidApp/lejosdroidcomms/src/main/java/lejos/pc/comm/NXTCommBluez.java:88-107 | a request goes out once with its header; with no reply expected the result is empty and nothing is received; otherwise the result is the reply received minus its two header bytes |
| Bluez.Open | LegoMachineLearningAndroidApp/lejosdroidcomms/src/main/java/lejos/pc/comm/NXTCommBluez.java:66-80 | open always clears the saved bytes and the remaining count, refuses RAW mode with an error, and otherwise reports whether the connection was made |
| Bluez.ParseFound | LegoMachineLearningAndroidApp/lejosdroidcomms/src/main/java/lejos/pc/comm/NXTCommBluez.java:43-48 | a found device string parses exactly when it contains `::`; the name is the text before the first `::`, the address the text after it, and the protocol is Bluetooth |
| Bluez.Search | LegoMachineLearningAndroidApp/lejosdroidcomms/src/main/java/lejos/pc/comm/NXTCommBluez.java:26-54 | no inquiry answer gives no devices; when every answer is well formed, each device is the parse of the answer at the same position; an error means some answer lacked `::`; a null answer empties the result |
| Bluez.SearchFrom | LegoMachineLearningAndroidApp/lejosdroidcomms/src/main/java/lejos/pc/comm/NXTCommBluez.java:37-52 | the loop from position i yields one parsed device per remaining answer exactly when all of them are well formed, and stops at a null answer |
| UsbFramer.HeaderDecodes | lejosdroidcomms/src/main/java/lejos/pc/comm/NXTCommUSB.java:548-557 | the two header bytes a packet write emits decode, little-endian, to the data length modulo 65536 |
| UsbFramer.RawRead | lejosdroidcomms/src/main/java/lejos/pc/comm/NXTCommUSB.java:237-248 | a raw read is refused when the device is closed, returns at most the capacity, never an empty buffer when it waits, only bytes the device delivered and in order, and always succeeds while data is available and no read fails |
| UsbFramer.WriteFrom | lejosdroidcomms/src/main/java/lejos/pc/comm/NXTCommUSB.java:260-276 | the write loop sends the buffer from the given offset onward, in order; a waiting write either sends all of it or fails by hanging or by a write error |
| UsbFramer.RawWrite | lejosdroidcomms/src/main/java/lejos/pc/comm/NXTCommUSB.java:260-276 | a raw write is refused when closed, sends a prefix of the buffer in order, sends all of it when it waits, and a non-waiting write never reports a hang |
| UsbFramer.FillBuffer | lejosdroidcomms/src/main/java/lejos/pc/comm/NXTCommUSB.java:182-190 | a refill holds between 1 and 512 bytes (`USB_BUFSZ` * 8), taken in order from the device, and succeeds whenever bytes remain and no read fails; a failed refill leaves the buffer empty |
| UsbFramer.Pop | lejosdroidcomms/src/main/java/lejos/pc/comm/NXTCommUSB.java:197-202 | taking a byte from a non-empty buffer returns its first byte and shortens the incoming stream by exactly that byte |
| UsbFramer.ReadByte | lejosdroidcomms/src/main/java/lejos/pc/comm/NXTCommUSB.java:197-202 | reading one byte returns the next byte of the incoming stream (buffered bytes, then the device) and succeeds whenever one is available |
| UsbFramer.ReadBytes | lejosdroidcomms/src/main/java/lejos/pc/comm/NXTCommUSB.java:197-202 | reading n bytes returns the next n bytes of the incoming stream in order, and serves them from the buffer alone when it holds enough |
| UsbFramer.ReadPacket | lejosdroidcomms/src/main/java/lejos/pc/comm/NXTCommUSB.java:513-522 | in packet mode the read consumes a two-byte length header and then exactly that many payload bytes; a zero length reports end of stream and latches EOF |
| UsbFramer.ReadUnframed | lejosdroidcomms/src/main/java/lejos/pc/comm/NXTCommUSB.java:523-530 | outside packet mode a read returns whatever is buffered, or one raw read of up to 512 bytes, and empties the buffer |
| UsbFramer.Read | lejosdroidcomms/src/main/java/lejos/pc/comm/NXTCommUSB.java:508-532 | after EOF every read returns null without touching the device; null is returned only at end of stream; outside packet mode a read that succeeds returns at least one byte |
| UsbFramer.FlushBuffer | lejosdroidcomms/src/main/java/lejos/pc/comm/NXTCommUSB.java:208-215 | a successful flush sends the output buffer in order and empties it; a failed one keeps it; an empty buffer sends nothing |
| UsbFramer.WriteByte | lejosdroidcomms/src/main/java/lejos/pc/comm/NXTCommUSB.java:222-226 | buffering a byte keeps the order of everything sent or still buffered, and the buffer never holds more than 512 bytes |
| UsbFramer.WriteBytes | lejosdroidcomms/src/main/java/lejos/pc/comm/NXTCommUSB.java:222-226 | buffering a byte sequence appends it, in order, to what is sent or still buffered |
| UsbFramer.Write | lejosdroidcomms/src/main/java/lejos/pc/comm/NXTCommUSB.java:548-557 | a successful write sends anything buffered, then, in packet mode, the low and high bytes of the length followed by the data |
| UsbFramer.SendRequest | lejosdroidcomms/src/main/java/lejos/pc/comm/NXTCommUSB.java:495-501 | a successful request has put everything buffered and then the request (framed in packet mode) on the wire; with replyLen 0 the reply is empty and no input is consumed; otherwise the reply is the next message read after the request |
| UsbFramer.Negotiate | lejosdroidcomms/src/main/java/lejos/pc/comm/NXTCommUSB.java:416-431 | the negotiation sends the probe, clears EOF, and turns packet mode on exactly when the reply starts 0x02 0xFE 0xEF; an IOException counts as no reply, and an exchange that waits forever is reported as a hang |
| UsbFramer.OpenAsWritten | lejosdroidcomms/src/main/java/lejos/pc/comm/NXTCommUSB.java:378-444 | opening as written fails with AlreadyOpen exactly when already open, blocks only when negotiating packet mode, and a reported success leaves the device open |
| UsbFramer.Open | lejosdroidcomms/src/main/java/lejos/pc/comm/NXTCommUSB.java:378-444 | open fails exactly when already open; no device or handle gives false with nothing changed; in LCP or RAW mode success is a fresh unframed, unbuffered state; otherwise open is the packet-mode negotiation on that fresh state, and never returns when the negotiation waits forever |
| UsbFramer.DrainUntilEof | lejosdroidcomms/src/main/java/lejos/pc/comm/NXTCommUSB.java:454-479 | the `while (!EOF) read()` loop keeps the connection and mode, sends nothing, and ends normally exactly when EOF is latched; otherwise it ends with the exception that stopped it, a hang meaning it waits forever |
| UsbFramer.WriteEof | lejosdroidcomms/src/main/java/lejos/pc/comm/NXTCommUSB.java:278-283 | a zero-length packet that is written successfully is the two bytes 0, 0 on the wire |
| UsbFramer.Close | lejosdroidcomms/src/main/java/lejos/pc/comm/NXTCommUSB.java:454-479 | close returns exactly when it releases the handle: an IOException during the handshake is swallowed, but a flush or drain that waits forever on a silent peer is a hang that leaves the handle open; an already-closed device is left alone, and an unframed connection with nothing buffered is simply closed |
| UsbFramer.ReadFrameAhead | lejosdroidcomms/src/main/java/lejos/pc/comm/NXTCommUSB.java:508-532 | a read when a complete frame is next returns exactly that frame's payload and leaves the rest of the stream ready for the next read |
| UsbFramer.PacketFrameAhead | lejosdroidcomms/src/main/java/lejos/pc/comm/NXTCommUSB.java:513-522 | the packet branch consumes exactly one header and one payload when a complete frame is next |
| UsbFramer.FrameHeader | lejosdroidcomms/src/main/java/lejos/pc/comm/NXTCommUSB.java:513-522 | the header of a framed packet decodes to the payload length |
| UsbFramer.ReadEofAhead | lejosdroidcomms/src/main/java/lejos/pc/comm/NXTCommUSB.java:513-522 | a zero-length frame makes a read report end of stream, and every later read reports it too |
| UsbFramer.PacketRoundTrip | lejosdroidcomms/src/main/java/lejos/pc/comm/NXTCommUSB.java:508-557 | what one end writes in packet mode the other end reads back as exactly the same packet, whatever follows on the wire |
| UsbFramer.EmptyWriteIsEof | lejosdroidcomms/src/main/java/lejos/pc/comm/NXTCommUSB.java:278-283 | an empty packet write puts exactly the end-of-stream marker 0, 0 on the wire |
| UsbFramer.DrainFrames | lejosdroidcomms/src/main/java/lejos/pc/comm/NXTCommUSB.java:454-479 | draining discards whole frames up to the zero-length frame and stops right after it with EOF latched |
| UsbFramer.CloseHandshake | lejosdroidcomms/src/main/java/lejos/pc/comm/NXTCommUSB.java:454-479 | closing a packet connection sends the end-of-stream marker, discards incoming frames through the peer's marker, and ends closed with EOF latched |
| UsbFramer.EofAccepted | lejosdroidcomms/src/main/java/lejos/pc/comm/NXTCommUSB.java:278-283 | when the device accepts both bytes, the EOF write reports success and sends 0, 0 |
| UsbFramer.CloseAfterEof | lejosdroidcomms/src/main/java/lejos/pc/comm/NXTCommUSB.java:454-479 | after a successful EOF write, close is exactly the drain followed by marking the device closed, unless the drain waits forever |
| UsbFramer.ReopenKeepsStaleEof | lejosdroidcomms/src/main/java/lejos/pc/comm/NXTCommUSB.java:378-444 | reopening in LCP mode as written keeps a stale EOF, so the next read returns null despite data; the corrected open clears it and reads the data |
| UsbFramer.WriteBytesBuffers | lejosdroidcomms/src/main/java/lejos/pc/comm/NXTCommUSB.java:222-226 | bytes that fit in the 512-byte output buffer are only buffered; nothing reaches the device until a flush |
| UsbFramer.WriteAccepted | lejosdroidcomms/src/main/java/lejos/pc/comm/NXTCommUSB.java:548-557 | an unframed message that fits the buffer, written to a device that takes it in one call, goes out exactly as given |
| UsbFramer.ReadChunkUnframed | lejosdroidcomms/src/main/java/lejos/pc/comm/NXTCommUSB.java:523-530 | outside packet mode one device answer that fits the buffer is read as exactly one message |
| UsbFramer.SendRequestReply | lejosdroidcomms/src/main/java/lejos/pc/comm/NXTCommUSB.java:495-501 | in packet mode, with the reply frame on its way, sendRequest sends the framed request and returns exactly that frame's payload, leaving the bytes after it unread |
| UsbFramer.NegotiateReply | lejosdroidcomms/src/main/java/lejos/pc/comm/NXTCommUSB.java:416-431 | against a device that takes the probe and answers once, the probe goes out unframed and packet mode is on exactly when the reply starts 0x02 0xFE 0xEF; any other reply leaves the connection unframed |
| UsbFramer.OpenPacketMode | lejosdroidcomms/src/main/java/lejos/pc/comm/NXTCommUSB.java:378-444 | open in packet mode (any mode but RAW and LCP) comes up open, not at EOF, with empty buffers, and framed exactly when the brick accepts packet mode |
| UsbFramer.RawReadSilent | lejosdroidcomms/src/main/java/lejos/pc/comm/NXTCommUSB.java:237-248 | a waiting raw read on a device with nothing more to deliver waits forever |
| UsbFramer.ReadSilent | lejosdroidcomms/src/main/java/lejos/pc/comm/NXTCommUSB.java:508-532 | with nothing buffered and nothing left to deliver, a read waits forever, framed or not |
| UsbFramer.DrainSilentPeer | lejosdroidcomms/src/main/java/lejos/pc/comm/NXTCommUSB.java:454-479 | a peer that sends packets but never its end-of-stream marker keeps the drain loop waiting forever |
| UsbFramer.CloseSilentPeerBlocks | lejosdroidcomms/src/main/java/lejos/pc/comm/NXTCommUSB.java:454-479 | closing against a peer that never sends its marker sends 0, 0 and then never returns, leaving the handle open |
| UsbFramer.OpenSilentDeviceBlocks | lejosdroidcomms/src/main/java/lejos/pc/comm/NXTCommUSB.java:416-431 | open in packet mode against a device that takes the probe but never answers does not return |
| UsbAddress.IndexOf | lejosdroidcomms/src/main/java/lejos/pc/comm/NXTCommUSB.java:108-141 | the forward search returns the first `::` at or after the start position, or -1 when there is none |
| UsbAddress.LastFrom | lejosdroidcomms/src/main/java/lejos/pc/comm/NXTCommUSB.java:108-141 | the backward search returns the last `::` at or before the position, or -1 when there is none |
| UsbAddress.GetAddressString | lejosdroidcomms/src/main/java/lejos/pc/comm/NXTCommUSB.java:108-141 | an empty address string has no fields, and any field returned is no longer than the address string |
| UsbAddress.ForwardSelectsField | lejosdroidcomms/src/main/java/lejos/pc/comm/NXTCommUSB.java:125-137 | on fields without colons joined by `::`, a location of 1 or less selects the first field, location k selects field k, and a location past the last field gives null |
| UsbAddress.BackwardSelectsField | lejosdroidcomms/src/main/java/lejos/pc/comm/NXTCommUSB.java:112-124 | on fields without colons joined by `::`, a negative location -k selects the k-th field from the end, or null when there are fewer than k fields |
| UsbAddress.AddressFieldSelection | lejosdroidcomms/src/main/java/lejos/pc/comm/NXTCommUSB.java:108-141 | for any non-empty `::`-joined address, getAddressString(loc) is field loc counting from 1, the first field for 0, field -loc counting from the end for negative loc, and null otherwise |
| UsbDiscovery.Find | lejosdroidcomms/src/main/java/lejos/pc/comm/NXTCommUSB.java:292-319 | find succeeds exactly when every device string has a vendor field, and a product field when the vendor is Atmel (otherwise the source dereferences null); it then returns one USB description per kept address, in order, each with the serial field as its address, named as the Samba device exactly when its vendor and product fields are Atmel's Samba boot loader, and otherwise left unnamed |
| UsbDiscovery.DescribesConcat | lejosdroidcomms/src/main/java/lejos/pc/comm/NXTCommUSB.java:300-317 | descriptions built for two runs of addresses concatenate into descriptions of the joined run |
| UsbDiscovery.CharOfByte | lejosdroidcomms/src/main/java/lejos/pc/comm/NXTCommUSB.java:160-170 | a byte widens to a Java char by sign extension: below 0x80 it keeps its value, otherwise it gains 0xFF00 |
| UsbDiscovery.NameOf | lejosdroidcomms/src/main/java/lejos/pc/comm/NXTCommUSB.java:160-170 | the name is the longest zero-free prefix of the field, each byte widened to a char, and stops exactly at the first zero byte |
| UsbDiscovery.GetName | lejosdroidcomms/src/main/java/lejos/pc/comm/NXTCommUSB.java:148-176 | a name is read exactly when the device opens, the request write succeeds and the reply holds at least 33 bytes; it is then the zero-terminated text of reply bytes 3 to 17 |
| UsbDiscovery.Prepare | lejosdroidcomms/src/main/java/lejos/pc/comm/NXTCommUSB.java:336-350 | a candidate without an address gets the all-zero serial, one without a name gets the probed name, and each keeps its protocol and resource; a name it already had is never replaced |
| UsbDiscovery.Kept | lejosdroidcomms/src/main/java/lejos/pc/comm/NXTCommUSB.java:336-350 | only candidates with an address that pass the name filter are kept, and never more than were found |
| UsbDiscovery.PartitionSizes | lejosdroidcomms/src/main/java/lejos/pc/comm/NXTCommUSB.java:351-365 | the named and unnamed groups together hold every kept device |
| UsbDiscovery.Search | lejosdroidcomms/src/main/java/lejos/pc/comm/NXTCommUSB.java:328-370 | search returns the kept devices with the named ones first, then the unnamed ones labelled Unknown, each group in discovery order |
| UsbDiscovery.Arrange | lejosdroidcomms/src/main/java/lejos/pc/comm/NXTCommUSB.java:351-365 | the two-cursor placement loop produces exactly the named devices in order followed by the unnamed ones labelled Unknown |
| UsbDiscovery.PlaceUnknown | lejosdroidcomms/src/main/java/lejos/pc/comm/NXTCommUSB.java:358-361 | placing an unnamed device at the unnamed cursor keeps the arrangement invariant and stays inside the array |
| UsbDiscovery.PlaceNamed | lejosdroidcomms/src/main/java/lejos/pc/comm/NXTCommUSB.java:362-364 | placing a named device at the named cursor keeps the arrangement invariant and stays inside the named region |
| UsbDiscovery.PrefixStep | lejosdroidcomms/src/main/java/lejos/pc/comm/NXTCommUSB.java:351-365 | extending the scanned prefix by one device adds it to exactly one group |
| UsbDiscovery.NamedPrefixBound | lejosdroidcomms/src/main/java/lejos/pc/comm/NXTCommUSB.java:351-365 | the groups of any prefix are no larger than the groups of the whole list, so the cursors never overrun |
| UsbDiscovery.ArrangePermutes | lejosdroidcomms/src/main/java/lejos/pc/comm/NXTCommUSB.java:351-365 | the arranged result is a permutation of the kept devices, after unnamed ones are labelled Unknown |
| UsbDiscovery.SearchReport | lejosdroidcomms/src/main/java/lejos/pc/comm/NXTCommUSB.java:328-370 | every reported device has a name and an address, the report is a permutation of the labelled kept devices, and with a name filter every device carries that name |
| UsbDiscovery.GroupMembers | lejosdroidcomms/src/main/java/lejos/pc/comm/NXTCommUSB.java:351-365 | the named group draws only from the input, every unnamed entry is labelled Unknown and matches an input address, and when every input has a name the unnamed group is empty |
| Samba.ReadChunk | lejosdroidcomms/src/main/java/lejos/pc/comm/NXTSamba.java:158-167 | one read returns between 1 and 64 bytes that the device delivered, in order; a zero-byte raw read is a read timeout, and a closed device is refused |
| Samba.Send | lejosdroidcomms/src/main/java/lejos/pc/comm/NXTSamba.java:230-234 | a successful write puts exactly the data on the wire; a short write is a write timeout; nothing is read |
| Samba.SendLine | lejosdroidcomms/src/main/java/lejos/pc/comm/NXTSamba.java:242-246 | a command string goes on the wire as its ISO-8859-1 bytes |
| Samba.ReadAnswerWord | lejosdroidcomms/src/main/java/lejos/pc/comm/NXTSamba.java:169-182 | an answer must arrive as one chunk of exactly the expected length, and its value is that chunk read little-endian as a Java int; otherwise it is a bad packet length |
| Samba.ReadAnswerStream | lejosdroidcomms/src/main/java/lejos/pc/comm/NXTSamba.java:184-198 | a stream answer of a positive length is exactly that many bytes, the next ones delivered, in chunks that never overshoot, and they fit the caller's array from the offset on; a chunk that would run past the array (or a negative offset) is refused as bad arguments after it was consumed; a length of zero or less reads nothing |
| Samba.TerminatedSuffix | lejosdroidcomms/src/main/java/lejos/pc/comm/NXTSamba.java:212-223 | a line is judged by its final chunk only, so whatever came before a terminated chunk does not matter |
| Samba.ReadUntil | lejosdroidcomms/src/main/java/lejos/pc/comm/NXTSamba.java:212-223 | reading until a terminator returns the delivered bytes up to and including the first chunk that ends with the prompt (or, for a line, with the line-feed test) |
| Samba.WriteMemory | lejosdroidcomms/src/main/java/lejos/pc/comm/NXTSamba.java:304-329 | writeOctet, writeHalfword and writeWord send exactly the write command for their width: the command letter, the address in 8 hex digits, a comma, the value in 2, 4 or 8 hex digits, and the terminator |
| Samba.WriteWord | lejosdroidcomms/src/main/java/lejos/pc/comm/NXTSamba.java:326-329 | writeWord sends exactly the word write command for the address and value |
| Samba.ReadMemory | lejosdroidcomms/src/main/java/lejos/pc/comm/NXTSamba.java:337-365 | readOctet, readHalfword and readWord send the read command with the width in decimal and return the next answer of that width, decoded little-endian |
| Samba.ReadWordOfEncoded | lejosdroidcomms/src/main/java/lejos/pc/comm/NXTSamba.java:361-365 | when the device answers with the four bytes encodeInt produces for v, readWord returns v |
| Samba.WaitReadyPolls | lejosdroidcomms/src/main/java/lejos/pc/comm/NXTSamba.java:418-422 | a successful waitReady sent one status read per status word and read busy words (bit 0 clear) up to and including the first ready word |
| Samba.StatusWordRead | lejosdroidcomms/src/main/java/lejos/pc/comm/NXTSamba.java:420 | a status poll sends the read of 0xFFFFFF68 and its ready bit is bit 0 of the first byte of the answer |
| Samba.PolledAfterBusy | lejosdroidcomms/src/main/java/lejos/pc/comm/NXTSamba.java:418-422 | a busy status followed by a correct report of the remaining polls is a correct report with one more poll |
| Samba.WaitReadyAfterBusy | lejosdroidcomms/src/main/java/lejos/pc/comm/NXTSamba.java:418-422 | after a busy status, waitReady continues exactly as a fresh waitReady from the next byte, counting one more poll |
| Samba.PolledWhenReady | lejosdroidcomms/src/main/java/lejos/pc/comm/NXTSamba.java:418-422 | when the first status word is already ready, waitReady reports one poll correctly |
| Samba.PolledStep | lejosdroidcomms/src/main/java/lejos/pc/comm/NXTSamba.java:418-422 | a busy status word in front of a run that ends at the first ready word is again such a run, one longer |
| Samba.ChangeLock | lejosdroidcomms/src/main/java/lejos/pc/comm/NXTSamba.java:430-441 | changing a lock region polls until the flash is ready, then writes the mode register, the command word and the mode register again, in that order |
| Samba.UnlockFrom | lejosdroidcomms/src/main/java/lejos/pc/comm/NXTSamba.java:447-451 | the unlock loop from region r issues, for each remaining region in order, its wait-ready polls and its three writes |
| Samba.UnlockAllPages | lejosdroidcomms/src/main/java/lejos/pc/comm/NXTSamba.java:447-451 | unlocking all pages issues the unlock sequence for all 16 regions, 0 to 15, in order |
| Samba.UnlockCommands | lejosdroidcomms/src/main/java/lejos/pc/comm/NXTSamba.java:430-441 | the unlock command word for region r is 0x5A000000 plus r shifted left by 14, plus 4 |
| Samba.WriteBytes | lejosdroidcomms/src/main/java/lejos/pc/comm/NXTSamba.java:393-397 | writeBytes sends the stream-write command for the address and data length, then the data itself |
| Samba.ReadBytes | lejosdroidcomms/src/main/java/lejos/pc/comm/NXTSamba.java:381-385 | readBytes sends the stream-read command and returns exactly the requested number of delivered bytes (none for a negative length), which fit the caller's array from the offset on; bytes that do not fit are refused as bad arguments after the command was sent |
| Samba.Jump | lejosdroidcomms/src/main/java/lejos/pc/comm/NXTSamba.java:404-407 | jump sends exactly the go command for the address |
| Samba.Reboot | lejosdroidcomms/src/main/java/lejos/pc/comm/NXTSamba.java:409-412 | reboot sends exactly the go command for the start of flash, 0x00100000 |
| Samba.WritePage | lejosdroidcomms/src/main/java/lejos/pc/comm/NXTSamba.java:477-492 | a page outside 0 to 1023 is refused before anything is sent; a copy that does not fit the data is refused; otherwise the page number and at most 256 bytes of data go to the helper's data area, followed by a go to the helper |
| Samba.SendPage | lejosdroidcomms/src/main/java/lejos/pc/comm/NXTSamba.java:484-491 | sending a page packet writes the 260-byte packet to the helper's data area and then jumps to the helper |
| Samba.WritePages | lejosdroidcomms/src/main/java/lejos/pc/comm/NXTSamba.java:502-511 | writePages sends one page packet per step of the write plan (consecutive pages, offsets advancing by 256, until the length is used up), in order |
| Samba.WritePagesStep | lejosdroidcomms/src/main/java/lejos/pc/comm/NXTSamba.java:502-511 | one loop iteration followed by the rest of the plan is the whole plan |
| Samba.ReadPage | lejosdroidcomms/src/main/java/lejos/pc/comm/NXTSamba.java:520-525 | readPage sends the stream read of 256 bytes at the start of flash plus page times 256, and returns the next 256 delivered bytes, which fit the caller's array from the offset on; otherwise bad arguments |
| Samba.ReadPagesOverrun | lejosdroidcomms/src/main/java/lejos/pc/comm/NXTSamba.java:535-545 | readPages of 600 bytes from offset 0 into a 600-byte array fails, since its third page does not fit |
| Samba.ReadPages | lejosdroidcomms/src/main/java/lejos/pc/comm/NXTSamba.java:535-545 | readPages reads 256 bytes per page of the read plan, sending one stream read per page, and returns the delivered bytes in order, all of which fit the caller's array from the first offset on |
| Samba.CreateInputStream | lejosdroidcomms/src/main/java/lejos/pc/comm/NXTSamba.java:367-371 | creating a memory stream sends the stream-read command and starts a stream that still owes the requested length |
| Samba.MemFill | lejosdroidcomms/src/main/java/lejos/pc/comm/NXTSamba.java:25-40 | a refill reports end exactly when nothing is owed and nothing is buffered; it reads a new chunk only when the buffer is used up, and the chunk counts against what is owed |
| Samba.MemRead | lejosdroidcomms/src/main/java/lejos/pc/comm/NXTSamba.java:43-49 | a read returns -1 exactly at the end of the stream, and otherwise the next byte as a value from 0 to 255, one step closer to the end |
| Samba.MemClose | lejosdroidcomms/src/main/java/lejos/pc/comm/NXTSamba.java:52-57 | closing a memory stream consumes exactly the bytes it still owes from the device |
| Samba.Exchange | lejosdroidcomms/src/main/java/lejos/pc/comm/NXTSamba.java:248-252 | an init command is sent and the answer is read up to its terminator |
| Samba.Handshake | lejosdroidcomms/src/main/java/lejos/pc/comm/NXTSamba.java:568-586 | the handshake sends text mode, quiet mode and version commands, the helper upload and the clock setup, and reads a prompt, a line and the version line, in that order |
| Samba.Open | lejosdroidcomms/src/main/java/lejos/pc/comm/NXTSamba.java:555-599 | open refuses a device that is already open; without a device it reports false; on success the device is open in RAW mode and the version is the trimmed version line with every match of a whitespace character and the rest of its line removed: its first word when the line has no NEL byte |
| SambaFormat.HexFormat | lejosdroidcomms/src/main/java/lejos/pc/comm/NXTSamba.java:281-296 | hexFormat produces exactly len characters, each an upper-case hex digit |
| SambaFormat.HexDigitsAt | lejosdroidcomms/src/main/java/lejos/pc/comm/NXTSamba.java:284-294 | character i of the field is the hex digit of the value shifted right by 4 times (len - i - 1), masked to a nibble |
| SambaFormat.HexFormatDigits | lejosdroidcomms/src/main/java/lejos/pc/comm/NXTSamba.java:281-296 | for at most eight digits, hexFormat of a Java int is the base-16 rendering of its unsigned 32-bit value |
| SambaFormat.ParseHexDigits | lejosdroidcomms/src/main/java/lejos/pc/comm/NXTSamba.java:281-296 | reading an n-digit rendering back gives the value modulo 16 to the n |
| SambaFormat.HexDigitsParse | lejosdroidcomms/src/main/java/lejos/pc/comm/NXTSamba.java:281-296 | rendering the value of any hex-digit string at its own length gives the string back |
| SambaFormat.HexFormatValue | lejosdroidcomms/src/main/java/lejos/pc/comm/NXTSamba.java:281-296 | an n-digit hexFormat field reads back as the unsigned value modulo 16 to the n, and an 8-digit field reads back as the whole unsigned value |
| SambaFormat.DecimalParses | lejosdroidcomms/src/main/java/lejos/pc/comm/NXTSamba.java:274 | the decimal width in a read command reads back as the width |
| SambaFormat.WriteCommandParses | lejosdroidcomms/src/main/java/lejos/pc/comm/NXTSamba.java:266-270 | a write command is the letter, the address in 8 hex digits, a comma, then 2 times width hex digits that read back as the value modulo 16 to the 2 times width, then the terminator |
| SambaFormat.StreamCommandParses | lejosdroidcomms/src/main/java/lejos/pc/comm/NXTSamba.java:260-264 | a stream command is the letter, the address and the length each in 8 hex digits separated by a comma, then the terminator; the length reads back exactly |
| SambaFormat.ReadCommandParses | lejosdroidcomms/src/main/java/lejos/pc/comm/NXTSamba.java:272-276 | a read command is the letter, the address in 8 hex digits, a comma, the width in decimal, then the terminator |
| SambaFormat.GotoCommandParses | lejosdroidcomms/src/main/java/lejos/pc/comm/NXTSamba.java:254-258 | a go command is `G`, the address in 8 hex digits that read back as the address, and the terminator `#` |
| SambaFormat.Latin1 | lejosdroidcomms/src/main/java/lejos/pc/comm/NXTSamba.java:242-246 | encoding a string in ISO-8859-1 keeps its length, maps each char below 256 to its own value, and every other char to `?` |
| SambaFormat.Latin1Decode | lejosdroidcomms/src/main/java/lejos/pc/comm/NXTSamba.java:219 | decoding ISO-8859-1 maps each byte to the char with the same value |
| SambaFormat.Latin1RoundTrip | lejosdroidcomms/src/main/java/lejos/pc/comm/NXTSamba.java:219-245 | decoding bytes as ISO-8859-1 and encoding them again gives the same bytes |
| SambaFormat.EncodeIntLE | lejosdroidcomms/src/main/java/lejos/pc/comm/NXTSamba.java:601-607 | encodeInt writes the unsigned value of the int in four little-endian bytes |
| SambaFormat.AnswerValueLE | lejosdroidcomms/src/main/java/lejos/pc/comm/NXTSamba.java:175-181 | the answer loop, which shifts in bytes from the last to the first, computes the little-endian value of the bytes wrapped to a Java int |
| SambaFormat.EncodeIntAnswerRoundTrip | lejosdroidcomms/src/main/java/lejos/pc/comm/NXTSamba.java:169-182 | decoding the four bytes encodeInt writes for v, as readAnswerWord does, gives v back |
| SambaFormat.TrimStart | lejosdroidcomms/src/main/java/lejos/pc/comm/NXTSamba.java:579 | trimming the front drops the longest leading run of chars up to space, leaving a suffix that starts with a char above space |
| SambaFormat.TrimEnd | lejosdroidcomms/src/main/java/lejos/pc/comm/NXTSamba.java:579 | trimming the end drops the longest trailing run of chars up to space, leaving a prefix that ends with a char above space |
| SambaFormat.SkipToLineEnd | lejosdroidcomms/src/main/java/lejos/pc/comm/NXTSamba.java:581 | the regex `.*` consumes up to the next line terminator, leaving a suffix that is empty or starts with one |
| SambaFormat.FirstWord | lejosdroidcomms/src/main/java/lejos/pc/comm/NXTSamba.java:580-581 | the first word is the longest prefix with no whitespace, and it stops exactly at the first whitespace char |
| SambaFormat.DropSpaceRunsIsFirstWord | lejosdroidcomms/src/main/java/lejos/pc/comm/NXTSamba.java:581 | on a line without the Unicode line terminators, replacing every match of `\s.*` by nothing leaves exactly the first word |
| SambaFormat.VersionKeepsTextAfterNel | lejosdroidcomms/src/main/java/lejos/pc/comm/NXTSamba.java:581 | because `.` does not match a NEL char, the replacement keeps the NEL and the text after it, unlike taking the first word |
| SambaFormat.DropAfterSpace | lejosdroidcomms/src/main/java/lejos/pc/comm/NXTSamba.java:581 | on a line without the Unicode line terminators, a match starting at a whitespace char removes everything after it |
| SambaFormat.PagePacket | lejosdroidcomms/src/main/java/lejos/pc/comm/NXTSamba.java:484-487 | a page packet is always 260 bytes long |
| SambaFormat.PagePacketLayout | lejosdroidcomms/src/main/java/lejos/pc/comm/NXTSamba.java:484-487 | the first four bytes are the page number little-endian, the payload follows at offset 4, and the rest of the packet is zero |
| SambaFormat.LockCommandFields | lejosdroidcomms/src/main/java/lejos/pc/comm/NXTSamba.java:432-436 | for a region from 0 to 15, the lock command word is 0x5A000000 plus the region shifted left by 14, plus 2 to lock or 4 to unlock |
| SambaFormat.LockBits | lejosdroidcomms/src/main/java/lejos/pc/comm/NXTSamba.java:432-436 | or-ing the disjoint bit fields of the lock command is the same as adding them |
| SambaFormat.WritePlanShape | lejosdroidcomms/src/main/java/lejos/pc/comm/NXTSamba.java:502-511 | for a positive length the plan has one step per started 256-byte page, covering consecutive pages at offsets that step by 256; every step but the last copies a full page and the copies add up to the length |
| SambaFormat.WritePlanExample | lejosdroidcomms/src/main/java/lejos/pc/comm/NXTSamba.java:502-511 | 600 bytes starting at page 10 are written as pages 10, 11 and 12 carrying 256, 256 and 88 bytes |
| SambaFormat.ReadPlanShape | lejosdroidcomms/src/main/java/lejos/pc/comm/NXTSamba.java:535-545 | readPages reads consecutive pages at offsets that step by 256, one page per started 256 bytes of the range, and nothing for an empty range |
| SambaFormat.PageAddressJava | lejosdroidcomms/src/main/java/lejos/pc/comm/NXTSamba.java:523 | the page address is FLASH_BASE plus the page times 256, each step wrapped as Java int arithmetic |
| SambaFormat.PageAddressInFlash | lejosdroidcomms/src/main/java/lejos/pc/comm/NXTSamba.java:523 | for a page from 0 to 1023, the 256 bytes read start and end inside the flash |
| Streams.NewStream | lejosdroidcomms/src/main/java/lejos/pc/comm/NXTCommInputStream.java:15-20 | a new input stream is not at end of file and has nothing buffered |
| Streams.Refill | lejosdroidcomms/src/main/java/lejos/pc/comm/NXTCommInputStream.java:28-40 | a refill happens only when the buffer is used up; a null or empty read latches end of file, and only when no bytes remain; otherwise the buffer holds the next bytes and the content is unchanged |
| Streams.ReadByte | lejosdroidcomms/src/main/java/lejos/pc/comm/NXTCommInputStream.java:57-77 | read() returns -1 exactly when no content remains, latching end of file, and otherwise the next content byte as a value from 0 to 255 |
| Streams.ReadInto | lejosdroidcomms/src/main/java/lejos/pc/comm/NXTCommInputStream.java:23-49 | read(b, off, len) returns -1 exactly when no content remains; otherwise it copies the next n content bytes into b at off, with n capped by len and by what one buffer holds, and leaves the rest of b alone |
| Streams.ContentTake | lejosdroidcomms/src/main/java/lejos/pc/comm/NXTCommInputStream.java:45-46 | advancing the buffer index by n consumes exactly the next n buffered bytes of the content |
| Streams.Available | lejosdroidcomms/src/main/java/lejos/pc/comm/NXTCommInputStream.java:83-86 | available is never negative and counts exactly the bytes left in the buffer |
| Streams.CloseIn | lejosdroidcomms/src/main/java/lejos/pc/comm/NXTCommInputStream.java:92-95 | after close the stream is at end of file and has no content left |
| Streams.ReadAll | lejosdroidcomms/src/main/java/lejos/pc/comm/NXTCommInputStream.java:57-77 | reading byte by byte until -1 yields exactly the stream's content: the buffered bytes, then every packet up to the first empty one |
| Streams.ReadAllWithoutFailures | lejosdroidcomms/src/main/java/lejos/pc/comm/NXTCommInputStream.java:57-77 | when no underlying read fails, reading to the end always succeeds |
| Streams.EofLatched | lejosdroidcomms/src/main/java/lejos/pc/comm/NXTCommInputStream.java:25-26 | once end of file is latched both read methods return -1 and change nothing |
| Streams.WriteSlice | lejosdroidcomms/src/main/java/lejos/pc/comm/NXTCommOutputStream.java:20-23 | write(b, off, len) buffers exactly the slice of b when the slice is in range, and fails otherwise |
| Streams.WriteInt | lejosdroidcomms/src/main/java/lejos/pc/comm/NXTCommOutputStream.java:26-28 | write(int) buffers one byte, the low eight bits of the value |
| Streams.Flush | lejosdroidcomms/src/main/java/lejos/pc/comm/NXTCommOutputStream.java:31-38 | flush sends the buffered bytes as one message when there are any and empties the buffer; when that write throws, the exception propagates and the bytes stay buffered, with nothing counted as sent; an empty buffer sends nothing and cannot fail |
| Streams.CloseOut | lejosdroidcomms/src/main/java/lejos/pc/comm/NXTCommOutputStream.java:41-44 | close is a flush: the buffered bytes, if any, go out as one message, and a failing write makes close throw with the bytes still buffered |
| Streams.FlushRetry | lejosdroidcomms/src/main/java/lejos/pc/comm/NXTCommOutputStream.java:31-38 | a flush whose write failed loses nothing: flushing again sends exactly what the first flush would have sent |
| Streams.WritesBuffer | lejosdroidcomms/src/main/java/lejos/pc/comm/NXTCommOutputStream.java:20-28 | a run of writes only buffers; the buffer grows by exactly the bytes written, in order, and nothing is sent |
| Streams.WritesThenFlush | lejosdroidcomms/src/main/java/lejos/pc/comm/NXTCommOutputStream.java:20-38 | writes followed by a successful flush send all the written bytes as one message, or nothing for no bytes; a second flush or a close then sends nothing more and cannot fail |
| Connector.IndexOfChar | LegoMachineLearningAndroidApp/lejosdroidcomms/src/main/java/lejos/pc/comm/NXTConnector.java:323 | indexOf returns the first position of the char, or -1 when it does not occur |
| Connector.SchemeProtocols | LegoMachineLearningAndroidApp/lejosdroidcomms/src/main/java/lejos/pc/comm/NXTConnector.java:330-332 | the scheme selects Bluetooth for `btspp`, USB for `usb`, and all protocols otherwise |
| Connector.ParseUrl | LegoMachineLearningAndroidApp/lejosdroidcomms/src/main/java/lejos/pc/comm/NXTConnector.java:321-348 | a URL with a colon but fewer than two chars after it fails, as the source's substring does; otherwise the text after `://` (or the whole URL) is an address, with name Unknown, when it starts with `00`, and a name otherwise |
| Connector.UrlRoundTrip | LegoMachineLearningAndroidApp/lejosdroidcomms/src/main/java/lejos/pc/comm/NXTConnector.java:321-353 | parsing scheme://part gives back the scheme's protocols and the part, as the address when it starts with `00` and as the name otherwise |
| Connector.AddressName | LegoMachineLearningAndroidApp/lejosdroidcomms/src/main/java/lejos/pc/comm/NXTConnector.java:68 | the corrected name used for an address-only device is the given name when there is one, and Unknown otherwise |
| Connector.AddressNameInverted | LegoMachineLearningAndroidApp/lejosdroidcomms/src/main/java/lejos/pc/comm/NXTConnector.java:68 | the source's ternary is inverted: a given name becomes Unknown and a missing name stays missing, the opposite of the corrected choice |
| Connector.SearchParam | LegoMachineLearningAndroidApp/lejosdroidcomms/src/main/java/lejos/pc/comm/NXTConnector.java:69 | the search parameter is null exactly for a missing, empty or `*` name, and the name otherwise |
| Connector.Cached | LegoMachineLearningAndroidApp/lejosdroidcomms/src/main/java/lejos/pc/comm/NXTConnector.java:126-161 | the cache yields one Bluetooth device for each `NXT_` entry whose key holds an address and whose name matches the search, and no others |
| Connector.Put | LegoMachineLearningAndroidApp/lejosdroidcomms/src/main/java/lejos/pc/comm/NXTConnector.java:146 | a map put holds the new pair, drops any older value for the key, and keeps every other pair |
| Connector.Remember | LegoMachineLearningAndroidApp/lejosdroidcomms/src/main/java/lejos/pc/comm/NXTConnector.java:180-185 | saving inquiry results fails exactly when a device has no name, because a properties put of null throws; otherwise the last device found is in the cache |
| Connector.SearchBluetooth | LegoMachineLearningAndroidApp/lejosdroidcomms/src/main/java/lejos/pc/comm/NXTConnector.java:107-194 | built on the corrected device name (see Findings): the Bluetooth branch finds nothing when the driver cannot load; with an address it returns that one device; a non-empty matching cache answers without an inquiry; otherwise one inquiry is made and its devices are returned; when the cache could not be read, the search throws NullPointerException if the inquiry found a device (the put) or if the cache file opens for writing (storing the null properties), and only a search with neither returns, with no devices |
| Connector.Search | LegoMachineLearningAndroidApp/lejosdroidcomms/src/main/java/lejos/pc/comm/NXTConnector.java:66-202 | built on the corrected device name (see Findings): with USB selected and an address, the result is that USB device; a USB search that finds devices returns them; no protocol selected finds nothing; every query uses the search parameter; at most USB then Bluetooth is queried, each only when selected; when USB gives nothing and the Bluetooth cache could not be read, the search throws exactly when the inquiry found a device or the cache file opens for writing |
| Connector.NullCacheSave | LegoMachineLearningAndroidApp/lejosdroidcomms/src/main/java/lejos/pc/comm/NXTConnector.java:169-193 | with the cache unreadable and an inquiry that finds nothing, the search throws NullPointerException when the cache file opens for writing, and otherwise returns no devices after one Bluetooth query |
| Connector.ProtocolSets | LegoMachineLearningAndroidApp/lejosdroidcomms/src/main/java/lejos/pc/comm/NXTConnector.java:80-107 | the USB, Bluetooth and all-protocols masks select the expected transports |
| Connector.ConnectInfo | LegoMachineLearningAndroidApp/lejosdroidcomms/src/main/java/lejos/pc/comm/NXTConnector.java:254-312 | connecting when already connected is an error, an unknown protocol is an error, and otherwise the result is whether the open succeeded |
| Connector.ConnectFirst | LegoMachineLearningAndroidApp/lejosdroidcomms/src/main/java/lejos/pc/comm/NXTConnector.java:237-245 | the connection loop stops at the first device that opens, having tried every earlier one; it reports none only when none opens; an unknown protocol on the way is an error |
| Connector.ConnectTo | LegoMachineLearningAndroidApp/lejosdroidcomms/src/main/java/lejos/pc/comm/NXTConnector.java:228-246 | connecting when already connected is an error; a device that is connected is one the search returned |
| I2cSensor.NewSensor | lejosdroidcomms/src/main/java/lejos/nxt/I2CSensor.java:61-77 | a new sensor keeps its address, stores its port as a Java byte, and getId returns that byte sign-extended, so ids 0 to 127 come back unchanged |
| I2cSensor.Poll | lejosdroidcomms/src/main/java/lejos/nxt/I2CSensor.java:104-107 | status polling stops at the first status that is neither pending nor busy and returns it; if every status is pending or busy it never stops |
| I2cSensor.GetData | lejosdroidcomms/src/main/java/lejos/nxt/I2CSensor.java:94-119 | getData first writes the address and register asking for length bytes; it returns 0 exactly when the settled status is good and a reply arrives that fits at the offset, copying the reply there and leaving the rest of the buffer alone; a failed status gives -1 and an unchanged buffer; a reply that does not fit is an index error |
| I2cSensor.ReadIntoBuffer | lejosdroidcomms/src/main/java/lejos/nxt/I2CSensor.java:109-114 | a null reply gives -1 and the buffer unchanged; a reply that fits is copied to the front of the buffer with 0; a longer reply is an index error |
| I2cSensor.SendByte | lejosdroidcomms/src/main/java/lejos/nxt/I2CSensor.java:137-146 | sending one byte writes the address, register and value and asks for no reply; the result is the write's answer, or -1 when the command fails |
| I2cSensor.SendBytes | lejosdroidcomms/src/main/java/lejos/nxt/I2CSensor.java:158-171 | sending an array writes the address, the register and exactly the slice of the data, and is an error only when a positive length reaches outside the data (or the data is null) |
| I2cSensor.UntilZero | lejosdroidcomms/src/main/java/lejos/nxt/I2CSensor.java:224-229 | the text is the longest zero-free prefix of the buffer, each byte read as the char of the same value |
| I2cSensor.FetchString | lejosdroidcomms/src/main/java/lejos/nxt/I2CSensor.java:218-230 | fetchString is empty when the read fails, and otherwise the zero-terminated text of the reply, never longer than the requested length |
| I2cSensor.ZeroPadded | lejosdroidcomms/src/main/java/lejos/nxt/I2CSensor.java:219-229 | zero bytes after the reply do not change the text read from the buffer |
| I2cSensor.UntilZeroText | lejosdroidcomms/src/main/java/lejos/nxt/I2CSensor.java:218-230 | a text of non-zero Latin-1 chars written to the device, followed by a zero, reads back as the same text |
| I2cSensor.SetAddress | lejosdroidcomms/src/main/java/lejos/nxt/I2CSensor.java:242-245 | setAddress refuses when the current address, not the new one, is odd, and otherwise replaces the address |
| I2cSensor.SetAddressChecksOldValue | lejosdroidcomms/src/main/java/lejos/nxt/I2CSensor.java:242-245 | an odd address is accepted once from an even one, but every later setAddress is then refused |
| MmxMotor.RegisterBanks | lejosdroidcomms/src/main/java/lejos/nxt/addon/MMXMotor.java:41-83 | motor 1 uses the first register bank and motor 2 the second, with the documented addresses and command bytes |
| MmxMotor.NewMotor | lejosdroidcomms/src/main/java/lejos/nxt/addon/MMXMotor.java:70-83 | a new motor reports power 0, is not moving, has sent nothing and uses its motor's register bank |
| MmxMotor.MotorGo | lejosdroidcomms/src/main/java/lejos/nxt/addon/MMXMotor.java:95-102 | the go command always has the speed-control bit, the ramp bit exactly when ramping is on, and the go bit exactly when auto-start is on or the motor is running |
| MmxMotor.SignedPower | lejosdroidcomms/src/main/java/lejos/nxt/addon/MMXMotor.java:110-113 | the power sent is the magnitude clamped to 100, signed by the current direction |
| MmxMotor.SetPower | lejosdroidcomms/src/main/java/lejos/nxt/addon/MMXMotor.java:110-125 | with the corrected magnitude, setPower sends nothing when the power is unchanged; otherwise it sends the new signed power as a byte and, while running, a go command; getPower afterwards is the clamped magnitude |
| MmxMotor.SetPowerAgreement | lejosdroidcomms/src/main/java/lejos/nxt/addon/MMXMotor.java:110-125 | the source's setPower and the corrected one agree for every power except Integer.MIN_VALUE |
| MmxMotor.SetPowerMinValue | lejosdroidcomms/src/main/java/lejos/nxt/addon/MMXMotor.java:110-125 | as written, setPower(Integer.MIN_VALUE) stores MIN_VALUE, because Math.abs overflows and dodges the clamp, and sends a speed byte of 0; getPower then reports a negative value |
| MmxMotor.GetPowerRange | lejosdroidcomms/src/main/java/lejos/nxt/addon/MMXMotor.java:132-135 | with the corrected setPower, getPower always lies between 0 and 100 |
| MmxMotor.DoMotorDirection | lejosdroidcomms/src/main/java/lejos/nxt/addon/MMXMotor.java:140-149 | the same direction only sends a go command; a new direction goes through setPower with the stored power: a non-zero power (an unset one counts as 100) is sent as a speed byte with the new sign, followed by a go command, while power 0 sends nothing; in every case the motor is then running in that direction |
| MmxMotor.Forward | lejosdroidcomms/src/main/java/lejos/nxt/addon/MMXMotor.java:155-157 | forward runs the motor in direction 1 |
| MmxMotor.Backward | lejosdroidcomms/src/main/java/lejos/nxt/addon/MMXMotor.java:163-165 | backward runs the motor in direction -1 |
| MmxMotor.Flt | lejosdroidcomms/src/main/java/lejos/nxt/addon/MMXMotor.java:172-186 | flt on a running motor sends the float command to the multiplexer and stops it; on an idle motor it does nothing |
| MmxMotor.Stop | lejosdroidcomms/src/main/java/lejos/nxt/addon/MMXMotor.java:192-200 | stop on a running motor sends the brake command to the multiplexer and stops it; on an idle motor it does nothing |
| MmxMotor.ResetTachoCount | lejosdroidcomms/src/main/java/lejos/nxt/addon/MMXMotor.java:226-228 | resetting the tachometer sends exactly the motor's reset command |
| MmxMotor.IntToBytes | lejosdroidcomms/src/main/java/lejos/nxt/addon/MMXMotor.java:242-248 | intToByteArray is the four little-endian bytes of the unsigned value |
| MmxMotor.BytesToIntLE | lejosdroidcomms/src/main/java/lejos/nxt/addon/MMXMotor.java:250-255 | byteArrayToInt is the little-endian value of the four bytes wrapped to a Java int |
| MmxMotor.IntBytesRoundTrip | lejosdroidcomms/src/main/java/lejos/nxt/addon/MMXMotor.java:242-255 | converting an int to bytes and back gives the int |
| MmxMotor.BytesIntRoundTrip | lejosdroidcomms/src/main/java/lejos/nxt/addon/MMXMotor.java:242-255 | converting four bytes to an int and back gives the bytes |
| MmxMotor.GetTachoCount | lejosdroidcomms/src/main/java/lejos/nxt/addon/MMXMotor.java:202-220 | the tachometer count is the int whose byte encoding is the four-byte reply |
| OpticalDistance.NewOds | LegoMachineLearningAndroidApp/lejosdroidcomms/src/main/java/lejos/nxt/addon/OpticalDistanceSensor.java:82-85 | a new sensor has sent exactly the power-on command |
| OpticalDistance.SendByte | LegoMachineLearningAndroidApp/lejosdroidcomms/src/main/java/lejos/nxt/addon/OpticalDistanceSensor.java:92-147 | each command setter sends exactly one byte to its register and changes nothing else |
| OpticalDistance.Command | LegoMachineLearningAndroidApp/lejosdroidcomms/src/main/java/lejos/nxt/addon/OpticalDistanceSensor.java:92-147 | setSensorModule, powerOn, powerOff and the APDA setters each send exactly their command byte to the command register |
| OpticalDistance.ReadDistnx | LegoMachineLearningAndroidApp/lejosdroidcomms/src/main/java/lejos/nxt/addon/OpticalDistanceSensor.java:388-399 | a register read asks that register for the given number of bytes, then returns the first byte for a one-byte read and the two bytes little-endian otherwise, from the buffer, which a failed read leaves stale; a reply longer than the two-byte buffer is an index error |
| OpticalDistance.WriteDistnx | LegoMachineLearningAndroidApp/lejosdroidcomms/src/main/java/lejos/nxt/addon/OpticalDistanceSensor.java:408-418 | a two-byte write sends the value's Java remainder and quotient by 256, each cast to a byte, which for a value from 0 to 65535 is its little-endian encoding |
| OpticalDistance.WriteReadRoundTrip | LegoMachineLearningAndroidApp/lejosdroidcomms/src/main/java/lejos/nxt/addon/OpticalDistanceSensor.java:388-418 | a value from 0 to 65535 written to a register reads back from the bytes sent as the same value |
| OpticalDistance.WriteNegative | LegoMachineLearningAndroidApp/lejosdroidcomms/src/main/java/lejos/nxt/addon/OpticalDistanceSensor.java:408-418 | negative values are sent with truncating division: -1 is sent as 0xFF, 0x00 and -256 as 0x00, 0xFF |
| OpticalDistance.SetLimit | LegoMachineLearningAndroidApp/lejosdroidcomms/src/main/java/lejos/nxt/addon/OpticalDistanceSensor.java:224-280 | the min and max distance setters cast the value to a signed byte before the two-byte write, so values from 0 to 127 are sent as that value and a zero high byte |
| OpticalDistance.SetCurveCount | LegoMachineLearningAndroidApp/lejosdroidcomms/src/main/java/lejos/nxt/addon/OpticalDistanceSensor.java:206-208 | setCurveCount sends the low byte of the value to the curve register |
| OpticalDistance.PointRegister | LegoMachineLearningAndroidApp/lejosdroidcomms/src/main/java/lejos/nxt/addon/OpticalDistanceSensor.java:289-380 | point index 0 is treated as 1, and index i addresses the base plus 4 times i, as a Java int sum; voltage points 1 to 10 lie between 0x56 and 0x7A |
| OpticalDistance.PointZeroIsOne | LegoMachineLearningAndroidApp/lejosdroidcomms/src/main/java/lejos/nxt/addon/OpticalDistanceSensor.java:289-380 | points 0 and 1 address the same register |
| OpticalDistance.GetPoint | LegoMachineLearningAndroidApp/lejosdroidcomms/src/main/java/lejos/nxt/addon/OpticalDistanceSensor.java:289-368 | a calibration point getter asks for two bytes from register base + 4 * index (index 0 read as 1, Java int sum) and returns them little-endian, a value below 65536 |
| OpticalDistance.SetVoltPointLSB | LegoMachineLearningAndroidApp/lejosdroidcomms/src/main/java/lejos/nxt/addon/OpticalDistanceSensor.java:302-306 | the voltage-point low-byte setter sends one byte, not a two-byte write, to the point's register |
| OpticalDistance.SetPoint | LegoMachineLearningAndroidApp/lejosdroidcomms/src/main/java/lejos/nxt/addon/OpticalDistanceSensor.java:328-380 | the other point setters send one two-byte write to the point's register |
| OpticalDistance.PointAccessorsAgree | LegoMachineLearningAndroidApp/lejosdroidcomms/src/main/java/lejos/nxt/addon/OpticalDistanceSensor.java:289-380 | for every point, the getter reads the register the matching setter writes, and index 0 is the same point as index 1 for both |
| Ultrasonic.SendOne | LegoMachineLearningAndroidApp/lejosdroidcomms/src/main/java/lejos/nxt/UltrasonicSensor.java:238-239 | a one-byte command puts the value in the first byte of the shared buffer and sends it to the register |
| Ultrasonic.SetMode | LegoMachineLearningAndroidApp/lejosdroidcomms/src/main/java/lejos/nxt/UltrasonicSensor.java:216-247 | an unknown mode is an error; otherwise the mode byte is sent; the cached mode changes only when the send returns 0, and reset is cached as off |
| Ultrasonic.NewSonar | LegoMachineLearningAndroidApp/lejosdroidcomms/src/main/java/lejos/nxt/UltrasonicSensor.java:82-91 | construction sends a reset, then a switch to continuous mode when the reset did not fail; the cached mode follows which of these succeeded |
| Ultrasonic.GetDistance | LegoMachineLearningAndroidApp/lejosdroidcomms/src/main/java/lejos/nxt/UltrasonicSensor.java:100-123 | getDistance is refused while the sensor is off; otherwise it asks the distance register (0x42) for one byte, and returns 255 when the read fails and the unsigned first byte of the reply otherwise |
| Ultrasonic.Echoes | LegoMachineLearningAndroidApp/lejosdroidcomms/src/main/java/lejos/nxt/UltrasonicSensor.java:196-200 | the echo count is the length of the longest run of bytes before the first 0xFF, up to the limit |
| Ultrasonic.GetDistances | LegoMachineLearningAndroidApp/lejosdroidcomms/src/main/java/lejos/nxt/UltrasonicSensor.java:160-201 | a zero length returns 0, a negative one is an error, an off sensor is an error; a failed read gives -1; otherwise the distance register (0x42) is asked for min(len, 8) bytes (1 in capture mode), and the distances up to the first 0xFF byte are copied to dist at off with the rest of dist unchanged |
| Ultrasonic.SetContinuousInterval | LegoMachineLearningAndroidApp/lejosdroidcomms/src/main/java/lejos/nxt/UltrasonicSensor.java:435-442 | an interval outside 0 to 255 is an error; otherwise the interval byte is sent and the answer returned |
| Ultrasonic.ReadRegisterByte | LegoMachineLearningAndroidApp/lejosdroidcomms/src/main/java/lejos/nxt/UltrasonicSensor.java:423-427 | a one-byte register read asks that register for one byte and returns the reply's unsigned byte, or -1 when the read fails |
| Ultrasonic.GetContinuousInterval | LegoMachineLearningAndroidApp/lejosdroidcomms/src/main/java/lejos/nxt/UltrasonicSensor.java:423-427 | getContinuousInterval asks register 0x40 for one byte and returns it unsigned, or -1 when the read fails |
| Ultrasonic.GetActualMode | LegoMachineLearningAndroidApp/lejosdroidcomms/src/main/java/lejos/nxt/UltrasonicSensor.java:469-473 | getActualMode asks the mode register 0x41 for one byte and returns it unsigned, or -1 when the read fails |
| Ultrasonic.GetMultiBytes | LegoMachineLearningAndroidApp/lejosdroidcomms/src/main/java/lejos/nxt/UltrasonicSensor.java:318-334 | reading from reg asks reg + i, reg + i + 1, ... for one byte each, in order; it returns 0 exactly when every read succeeds, storing the byte read from reg + k at index k, and stops at the first failure with -1 |
| Ultrasonic.SetMultiBytes | LegoMachineLearningAndroidApp/lejosdroidcomms/src/main/java/lejos/nxt/UltrasonicSensor.java:336-352 | register-by-register writing returns 0 exactly when every write succeeds, sending each byte to consecutive registers, and otherwise returns the first negative answer |
| Ultrasonic.GetThree | LegoMachineLearningAndroidApp/lejosdroidcomms/src/main/java/lejos/nxt/UltrasonicSensor.java:318-334 | a three-byte read refuses an array shorter than 3; otherwise it asks reg, reg + 1 and reg + 2 for one byte each, and succeeds exactly when all three answer, storing their bytes at indices 0 to 2 |
| Ultrasonic.GetFactoryData | LegoMachineLearningAndroidApp/lejosdroidcomms/src/main/java/lejos/nxt/UltrasonicSensor.java:361-367 | getFactoryData refuses an array shorter than 3 and otherwise reads registers 0x11, 0x12 and 0x13 |
| Ultrasonic.GetCalibrationData | LegoMachineLearningAndroidApp/lejosdroidcomms/src/main/java/lejos/nxt/UltrasonicSensor.java:386-398 | getCalibrationData refuses an array shorter than 3 and otherwise reads registers 0x4A, 0x4B and 0x4C |
| Ultrasonic.SetCalibrationData | LegoMachineLearningAndroidApp/lejosdroidcomms/src/main/java/lejos/nxt/UltrasonicSensor.java:407-413 | setCalibrationData refuses an array shorter than 3 and otherwise writes three consecutive registers |
| Ultrasonic.CalibrationAccessorsAgree | LegoMachineLearningAndroidApp/lejosdroidcomms/src/main/java/lejos/nxt/UltrasonicSensor.java:386-413 | setCalibrationData writes exactly the three registers getCalibrationData reads, in the same order |
| Ultrasonic.SwitchedOffRefusesReads | LegoMachineLearningAndroidApp/lejosdroidcomms/src/main/java/lejos/nxt/UltrasonicSensor.java:100-247 | after a successful switch, distance reads are refused exactly when the new mode is off or reset |
| Ultrasonic.FailedSwitchKeepsMode | LegoMachineLearningAndroidApp/lejosdroidcomms/src/main/java/lejos/nxt/UltrasonicSensor.java:216-247 | after a failed switch, distance reads are refused exactly when the sensor was already off |
| Ultrasonic.EchoesMaximal | LegoMachineLearningAndroidApp/lejosdroidcomms/src/main/java/lejos/nxt/UltrasonicSensor.java:196-200 | no longer run of valid echoes is skipped: any prefix without 0xFF is counted |
| Pspnx.SendMode | LegoMachineLearningAndroidApp/lejosdroidcomms/src/main/java/lejos/nxt/addon/PSPNXController.java:69-73 | a mode command puts the command in the first byte of the buffer, sends it to the mode register and returns the send's answer |
| Pspnx.ModeCommandsDistinct | LegoMachineLearningAndroidApp/lejosdroidcomms/src/main/java/lejos/nxt/addon/PSPNXController.java:75-168 | powerUp, setDigitalMode and setADPAMode each send a different command for each choice, and no two setters share a command |
| Pspnx.NewPad | LegoMachineLearningAndroidApp/lejosdroidcomms/src/main/java/lejos/nxt/addon/PSPNXController.java:50-62 | construction sends power-on and then digital mode |
| Pspnx.GetButtons | LegoMachineLearningAndroidApp/lejosdroidcomms/src/main/java/lejos/nxt/addon/PSPNXController.java:87-112 | getButtons asks BUTTON_1 for two bytes and returns 16 entries; a failed read gives all zeros; otherwise entry k is 1 exactly when bit 7 - (k mod 8) of the k-th byte is clear (buttons are active-low); a longer reply is an index error |
| Pspnx.PackButtonsBit | LegoMachineLearningAndroidApp/lejosdroidcomms/src/main/java/lejos/nxt/addon/PSPNXController.java:91-108 | in the byte packed from eight button states, the bit read for button k is clear exactly when that button is pressed |
| Pspnx.ButtonsRoundTrip | LegoMachineLearningAndroidApp/lejosdroidcomms/src/main/java/lejos/nxt/addon/PSPNXController.java:87-112 | decoding the two bytes a controller sends for any 16 button states gives 1 for each pressed button and 0 for the others |
| Pspnx.ButtonAt | LegoMachineLearningAndroidApp/lejosdroidcomms/src/main/java/lejos/nxt/addon/PSPNXController.java:87-112 | each single button position decodes from the packed bytes to its pressed state |
| Pspnx.Stick | LegoMachineLearningAndroidApp/lejosdroidcomms/src/main/java/lejos/nxt/addon/PSPNXController.java:121-139 | a joystick reading lies between -100 and 99, is positive only above the centre byte 128 and negative only below it, and byte 0 reads as -100 |
| Pspnx.StickReadings | LegoMachineLearningAndroidApp/lejosdroidcomms/src/main/java/lejos/nxt/addon/PSPNXController.java:121-139 | the centre reads 0 and the top 99; byte 126 reads as -1, which is also the failure value |
| Pspnx.StickMonotone | LegoMachineLearningAndroidApp/lejosdroidcomms/src/main/java/lejos/nxt/addon/PSPNXController.java:121-139 | joystick readings never decrease as the raw byte increases |
| Pspnx.GetStick | LegoMachineLearningAndroidApp/lejosdroidcomms/src/main/java/lejos/nxt/addon/PSPNXController.java:121-139 | a stick read asks the stick's register for one byte and returns the scaled reading of the reply's byte, or -1 when the read fails |
| Pspnx.GetMode | LegoMachineLearningAndroidApp/lejosdroidcomms/src/main/java/lejos/nxt/addon/PSPNXController.java:147-150 | getMode asks the mode register for one byte and returns it as a signed byte, or -1 when the read fails |
| LightSensor.NewLight | LegoMachineLearningAndroidApp/lejosdroidcomms/src/main/java/lejos/nxt/LightSensor.java:39-47 | construction records the floodlight choice and sets the port type to match it |
| LightSensor.SetFloodlight | LegoMachineLearningAndroidApp/lejosdroidcomms/src/main/java/lejos/nxt/LightSensor.java:49-54 | setFloodlight(bool) sets the port type and the flag, and keeps the calibration |
| LightSensor.SetFloodlightColor | LegoMachineLearningAndroidApp/lejosdroidcomms/src/main/java/lejos/nxt/LightSensor.java:56-66 | setFloodlight(color) accepts exactly red and none; an accepted color sets the port type and getFloodlight then returns it; any other color changes nothing |
| LightSensor.GetFloodlight | LegoMachineLearningAndroidApp/lejosdroidcomms/src/main/java/lejos/nxt/LightSensor.java:148-153 | getFloodlight is red exactly when the floodlight is on, and none otherwise |
| LightSensor.GetLightValue | LegoMachineLearningAndroidApp/lejosdroidcomms/src/main/java/lejos/nxt/LightSensor.java:68-72 | getLightValue is 0 when the two calibration points coincide |
| LightSensor.GetNormalizedLightValue | LegoMachineLearningAndroidApp/lejosdroidcomms/src/main/java/lejos/nxt/LightSensor.java:110-112 | for a raw value in the 10-bit range, the normalized value is also in range and the two add up to 1023 |
| LightSensor.CalibrateLow | LegoMachineLearningAndroidApp/lejosdroidcomms/src/main/java/lejos/nxt/LightSensor.java:117-121 | after calibrateLow the current raw value reads as 0% |
| LightSensor.CalibrateHigh | LegoMachineLearningAndroidApp/lejosdroidcomms/src/main/java/lejos/nxt/LightSensor.java:125-128 | calibrateHigh records the current raw value as the 100% point and keeps the low point |
| LightSensor.SetLow | LegoMachineLearningAndroidApp/lejosdroidcomms/src/main/java/lejos/nxt/LightSensor.java:133-142 | setLow followed by getLow gives the value back |
| LightSensor.SetHigh | LegoMachineLearningAndroidApp/lejosdroidcomms/src/main/java/lejos/nxt/LightSensor.java:138-146 | setHigh followed by getHigh gives the value back |
| LightSensor.DefaultCalibration | LegoMachineLearningAndroidApp/lejosdroidcomms/src/main/java/lejos/nxt/LightSensor.java:19-20 | a new sensor reports a low of 0 and a high of 1023 |
| LightSensor.SetFromNormalized | LegoMachineLearningAndroidApp/lejosdroidcomms/src/main/java/lejos/nxt/LightSensor.java:110-138 | setting low or high from a normalized reading is the same as calibrating low or high at that raw value |
| LightSensor.ReadsZeroAtLow | LegoMachineLearningAndroidApp/lejosdroidcomms/src/main/java/lejos/nxt/LightSensor.java:68-72 | the low calibration point always reads 0% |
| LightSensor.ReadsHundredAtHigh | LegoMachineLearningAndroidApp/lejosdroidcomms/src/main/java/lejos/nxt/LightSensor.java:68-72 | with distinct calibration points in range, the high point reads 100% |
| LightSensor.ReadsPercentBetween | LegoMachineLearningAndroidApp/lejosdroidcomms/src/main/java/lejos/nxt/LightSensor.java:68-72 | a raw value between the two calibration points reads between 0% and 100%, in either orientation |
| LightSensor.NoWrapInRange | LegoMachineLearningAndroidApp/lejosdroidcomms/src/main/java/lejos/nxt/LightSensor.java:68-72 | for in-range values the percentage computation never overflows a Java int |
| RemoteMotor.JavaByte | LegoMachineLearningAndroidApp/lejosdroidcomms/src/main/java/lejos/nxt/remote/RemoteMotor.java:78-98 | a cast to byte keeps the low eight bits as a signed value and leaves values from -128 to 127 unchanged |
| RemoteMotor.NewMotor | LegoMachineLearningAndroidApp/lejosdroidcomms/src/main/java/lejos/nxt/remote/RemoteMotor.java:34-43 | a new motor has power 80, brake and regulated mode, no turn ratio, the idle run state, and has sent nothing |
| RemoteMotor.GetId | LegoMachineLearningAndroidApp/lejosdroidcomms/src/main/java/lejos/nxt/remote/RemoteMotor.java:48-63 | the port letter is A, B or C for ids 0, 1 and 2, and A for any other id |
| RemoteMotor.Run | LegoMachineLearningAndroidApp/lejosdroidcomms/src/main/java/lejos/nxt/remote/RemoteMotor.java:65-83 | a run sends one output state with the motor's id, the given power, its mode plus motor-on, its regulation and turn ratio, the running state and the tacho limit |
| RemoteMotor.Forward | LegoMachineLearningAndroidApp/lejosdroidcomms/src/main/java/lejos/nxt/remote/RemoteMotor.java:65-73 | forward sends the current power with no tacho limit |
| RemoteMotor.Backward | LegoMachineLearningAndroidApp/lejosdroidcomms/src/main/java/lejos/nxt/remote/RemoteMotor.java:75-83 | backward sends the negated power, cast to a byte, with no tacho limit |
| RemoteMotor.BackwardOpposesForward | LegoMachineLearningAndroidApp/lejosdroidcomms/src/main/java/lejos/nxt/remote/RemoteMotor.java:65-83 | backward sends the opposite of forward's power, except for power -128, whose negation wraps back to -128 |
| RemoteMotor.SetSpeed | LegoMachineLearningAndroidApp/lejosdroidcomms/src/main/java/lejos/nxt/remote/RemoteMotor.java:85-91 | a speed outside 0 to 900 changes nothing; otherwise the power becomes the speed scaled to 0 to 100 |
| RemoteMotor.SetPower | LegoMachineLearningAndroidApp/lejosdroidcomms/src/main/java/lejos/nxt/remote/RemoteMotor.java:97-99 | setPower keeps the power cast to a byte, so values from -128 to 127 read back unchanged |
| RemoteMotor.GetSpeed | LegoMachineLearningAndroidApp/lejosdroidcomms/src/main/java/lejos/nxt/remote/RemoteMotor.java:101-103 | getSpeed is 9 times the power |
| RemoteMotor.SpeedRoundTrip | LegoMachineLearningAndroidApp/lejosdroidcomms/src/main/java/lejos/nxt/remote/RemoteMotor.java:85-103 | setting a speed from 0 to 900 and reading it back gives the speed rounded down to a multiple of 9, so never more than 8 below it |
| RemoteMotor.Rotate | LegoMachineLearningAndroidApp/lejosdroidcomms/src/main/java/lejos/nxt/remote/RemoteMotor.java:156-178 | rotate by 0 sends nothing; a positive count runs forward with that tacho limit; a negative count runs backward with its absolute value as the limit |
| RemoteMotor.RotateLimitIsDistance | LegoMachineLearningAndroidApp/lejosdroidcomms/src/main/java/lejos/nxt/remote/RemoteMotor.java:156-178 | the tacho limit sent, read as an unsigned 32-bit value, is the distance asked for, Integer.MIN_VALUE included |
| RemoteMotor.RotateTo | LegoMachineLearningAndroidApp/lejosdroidcomms/src/main/java/lejos/nxt/remote/RemoteMotor.java:231-236 | rotateTo rotates by the limit minus the current tacho count, as Java int subtraction |
| RemoteMotor.GetTachoCount | LegoMachineLearningAndroidApp/lejosdroidcomms/src/main/java/lejos/nxt/remote/RemoteMotor.java:113-121 | the tacho count is the reported rotation count, or -1 when the request fails |
| RemoteMotor.RotateToLandsOnLimit | LegoMachineLearningAndroidApp/lejosdroidcomms/src/main/java/lejos/nxt/remote/RemoteMotor.java:231-236 | without overflow, rotating to a limit from tacho t sends nothing when already there and otherwise a limit that, in the right direction, ends exactly at the target |
| RemoteMotor.Stop | LegoMachineLearningAndroidApp/lejosdroidcomms/src/main/java/lejos/nxt/remote/RemoteMotor.java:280-292 | stop sends power 0 with brake, motor-on and regulated mode, in the running state |
| RemoteMotor.Flt | LegoMachineLearningAndroidApp/lejosdroidcomms/src/main/java/lejos/nxt/remote/RemoteMotor.java:299-310 | flt sends power 0 with no mode bits in the idle state, and clears the motor's mode |
| RemoteMotor.FltDropsBrakeMode | LegoMachineLearningAndroidApp/lejosdroidcomms/src/main/java/lejos/nxt/remote/RemoteMotor.java:65-310 | after flt, a forward run is sent with motor-on only, without brake or regulation |
| RemoteMotor.ResetTachoCount | LegoMachineLearningAndroidApp/lejosdroidcomms/src/main/java/lejos/nxt/remote/RemoteMotor.java:247-254 | resetTachoCount sends an absolute motor position reset |
| RemoteMotor.ResetBlockTacho | LegoMachineLearningAndroidApp/lejosdroidcomms/src/main/java/lejos/nxt/remote/RemoteMotor.java:265-279 | resetBlockTacho sends a relative reset and returns 0 exactly when it is delivered, and -1 otherwise |
| RemoteMotor.IsMoving | LegoMachineLearningAndroidApp/lejosdroidcomms/src/main/java/lejos/nxt/remote/RemoteMotor.java:180-189 | isMoving is true exactly when the reported run state is not idle, and false when the request fails |
| RemoteMotor.SetRegulationMode | LegoMachineLearningAndroidApp/lejosdroidcomms/src/main/java/lejos/nxt/remote/RemoteMotor.java:221-224 | setRegulationMode changes only the regulation mode |

## Left out

- **USB device enumeration and handles.** `devFind`, `devOpen`, `devIsValid` and `devClose` are native. Their results become parameters: the list found, whether a device was found, and the handle.
- **`find` with a null array.** `find` returning an empty vector for a null array is not modelled: the array is a sequence, and a sequence is never null.
- **The name probe in `search`.** `getName` is modelled on its own (`UsbDiscovery.GetName`). Inside `search` the probed names are a parameter.
- **Packet-mode request bytes.** `NXTProtocol` is not part of this model, so the two-byte request `NXTCommUSB.open` sends to negotiate packet mode is a parameter, `probe`. The brick's reply comes from the device's read script.
- **The Samba helper image.** It is a parameter.
- **Connection-state and idle calls.** `NXTInfo.connectionState` updates, `available()` on the transports (it always returns 0) and `getOutputStream`/`getInputStream` wiring are left out. They carry no data.
- **Timing.** `Thread.yield`, the `Delay.msDelay` retry delay and the ultrasonic sensor's `waitUntil` timing are left out. The model has no clock; each loop is modelled by the replies it consumes.
- **Java int overflow of buffer offsets and loop counters** (for example `offset < start + len` in `readPages`). The model uses unbounded integers there, because the sizes involved are far below 2^31.
- **Flash-writer acknowledgement.** The flash helper routine's own behaviour after the jump, and whether the brick acknowledges a page, are outside the host code.
- **Bluez native socket failures.** Failures of `rcSocketSend` and of `open`'s native create/bind/connect are reduced to the `connects` flag and a failed receive. `close` and the native socket are not modelled.
- **Cache iteration order in `NXTConnector.search`.** The cache and the result built from it are modelled as a set of entries (`Connector.Cached`), because `HashMap` iteration order is unspecified. Writing the cache file (`saveNXJCache`) is I/O. Only whether it gets as far as storing is modelled, as the oracle `cacheOpens`, because storing a null cache throws NullPointerException. The bytes written, and an IOException while writing (which search() catches), are left out.
- **`NXTConnector.close`, logging and debug output.** `close` only releases the native transport. `logException` and `System.out` messages have no effect on the results.
- **`I2CSensor` construction flush.** The constructor's `LSGetStatus`/`LSRead` flush, which discards stale data, and `port.setTypeAndMode` are not modelled.
- Read (`Bluez.Read`): it decodes packet lengths with the corrected unsigned header decode (`Bluez.HeaderLen`), not the sign-extending one at `NXTCommBluez.java` lines 192-194. It therefore differs from the source for packets of 32768 bytes or more, where the source's scan goes wrong (see Findings). Only the decode and one scan step are modelled as written.
- SearchBluetooth (`Connector.SearchBluetooth`): the address-only device gets the corrected name (`Connector.AddressName`), not the inverted ternary at `NXTConnector.java` line 68 (see Findings).
- Search (`Connector.Search`): the same corrected name applies. For example, `search("NXT", "00:16:53:01:02:03", USB)` names the device "NXT" here, where the source names it "Unknown".
- **`MmxMotor.GetTachoCount`:** the `getTacho` retry loop, which repeats while the read fails, is left out. The model takes the successful four-byte reply.
- **MMX motor-index overflow.** Motor indices outside 0 and 1 are not modelled.
- **Ultrasonic unmodelled parts:**
  - `getUnits` and `getVersion` reuse `I2cSensor.FetchString`;
  - a `getDistances` read that only partly fits `dist` is left out;
  - `getRange` and `getRanges` return `float` and are left out.
- **Floating point in `OpticalDistanceSensor`.** `getRange` and `getRanges` are floating point and are left out.
- **`RemoteMotor` unmodelled parts.** `getMaxSpeed` is floating point and battery-dependent. Listeners, `waitComplete` and the blocking form of `rotate`/`stop`/`flt` wait on the brick. The dummy methods have no effect.
- **LCP command encoding and protocol constants.** `NXTCommand`'s own LCP encoding is not part of this model: requests are recorded as abstract commands. The `Color` and `NXTProtocol` classes are not part of this model either: their constants (`Color.RED = 0`, `Color.NONE = -1`, the motor mode bits and run states) take their documented leJOS values.
- **`LightSensor` port.** Only the port type the sensor sets is recorded, as a boolean for active or inactive. Raw readings are parameters.
- **`finalize`** and other garbage-collection hooks are left out.

## Findings

| source | as written | input that shows it | evidently intended | confidence | as-written member | corrected member |
|---|---|---|---|---|---|---|
| LegoMachineLearningAndroidApp/lejosdroidcomms/src/main/java/lejos/pc/comm/NXTCommBluez.java:192-194 | the packet length is `(lsb & 0xFF) + (msb << 8)` with `msb` a sign-extended byte | a packet of 65534 bytes: header `FE FF` decodes as -2, so `i += packetLen` undoes the two header steps and the scan loops forever | decode the high byte unsigned, `(msb & 0xFF) << 8` | not executed | Bluez.HeaderLenAsWrittenLoops | Bluez.HeaderLenRoundTrip |
| lejosdroidcomms/src/main/java/lejos/nxt/addon/MMXMotor.java:110-125 | `Math.abs(power)` then clamp to 100 | `setPower(Integer.MIN_VALUE)`: `Math.abs` returns MIN_VALUE, the clamp is skipped, 0 is sent as the speed and `getPower()` returns a negative value | the magnitude clamped to 0..100 for every input | not executed | MmxMotor.SetPowerMinValue | MmxMotor.SetPower |
| LegoMachineLearningAndroidApp/lejosdroidcomms/src/main/java/lejos/pc/comm/NXTConnector.java:68 | `name = (nxt == null or empty ? nxt : "Unknown")` | `search("NXT", "00:16:53:01:02:03", USB)` builds a device named Unknown, while a search with no name builds one with a null name | the given name when there is one, "Unknown" otherwise | not executed | Connector.AddressNameInverted | Connector.AddressName |
| lejosdroidcomms/src/main/java/lejos/pc/comm/NXTCommUSB.java:378-444 | `EOF` is cleared only on the packet-mode branch (line 430) | close a packet connection after end of stream, then reopen in LCP mode: `EOF` is still set and the first `read()` returns null although the brick sent data | every successful open starts unframed, with `EOF` cleared and empty buffers | not executed | UsbFramer.ReopenKeepsStaleEof | UsbFramer.Open |

The as-written definitions (`Bluez.HeaderLenAsWritten`, `MmxMotor.SetPowerAsWritten`,
`Connector.AddressNameAsWritten`, `UsbFramer.OpenAsWritten`) are kept next to the corrected ones. The
agreement lemmas (`Bluez.HeaderLenAgreement`, `MmxMotor.SetPowerAgreement`) show exactly where
each pair differs.

The version cleanup in `NXTSamba.open` (line 581) uses the regex `\s.*`, which removes every
whitespace run together with the text up to the next line terminator. For ordinary version lines
this is the first word (`SambaFormat.DropSpaceRunsIsFirstWord`). `SambaFormat.VersionKeepsTextAfterNel`
shows that a NEL character (U+0085) would survive the cleanup. That is a property of the regex, and
is not listed as a finding.
