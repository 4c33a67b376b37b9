# ScooterNet packet engine in Dafny

ScooterNet frames packets for nodes that share one half-duplex RS-485 bus.
Each frame is a 6-byte header (`src_id: u8 | dst_id: u8 | size: u16 | crc: u16`,
the raw bytes of the C struct, little-endian) followed by `size` payload bytes.
`ScooterNetClass` sends frames. It also receives them in two ways:
- a poll step (`loop`) that hands accepted packets to one registered handler;
- a pull receive (`receivePacket`) into a buffer the caller supplies.

Every failure is recorded in the node's status. Success never resets it.

The project has four modules:

- `NetProtocol` (`net_protocol.dfy`) models the header file:
  - the constants `BroadcastId = 255`, `MaxPacketSize = 500` and `HeaderSize = 6`;
  - the `PacketHeader` record;
  - the seven-valued `NetStatus` enum and its C enum values;
  - the header's raw encoding and decoding.
- `Transport` (`transport.dfy`) is the serial line, reduced to a class holding
  two byte sequences: what is still to be read (`input`) and what has been
  written (`output`).
  - `readBytes(n)` consumes and copies the first `min(n, waiting)` bytes, so
    a timed-out read is a short read.
  - `read()` on an empty line returns -1 and consumes nothing.
- `Framing` (`framing.dfy`) holds two pure functions:
  - `Poll` gives the effect of one `loop` call;
  - `Receive` gives the effect of one `receivePacket` call.

  Each maps the old status and the waiting bytes to the new status, the bytes
  left, and what was delivered or copied. The protocol's properties are proved
  about these two functions.
- `ScooterNet` (`scooter_net.dfy`) holds the class `ScooterNetClass`. Its
  fields `status` and `handler` are overwritten in place, and its methods are
  proved equal to `Poll` and `Receive`. The two draining loops are a `while`
  loop with invariants. `readBytes` fills the caller's `array` in place.

Modelling choices:
- The CRC-16 routine is an external library. The model takes it as an
  arbitrary function `Crc16 = seq<u8> -> u16`, given to the constructor.
- Whether `malloc` succeeds is the `allocOk` parameter of `Loop`.
- The handler's body is application code. Each call to the handler is
  recorded in the field `calls`, with the header and the buffer contents it
  was given.
- `receivePacket` writes the caller's header struct through a pointer. The
  model passes the struct in as `header` and returns it as `headerOut`. On a
  short header read, only the bytes actually read are overwritten.

## Model

| member | source | states |
|---|---|---|
| NetProtocol.Ordinal | include/ScooterNet.h:18-26 | every status has an enum value below seven |
| NetProtocol.StatusOf | include/ScooterNet.h:18-26 | every value below seven is the enum value of some status |
| NetProtocol.StatusOfOrdinal | include/ScooterNet.h:18-26 | the enum values are pairwise distinct, so `NetStatus` is a closed set of seven values |
| NetProtocol.Word | include/ScooterNet.h:14-15 | a 16-bit field is stored as its low byte, then its high byte |
| NetProtocol.EncodeHeader | include/ScooterNet.h:11-16 | the header is exactly 6 bytes: src, dst, then size and crc little-endian |
| NetProtocol.DecodeHeader | include/ScooterNet.h:11-16 | every 6-byte string is the encoding of the header decoded from it |
| NetProtocol.DecodeEncodeHeader | include/ScooterNet.h:11-16 | decoding an encoded header gives back the same header |
| ScooterNet.ScooterNetClass.constructor | src/ScooterNet.cpp:4-8 | a new node has its id, status `NotInitialized` (so it reports an error), no handler and no handler calls |
| ScooterNet.ScooterNetClass.Begin | src/ScooterNet.cpp:10-13 | `begin` sets the status to `Ready`, so no error is reported |
| ScooterNet.ScooterNetClass.GetError | src/ScooterNet.cpp:19-21 | `get_error()` returns the stored status as it is, with no side effect |
| ScooterNet.ScooterNetClass.HasError | src/ScooterNet.cpp:15-21 | `has_error()` holds iff `get_error()` is not `Ready` |
| ScooterNet.ScooterNetClass.SetPacketHandler | src/ScooterNet.cpp:111-113 | the given handler (or none) replaces the single handler slot; nothing else changes |
| ScooterNet.ScooterNetClass.CallPacketHandler | src/ScooterNet.cpp:115-119 | the handler is called once with the header and buffer if one is set; with none set, nothing happens |
| ScooterNet.ScooterNetClass.Drain | src/ScooterNet.cpp:33-35 | the drain loop consumes exactly `min(count, waiting)` bytes and writes nothing |
| ScooterNet.ScooterNetClass.Loop | src/ScooterNet.cpp:23-54 | the new status and the bytes left are those `Poll` gives; the handler is called once iff `Poll` delivers a packet and a handler is set; nothing is written |
| ScooterNet.ScooterNetClass.SendPacket | src/ScooterNet.cpp:56-63 | appends exactly `encode({id, dst, size, crc16(payload[..size])}) + payload[..size]` to the line and reads nothing |
| ScooterNet.ScooterNetClass.ReceivePacket | src/ScooterNet.cpp:65-90 | the returned length, the header struct, the status, the bytes left and the buffer contents are those `Receive` gives; no handler is called |
| ScooterNet.SentFrame | src/ScooterNet.cpp:56-63 | the bytes a node puts on the line when sending are exactly the raw header it builds (its own id, `dst`, the length, the payload's CRC), then the payload |
| ScooterNet.LoopbackReceive | src/ScooterNet.cpp:56-90 | a frame sent by one node and pulled by another into a buffer that is large enough yields the same payload and the header the sender built, and returns the payload length |
| ScooterNet.LoopbackPoll | src/ScooterNet.cpp:23-63 | a frame sent by one node and polled by another calls that node's handler exactly once, with the sender's header and payload, iff the frame is addressed to that node or broadcast |
| Framing.Poll | src/ScooterNet.cpp:23-54 | one poll step never lengthens the waiting input. The status it leaves is either the old one or one of `BadHeader`, `PacketOverSize`, `AllocationFailure`, `BadPacket` (never `CrcError`: the CRC is not checked). A delivery keeps the old status and only happens for a header addressed to this node or broadcast |
| Framing.Receive | src/ScooterNet.cpp:65-90 | one pull receive never lengthens the waiting input. The status it leaves is either the old one or one of `BadHeader`, `PacketOverSize`, `BadPacket`, `CrcError` (never `AllocationFailure`). A non-zero return keeps the old status and equals the header's size and the number of bytes copied |
| Framing.PollOnlyConsumes | src/ScooterNet.cpp:23-54 | a poll step only consumes bytes from the front of the line |
| Framing.PollIdle | src/ScooterNet.cpp:25 | with nothing waiting, a poll step changes neither the status nor the line, and delivers nothing |
| Framing.PollShortHeader | src/ScooterNet.cpp:26-30 | a header shorter than 6 bytes sets `BadHeader`, consumes only those bytes and delivers nothing |
| Framing.PollOversize | src/ScooterNet.cpp:31-37 | a header with `size > 500` sets `PacketOverSize`, drains `min(size, waiting)` further bytes and delivers nothing |
| Framing.PollOversizeResyncs | src/ScooterNet.cpp:31-37 | after an oversized frame whose body has already been received entirely, the next bytes waiting are exactly those that followed it |
| Framing.PollAllocationFailure | src/ScooterNet.cpp:38-42 | a failed allocation sets `AllocationFailure` and consumes nothing after the header |
| Framing.PollShortBody | src/ScooterNet.cpp:43-48 | a body shorter than `size` sets `BadPacket` and delivers nothing |
| Framing.PollDelivers | src/ScooterNet.cpp:49-52 | a complete frame within the limit is consumed exactly and leaves the status unchanged; it is delivered iff `dst_id` is this node's id or 255, whatever its CRC field holds |
| Framing.PollDeliveryIsFrame | src/ScooterNet.cpp:43-52 | anything delivered is a well-framed packet addressed to this node, and its encoding is exactly the bytes consumed |
| Framing.PollSentFrame | src/ScooterNet.cpp:49-63 | the frame `sendPacket` writes is delivered with the sender's header and payload iff the polling node accepts it |
| Framing.PollDeliversRunInOrder | src/ScooterNet.cpp:23-54 | polling once per frame over well-framed packets sent back to back delivers exactly the accepted ones, in order, and sets no status |
| Framing.ReceiveBounds | src/ScooterNet.cpp:65-90 | a pull receive only consumes from the front, fills at most `buffer_size` bytes and returns at most `min(buffer_size, 500)` |
| Framing.ReceiveSucceedsIff | src/ScooterNet.cpp:65-90 | returns `header.size` iff all hold: full header read, `size` within both 500 and `buffer_size`, full body read, CRC matches; otherwise 0. On success the status is unchanged and exactly that frame is consumed |
| Framing.ReceiveFailures | src/ScooterNet.cpp:67-89 | each failure sets its own status: `BadHeader`, `PacketOverSize` after draining, `BadPacket`, or `CrcError` |
| Framing.ReceiveSentFrame | src/ScooterNet.cpp:56-90 | the frame `sendPacket` writes, pulled into a buffer that is large enough, returns the payload length and yields the same header and payload |
| Framing.ReceiveCorruptedFrame | src/ScooterNet.cpp:84-89 | a payload changed in transit to bytes with a different CRC is rejected with `CrcError` and returns 0 |

The constants `BROADCAST_ID = 255` and `MAX_PACKET_SIZE = 500`
(include/ScooterNet.h:8-9) are `NetProtocol.BroadcastId` and
`NetProtocol.MaxPacketSize`. The handler slot (include/ScooterNet.h:56) is the
field `handler: Option<PacketHandler>`. It holds at most one handler and starts
empty. Because `receivePacket`'s capacity is a `u16` (include/ScooterNet.h:44),
every length it returns fits in 16 bits.

## Left out

- The deprecated `receivePacket(header, uint8_t**)` overload (src/ScooterNet.cpp:92-109) is not modelled. It ignores short reads and then computes a CRC over uninitialised memory, and the capacity-bounded form supersedes it.
- The RS-485 line's own behaviour is not modelled: the baud rate passed to `begin`, direction switching, and `beginTransmission`/`endTransmission`. These are hardware calls. `SendPacket` writes the header, then the payload, with no transmission bracket and nothing in between.
- The CRC-16 arithmetic is an external library. It is the arbitrary function `crc16`. As a result, the model cannot show that a single flipped bit is always detected. `Framing.ReceiveCorruptedFrame` states the rejection for any corruption that changes the CRC.
- `malloc`/`free` are reduced to the `allocOk` choice.
- `readBytes`' blocking and timeout are not modelled. A read that would time out is a short read of the bytes that are waiting.
- Framing.PollOversizeResyncs, Framing.PollOversize and ScooterNet.ScooterNetClass.Drain assume that no byte of a frame is still in flight when a step starts: `input` holds every byte that will arrive. On the real line, `readBytes` waits up to its timeout for bytes still arriving, but the drain loop's `read()` returns -1 at once whenever the receive buffer is momentarily empty. So the real drain can stop early, and the rest of an oversized body is then parsed as headers. The model does not capture this difference between the two calls.
- The effects of the handler's body are application code. Only the calls are recorded.
- The `#ifdef ARDUINO` build switches are build configuration.
