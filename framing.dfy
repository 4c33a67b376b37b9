/** What one poll step (`loop`) and one pull receive (`receivePacket`) do to the
    engine's status and to the bytes waiting on the bus, as functions of the
    bytes waiting before the call. The engine's methods are proved equal to
    these functions; the properties of the protocol are proved about them. */
module Framing {
  import opened NetProtocol
  import opened Transport

  datatype Option<T> = None | Some(value: T)

  /** A header together with the payload bytes that follow it. */
  datatype Packet = Packet(header: PacketHeader, payload: seq<u8>)

  /** A packet whose header describes its payload and passes the size limit. */
  predicate WellFramed(p: Packet) {
    p.header.size == |p.payload| && p.header.size <= MaxPacketSize
  }

  /** The bytes of a packet on the bus: its raw header, then its payload. */
  function EncodePacket(p: Packet): seq<u8> {
    EncodeHeader(p.header) + p.payload
  }

  /** The header `sendPacket` builds for `payload` sent from `src` to `dst`. */
  function SendHeader(src: u8, dst: u8, payload: seq<u8>, crc16: Crc16): PacketHeader
    requires |payload| < 0x1_0000
  {
    PacketHeader(src, dst, |payload|, crc16(payload))
  }

  /** A node with id `id` keeps a packet addressed to it or to every node. */
  predicate Accepts(id: u8, h: PacketHeader) {
    h.dstId == id || h.dstId == BroadcastId
  }

  /** The outcome of one poll step: the new status, the bytes still waiting,
      and the packet handed to `callPacketHandler`, if any. */
  datatype PollResult = PollResult(status: NetStatus, rest: seq<u8>, delivered: Option<Packet>)

  /** One poll step of a node with id `id` whose status is `status`, with
      `input` waiting on the bus; `allocOk` says whether the payload buffer
      could be allocated. The CRC is not consulted. */
  function Poll(id: u8, status: NetStatus, input: seq<u8>, allocOk: bool): (r: PollResult)
    ensures |r.rest| <= |input|
    ensures r.status == status || r.status in {BadHeader, PacketOverSize, AllocationFailure, BadPacket}
    ensures r.delivered.Some? ==> r.status == status && Accepts(id, r.delivered.value.header)
  {
    if |input| == 0 then PollResult(status, input, None)
    else if |input| < HeaderSize then PollResult(BadHeader, [], None)
    else
      var h := DecodeHeader(input[..HeaderSize]);
      var body := input[HeaderSize..];
      if h.size > MaxPacketSize then PollResult(PacketOverSize, body[Min(h.size, |body|)..], None)
      else if !allocOk then PollResult(AllocationFailure, body, None)
      else if |body| < h.size then PollResult(BadPacket, [], None)
      else PollResult(status, body[h.size..], if Accepts(id, h) then Some(Packet(h, body[..h.size])) else None)
  }

  /** The outcome of one pull receive: the new status, the bytes still waiting,
      the returned length, the caller's header struct afterwards, and the bytes
      copied into the front of the caller's buffer. */
  datatype ReceiveResult = ReceiveResult(status: NetStatus, rest: seq<u8>, length: u16,
                                         header: PacketHeader, filled: seq<u8>)

  /** One pull receive into a buffer of `capacity` bytes, with `input` waiting on
      the bus and `prior` the caller's header struct before the call. */
  function Receive(status: NetStatus, input: seq<u8>, prior: PacketHeader, capacity: u16,
                   crc16: Crc16): (r: ReceiveResult)
    ensures |r.rest| <= |input|
    ensures r.status == status || r.status in {BadHeader, PacketOverSize, BadPacket, CrcError}
    ensures r.length != 0 ==> r.status == status && r.length == r.header.size == |r.filled|
  {
    if |input| < HeaderSize then
      // readBytes overwrote only the first |input| bytes of the caller's struct
      ReceiveResult(BadHeader, [], 0, DecodeHeader(input + EncodeHeader(prior)[|input|..]), [])
    else
      var h := DecodeHeader(input[..HeaderSize]);
      var body := input[HeaderSize..];
      if h.size > MaxPacketSize || h.size > capacity then
        ReceiveResult(PacketOverSize, body[Min(h.size, |body|)..], 0, h, [])
      else if |body| < h.size then ReceiveResult(BadPacket, [], 0, h, body)
      else if crc16(body[..h.size]) == h.crc then
        ReceiveResult(status, body[h.size..], h.size, h, body[..h.size])
      else ReceiveResult(CrcError, body[h.size..], 0, h, body[..h.size])
  }

  /** The conditions under which a pull receive accepts the next frame. */
  predicate ReceiveAccepts(input: seq<u8>, capacity: u16, crc16: Crc16) {
    |input| >= HeaderSize &&
    var h := DecodeHeader(input[..HeaderSize]);
    h.size <= MaxPacketSize && h.size <= capacity &&
    |input| - HeaderSize >= h.size &&
    crc16(input[HeaderSize..HeaderSize + h.size]) == h.crc
  }

  // ---------------------------------------------------------------------------
  // Splitting a header off the wire

  lemma SplitHeader(h: PacketHeader, body: seq<u8>)
    ensures |EncodeHeader(h) + body| >= HeaderSize
    ensures DecodeHeader((EncodeHeader(h) + body)[..HeaderSize]) == h
    ensures (EncodeHeader(h) + body)[HeaderSize..] == body
  {
    var wire := EncodeHeader(h) + body;
    assert wire[..HeaderSize] == EncodeHeader(h);
    assert wire[HeaderSize..] == body;
    DecodeEncodeHeader(h);
  }

  lemma SplitInput(input: seq<u8>)
    requires |input| >= HeaderSize
    ensures input == EncodeHeader(DecodeHeader(input[..HeaderSize])) + input[HeaderSize..]
  {
  }

  // ---------------------------------------------------------------------------
  // Poll step

  /** A poll step only ever consumes bytes from the front of the bus. */
  lemma PollOnlyConsumes(id: u8, status: NetStatus, input: seq<u8>, allocOk: bool)
    ensures var r := Poll(id, status, input, allocOk);
            |r.rest| <= |input| && r.rest == input[|input| - |r.rest|..]
  {
    var r := Poll(id, status, input, allocOk);
    if |input| >= HeaderSize {
      var body := input[HeaderSize..];
      assert r.rest == body[|body| - |r.rest|..];
    }
  }

  /** With nothing waiting, a poll step changes nothing and delivers nothing. */
  lemma PollIdle(id: u8, status: NetStatus, allocOk: bool)
    ensures Poll(id, status, [], allocOk) == PollResult(status, [], None)
  {
  }

  /** A truncated header sets `BadHeader`, consumes only the bytes that were
      there and delivers nothing. */
  lemma PollShortHeader(id: u8, status: NetStatus, input: seq<u8>, allocOk: bool)
    requires 0 < |input| < HeaderSize
    ensures Poll(id, status, input, allocOk) == PollResult(BadHeader, [], None)
  {
  }

  /** A header declaring more than `MaxPacketSize` bytes sets `PacketOverSize`
      and drains the declared length, or all that is there. */
  lemma PollOversize(id: u8, status: NetStatus, h: PacketHeader, body: seq<u8>, allocOk: bool)
    requires h.size > MaxPacketSize
    ensures Poll(id, status, EncodeHeader(h) + body, allocOk)
         == PollResult(PacketOverSize, body[Min(h.size, |body|)..], None)
  {
    SplitHeader(h, body);
  }

  /** Draining keeps the bus aligned: after an oversized frame whose body has
      already been received entirely, the next bytes waiting are exactly those
      that followed it. */
  lemma PollOversizeResyncs(id: u8, status: NetStatus, h: PacketHeader, junk: seq<u8>,
                            next: seq<u8>, allocOk: bool)
    requires h.size > MaxPacketSize && |junk| == h.size
    ensures Poll(id, status, EncodeHeader(h) + junk + next, allocOk)
         == PollResult(PacketOverSize, next, None)
  {
    assert EncodeHeader(h) + junk + next == EncodeHeader(h) + (junk + next);
    PollOversize(id, status, h, junk + next, allocOk);
    assert (junk + next)[h.size..] == next;
  }

  /** A failed payload allocation sets `AllocationFailure` and consumes nothing
      after the header. */
  lemma PollAllocationFailure(id: u8, status: NetStatus, h: PacketHeader, body: seq<u8>)
    requires h.size <= MaxPacketSize
    ensures Poll(id, status, EncodeHeader(h) + body, false)
         == PollResult(AllocationFailure, body, None)
  {
    SplitHeader(h, body);
  }

  /** A truncated payload sets `BadPacket` and delivers nothing. */
  lemma PollShortBody(id: u8, status: NetStatus, h: PacketHeader, body: seq<u8>)
    requires h.size <= MaxPacketSize && |body| < h.size
    ensures Poll(id, status, EncodeHeader(h) + body, true) == PollResult(BadPacket, [], None)
  {
    SplitHeader(h, body);
  }

  /** A complete frame within the size limit is consumed exactly, leaves the
      status as it was, and is delivered iff it is addressed to this node or
      broadcast, whatever its CRC field says. */
  lemma PollDelivers(id: u8, status: NetStatus, h: PacketHeader, payload: seq<u8>, tail: seq<u8>)
    requires WellFramed(Packet(h, payload))
    ensures Poll(id, status, EncodePacket(Packet(h, payload)) + tail, true)
         == PollResult(status, tail, if Accepts(id, h) then Some(Packet(h, payload)) else None)
  {
    var wire := EncodePacket(Packet(h, payload)) + tail;
    assert wire == EncodeHeader(h) + (payload + tail);
    SplitHeader(h, payload + tail);
    assert (payload + tail)[..h.size] == payload;
    assert (payload + tail)[h.size..] == tail;
  }

  /** Conversely, whatever a poll step delivers is a well-framed packet
      addressed to this node, whose encoding is exactly the bytes consumed,
      and the status is left as it was. */
  lemma PollDeliveryIsFrame(id: u8, status: NetStatus, input: seq<u8>, allocOk: bool)
    ensures var r := Poll(id, status, input, allocOk);
            r.delivered.Some? ==>
              WellFramed(r.delivered.value) && Accepts(id, r.delivered.value.header) &&
              input == EncodePacket(r.delivered.value) + r.rest && r.status == status
  {
    var r := Poll(id, status, input, allocOk);
    if |input| >= HeaderSize {
      var h := DecodeHeader(input[..HeaderSize]);
      var body := input[HeaderSize..];
      if h.size <= MaxPacketSize && allocOk && |body| >= h.size && Accepts(id, h) {
        assert r == PollResult(status, body[h.size..], Some(Packet(h, body[..h.size])));
        SplitInput(input);
        assert body == body[..h.size] + body[h.size..];
      }
    }
  }

  /** The frame `sendPacket` writes, polled at any node, is consumed exactly and
      delivered with the sender's header and payload iff that node accepts it. */
  lemma PollSentFrame(src: u8, dst: u8, payload: seq<u8>, crc16: Crc16,
                      id: u8, status: NetStatus, tail: seq<u8>)
    requires |payload| <= MaxPacketSize
    ensures var h := SendHeader(src, dst, payload, crc16);
            Poll(id, status, EncodePacket(Packet(h, payload)) + tail, true) ==
              PollResult(status, tail, if dst == id || dst == BroadcastId then Some(Packet(h, payload)) else None)
  {
    PollDelivers(id, status, SendHeader(src, dst, payload, crc16), payload, tail);
  }

  /** `ticks` successive poll steps with allocation succeeding: the final
      status, the bytes left and the packets delivered, in order. */
  function PollTicks(id: u8, status: NetStatus, input: seq<u8>, ticks: nat): (NetStatus, seq<u8>, seq<Packet>)
    decreases ticks
  {
    if ticks == 0 then (status, input, [])
    else
      var r := Poll(id, status, input, true);
      var later := PollTicks(id, r.status, r.rest, ticks - 1);
      (later.0, later.1, (if r.delivered.Some? then [r.delivered.value] else []) + later.2)
  }

  /** The bytes of a run of packets sent back to back. */
  function Wire(ps: seq<Packet>): seq<u8> {
    if ps == [] then [] else EncodePacket(ps[0]) + Wire(ps[1..])
  }

  /** The packets of `ps` that node `id` accepts, in order. */
  function AcceptedBy(id: u8, ps: seq<Packet>): seq<Packet> {
    if ps == [] then []
    else (if Accepts(id, ps[0].header) then [ps[0]] else []) + AcceptedBy(id, ps[1..])
  }

  /** Polling once per frame over a run of well-framed packets delivers exactly
      the accepted ones, in order, consumes the run exactly and sets no status. */
  lemma {:induction false} PollDeliversRunInOrder(id: u8, status: NetStatus, ps: seq<Packet>, tail: seq<u8>)
    requires forall i :: 0 <= i < |ps| ==> WellFramed(ps[i])
    ensures PollTicks(id, status, Wire(ps) + tail, |ps|) == (status, tail, AcceptedBy(id, ps))
  {
    if ps != [] {
      var p := ps[0];
      assert WellFramed(ps[0]);
      assert Wire(ps) + tail == EncodePacket(p) + (Wire(ps[1..]) + tail);
      PollDelivers(id, status, p.header, p.payload, Wire(ps[1..]) + tail);
      PollDeliversRunInOrder(id, status, ps[1..], tail);
      var r := Poll(id, status, Wire(ps) + tail, true);
      assert r.status == status && r.rest == Wire(ps[1..]) + tail;
      assert |ps| - 1 == |ps[1..]|;
      var later := PollTicks(id, status, Wire(ps[1..]) + tail, |ps| - 1);
      assert later == (status, tail, AcceptedBy(id, ps[1..]));
      assert AcceptedBy(id, ps) == (if Accepts(id, p.header) then [p] else []) + AcceptedBy(id, ps[1..]);
    } else {
      assert Wire(ps) + tail == tail;
    }
  }

  // ---------------------------------------------------------------------------
  // Pull receive

  /** A pull receive only ever consumes bytes from the front of the bus, never
      fills more than the buffer's capacity, and returns at most `capacity`. */
  lemma ReceiveBounds(status: NetStatus, input: seq<u8>, prior: PacketHeader, capacity: u16, crc16: Crc16)
    ensures var r := Receive(status, input, prior, capacity, crc16);
            |r.rest| <= |input| && r.rest == input[|input| - |r.rest|..] &&
            |r.filled| <= capacity && r.length <= capacity && r.length <= MaxPacketSize
  {
    if |input| >= HeaderSize {
      ReceiveRestIsSuffix(status, input, prior, capacity, crc16);
    }
  }

  lemma ReceiveRestIsSuffix(status: NetStatus, input: seq<u8>, prior: PacketHeader, capacity: u16, crc16: Crc16)
    requires |input| >= HeaderSize
    ensures var r := Receive(status, input, prior, capacity, crc16);
            r.rest == input[|input| - |r.rest|..]
  {
    var h := DecodeHeader(input[..HeaderSize]);
    var body := input[HeaderSize..];
    var rest := Receive(status, input, prior, capacity, crc16).rest;
    if h.size > MaxPacketSize || h.size > capacity {
      assert rest == body[Min(h.size, |body|)..];
    } else if |body| < h.size {
      assert rest == [];
    } else {
      assert rest == body[h.size..];
    }
    assert rest == body[|body| - |rest|..];
  }

  /** A pull receive returns the header's size exactly when the full header was
      read, the size is within both limits, the full body was read and its CRC
      matches; otherwise it returns 0. On success the status is left as it was,
      the buffer holds the payload, and the bytes consumed are exactly that frame. */
  lemma ReceiveSucceedsIff(status: NetStatus, input: seq<u8>, prior: PacketHeader, capacity: u16, crc16: Crc16)
    ensures var r := Receive(status, input, prior, capacity, crc16);
            r.length == (if ReceiveAccepts(input, capacity, crc16) then r.header.size else 0)
    ensures var r := Receive(status, input, prior, capacity, crc16);
            ReceiveAccepts(input, capacity, crc16) ==>
              r.status == status && |r.filled| == r.header.size && crc16(r.filled) == r.header.crc &&
              input == EncodePacket(Packet(r.header, r.filled)) + r.rest
  {
    if |input| >= HeaderSize {
      var h := DecodeHeader(input[..HeaderSize]);
      var body := input[HeaderSize..];
      if h.size <= MaxPacketSize && h.size <= capacity && |body| >= h.size {
        assert body[..h.size] == input[HeaderSize..HeaderSize + h.size];
        if crc16(body[..h.size]) == h.crc {
          SplitInput(input);
          assert body == body[..h.size] + body[h.size..];
        }
      }
    }
  }

  /** Each way a pull receive can fail records its own status: a short header
      `BadHeader`, an oversized frame `PacketOverSize` after draining the
      declared length, a short body `BadPacket`, a checksum mismatch `CrcError`. */
  lemma ReceiveFailures(status: NetStatus, h: PacketHeader, body: seq<u8>, prior: PacketHeader,
                        capacity: u16, crc16: Crc16)
    ensures forall short: seq<u8> | |short| < HeaderSize ::
              Receive(status, short, prior, capacity, crc16).status == BadHeader &&
              Receive(status, short, prior, capacity, crc16).length == 0
    ensures var r := Receive(status, EncodeHeader(h) + body, prior, capacity, crc16);
            (h.size > MaxPacketSize || h.size > capacity ==>
               r == ReceiveResult(PacketOverSize, body[Min(h.size, |body|)..], 0, h, [])) &&
            (h.size <= MaxPacketSize && h.size <= capacity && |body| < h.size ==>
               r == ReceiveResult(BadPacket, [], 0, h, body)) &&
            (h.size <= MaxPacketSize && h.size <= capacity && |body| >= h.size &&
             crc16(body[..h.size]) != h.crc ==>
               r == ReceiveResult(CrcError, body[h.size..], 0, h, body[..h.size]))
  {
    SplitHeader(h, body);
  }

  /** The frame `sendPacket` writes, received into a buffer large enough for it,
      yields the sender's header and payload, returns the payload length,
      consumes exactly that frame and leaves the status as it was. */
  lemma ReceiveSentFrame(src: u8, dst: u8, payload: seq<u8>, crc16: Crc16, status: NetStatus,
                         tail: seq<u8>, prior: PacketHeader, capacity: u16)
    requires |payload| <= MaxPacketSize && |payload| <= capacity
    ensures var h := SendHeader(src, dst, payload, crc16);
            Receive(status, EncodePacket(Packet(h, payload)) + tail, prior, capacity, crc16) ==
              ReceiveResult(status, tail, |payload|, h, payload)
  {
    var h := SendHeader(src, dst, payload, crc16);
    assert EncodePacket(Packet(h, payload)) + tail == EncodeHeader(h) + (payload + tail);
    SplitHeader(h, payload + tail);
    assert (payload + tail)[..h.size] == payload;
    assert (payload + tail)[h.size..] == tail;
  }

  /** A payload altered in transit to bytes whose CRC differs from the one the
      sender computed is rejected with `CrcError`, and the frame is consumed. */
  lemma ReceiveCorruptedFrame(src: u8, dst: u8, payload: seq<u8>, corrupted: seq<u8>, crc16: Crc16,
                              status: NetStatus, tail: seq<u8>, prior: PacketHeader, capacity: u16)
    requires |payload| <= MaxPacketSize && |payload| <= capacity && |corrupted| == |payload|
    requires crc16(corrupted) != crc16(payload)
    ensures var h := SendHeader(src, dst, payload, crc16);
            Receive(status, EncodeHeader(h) + corrupted + tail, prior, capacity, crc16) ==
              ReceiveResult(CrcError, tail, 0, h, corrupted)
  {
    var h := SendHeader(src, dst, payload, crc16);
    assert EncodeHeader(h) + corrupted + tail == EncodeHeader(h) + (corrupted + tail);
    SplitHeader(h, corrupted + tail);
    assert (corrupted + tail)[..h.size] == corrupted;
    assert (corrupted + tail)[h.size..] == tail;
  }
}
