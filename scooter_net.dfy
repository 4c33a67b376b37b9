/** The packet engine of one node: its id, its status, its single packet handler,
    and the operations that send, poll and pull-receive frames over the bus. */
module ScooterNet {
  import opened NetProtocol
  import opened Transport
  import opened Framing

  /** Identifies a registered handler function; what its body does is
      application code and is not modelled. */
  datatype PacketHandler = PacketHandler(tag: nat)

  /** One call of the registered handler, with the header and the buffer
      contents it was given. */
  datatype Invocation = Invocation(handler: PacketHandler, header: PacketHeader, payload: seq<u8>)

  class ScooterNetClass {
    /** This node's id (`m_id`). */
    const id: u8
    /** The serial line (`m_rs485`). */
    const bus: Rs485
    /** The CRC-16 routine (`calcCRC16`). */
    const crc16: Crc16
    /** The last observed status (`m_netstatus`). */
    var status: NetStatus
    /** The registered handler (`m_packet_handler`), or None for `nullptr`. */
    var handler: Option<PacketHandler>
    /** Every call of a handler made so far, oldest first. */
    var calls: seq<Invocation>

    constructor (bus: Rs485, id: u8, crc16: Crc16)
      ensures this.bus == bus && this.id == id && this.crc16 == crc16
      ensures status == NotInitialized && HasError() && handler == None && calls == []
    {
      this.bus := bus;
      this.id := id;
      this.crc16 := crc16;
      status := NotInitialized;
      handler := None;
      calls := [];
    }

    /** Starts the node; the serial line's own start-up is not modelled. */
    method Begin()
      modifies this
      ensures status == Ready && !HasError() && handler == old(handler) && calls == old(calls)
    {
      status := Ready;
    }

    /** The stored status, returned as it is and with no side effect. */
    function GetError(): (s: NetStatus)
      reads this
      ensures s == status
    {
      status
    }

    /** A node reports an error exactly when its status is anything but `Ready`. */
    function HasError(): (b: bool)
      reads this
      ensures b <==> GetError() != Ready
    {
      status != Ready
    }

    /** Registers `h` as the only handler, replacing any earlier one. */
    method SetPacketHandler(h: Option<PacketHandler>)
      modifies this
      ensures handler == h && status == old(status) && calls == old(calls)
    {
      handler := h;
    }

    /** Calls the registered handler, if there is one, with `header` and `buffer`. */
    method CallPacketHandler(header: PacketHeader, buffer: array<u8>)
      modifies this
      ensures handler == old(handler) && status == old(status)
      ensures calls == old(calls) + (if handler.Some? then [Invocation(handler.value, header, buffer[..])] else [])
    {
      if handler.Some? {
        calls := calls + [Invocation(handler.value, header, buffer[..])];
      }
    }

    /** Reads and discards `count` bytes one at a time; `read()` on an empty
        line consumes nothing. */
    method Drain(count: u16)
      modifies bus
      ensures bus.input == old(bus.input)[Min(count, |old(bus.input)|)..]
      ensures bus.output == old(bus.output)
    {
      var i: u16 := 0;
      while i < count
        invariant i <= count
        invariant bus.input == old(bus.input)[Min(i, |old(bus.input)|)..]
        invariant bus.output == old(bus.output)
      {
        var discarded := bus.Read();
        i := i + 1;
      }
    }

    /** One poll step (`loop`). `allocOk` says whether `malloc` of the payload
        buffer succeeds. */
    method Loop(allocOk: bool)
      modifies this, bus
      ensures var r := Poll(id, old(status), old(bus.input), allocOk);
              status == r.status && bus.input == r.rest &&
              calls == old(calls) + (if r.delivered.Some? && handler.Some?
                                     then [Invocation(handler.value, r.delivered.value.header, r.delivered.value.payload)]
                                     else [])
      ensures bus.output == old(bus.output) && handler == old(handler)
    {
      var waiting := bus.Available();
      if waiting {
        var raw := new u8[HeaderSize];
        var headerRead := bus.ReadBytes(raw, HeaderSize);
        if headerRead < HeaderSize {
          status := BadHeader;
          return;
        }
        var header := DecodeHeader(raw[..]);
        if header.size > MaxPacketSize {
          status := PacketOverSize;
          Drain(header.size);
          return;
        }
        if !allocOk {
          status := AllocationFailure;
          return;
        }
        var buffer := new u8[header.size];
        var bodyRead := bus.ReadBytes(buffer, header.size);
        if bodyRead < header.size {
          status := BadPacket;
          return;
        }
        assert buffer[..] == old(bus.input)[HeaderSize..][..header.size];
        if header.dstId == id || header.dstId == BroadcastId {
          CallPacketHandler(header, buffer);
        }
      }
    }

    /** Sends `buffer[..size]` to `dst` as one frame: the header carrying this
        node's id and the payload's CRC, then the payload. The size is not
        checked against `MaxPacketSize`. */
    method SendPacket(dst: u8, buffer: array<u8>, size: u16)
      requires size <= buffer.Length
      modifies bus
      ensures bus.output == old(bus.output) + EncodeHeader(PacketHeader(id, dst, size, crc16(buffer[..size])))
                                           + buffer[..size]
      ensures bus.input == old(bus.input)
    {
      var header := PacketHeader(id, dst, size, 0);
      header := header.(crc := crc16(buffer[..size]));
      bus.Write(EncodeHeader(header));
      bus.Write(buffer[..size]);
    }

    /** Pull receive (`receivePacket` with a caller buffer of `bufferSize`
        bytes). `header` is the caller's header struct before the call and
        `headerOut` the same struct afterwards. */
    method ReceivePacket(header: PacketHeader, buffer: array<u8>, bufferSize: u16)
      returns (length: u16, headerOut: PacketHeader)
      requires bufferSize <= buffer.Length
      modifies this, bus, buffer
      ensures var r := Receive(old(status), old(bus.input), header, bufferSize, crc16);
              length == r.length && headerOut == r.header && status == r.status && bus.input == r.rest &&
              buffer[..] == r.filled + old(buffer[..])[|r.filled|..]
      ensures bus.output == old(bus.output) && handler == old(handler) && calls == old(calls)
    {
      var prior := EncodeHeader(header);
      var raw := new u8[HeaderSize](i requires 0 <= i < HeaderSize => prior[i]);
      assert raw[..] == prior;
      var headerRead := bus.ReadBytes(raw, HeaderSize);
      headerOut := DecodeHeader(raw[..]);
      if headerRead < HeaderSize {
        status := BadHeader;
        return 0, headerOut;
      }
      if headerOut.size > MaxPacketSize || headerOut.size > bufferSize {
        status := PacketOverSize;
        Drain(headerOut.size);
        return 0, headerOut;
      }
      var bodyRead := bus.ReadBytes(buffer, headerOut.size);
      if bodyRead < headerOut.size {
        status := BadPacket;
        return 0, headerOut;
      }
      var crc := crc16(buffer[..headerOut.size]);
      if crc == headerOut.crc {
        return headerOut.size, headerOut;
      }
      status := CrcError;
      return 0, headerOut;
    }
  }

  /** The bytes node `src` puts on an empty line when it sends `payload` to `dst`:
      the frame of the packet with the header `sendPacket` builds. */
  method SentFrame(src: u8, dst: u8, payload: seq<u8>, crc16: Crc16) returns (wire: seq<u8>)
    requires |payload| < 0x1_0000
    ensures wire == EncodePacket(Packet(SendHeader(src, dst, payload, crc16), payload))
  {
    var line := new Rs485([]);
    var sender := new ScooterNetClass(line, src, crc16);
    var out := new u8[|payload|](i requires 0 <= i < |payload| => payload[i]);
    sender.SendPacket(dst, out, |payload|);
    assert out[..|payload|] == payload;
    wire := line.output;
  }

  /** Node `src` sends `payload` to `dst`; a node `receiverId` sharing the same
      line pulls it into a buffer of `capacity` bytes. The receiver gets the
      payload back, with the header the sender built. */
  method LoopbackReceive(src: u8, dst: u8, payload: seq<u8>, receiverId: u8, crc16: Crc16, capacity: u16)
    returns (length: u16, header: PacketHeader, received: seq<u8>)
    requires |payload| <= MaxPacketSize && |payload| <= capacity
    ensures length == |payload| && header == PacketHeader(src, dst, length, crc16(payload))
    ensures received == payload
  {
    var wire := SentFrame(src, dst, payload, crc16);
    var receiverLine := new Rs485(wire);
    var receiver := new ScooterNetClass(receiverLine, receiverId, crc16);
    receiver.Begin();
    ReceiveSentFrame(src, dst, payload, crc16, Ready, [], PacketHeader(0, 0, 0, 0), capacity);
    assert wire + [] == wire;
    var buffer := new u8[capacity];
    length, header := receiver.ReceivePacket(PacketHeader(0, 0, 0, 0), buffer, capacity);
    received := buffer[..length];
  }

  /** Node `src` sends `payload` to `dst`; a node `receiverId` with handler `h`
      registered polls the line once. The handler is called once, with the
      sender's header and payload, iff the receiver is the destination or the
      destination is the broadcast id. */
  method LoopbackPoll(src: u8, dst: u8, payload: seq<u8>, receiverId: u8, crc16: Crc16, h: PacketHandler)
    returns (delivered: seq<Invocation>)
    requires |payload| <= MaxPacketSize
    ensures delivered == if dst == receiverId || dst == BroadcastId
                         then [Invocation(h, PacketHeader(src, dst, |payload|, crc16(payload)), payload)]
                         else []
  {
    var wire := SentFrame(src, dst, payload, crc16);
    var receiverLine := new Rs485(wire);
    var receiver := new ScooterNetClass(receiverLine, receiverId, crc16);
    receiver.SetPacketHandler(Some(h));
    PollSentFrame(src, dst, payload, crc16, receiverId, NotInitialized, []);
    assert wire + [] == wire;
    receiver.Loop(true);
    delivered := receiver.calls;
  }
}
