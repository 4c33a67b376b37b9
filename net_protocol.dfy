/** The wire vocabulary of ScooterNet: the two protocol constants, the packet
    header and its raw 6-byte layout, and the closed set of status codes. */
module NetProtocol {

  /** An unsigned 8-bit value (`uint8_t`). */
  type u8 = x: int | 0 <= x < 0x100
  /** An unsigned 16-bit value (`uint16_t`). */
  type u16 = x: int | 0 <= x < 0x1_0000

  /** Destination id that every node accepts. */
  const BroadcastId: u8 := 255
  /** Largest payload length a receiver accepts. */
  const MaxPacketSize: u16 := 500
  /** `sizeof(PacketHeader)`: u8, u8, u16, u16 with no padding. */
  const HeaderSize: nat := 6

  /** The header that precedes every payload on the bus. */
  datatype PacketHeader = PacketHeader(srcId: u8, dstId: u8, size: u16, crc: u16)

  /** The engine's last observed health status (the C enum `NetStatus`). */
  datatype NetStatus =
    | NotInitialized
    | Ready
    | AllocationFailure
    | PacketOverSize
    | CrcError
    | BadHeader
    | BadPacket

  /** The CRC-16 routine the engine links against; it is an external library,
      so the model treats it as an arbitrary function of the payload bytes. */
  type Crc16 = seq<u8> -> u16

  /** The numeric value the C enum gives each status. */
  function Ordinal(s: NetStatus): (n: nat)
    ensures n < 7
  {
    match s
    case NotInitialized => 0
    case Ready => 1
    case AllocationFailure => 2
    case PacketOverSize => 3
    case CrcError => 4
    case BadHeader => 5
    case BadPacket => 6
  }

  /** The status whose enum value is `n`: every value below seven names exactly one status. */
  function StatusOf(n: nat): (s: NetStatus)
    requires n < 7
    ensures Ordinal(s) == n
  {
    [NotInitialized, Ready, AllocationFailure, PacketOverSize, CrcError, BadHeader, BadPacket][n]
  }

  /** The enum values are pairwise distinct, so the seven statuses and 0..6 are in bijection. */
  lemma StatusOfOrdinal(s: NetStatus)
    ensures StatusOf(Ordinal(s)) == s
  {
  }

  function LowByte(w: u16): u8 { w % 0x100 }

  function HighByte(w: u16): u8 { w / 0x100 }

  /** The 16-bit word stored little-endian as the two bytes `lo`, `hi`. */
  function Word(lo: u8, hi: u8): (w: u16)
    ensures LowByte(w) == lo && HighByte(w) == hi
  {
    lo + 0x100 * hi
  }

  /** The raw bytes of the header struct, as `write` and `readBytes` see them. */
  function EncodeHeader(h: PacketHeader): (bytes: seq<u8>)
    ensures |bytes| == HeaderSize
    ensures bytes[0] == h.srcId && bytes[1] == h.dstId
    ensures Word(bytes[2], bytes[3]) == h.size && Word(bytes[4], bytes[5]) == h.crc
  {
    [h.srcId, h.dstId, LowByte(h.size), HighByte(h.size), LowByte(h.crc), HighByte(h.crc)]
  }

  /** The header whose raw bytes are `bytes`; every 6-byte string is some header's encoding. */
  function DecodeHeader(bytes: seq<u8>): (h: PacketHeader)
    requires |bytes| == HeaderSize
    ensures EncodeHeader(h) == bytes
  {
    PacketHeader(bytes[0], bytes[1], Word(bytes[2], bytes[3]), Word(bytes[4], bytes[5]))
  }

  /** Decoding the encoded header gives back the same header. */
  lemma DecodeEncodeHeader(h: PacketHeader)
    ensures DecodeHeader(EncodeHeader(h)) == h
  {
  }
}
