/** Shared vocabulary of the CRSF wire format: bytes, results, protocol
    constants, packet-type tags and the raw packet buffer. */
module Wire {

  /** A fallible result; `E` is the error type of whoever produced it. */
  datatype Result<T, E> = Ok(value: T) | Err(error: E)

  /** The codec errors the modelled code raises itself. */
  datatype Error = BufferError

  /** Standard CRSF frame start marker. */
  const CRSF_SYNC_BYTE: bv8 := 0xC8

  /** Capacity of every raw packet buffer, in bytes. */
  const CRSF_MAX_LEN: nat := 64

  /** The checksum of a byte range as produced by a fresh CRC-8 accumulator
      fed that range once. Its table and polynomial are not modelled, so the
      framing code receives it as a parameter. */
  type Crc8 = seq<bv8> -> bv8

  /** The frame type tags used by the modelled payloads. */
  datatype PacketType = LinkStatistics | RcChannelsPacked | DevicePing | DeviceInfo | ParameterRead

  /** `packet_type as u8`: the tag byte written at offset 2 of a frame. */
  function TypeTag(t: PacketType): bv8
  {
    match t
    case LinkStatistics => 0x14
    case RcChannelsPacked => 0x16
    case DevicePing => 0x28
    case DeviceInfo => 0x29
    case ParameterRead => 0x2C
  }

  /** A frame under construction or ready to send: a fixed-capacity buffer
      and the number of bytes of it that the frame occupies. */
  datatype RawPacket = RawPacket(buf: seq<bv8>, len: nat)

  /** `n` zero bytes, the initial content of a fresh buffer. */
  function Zeros(n: nat): (z: seq<bv8>)
    ensures |z| == n && forall i | 0 <= i < n :: z[i] == 0
  {
    seq(n, _ => 0)
  }
}
