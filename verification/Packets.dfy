/** The older payload trait, `Payload`, which carries its own length,
    type tag, codec and simple framing only. A payload kind is passed as its
    `Frame.AnyPayload` record. */
module Packets {
  import opened Wire
  import opened Frame

  /** `len()`: the serialized length of a payload, the kind's constant
      `LEN` whatever the value. When the payload fits a frame, the length
      byte `2 + LEN` fits a `u8`. */
  function Len<P, E>(a: AnyPayload<P, E>, p: P): (n: nat)
    ensures n == a.len
    ensures Fits(a, []) ==> 2 + n < 256
  {
    a.len
  }

  /** `len()` does not depend on the value asked, and a frame built for any
      value occupies `len() + 4` bytes. */
  lemma LenIsFramedPayloadLength<P, E>(a: AnyPayload<P, E>, p: P, q: P, syncByte: bv8, crc: Crc8)
    requires Fits(a, [])
    requires WritesLen(a, q, CRSF_MAX_LEN - 3)
    ensures Len(a, p) == Len(a, q)
    ensures Framed(a, q, syncByte, [], crc).Ok? ==> Framed(a, q, syncByte, [], crc).value.len == Len(a, p) + 4
  {
  }

  /** `Payload::to_raw_packet_with_sync`: encodes the payload at offset 3 of
      a zeroed buffer, returning the encoder's error unchanged if it fails;
      then writes sync, length and type, and stores the checksum of type and
      payload after the payload. */
  method ToRawPacketWithSync<P, E>(a: AnyPayload<P, E>, p: P, syncByte: bv8, crc: Crc8) returns (r: Result<RawPacket, E>)
    requires Fits(a, [])
    requires WritesLen(a, p, CRSF_MAX_LEN - 3)
    ensures r == Framed(a, p, syncByte, [], crc)
  {
    var buf := new bv8[CRSF_MAX_LEN](_ => 0);
    assert buf[..] == Zeros(CRSF_MAX_LEN);
    var encoded := EncodeInto(a, p, buf, 3);
    if encoded.Err? {
      return Err(encoded.error);
    }
    ghost var payload := encoded.value;
    assert buf[..] == Zeros(3) + payload + Zeros(CRSF_MAX_LEN - 3 - a.len);
    var raw := WriteHeaderAndChecksum(buf, syncByte, a.packetType(p), [], a.len, payload, crc);
    LayoutDeterminesPacket(raw, Framed(a, p, syncByte, [], crc).value, syncByte, a.packetType(p), [], payload, crc);
    r := Ok(raw);
  }

  /** `Payload::to_raw_packet`: a frame with the standard sync byte. */
  method ToRawPacket<P, E>(a: AnyPayload<P, E>, p: P, crc: Crc8) returns (r: Result<RawPacket, E>)
    requires Fits(a, [])
    requires WritesLen(a, p, CRSF_MAX_LEN - 3)
    ensures r == Framed(a, p, CRSF_SYNC_BYTE, [], crc)
  {
    r := ToRawPacketWithSync(a, p, CRSF_SYNC_BYTE, crc);
  }
}
