/** The current payload traits: `AnyPayload`, and the two framing variants
    built on it, `Payload` (sync, len, type, payload, crc) and
    `ExtendedPayload` (sync, len, type, dst, src, payload, crc). A payload
    kind is passed as its `Frame.AnyPayload` record. */
module Payload {
  import opened Wire
  import opened Frame

  /** `len()`: the serialized length of a payload, the kind's constant
      `LEN` whatever the value. When the payload fits a frame, the length
      byte `2 + LEN` (simple) or `4 + LEN` (extended) fits a `u8`. */
  function Len<P, E>(a: AnyPayload<P, E>, p: P): (n: nat)
    ensures n == a.len
    ensures Fits(a, []) ==> 2 + n < 256
    ensures Fits(a, [0, 0]) ==> 4 + n < 256
  {
    a.len
  }

  /** `len()` does not depend on the value asked, and it is the number of
      bytes between header and checksum in both framings: a simple frame
      occupies `len() + 4` bytes and an extended frame `len() + 6`. */
  lemma LenIsFramedPayloadLength<P, E>(a: AnyPayload<P, E>, p: P, q: P, syncByte: bv8, dst: bv8, src: bv8, crc: Crc8)
    requires Fits(a, [])
    requires WritesLen(a, q, CRSF_MAX_LEN - 3)
    ensures Len(a, p) == Len(a, q)
    ensures Framed(a, q, syncByte, [], crc).Ok? ==> Framed(a, q, syncByte, [], crc).value.len == Len(a, p) + 4
    ensures Fits(a, [dst, src]) && WritesLen(a, q, CRSF_MAX_LEN - 5) ==>
              (Framed(a, q, syncByte, [dst, src], crc).Ok? ==> Framed(a, q, syncByte, [dst, src], crc).value.len == Len(a, p) + 6)
  {
  }

  /** `Payload::to_raw_packet_with_sync`: builds a simple frame in a zeroed
      buffer. The payload is encoded first, so an encoder error is returned
      unchanged and no packet is produced; then sync, length and type are
      written, and the checksum of type and payload is stored after them. */
  method ToRawPacketWithSync<P, E>(a: AnyPayload<P, E>, p: P, syncByte: bv8, crc: Crc8) returns (r: Result<RawPacket, E>)
    requires Fits(a, [])
    requires WritesLen(a, p, CRSF_MAX_LEN - 3)
    ensures r == Framed(a, p, syncByte, [], crc)
  {
    var buf := new bv8[CRSF_MAX_LEN](_ => 0);
    assert buf[..] == Zeros(CRSF_MAX_LEN);
    var encoded := EncodeInto(a, p, buf, 3);
    if encoded.Err? {
      return Err(encoded.error);
    }
    ghost var payload := encoded.value;
    assert buf[..] == Zeros(3) + payload + Zeros(CRSF_MAX_LEN - 3 - a.len);
    var raw := WriteHeaderAndChecksum(buf, syncByte, a.packetType(p), [], a.len, payload, crc);
    LayoutDeterminesPacket(raw, Framed(a, p, syncByte, [], crc).value, syncByte, a.packetType(p), [], payload, crc);
    r := Ok(raw);
  }

  /** `Payload::to_raw_packet`: a simple frame with the standard sync byte. */
  method ToRawPacket<P, E>(a: AnyPayload<P, E>, p: P, crc: Crc8) returns (r: Result<RawPacket, E>)
    requires Fits(a, [])
    requires WritesLen(a, p, CRSF_MAX_LEN - 3)
    ensures r == Framed(a, p, CRSF_SYNC_BYTE, [], crc)
  {
    r := ToRawPacketWithSync(a, p, CRSF_SYNC_BYTE, crc);
  }

  /** `ExtendedPayload::to_raw_packet_with_sync`: as the simple framing, with
      the destination and source addresses after the type tag, inside the
      range the checksum covers. */
  method ToExtendedRawPacketWithSync<P, E>(a: AnyPayload<P, E>, p: P, syncByte: bv8, dst: bv8, src: bv8, crc: Crc8)
    returns (r: Result<RawPacket, E>)
    requires Fits(a, [dst, src])
    requires WritesLen(a, p, CRSF_MAX_LEN - 5)
    ensures r == Framed(a, p, syncByte, [dst, src], crc)
  {
    var buf := new bv8[CRSF_MAX_LEN](_ => 0);
    assert buf[..] == Zeros(CRSF_MAX_LEN);
    var encoded := EncodeInto(a, p, buf, 5);
    if encoded.Err? {
      return Err(encoded.error);
    }
    ghost var payload := encoded.value;
    assert buf[..] == Zeros(5) + payload + Zeros(CRSF_MAX_LEN - 5 - a.len);
    var raw := WriteHeaderAndChecksum(buf, syncByte, a.packetType(p), [dst, src], a.len, payload, crc);
    LayoutDeterminesPacket(raw, Framed(a, p, syncByte, [dst, src], crc).value, syncByte, a.packetType(p), [dst, src], payload, crc);
    r := Ok(raw);
  }

  /** `ExtendedPayload::to_raw_packet`: an extended frame with the standard
      sync byte. */
  method ToExtendedRawPacket<P, E>(a: AnyPayload<P, E>, p: P, dst: bv8, src: bv8, crc: Crc8) returns (r: Result<RawPacket, E>)
    requires Fits(a, [dst, src])
    requires WritesLen(a, p, CRSF_MAX_LEN - 5)
    ensures r == Framed(a, p, CRSF_SYNC_BYTE, [dst, src], crc)
  {
    r := ToExtendedRawPacketWithSync(a, p, CRSF_SYNC_BYTE, dst, src, crc);
  }
}
