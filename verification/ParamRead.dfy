/** The `ParameterRead` payload of the current trait generation: a request
    for one chunk of one device parameter, two bytes on the wire, framed
    with destination and source addresses. Its `decode` and `encode` are the
    ones `impl_any_payload!` derives from `raw_decode` and `raw_encode`. */
module ParamRead {
  import opened Wire
  import opened Frame

  /** `parameter_read::LEN`. */
  const LEN: nat := 2

  datatype ParameterRead = ParameterRead(field: bv8, chunk: bv8)

  /** `raw_decode`: the field index from byte 0, the chunk index from
      byte 1. Both bytes are kept, so encoding the result gives them back. */
  function RawDecode(data: seq<bv8>): (r: ParameterRead)
    requires |data| == LEN
    ensures Pack(r) == data
  {
    ParameterRead.ParameterRead(data[0], data[1])
  }

  /** The two bytes `raw_encode` writes. */
  function Pack(p: ParameterRead): (data: seq<bv8>)
    ensures |data| == LEN
  {
    [p.field, p.chunk]
  }

  /** Unpacking what was packed gives the value back. */
  lemma DecodeEncode(p: ParameterRead)
    ensures RawDecode(Pack(p)) == p
  {
  }

  /** Packing what was unpacked gives both bytes back: every 2-byte pattern
      is a valid encoding. */
  lemma EncodeDecode(data: seq<bv8>)
    requires |data| == LEN
    ensures Pack(RawDecode(data)) == data
  {
  }

  /** `raw_encode`: stores the field index at `data[at]` and the chunk index
      at `data[at + 1]`, and nothing else. Both bytes are assigned, so the
      result does not depend on what the array held before. */
  method RawEncode(p: ParameterRead, data: array<bv8>, at: nat)
    requires at + LEN <= data.Length
    modifies data
    ensures data[..] == old(data[..at]) + Pack(p) + old(data[at + LEN..])
  {
    data[at] := p.field;
    data[at + 1] := p.chunk;
    assert data[..] == old(data[..at]) + Pack(p) + old(data[at + LEN..]);
  }

  /** `impl_extended_payload!(parameter_read, ParameterRead)`: 2 bytes, tag
      `PacketType::ParameterRead`, encoded through a `[u8; 2]` window. */
  const Instance: AnyPayload<ParameterRead, Error> :=
    AnyPayload(LEN, _ => TypeTag(PacketType.ParameterRead), FixedEncoder(LEN, Pack))

  /** The payload's length is 2 and its tag 0x2C whatever the value; its
      encoder writes exactly 2 bytes and fails precisely on a window shorter
      than that. */
  lemma InstanceWritesLen(p: ParameterRead, n: nat)
    ensures Instance.len == 2 && Instance.packetType(p) == 0x2C
    ensures WritesLen(Instance, p, n)
    ensures Instance.encode(p, n).Err? <==> n < LEN
    ensures Instance.encode(p, n).Err? ==> Instance.encode(p, n).error == BufferError
  {
    FixedEncoderWritesLen(LEN, Pack, 0x2C, p, n);
  }

  /** The derived `decode`: fails with `BufferError` when fewer than 2 bytes
      are given, and otherwise reads the first two, ignoring the rest; the
      result packs back to exactly those two bytes. */
  function Decode(buf: seq<bv8>): (r: Result<ParameterRead, Error>)
    ensures r.Err? <==> |buf| < LEN
    ensures r.Err? ==> r.error == BufferError
    ensures r.Ok? ==> Pack(r.value) == buf[..LEN]
  {
    if |buf| < LEN then Err(BufferError) else Ok(RawDecode(buf[..LEN]))
  }

  /** Decoding the encoding of a value, followed by any bytes, gives the
      value back. */
  lemma DecodeEncoded(p: ParameterRead, rest: seq<bv8>)
    ensures Decode(Pack(p) + rest) == Ok(p)
  {
    assert (Pack(p) + rest)[..LEN] == Pack(p);
  }

  /** The derived `encode`: fails with `BufferError`, writing nothing, when
      the window `buf[at..]` is shorter than 2 bytes; otherwise writes the
      value into its first 2 bytes and returns them. */
  method Encode(p: ParameterRead, buf: array<bv8>, at: nat) returns (r: Result<seq<bv8>, Error>)
    requires at <= buf.Length
    modifies buf
    ensures r == Instance.encode(p, buf.Length - at)
    ensures r.Err? ==> buf[..] == old(buf[..])
    ensures r.Ok? ==> buf[..] == old(buf[..at]) + r.value + old(buf[at + LEN..])
  {
    if buf.Length - at < LEN {
      return Err(BufferError);
    }
    RawEncode(p, buf, at);
    r := Ok(buf[at..at + LEN]);
  }

  /** Framed as an extended payload, a parameter read always succeeds and
      occupies 8 bytes: length byte 6, tag 0x2C, the two addresses, the two
      payload bytes at offsets 5 and 6, and at offset 7 the checksum of
      bytes 2 to 6. A receiver finds the value again in it. */
  lemma {:induction false} ExtendedFrame(p: ParameterRead, syncByte: bv8, dst: bv8, src: bv8, crc: Crc8)
    ensures Fits(Instance, [dst, src]) && WritesLen(Instance, p, CRSF_MAX_LEN - 5)
    ensures Framed(Instance, p, syncByte, [dst, src], crc).Ok?
    ensures var raw := Framed(Instance, p, syncByte, [dst, src], crc).value;
      && raw.len == 8 && raw.buf[0] == syncByte && raw.buf[1] == 6 && raw.buf[2] == 0x2C
      && raw.buf[3] == dst && raw.buf[4] == src && raw.buf[5] == p.field && raw.buf[6] == p.chunk
      && raw.buf[7] == crc(raw.buf[2..7])
      && ValidFrame(raw, crc)
      && Decode(PayloadOf(raw, 2)) == Ok(p)
  {
    InstanceWritesLen(p, CRSF_MAX_LEN - 5);
    FramedIsValid(Instance, p, syncByte, [dst, src], crc);
    var raw := Framed(Instance, p, syncByte, [dst, src], crc).value;
    assert raw.buf[3..5] == [dst, src] && raw.buf[5..7] == Pack(p);
    assert raw.buf[3] == raw.buf[3..5][0] && raw.buf[4] == raw.buf[3..5][1];
    assert raw.buf[5] == raw.buf[5..7][0] && raw.buf[6] == raw.buf[5..7][1];
    LengthByte(|[dst, src]| + 2 + |Pack(p)|, 6);
    DecodeEncoded(p, []);
    assert Pack(p) + [] == Pack(p);
  }
}
