# crsf-rs frame construction and payload codecs, in Dafny

A model of the frame-building and payload-codec layer of crsf-rs, a Rust
codec for the CRSF (Crossfire) RC link protocol, and proofs about it.

A CRSF frame is a fixed 64-byte buffer plus a logical length. It holds:
- a sync byte;
- a length byte, counting the bytes that follow it;
- a type tag;
- for extended frames only, a destination address and a source address;
- the payload, whose length is fixed for each payload kind;
- a CRC-8 of everything from the type tag to the end of the payload.

The model covers both generations of the payload trait:
- the current `AnyPayload`, with its two framings `Payload` (simple) and
  `ExtendedPayload` (addressed), and the `decode`/`encode` pair its macro
  derives from a payload's `raw_decode`/`raw_encode`;
- the older `Payload` trait, which has simple framing only.

It also covers two payload codecs:
- the RC channels bit-packer, sixteen 11-bit channels in 22 bytes;
- `ParameterRead`, a two-byte request framed as an extended payload.

Modules:
- `Wire`: constants, the packet-type tags, the `RawPacket` buffer, the
  `Result` type, and the CRC-8 as a function parameter.
- `Frame`: the shared frame layout.
  - A payload kind is the record `AnyPayload` (length, tag, encoder).
  - `Framed` is the frame as a value. `Layout` is its byte-by-byte
    description.
  - `EncodeInto` and `WriteHeaderAndChecksum` are the imperative steps of
    `to_raw_packet_with_sync`.
  - Lemmas state what every built frame satisfies.
- `Payload` and `Packets`: the framing methods of the current and the older
  trait. Each method fills a zeroed array step by step and is proved equal
  to `Framed`.
- `RcChannels`: `raw_decode`, `raw_encode` and the `Payload` impl of
  `RcChannelsPacked`, with round trips, locality and the half-to-half
  symmetry of the shift table.
- `ParamRead`: `ParameterRead` and its derived extended-payload codec.

Behaviour of the code that the model keeps, and that a reader might not
expect:
- The only error of the payload codecs is `BufferError`.
- The derived `decode` accepts any input of at least `LEN` bytes and reads
  the first `LEN` of them (`ref_array_start`). It does not demand an exact
  window.
- `raw_encode` of the RC channels neither rejects nor documents channel
  values above 2047. The model packs them as the code does: the high bits
  are shifted out or land in the neighbouring channel's bits.
  `RcChannels.OutOfRangeSpills` states, for every value, what the round
  trip makes of the first two channels. Channel 0 comes back as its low
  11 bits. Channel 1 comes back as its own low 11 bits ORed with bits 11
  to 15 of channel 0. So `InRange` is a real precondition of
  `RcChannels.DecodeEncode`.

## Model

| member | source | states |
|---|---|---|
| Frame.FixedEncoderWritesLen | src/packet/payload/mod.rs:171-176 | The derived `encode` fails with `BufferError` exactly when the window is shorter than `LEN`. Otherwise it writes exactly `LEN` bytes, which fit the window. |
| Frame.EncodeInto | src/packet/payload/mod.rs:65-66 | Encoding into `buf[at..]` returns the encoder's result unchanged. On error no byte of the buffer changes. On success only the `LEN` bytes at `at` change, and they hold what the encoder returned. |
| Frame.Framed | src/packet/payload/mod.rs:58-95 | An encoder error is returned as is, and no packet is made. On success the packet has the frame layout: sync at 0, length byte = bytes after it, tag at 2, addresses, payload, the CRC of type..payload right after the payload, `len` = occupied bytes, and zeros to the end of the 64-byte buffer. |
| Frame.WriteHeaderAndChecksum | src/packet/payload/mod.rs:129-150 | Start from a zeroed buffer with the payload already in place. Writing sync, length, type and the addresses one index at a time, then the CRC of bytes 2 to the end of the payload, leaves the buffer holding exactly the frame layout, and the returned packet is that buffer. |
| Frame.LayoutDeterminesPacket | src/packet/payload/mod.rs:59-92 | Two packets with the same layout parameters are equal. Length, header, payload, CRC and the zero tail leave no byte free. |
| Frame.FramedIsValid | src/packet/payload/mod.rs:73-92 | Every frame built passes the receiver's check: the length byte is `len - 2` and the last occupied byte is the CRC of bytes 2..len-1. The bytes between header and CRC are exactly those the encoder wrote. |
| Frame.SyncOnlyAffectsFirstByte | src/packet/payload/mod.rs:73-88 | Frames built with two different sync bytes succeed or fail together, with the same error. On success they have equal lengths and agree on every byte after byte 0, CRC included. |
| Frame.Resync | src/packet/payload/mod.rs:73 | Overwriting byte 0 of a frame with another sync byte gives the frame for that sync byte. |
| Payload.Len | src/packet/payload/mod.rs:33-35 | `len()` is the kind's constant `LEN`, whatever the value. When the payload fits a simple (extended) frame, the length byte `2 + LEN` (`4 + LEN`) fits a `u8`. |
| Payload.LenIsFramedPayloadLength | src/packet/payload/mod.rs:33-35 | `len()` is the same for every value. It is the payload size inside both frames: a simple frame occupies `len() + 4` bytes, and, when the payload also fits an extended frame, an extended one occupies `len() + 6`. |
| Payload.ToRawPacketWithSync | src/packet/payload/mod.rs:58-95 | The method fills a zeroed array and returns exactly `Framed` with no addresses: the encoder's error, or the simple frame with `len = 4 + LEN`, `buf[1] = 2 + LEN` and the CRC at `3 + LEN`. |
| Payload.ToRawPacket | src/packet/payload/mod.rs:50-52 | It is the simple frame with the standard sync byte 0xC8. |
| Payload.ToExtendedRawPacketWithSync | src/packet/payload/mod.rs:109-153 | The method returns exactly `Framed` with addresses `[dst, src]`: the encoder's error, or the frame with `len = 6 + LEN`, `buf[1] = 4 + LEN`, dst and src at 3 and 4, the payload at 5, and the CRC of bytes 2 to `4 + LEN` at `5 + LEN`. |
| Payload.ToExtendedRawPacket | src/packet/payload/mod.rs:101-103 | It is the extended frame with the standard sync byte. |
| Packets.Len | src/packets/mod.rs:23-25 | `len()` is the kind's constant `LEN`, whatever the value. When the payload fits a frame, the length byte `2 + LEN` fits a `u8`. |
| Packets.LenIsFramedPayloadLength | src/packets/mod.rs:23-25 | `len()` is the same for every value, and a frame built for any value occupies `len() + 4` bytes. |
| Packets.ToRawPacketWithSync | src/packets/mod.rs:46-82 | The older framing method returns exactly `Framed` with no addresses: the encoder's error unchanged, or the simple frame layout. |
| Packets.ToRawPacket | src/packets/mod.rs:38-40 | It is the simple frame with the standard sync byte. |
| RcChannels.LowChannels | src/packets/rc_channels_packed.rs:21-28 | Channels 0-7 are unpacked from bytes 0-10, eight values each at most 2047. |
| RcChannels.HighChannels | src/packets/rc_channels_packed.rs:29-36 | Channels 8-15 are unpacked from bytes 11-21, eight values each at most 2047. |
| RcChannels.RawDecode | src/packets/rc_channels_packed.rs:14-39 | Every decoded channel is in 0..2047, because of the 11-bit mask. |
| RcChannels.PackLow | src/packets/rc_channels_packed.rs:45-55 | Channels 0-7 fill exactly bytes 0-10. |
| RcChannels.PackHigh | src/packets/rc_channels_packed.rs:56-66 | Channels 8-15 fill exactly bytes 11-21. |
| RcChannels.Pack | src/packets/rc_channels_packed.rs:45-66 | The packed form is exactly 22 bytes. |
| RcChannels.HalfDecodeEncode | src/packets/rc_channels_packed.rs:21-28 | For eight channels each below 2048, unpacking the eleven packed bytes gives each channel back. |
| RcChannels.HalfEncodeDecode | src/packets/rc_channels_packed.rs:45-55 | For any eleven bytes, packing the eight unpacked channels gives each byte back. |
| RcChannels.DecodeEncode | src/packets/rc_channels_packed.rs:14-67 | If every channel is at most 2047, then `raw_decode(raw_encode(ch)) == ch`. |
| RcChannels.EncodeDecode | src/packets/rc_channels_packed.rs:21-66 | For every 22 bytes `d`, `raw_encode(raw_decode(d)) == d`: the 16 x 11 bits tile the 176 bits exactly. |
| RcChannels.OutOfRangeSpills | src/packets/rc_channels_packed.rs:45-47 | For every value, decoding the encoded bytes (decoder lines 21-22) gives channel 0 as its low 11 bits, and channel 1 as its own low 11 bits ORed with bits 11-15 of channel 0. A channel above 2047 is neither rejected nor masked: its high bits spill into the next channel. |
| RcChannels.WindowShift | src/packets/rc_channels_packed.rs:21-36 | Each channel's bits lie in at most three consecutive bytes, all inside the 22-byte array. The bytes of channel `i + 8` are those of channel `i`, moved 11 on. |
| RcChannels.Locality | src/packets/rc_channels_packed.rs:21-36 | Two inputs that agree on the two or three bytes holding channel `i` decode to the same channel `i`. |
| RcChannels.MirrorDecode | src/packets/rc_channels_packed.rs:29-36 | Channels 8-15 are unpacked from bytes 11-21 by the same shift table that unpacks channels 0-7 from bytes 0-10. |
| RcChannels.MirrorEncode | src/packets/rc_channels_packed.rs:56-66 | Bytes 11-21 are packed from channels 8-15 by the same shift table that packs bytes 0-10 from channels 0-7. |
| RcChannels.RawEncode | src/packets/rc_channels_packed.rs:42-67 | `raw_encode` assigns all 22 bytes of the window and nothing outside it. The result is the packed bytes, whatever the window held before. |
| RcChannels.InstanceWritesLen | src/packets/rc_channels_packed.rs:70-74 | `LEN` is 22 and the tag is 0x16 (RcChannelsPacked) for every value. The encoder writes exactly 22 bytes and fails exactly on a window shorter than 22. |
| RcChannels.Decode | src/packets/rc_channels_packed.rs:76-80 | `decode` fails with `BufferError` exactly when given fewer than 22 bytes. Otherwise its result is in range and packs back to the first 22 input bytes. |
| RcChannels.DecodeEncoded | src/packets/rc_channels_packed.rs:76-80 | Decoding the encoding of an in-range value, followed by any bytes, gives the value back. |
| RcChannels.Encode | src/packets/rc_channels_packed.rs:82-88 | `encode` fails with `BufferError` and writes nothing when the window is shorter than 22 bytes. Otherwise it writes the 22 packed bytes at the window's start, changes nothing else, and returns them. |
| RcChannels.FramedRoundTrip | src/packets/rc_channels_packed.rs:96-109 | An in-range value framed with the standard sync byte gives a valid 26-byte frame with length byte 24 and tag 0x16. Its payload bytes decode to the value. |
| ParamRead.RawDecode | src/packet/payload/parameter_read.rs:15-20 | The field index is taken from byte 0 and the chunk index from byte 1. Both bytes are kept, so encoding the result gives the two bytes back. |
| ParamRead.Pack | src/packet/payload/parameter_read.rs:23-26 | The encoded form is exactly `LEN` = 2 bytes. |
| ParamRead.DecodeEncode | src/packet/payload/parameter_read.rs:15-26 | `raw_decode(raw_encode(p)) == p` for every value. |
| ParamRead.EncodeDecode | src/packet/payload/parameter_read.rs:15-26 | `raw_encode(raw_decode(d)) == d` for every 2-byte `d`. |
| ParamRead.RawEncode | src/packet/payload/parameter_read.rs:23-26 | `raw_encode` stores the field index at byte 0 and the chunk index at byte 1, writing both and nothing else. |
| ParamRead.InstanceWritesLen | src/packet/payload/mod.rs:158-163 | The derived impl has `LEN` 2 and tag 0x2C (ParameterRead) for every value. Its encoder writes exactly 2 bytes and fails exactly on a window shorter than 2. |
| ParamRead.Decode | src/packet/payload/mod.rs:165-169 | The derived `decode` fails with `BufferError` exactly when given fewer than 2 bytes. Otherwise its result encodes back to the first 2 input bytes. |
| ParamRead.DecodeEncoded | src/packet/payload/mod.rs:165-169 | Decoding the encoding of a value, followed by any bytes, gives the value back. |
| ParamRead.Encode | src/packet/payload/mod.rs:171-176 | The derived `encode` fails with `BufferError` and writes nothing when the window is shorter than 2 bytes. Otherwise it writes the 2 bytes at the window's start and returns them. |
| ParamRead.ExtendedFrame | src/packet/payload/mod.rs:115-150 | As an extended payload, a parameter read always frames. The frame has length 8, length byte 6, tag 0x2C, dst and src at 3 and 4, field and chunk at 5 and 6, and at 7 the CRC of bytes 2..6. It passes the receiver's check, and its payload decodes to the value. |

## Left out

- The streaming parser (ring buffer, sync search, resynchronisation) is not
  part of this model. Neither is the serial-port example that drives it,
  which is I/O.
- The CRC-8 table and polynomial (`crc8.rs`) are not part of this model.
  The checksum is a parameter `Crc8`, a function from the covered bytes to
  one byte. The `Crc8` accumulator's `new`/`compute`/`get_checksum`
  sequence is modelled as one application of that function to the covered
  range.
- `CRSF_MAX_LEN`, `CRSF_SYNC_BYTE` and the numeric tags come from files
  that are not part of this model. The values used are the protocol's:
  - 64 and 0xC8;
  - 0x14 LinkStatistics, 0x16 RcChannelsPacked, 0x28 DevicePing,
    0x29 DeviceInfo, 0x2C ParameterRead.
- `PacketAddress` is modelled as a plain byte (`dst as u8`, `src as u8`).
- `RawPacket::payload` and `into_raw_packet`, used by the RC channels test,
  are not part of this model. The receiver side is stated through
  `Frame.ValidFrame` and `Frame.PayloadOf`.
- `ref_array_start` and `mut_array_start` are not part of this model. They
  are modelled as "the first `LEN` bytes of the slice, if it has that
  many".
- The `LinkStatistics`, `DevicePing` and `DeviceInfo` codecs are not
  modelled. The sources of the first two (`link_statistics.rs`,
  `device_ping.rs`) are not among the files modelled here. The last is
  unfinished: it indexes a zero-length slice, unwraps a UTF-8 conversion,
  and hard-codes its numbers. Its `LEN` of 58, as an extended payload,
  is what makes a 64-byte buffer necessary.
- The new-generation RC channels file and its `impl_payload!` registration
  are not part of this model. The RC channels codec is the older-generation
  one.
- The `debug_assert!(false)` branches of both `to_raw_packet_with_sync`
  bodies are left out. `Frame.Fits` (payload and header fit the 64-byte
  buffer) makes them unreachable, and it also keeps the `u8` length byte
  from wrapping.
- Frame.Framed: a payload's encoder is taken as honouring its `LEN` (the
  `WritesLen` precondition: on success it wrote exactly `LEN` bytes).
  The traits state this only in documentation. For the two codecs modelled
  it is proved (`InstanceWritesLen`).
- RcChannels.RawEncode: the 22 single-byte stores of `raw_encode` are
  modelled as one simultaneous assignment to the 22 positions. The bytes
  are independent, so the order of the stores is not observable.
- Rust's `&[u8]` windows are modelled as an array together with a start
  index. Lifetimes and aliasing of the returned slice are not modelled:
  `encode` returns a copy of the bytes it wrote.
- `Debug`, `PartialEq` and `defmt` derives are not modelled.
