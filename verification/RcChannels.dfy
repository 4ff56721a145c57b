/** The RC channels payload of the older trait generation: sixteen 11-bit
    channel values packed without padding into 22 bytes (16 x 11 = 176 bits),
    least significant bits first. */
module RcChannels {
  import opened Wire
  import opened Frame

  /** `RcChannelsPacked::LEN`. */
  const LEN: nat := 22

  const MASK_11BIT: bv16 := 0x07FF

  /** The sixteen channels, `[u16; 16]`. */
  type Channels = s: seq<bv16> | |s| == 16 witness seq(16, _ => 0)

  datatype RcChannelsPacked = RcChannelsPacked(ch: Channels)

  /** Every channel fits in 11 bits, the range the wire format can carry. */
  predicate InRange(p: RcChannelsPacked)
  {
    forall i | 0 <= i < 16 :: p.ch[i] <= MASK_11BIT
  }

  /** `b as u16`. */
  function Widen(b: bv8): bv16
  {
    b as bv16
  }

  /** `w as u8`: keeps the low 8 bits. */
  function Truncate(w: bv16): bv8
  {
    (w & 0xFF) as bv8
  }

  /** Channels 0 to 7 of `raw_decode`, from bytes 0 to 10: each channel
      gathers its 11 bits from two or three consecutive bytes and is masked
      to 11 bits. */
  function LowChannels(data: seq<bv8>): (ch: seq<bv16>)
    requires |data| == LEN
    ensures |ch| == 8 && forall i | 0 <= i < 8 :: ch[i] <= MASK_11BIT
  {
    [
      MASK_11BIT & (Widen(data[0]) | (Widen(data[1]) << 8)),
      MASK_11BIT & ((Widen(data[1]) >> 3) | (Widen(data[2]) << 5)),
      MASK_11BIT & ((Widen(data[2]) >> 6) | (Widen(data[3]) << 2) | (Widen(data[4]) << 10)),
      MASK_11BIT & ((Widen(data[4]) >> 1) | (Widen(data[5]) << 7)),
      MASK_11BIT & ((Widen(data[5]) >> 4) | (Widen(data[6]) << 4)),
      MASK_11BIT & ((Widen(data[6]) >> 7) | (Widen(data[7]) << 1) | (Widen(data[8]) << 9)),
      MASK_11BIT & ((Widen(data[8]) >> 2) | (Widen(data[9]) << 6)),
      MASK_11BIT & ((Widen(data[9]) >> 5) | (Widen(data[10]) << 3))
    ]
  }

  /** Channels 8 to 15 of `raw_decode`, from bytes 11 to 21. */
  function HighChannels(data: seq<bv8>): (ch: seq<bv16>)
    requires |data| == LEN
    ensures |ch| == 8 && forall i | 0 <= i < 8 :: ch[i] <= MASK_11BIT
  {
    [
      MASK_11BIT & (Widen(data[11]) | (Widen(data[12]) << 8)),
      MASK_11BIT & ((Widen(data[12]) >> 3) | (Widen(data[13]) << 5)),
      MASK_11BIT & ((Widen(data[13]) >> 6) | (Widen(data[14]) << 2) | (Widen(data[15]) << 10)),
      MASK_11BIT & ((Widen(data[15]) >> 1) | (Widen(data[16]) << 7)),
      MASK_11BIT & ((Widen(data[16]) >> 4) | (Widen(data[17]) << 4)),
      MASK_11BIT & ((Widen(data[17]) >> 7) | (Widen(data[18]) << 1) | (Widen(data[19]) << 9)),
      MASK_11BIT & ((Widen(data[19]) >> 2) | (Widen(data[20]) << 6)),
      MASK_11BIT & ((Widen(data[20]) >> 5) | (Widen(data[21]) << 3))
    ]
  }

  /** `raw_decode`: the sixteen channels unpacked from 22 bytes; every one
      of them fits in 11 bits. */
  function RawDecode(data: seq<bv8>): (r: RcChannelsPacked)
    requires |data| == LEN
    ensures InRange(r)
  {
    RcChannelsPacked.RcChannelsPacked(LowChannels(data) + HighChannels(data))
  }

  /** Bytes 0 to 10 of `raw_encode`, from channels 0 to 7: channel bits
      shifted into place, OR-combined where two channels share a byte,
      truncated to 8 bits. */
  function PackLow(ch: Channels): (data: seq<bv8>)
    ensures |data| == 11
  {
    [
      Truncate(ch[0]),
      Truncate((ch[0] >> 8) | (ch[1] << 3)),
      Truncate((ch[1] >> 5) | (ch[2] << 6)),
      Truncate(ch[2] >> 2),
      Truncate((ch[2] >> 10) | (ch[3] << 1)),
      Truncate((ch[3] >> 7) | (ch[4] << 4)),
      Truncate((ch[4] >> 4) | (ch[5] << 7)),
      Truncate(ch[5] >> 1),
      Truncate((ch[5] >> 9) | (ch[6] << 2)),
      Truncate((ch[6] >> 6) | (ch[7] << 5)),
      Truncate(ch[7] >> 3)
    ]
  }

  /** Bytes 11 to 21 of `raw_encode`, from channels 8 to 15. */
  function PackHigh(ch: Channels): (data: seq<bv8>)
    ensures |data| == 11
  {
    [
      Truncate(ch[8]),
      Truncate((ch[8] >> 8) | (ch[9] << 3)),
      Truncate((ch[9] >> 5) | (ch[10] << 6)),
      Truncate(ch[10] >> 2),
      Truncate((ch[10] >> 10) | (ch[11] << 1)),
      Truncate((ch[11] >> 7) | (ch[12] << 4)),
      Truncate((ch[12] >> 4) | (ch[13] << 7)),
      Truncate(ch[13] >> 1),
      Truncate((ch[13] >> 9) | (ch[14] << 2)),
      Truncate((ch[14] >> 6) | (ch[15] << 5)),
      Truncate(ch[15] >> 3)
    ]
  }

  /** The 22 bytes `raw_encode` writes. */
  function Pack(p: RcChannelsPacked): (data: seq<bv8>)
    ensures |data| == LEN
  {
    PackLow(p.ch) + PackHigh(p.ch)
  }

  /** The packing of one half (eight channels into eleven bytes), as pure
      bit-vector facts: unpacking the packed bytes gives back each 11-bit
      channel. */
  lemma HalfDecodeEncode(c0: bv16, c1: bv16, c2: bv16, c3: bv16, c4: bv16, c5: bv16, c6: bv16, c7: bv16)
    requires c0 <= MASK_11BIT && c1 <= MASK_11BIT && c2 <= MASK_11BIT && c3 <= MASK_11BIT
    requires c4 <= MASK_11BIT && c5 <= MASK_11BIT && c6 <= MASK_11BIT && c7 <= MASK_11BIT
    ensures
      var b0, b1, b2, b3 := Truncate(c0), Truncate((c0 >> 8) | (c1 << 3)), Truncate((c1 >> 5) | (c2 << 6)), Truncate(c2 >> 2);
      var b4, b5, b6, b7 := Truncate((c2 >> 10) | (c3 << 1)), Truncate((c3 >> 7) | (c4 << 4)), Truncate((c4 >> 4) | (c5 << 7)), Truncate(c5 >> 1);
      var b8, b9, b10 := Truncate((c5 >> 9) | (c6 << 2)), Truncate((c6 >> 6) | (c7 << 5)), Truncate(c7 >> 3);
      && MASK_11BIT & (Widen(b0) | (Widen(b1) << 8)) == c0
      && MASK_11BIT & ((Widen(b1) >> 3) | (Widen(b2) << 5)) == c1
      && MASK_11BIT & ((Widen(b2) >> 6) | (Widen(b3) << 2) | (Widen(b4) << 10)) == c2
      && MASK_11BIT & ((Widen(b4) >> 1) | (Widen(b5) << 7)) == c3
      && MASK_11BIT & ((Widen(b5) >> 4) | (Widen(b6) << 4)) == c4
      && MASK_11BIT & ((Widen(b6) >> 7) | (Widen(b7) << 1) | (Widen(b8) << 9)) == c5
      && MASK_11BIT & ((Widen(b8) >> 2) | (Widen(b9) << 6)) == c6
      && MASK_11BIT & ((Widen(b9) >> 5) | (Widen(b10) << 3)) == c7
  {
  }

  /** The other direction for one half: packing the unpacked channels gives
      back each of the eleven bytes. */
  lemma HalfEncodeDecode(b0: bv8, b1: bv8, b2: bv8, b3: bv8, b4: bv8, b5: bv8, b6: bv8, b7: bv8, b8: bv8, b9: bv8, b10: bv8)
    ensures
      var c0 := MASK_11BIT & (Widen(b0) | (Widen(b1) << 8));
      var c1 := MASK_11BIT & ((Widen(b1) >> 3) | (Widen(b2) << 5));
      var c2 := MASK_11BIT & ((Widen(b2) >> 6) | (Widen(b3) << 2) | (Widen(b4) << 10));
      var c3 := MASK_11BIT & ((Widen(b4) >> 1) | (Widen(b5) << 7));
      var c4 := MASK_11BIT & ((Widen(b5) >> 4) | (Widen(b6) << 4));
      var c5 := MASK_11BIT & ((Widen(b6) >> 7) | (Widen(b7) << 1) | (Widen(b8) << 9));
      var c6 := MASK_11BIT & ((Widen(b8) >> 2) | (Widen(b9) << 6));
      var c7 := MASK_11BIT & ((Widen(b9) >> 5) | (Widen(b10) << 3));
      && Truncate(c0) == b0 && Truncate((c0 >> 8) | (c1 << 3)) == b1 && Truncate((c1 >> 5) | (c2 << 6)) == b2
      && Truncate(c2 >> 2) == b3 && Truncate((c2 >> 10) | (c3 << 1)) == b4 && Truncate((c3 >> 7) | (c4 << 4)) == b5
      && Truncate((c4 >> 4) | (c5 << 7)) == b6 && Truncate(c5 >> 1) == b7 && Truncate((c5 >> 9) | (c6 << 2)) == b8
      && Truncate((c6 >> 6) | (c7 << 5)) == b9 && Truncate(c7 >> 3) == b10
  {
    // One assertion per byte: proved together, the eleven goals exceed the
    // solver budget; asserted in turn, each is proved on its own.
    assert Truncate((MASK_11BIT & (Widen(b0) | (Widen(b1) << 8)))) == b0;
    assert Truncate(((MASK_11BIT & (Widen(b0) | (Widen(b1) << 8))) >> 8) | ((MASK_11BIT & ((Widen(b1) >> 3) | (Widen(b2) << 5))) << 3)) == b1;
    assert Truncate(((MASK_11BIT & ((Widen(b1) >> 3) | (Widen(b2) << 5))) >> 5) | ((MASK_11BIT & ((Widen(b2) >> 6) | (Widen(b3) << 2) | (Widen(b4) << 10))) << 6)) == b2;
    assert Truncate((MASK_11BIT & ((Widen(b2) >> 6) | (Widen(b3) << 2) | (Widen(b4) << 10))) >> 2) == b3;
    assert Truncate(((MASK_11BIT & ((Widen(b2) >> 6) | (Widen(b3) << 2) | (Widen(b4) << 10))) >> 10) | ((MASK_11BIT & ((Widen(b4) >> 1) | (Widen(b5) << 7))) << 1)) == b4;
    assert Truncate(((MASK_11BIT & ((Widen(b4) >> 1) | (Widen(b5) << 7))) >> 7) | ((MASK_11BIT & ((Widen(b5) >> 4) | (Widen(b6) << 4))) << 4)) == b5;
    assert Truncate(((MASK_11BIT & ((Widen(b5) >> 4) | (Widen(b6) << 4))) >> 4) | ((MASK_11BIT & ((Widen(b6) >> 7) | (Widen(b7) << 1) | (Widen(b8) << 9))) << 7)) == b6;
    assert Truncate((MASK_11BIT & ((Widen(b6) >> 7) | (Widen(b7) << 1) | (Widen(b8) << 9))) >> 1) == b7;
    assert Truncate(((MASK_11BIT & ((Widen(b6) >> 7) | (Widen(b7) << 1) | (Widen(b8) << 9))) >> 9) | ((MASK_11BIT & ((Widen(b8) >> 2) | (Widen(b9) << 6))) << 2)) == b8;
    assert Truncate(((MASK_11BIT & ((Widen(b8) >> 2) | (Widen(b9) << 6))) >> 6) | ((MASK_11BIT & ((Widen(b9) >> 5) | (Widen(b10) << 3))) << 5)) == b9;
    assert Truncate((MASK_11BIT & ((Widen(b9) >> 5) | (Widen(b10) << 3))) >> 3) == b10;
  }

  /** Unpacking bytes 0 to 10 packed from eight in-range channels gives the
      channels back, whatever follows in bytes 11 to 21. */
  lemma {:induction false} LowDecodeEncode(c0: bv16, c1: bv16, c2: bv16, c3: bv16, c4: bv16, c5: bv16, c6: bv16, c7: bv16, rest: seq<bv8>)
    requires c0 <= MASK_11BIT && c1 <= MASK_11BIT && c2 <= MASK_11BIT && c3 <= MASK_11BIT
    requires c4 <= MASK_11BIT && c5 <= MASK_11BIT && c6 <= MASK_11BIT && c7 <= MASK_11BIT
    requires |rest| == 11
    ensures var packed := [
        Truncate(c0), Truncate((c0 >> 8) | (c1 << 3)), Truncate((c1 >> 5) | (c2 << 6)),
        Truncate(c2 >> 2), Truncate((c2 >> 10) | (c3 << 1)), Truncate((c3 >> 7) | (c4 << 4)),
        Truncate((c4 >> 4) | (c5 << 7)), Truncate(c5 >> 1), Truncate((c5 >> 9) | (c6 << 2)),
        Truncate((c6 >> 6) | (c7 << 5)), Truncate(c7 >> 3)];
      LowChannels(packed + rest) == [c0, c1, c2, c3, c4, c5, c6, c7]
  {
    HalfDecodeEncode(c0, c1, c2, c3, c4, c5, c6, c7);
  }

  /** The same for bytes 11 to 21 and channels 8 to 15. */
  lemma {:induction false} HighDecodeEncode(rest: seq<bv8>, c8: bv16, c9: bv16, c10: bv16, c11: bv16, c12: bv16, c13: bv16, c14: bv16, c15: bv16)
    requires c8 <= MASK_11BIT && c9 <= MASK_11BIT && c10 <= MASK_11BIT && c11 <= MASK_11BIT
    requires c12 <= MASK_11BIT && c13 <= MASK_11BIT && c14 <= MASK_11BIT && c15 <= MASK_11BIT
    requires |rest| == 11
    ensures var packed := [
        Truncate(c8), Truncate((c8 >> 8) | (c9 << 3)), Truncate((c9 >> 5) | (c10 << 6)),
        Truncate(c10 >> 2), Truncate((c10 >> 10) | (c11 << 1)), Truncate((c11 >> 7) | (c12 << 4)),
        Truncate((c12 >> 4) | (c13 << 7)), Truncate(c13 >> 1), Truncate((c13 >> 9) | (c14 << 2)),
        Truncate((c14 >> 6) | (c15 << 5)), Truncate(c15 >> 3)];
      HighChannels(rest + packed) == [c8, c9, c10, c11, c12, c13, c14, c15]
  {
    HalfDecodeEncode(c8, c9, c10, c11, c12, c13, c14, c15);
  }

  /** Packing eight channels unpacked from eleven bytes gives the bytes
      back, whatever channels 8 to 15 hold. */
  lemma {:induction false} LowEncodeDecode(b0: bv8, b1: bv8, b2: bv8, b3: bv8, b4: bv8, b5: bv8, b6: bv8, b7: bv8, b8: bv8, b9: bv8, b10: bv8, rest: seq<bv16>)
    requires |rest| == 8
    ensures var unpacked := [
        MASK_11BIT & (Widen(b0) | (Widen(b1) << 8)),
        MASK_11BIT & ((Widen(b1) >> 3) | (Widen(b2) << 5)),
        MASK_11BIT & ((Widen(b2) >> 6) | (Widen(b3) << 2) | (Widen(b4) << 10)),
        MASK_11BIT & ((Widen(b4) >> 1) | (Widen(b5) << 7)),
        MASK_11BIT & ((Widen(b5) >> 4) | (Widen(b6) << 4)),
        MASK_11BIT & ((Widen(b6) >> 7) | (Widen(b7) << 1) | (Widen(b8) << 9)),
        MASK_11BIT & ((Widen(b8) >> 2) | (Widen(b9) << 6)),
        MASK_11BIT & ((Widen(b9) >> 5) | (Widen(b10) << 3))];
      PackLow(unpacked + rest) == [b0, b1, b2, b3, b4, b5, b6, b7, b8, b9, b10]
  {
    HalfEncodeDecode(b0, b1, b2, b3, b4, b5, b6, b7, b8, b9, b10);
  }

  /** The same for channels 8 to 15 and bytes 11 to 21. */
  lemma {:induction false} HighEncodeDecode(rest: seq<bv16>, b11: bv8, b12: bv8, b13: bv8, b14: bv8, b15: bv8, b16: bv8, b17: bv8, b18: bv8, b19: bv8, b20: bv8, b21: bv8)
    requires |rest| == 8
    ensures var unpacked := [
        MASK_11BIT & (Widen(b11) | (Widen(b12) << 8)),
        MASK_11BIT & ((Widen(b12) >> 3) | (Widen(b13) << 5)),
        MASK_11BIT & ((Widen(b13) >> 6) | (Widen(b14) << 2) | (Widen(b15) << 10)),
        MASK_11BIT & ((Widen(b15) >> 1) | (Widen(b16) << 7)),
        MASK_11BIT & ((Widen(b16) >> 4) | (Widen(b17) << 4)),
        MASK_11BIT & ((Widen(b17) >> 7) | (Widen(b18) << 1) | (Widen(b19) << 9)),
        MASK_11BIT & ((Widen(b19) >> 2) | (Widen(b20) << 6)),
        MASK_11BIT & ((Widen(b20) >> 5) | (Widen(b21) << 3))];
      PackHigh(rest + unpacked) == [b11, b12, b13, b14, b15, b16, b17, b18, b19, b20, b21]
  {
    HalfEncodeDecode(b11, b12, b13, b14, b15, b16, b17, b18, b19, b20, b21);
  }

  /** `LowEncodeDecode` for the first eleven bytes of a 22-byte array. */
  lemma {:induction false} LowEncodeDecodeAt(data: seq<bv8>, rest: seq<bv16>)
    requires |data| == LEN && |rest| == 8
    ensures PackLow(LowChannels(data) + rest) == [data[0], data[1], data[2], data[3], data[4], data[5], data[6], data[7], data[8], data[9], data[10]]
  {
    LowEncodeDecode(data[0], data[1], data[2], data[3], data[4], data[5], data[6], data[7], data[8], data[9], data[10], rest);
  }

  /** `HighEncodeDecode` for the last eleven bytes of a 22-byte array. */
  lemma {:induction false} HighEncodeDecodeAt(data: seq<bv8>, rest: seq<bv16>)
    requires |data| == LEN && |rest| == 8
    ensures PackHigh(rest + HighChannels(data)) == [data[11], data[12], data[13], data[14], data[15], data[16], data[17], data[18], data[19], data[20], data[21]]
  {
    HighEncodeDecode(rest, data[11], data[12], data[13], data[14], data[15], data[16], data[17], data[18], data[19], data[20], data[21]);
  }

  /** `LowDecodeEncode` for the first eight of sixteen channels. */
  lemma {:induction false} LowDecodeEncodeAt(ch: Channels, rest: seq<bv8>)
    requires InRange(RcChannelsPacked.RcChannelsPacked(ch)) && |rest| == 11
    ensures LowChannels(PackLow(ch) + rest) == [ch[0], ch[1], ch[2], ch[3], ch[4], ch[5], ch[6], ch[7]]
  {
    LowDecodeEncode(ch[0], ch[1], ch[2], ch[3], ch[4], ch[5], ch[6], ch[7], rest);
  }

  /** `HighDecodeEncode` for the last eight of sixteen channels. */
  lemma {:induction false} HighDecodeEncodeAt(ch: Channels, rest: seq<bv8>)
    requires InRange(RcChannelsPacked.RcChannelsPacked(ch)) && |rest| == 11
    ensures HighChannels(rest + PackHigh(ch)) == [ch[8], ch[9], ch[10], ch[11], ch[12], ch[13], ch[14], ch[15]]
  {
    HighDecodeEncode(rest, ch[8], ch[9], ch[10], ch[11], ch[12], ch[13], ch[14], ch[15]);
  }

  /** Unpacking what was packed gives back every channel, provided each one
      fits in 11 bits. */
  lemma {:induction false} DecodeEncode(p: RcChannelsPacked)
    requires InRange(p)
    ensures RawDecode(Pack(p)) == p
  {
    LowDecodeEncodeAt(p.ch, PackHigh(p.ch));
    HighDecodeEncodeAt(p.ch, PackLow(p.ch));
    SplitHalves(p.ch, 8);
  }

  /** Packing what was unpacked gives back every one of the 22 bytes: the
      sixteen 11-bit fields tile the 176 bits exactly, so no byte pattern is
      lost or rejected. */
  lemma {:induction false} EncodeDecode(data: seq<bv8>)
    requires |data| == LEN
    ensures Pack(RawDecode(data)) == data
  {
    LowEncodeDecodeAt(data, HighChannels(data));
    HighEncodeDecodeAt(data, LowChannels(data));
    SplitHalves(data, 11);
  }

  /** A sequence of 16 or 22 elements is its two halves, element by
      element. */
  lemma SplitHalves<T>(s: seq<T>, n: nat)
    requires |s| == 2 * n && (n == 8 || n == 11)
    ensures n == 8 ==> s == [s[0], s[1], s[2], s[3], s[4], s[5], s[6], s[7]] + [s[8], s[9], s[10], s[11], s[12], s[13], s[14], s[15]]
    ensures n == 11 ==> s == [s[0], s[1], s[2], s[3], s[4], s[5], s[6], s[7], s[8], s[9], s[10]] + [s[11], s[12], s[13], s[14], s[15], s[16], s[17], s[18], s[19], s[20], s[21]]
  {
  }

  /** The first and last byte holding a bit of channel `i`: its bits are
      `11 * i` to `11 * i + 10` of the bit string, least significant first. */
  function FirstByte(i: nat): nat { 11 * i / 8 }
  function LastByte(i: nat): nat { (11 * i + 10) / 8 }

  /** Locality of each of channels 0 to 7, one channel at a time. */
  lemma LowLocality0(d1: seq<bv8>, d2: seq<bv8>)
    requires |d1| == LEN && |d2| == LEN && d1[0] == d2[0] && d1[1] == d2[1]
    ensures LowChannels(d1)[0] == LowChannels(d2)[0]
  {
  }

  lemma LowLocality1(d1: seq<bv8>, d2: seq<bv8>)
    requires |d1| == LEN && |d2| == LEN && d1[1] == d2[1] && d1[2] == d2[2]
    ensures LowChannels(d1)[1] == LowChannels(d2)[1]
  {
  }

  lemma LowLocality2(d1: seq<bv8>, d2: seq<bv8>)
    requires |d1| == LEN && |d2| == LEN && d1[2] == d2[2] && d1[3] == d2[3] && d1[4] == d2[4]
    ensures LowChannels(d1)[2] == LowChannels(d2)[2]
  {
  }

  lemma LowLocality3(d1: seq<bv8>, d2: seq<bv8>)
    requires |d1| == LEN && |d2| == LEN && d1[4] == d2[4] && d1[5] == d2[5]
    ensures LowChannels(d1)[3] == LowChannels(d2)[3]
  {
  }

  lemma LowLocality4(d1: seq<bv8>, d2: seq<bv8>)
    requires |d1| == LEN && |d2| == LEN && d1[5] == d2[5] && d1[6] == d2[6]
    ensures LowChannels(d1)[4] == LowChannels(d2)[4]
  {
  }

  lemma LowLocality5(d1: seq<bv8>, d2: seq<bv8>)
    requires |d1| == LEN && |d2| == LEN && d1[6] == d2[6] && d1[7] == d2[7] && d1[8] == d2[8]
    ensures LowChannels(d1)[5] == LowChannels(d2)[5]
  {
  }

  lemma LowLocality6(d1: seq<bv8>, d2: seq<bv8>)
    requires |d1| == LEN && |d2| == LEN && d1[8] == d2[8] && d1[9] == d2[9]
    ensures LowChannels(d1)[6] == LowChannels(d2)[6]
  {
  }

  lemma LowLocality7(d1: seq<bv8>, d2: seq<bv8>)
    requires |d1| == LEN && |d2| == LEN && d1[9] == d2[9] && d1[10] == d2[10]
    ensures LowChannels(d1)[7] == LowChannels(d2)[7]
  {
  }

  /** Locality of channels 0 to 7 within bytes 0 to 10. */
  lemma {:induction false} LowLocality(d1: seq<bv8>, d2: seq<bv8>, i: nat)
    requires |d1| == LEN && |d2| == LEN && i < 8
    requires forall k | FirstByte(i) <= k <= LastByte(i) :: d1[k] == d2[k]
    ensures LowChannels(d1)[i] == LowChannels(d2)[i]
  {
    if i == 0 {
      LowLocality0(d1, d2);
    } else if i == 1 {
      LowLocality1(d1, d2);
    } else if i == 2 {
      LowLocality2(d1, d2);
    } else if i == 3 {
      LowLocality3(d1, d2);
    } else if i == 4 {
      LowLocality4(d1, d2);
    } else if i == 5 {
      LowLocality5(d1, d2);
    } else if i == 6 {
      LowLocality6(d1, d2);
    } else if i == 7 {
      LowLocality7(d1, d2);
    }
  }

  /** Every channel's bits lie in at most three bytes inside the array,
      and the bytes of channel `i + 8` are those of channel `i`, 11 on. */
  lemma WindowShift(i: nat)
    requires i < 16
    ensures LastByte(i) < LEN && LastByte(i) - FirstByte(i) <= 2
    ensures 8 <= i ==> FirstByte(i) == 11 + FirstByte(i - 8) && LastByte(i) == 11 + LastByte(i - 8)
  {
  }

  /** Each channel depends only on the two or three bytes that hold its
      bits, all of them inside the 22-byte array. */
  lemma {:induction false} Locality(d1: seq<bv8>, d2: seq<bv8>, i: nat)
    requires |d1| == LEN && |d2| == LEN && i < 16
    requires forall k | FirstByte(i) <= k <= LastByte(i) && k < LEN :: d1[k] == d2[k]
    ensures LastByte(i) < LEN && LastByte(i) - FirstByte(i) <= 2
    ensures RawDecode(d1).ch[i] == RawDecode(d2).ch[i]
  {
    WindowShift(i);
    if i < 8 {
      LowLocality(d1, d2, i);
    } else {
      var r1, r2 := d1[11..] + d1[..11], d2[11..] + d2[..11];
      WindowShift(i);
      forall k | FirstByte(i - 8) <= k <= LastByte(i - 8)
        ensures r1[k] == r2[k]
      {
        assert r1[k] == d1[11 + k] && r2[k] == d2[11 + k];
      }
      LowLocality(r1, r2, i - 8);
      MirrorDecode(d1);
      MirrorDecode(d2);
    }
  }

  /** The halves of 22 bytes, or of 16 channels, swapped. */
  lemma RotateHalves<T>(s: seq<T>)
    requires |s| == 22
    ensures s[11..] + s[..11] == [s[11], s[12], s[13], s[14], s[15], s[16], s[17], s[18], s[19], s[20], s[21], s[0], s[1], s[2], s[3], s[4], s[5], s[6], s[7], s[8], s[9], s[10]]
  {
  }

  lemma RotateChannels(s: Channels)
    ensures s[8..] + s[..8] == [s[8], s[9], s[10], s[11], s[12], s[13], s[14], s[15], s[0], s[1], s[2], s[3], s[4], s[5], s[6], s[7]]
  {
  }

  /** Channels 8 to 15 are unpacked from bytes 11 to 21 exactly as channels
      0 to 7 are from bytes 0 to 10: the same shift table, 11 bytes on. */
  lemma {:induction false} MirrorDecode(data: seq<bv8>)
    requires |data| == LEN
    ensures HighChannels(data) == LowChannels(data[11..] + data[..11])
  {
    RotateHalves(data);
  }

  /** Bytes 11 to 21 are packed from channels 8 to 15 exactly as bytes 0 to
      10 are from channels 0 to 7. */
  lemma {:induction false} MirrorEncode(ch: Channels)
    ensures PackHigh(ch) == PackLow(ch[8..] + ch[..8])
  {
    RotateChannels(ch);
  }

  /** Channel values above 2047, bit by bit, for the first two channels:
      bits 0 to 10 of channel 0 come back as channel 0; bits 11 to 15 are
      dropped there by the mask and come back in bits 0 to 4 of channel 1,
      ORed into channel 1's own bits. */
  lemma SpillBits(c0: bv16, c1: bv16, c2: bv16)
    ensures MASK_11BIT & (Widen(Truncate(c0)) | (Widen(Truncate((c0 >> 8) | (c1 << 3))) << 8)) == c0 & MASK_11BIT
    ensures MASK_11BIT & ((Widen(Truncate((c0 >> 8) | (c1 << 3))) >> 3) | (Widen(Truncate((c1 >> 5) | (c2 << 6))) << 5))
              == (c1 & MASK_11BIT) | (c0 >> 11)
  {
  }

  /** `raw_encode` neither rejects nor masks a channel above 2047, for any
      value: bits 11 to 15 of channel 0 are lost from channel 0 and spill
      into bits 0 to 4 of channel 1. */
  lemma {:induction false} OutOfRangeSpills(p: RcChannelsPacked)
    ensures RawDecode(Pack(p)).ch[0] == p.ch[0] & MASK_11BIT
    ensures RawDecode(Pack(p)).ch[1] == (p.ch[1] & MASK_11BIT) | (p.ch[0] >> 11)
  {
    LowSpillAt(p.ch, PackHigh(p.ch));
    DecodeLowChannels(Pack(p));
  }

  /** `SpillBits` read through `LowChannels`, for bytes 0 to 10 packed from
      channels `ch`, whatever follows in bytes 11 to 21. */
  lemma {:induction false} LowSpillAt(ch: Channels, rest: seq<bv8>)
    requires |rest| == 11
    ensures LowChannels(PackLow(ch) + rest)[0] == ch[0] & MASK_11BIT
    ensures LowChannels(PackLow(ch) + rest)[1] == (ch[1] & MASK_11BIT) | (ch[0] >> 11)
  {
    SpillBits(ch[0], ch[1], ch[2]);
  }

  /** Channels 0 and 1 of `raw_decode` are those of `LowChannels`. */
  lemma DecodeLowChannels(d: seq<bv8>)
    requires |d| == LEN
    ensures RawDecode(d).ch[0] == LowChannels(d)[0] && RawDecode(d).ch[1] == LowChannels(d)[1]
  {
  }

  /** `raw_encode`: writes the 22 packed bytes into `data[at..at + 22]`
      and nothing else. Every one of the 22 bytes is assigned, so the result
      does not depend on what the array held before. */
  method RawEncode(p: RcChannelsPacked, data: array<bv8>, at: nat)
    requires at + LEN <= data.Length
    modifies data
    ensures data[..] == old(data[..at]) + Pack(p) + old(data[at + LEN..])
  {
    var bytes := Pack(p);
    forall k | 0 <= k < LEN {
      data[at + k] := bytes[k];
    }
    assert data[..] == old(data[..at]) + bytes + old(data[at + LEN..]);
  }

  /** `impl Payload for RcChannelsPacked`: 22 bytes, tag
      `PacketType::RcChannelsPacked`, encoded through a `[u8; 22]` window. */
  const Instance: AnyPayload<RcChannelsPacked, Error> :=
    AnyPayload(LEN, _ => TypeTag(PacketType.RcChannelsPacked), FixedEncoder(LEN, Pack))

  /** The payload's length is 22 and its tag 0x16 whatever the value; its
      encoder writes exactly 22 bytes and fails precisely on a window
      shorter than that. */
  lemma InstanceWritesLen(p: RcChannelsPacked, n: nat)
    ensures Instance.len == 22 && Instance.packetType(p) == 0x16
    ensures WritesLen(Instance, p, n)
    ensures Instance.encode(p, n).Err? <==> n < LEN
    ensures Instance.encode(p, n).Err? ==> Instance.encode(p, n).error == BufferError
  {
    FixedEncoderWritesLen(LEN, Pack, 0x16, p, n);
  }

  /** `decode`: fails with `BufferError` when fewer than 22 bytes are
      given, and otherwise unpacks the first 22, ignoring the rest. The
      result is in range and packs back to exactly those 22 bytes. */
  function Decode(buf: seq<bv8>): (r: Result<RcChannelsPacked, Error>)
    ensures r.Err? <==> |buf| < LEN
    ensures r.Err? ==> r.error == BufferError
    ensures r.Ok? ==> InRange(r.value) && Pack(r.value) == buf[..LEN]
  {
    if |buf| < LEN then Err(BufferError)
    else
      EncodeDecode(buf[..LEN]);
      Ok(RawDecode(buf[..LEN]))
  }

  /** Decoding the encoding of an in-range value, followed by any bytes,
      gives the value back. */
  lemma {:induction false} DecodeEncoded(p: RcChannelsPacked, rest: seq<bv8>)
    requires InRange(p)
    ensures Decode(Pack(p) + rest) == Ok(p)
  {
    assert (Pack(p) + rest)[..LEN] == Pack(p);
    DecodeEncode(p);
  }

  /** `encode`: fails with `BufferError`, writing nothing, when the window
      `buf[at..]` is shorter than 22 bytes; otherwise packs the value into
      its first 22 bytes and returns them. */
  method Encode(p: RcChannelsPacked, buf: array<bv8>, at: nat) returns (r: Result<seq<bv8>, Error>)
    requires at <= buf.Length
    modifies buf
    ensures r == Instance.encode(p, buf.Length - at)
    ensures r.Err? ==> buf[..] == old(buf[..])
    ensures r.Ok? ==> buf[..] == old(buf[..at]) + r.value + old(buf[at + LEN..])
  {
    if buf.Length - at < LEN {
      return Err(BufferError);
    }
    RawEncode(p, buf, at);
    r := Ok(buf[at..at + LEN]);
  }

  /** The round trip of the crate's own test: an in-range value framed with
      the standard sync byte yields a valid 26-byte frame with length byte
      24 and tag 0x16, whose payload bytes decode to the value. */
  lemma {:induction false} FramedRoundTrip(p: RcChannelsPacked, crc: Crc8)
    requires InRange(p)
    ensures WritesLen(Instance, p, CRSF_MAX_LEN - 3)
    ensures Framed(Instance, p, CRSF_SYNC_BYTE, [], crc).Ok?
    ensures var raw := Framed(Instance, p, CRSF_SYNC_BYTE, [], crc).value;
      && raw.len == 26 && raw.buf[0] == CRSF_SYNC_BYTE && raw.buf[1] == 24 && raw.buf[2] == 0x16
      && ValidFrame(raw, crc)
      && Decode(PayloadOf(raw, 0)) == Ok(p)
  {
    InstanceWritesLen(p, CRSF_MAX_LEN - 3);
    FramedIsValid(Instance, p, CRSF_SYNC_BYTE, [], crc);
    var raw := Framed(Instance, p, CRSF_SYNC_BYTE, [], crc).value;
    LengthByte(raw.len - 2, 24);
    DecodeEncoded(p, []);
    assert Pack(p) + [] == Pack(p);
  }
}
