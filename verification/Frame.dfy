/** The frame layout shared by both payload-trait generations: the payload
    capability the framing code relies on, the frame it builds (simple or
    extended, as one definition parameterised by the address bytes), the
    receiver-side validity check, and what holds of every built frame. */
module Frame {
  import opened Wire

  /** What the framing code uses of a payload kind `P`: its fixed serialized
      length `LEN`, its type tag, and its encoder. The encoder is seen through
      its effect: given a value and a writable window of `n` bytes, either the
      bytes it writes at the start of that window, or its error. */
  datatype AnyPayload<!P, E> = AnyPayload(
    len: nat,
    packetType: P -> bv8,
    encode: (P, nat) -> Result<seq<bv8>, E>)

  /** The encoder honours `LEN`: whenever it succeeds in a window of `n`
      bytes, it has written exactly `LEN` bytes, and they fit the window. */
  predicate WritesLen<P, E>(a: AnyPayload<P, E>, p: P, n: nat)
  {
    a.encode(p, n).Ok? ==> |a.encode(p, n).value| == a.len <= n
  }

  /** The encoder of a payload whose code goes through a `[u8; LEN]` array
      taken from the start of the window: it fails with `BufferError` when the
      window is shorter than `LEN`, and otherwise writes `rawEncode(p)`. */
  function FixedEncoder<P>(len: nat, rawEncode: P -> seq<bv8>): (P, nat) -> Result<seq<bv8>, Error>
  {
    (p: P, n: nat) => if n < len then Err(BufferError) else Ok(rawEncode(p))
  }

  lemma FixedEncoderWritesLen<P>(len: nat, rawEncode: P -> seq<bv8>, tag: bv8, p: P, n: nat)
    requires |rawEncode(p)| == len
    ensures WritesLen(AnyPayload(len, _ => tag, FixedEncoder(len, rawEncode)), p, n)
    ensures FixedEncoder(len, rawEncode)(p, n) == Err(BufferError) <==> n < len
  {
  }

  /** Calls the payload's encoder on the window `buf[at..]` and, on success,
      lets it write its bytes there. Nothing is written when it fails. */
  method EncodeInto<P, E>(a: AnyPayload<P, E>, p: P, buf: array<bv8>, at: nat) returns (r: Result<seq<bv8>, E>)
    requires at <= buf.Length
    requires WritesLen(a, p, buf.Length - at)
    modifies buf
    ensures r == a.encode(p, buf.Length - at)
    ensures r.Err? ==> buf[..] == old(buf[..])
    ensures r.Ok? ==> buf[..] == old(buf[..at]) + r.value + old(buf[at + a.len..])
  {
    r := a.encode(p, buf.Length - at);
    if r.Ok? {
      var bytes := r.value;
      forall i | 0 <= i < |bytes| {
        buf[at + i] := bytes[i];
      }
      assert buf[..] == old(buf[..at]) + bytes + old(buf[at + a.len..]);
    }
  }

  /** Offset of the payload: after sync, length and type, and after the
      destination and source bytes of an extended frame. */
  function PayloadAt(addr: seq<bv8>): nat
  {
    3 + |addr|
  }

  /** The framing code's preconditions: `addr` is empty (simple framing) or
      holds destination and source (extended framing), and header, payload
      and checksum fit the buffer. With `CRSF_MAX_LEN` at 64 this also keeps
      the length byte `2 + LEN` (simple) or `4 + LEN` (extended) below 256. */
  predicate Fits<P, E>(a: AnyPayload<P, E>, addr: seq<bv8>)
  {
    (|addr| == 0 || |addr| == 2) && PayloadAt(addr) + a.len + 1 <= CRSF_MAX_LEN
  }

  /** The frame built for payload `p`: a zeroed buffer holding sync byte,
      length byte, type tag, the address bytes, the encoded payload and the
      checksum of everything from the type tag to the end of the payload;
      or the encoder's error. */
  function Framed<P, E>(a: AnyPayload<P, E>, p: P, syncByte: bv8, addr: seq<bv8>, crc: Crc8): (r: Result<RawPacket, E>)
    requires Fits(a, addr)
    requires WritesLen(a, p, CRSF_MAX_LEN - PayloadAt(addr))
    ensures a.encode(p, CRSF_MAX_LEN - PayloadAt(addr)).Err? ==>
              r == Err(a.encode(p, CRSF_MAX_LEN - PayloadAt(addr)).error)
    ensures a.encode(p, CRSF_MAX_LEN - PayloadAt(addr)).Ok? ==>
              r.Ok? && Layout(r.value, syncByte, a.packetType(p), addr, a.encode(p, CRSF_MAX_LEN - PayloadAt(addr)).value, crc)
  {
    match a.encode(p, CRSF_MAX_LEN - PayloadAt(addr))
    case Err(e) => Err(e)
    case Ok(payload) =>
      var covered := [a.packetType(p)] + addr + payload;
      var frameLen := PayloadAt(addr) + a.len + 1;
      var buf := [syncByte, (|addr| + 2 + |payload|) as bv8] + covered + [crc(covered)] + Zeros(CRSF_MAX_LEN - frameLen);
      ConcatLayout(syncByte, (|addr| + 2 + |payload|) as bv8, [a.packetType(p)], addr, payload, crc(covered), Zeros(CRSF_MAX_LEN - frameLen));
      Ok(RawPacket(buf, frameLen))
  }

  /** Where each part of a concatenated frame lands. */
  lemma ConcatLayout(s0: bv8, s1: bv8, t: seq<bv8>, addr: seq<bv8>, payload: seq<bv8>, c: bv8, z: seq<bv8>)
    requires |t| == 1
    ensures var buf := [s0, s1] + (t + addr + payload) + [c] + z;
      var at := 3 + |addr|;
      var end := at + |payload|;
      && |buf| == end + 1 + |z|
      && buf[0] == s0 && buf[1] == s1 && buf[2] == t[0]
      && buf[3..at] == addr && buf[at..end] == payload
      && buf[2..end] == t + addr + payload
      && buf[end] == c
      && buf[end + 1..] == z
  {
  }

  /** The byte-by-byte layout of a frame: `raw.len` counts sync, length byte,
      type, addresses, payload and checksum; the length byte counts the bytes
      after itself; the checksum covers type through payload and nothing
      else; every byte after the checksum is zero. */
  predicate Layout(raw: RawPacket, syncByte: bv8, tag: bv8, addr: seq<bv8>, payload: seq<bv8>, crc: Crc8)
  {
    var at := PayloadAt(addr);
    var end := at + |payload|;
    && |raw.buf| == CRSF_MAX_LEN
    && raw.len == end + 1 <= CRSF_MAX_LEN
    && raw.buf[0] == syncByte
    && raw.buf[1] == (|addr| + 2 + |payload|) as bv8
    && raw.buf[2] == tag
    && raw.buf[3..at] == addr
    && raw.buf[at..end] == payload
    && raw.buf[end] == crc(raw.buf[2..end])
    && forall j | end < j < CRSF_MAX_LEN :: raw.buf[j] == 0
  }

  /** Two sequences holding the same slice agree at every index of it. */
  lemma SliceAgree(s1: seq<bv8>, s2: seq<bv8>, lo: nat, hi: nat, x: seq<bv8>)
    requires lo <= hi <= |s1| && hi <= |s2|
    requires s1[lo..hi] == x && s2[lo..hi] == x
    ensures forall j | lo <= j < hi :: s1[j] == s2[j]
  {
    forall j | lo <= j < hi
      ensures s1[j] == s2[j]
    {
      assert s1[j] == s1[lo..hi][j - lo];
      assert s2[j] == s2[lo..hi][j - lo];
    }
  }

  /** The buffer the framing code leaves behind: the payload encoded into a
      zeroed buffer at `PayloadAt(addr)`, then the header bytes written one
      by one, then the checksum of the covered range stored after the
      payload. */
  lemma WrittenBytes(b1: seq<bv8>, b2: seq<bv8>, b3: seq<bv8>, syncByte: bv8, lenByte: bv8, tag: bv8, addr: seq<bv8>, payload: seq<bv8>, crc: Crc8)
    requires |addr| == 0 || |addr| == 2
    requires PayloadAt(addr) + |payload| + 1 <= CRSF_MAX_LEN
    requires b1 == Zeros(PayloadAt(addr)) + payload + Zeros(CRSF_MAX_LEN - PayloadAt(addr) - |payload|)
    requires lenByte == (|addr| + 2 + |payload|) as bv8
    requires |addr| == 0 ==> b2 == b1[0 := syncByte][1 := lenByte][2 := tag]
    requires |addr| == 2 ==> b2 == b1[0 := syncByte][1 := lenByte][2 := tag][3 := addr[0]][4 := addr[1]]
    requires b3 == b2[PayloadAt(addr) + |payload| := crc(b2[2..PayloadAt(addr) + |payload|])]
    ensures |b3| == CRSF_MAX_LEN
    ensures b3[0] == syncByte && b3[1] == (|addr| + 2 + |payload|) as bv8 && b3[2] == tag
    ensures forall j | 3 <= j < PayloadAt(addr) :: b3[j] == addr[j - 3]
    ensures forall j | PayloadAt(addr) <= j < PayloadAt(addr) + |payload| :: b3[j] == payload[j - PayloadAt(addr)]
    ensures b3[PayloadAt(addr) + |payload|] == crc(b3[2..PayloadAt(addr) + |payload|])
    ensures forall j | PayloadAt(addr) + |payload| < j < CRSF_MAX_LEN :: b3[j] == 0
  {
    var at := PayloadAt(addr);
    var end := at + |payload|;
    assert forall j | at <= j < CRSF_MAX_LEN :: b2[j] == b1[j];
    assert b3[2..end] == b2[2..end];
  }

  /** The layout of a buffer, from what each of its bytes holds. */
  lemma LayoutOfBytes(buf: seq<bv8>, len: nat, syncByte: bv8, tag: bv8, addr: seq<bv8>, payload: seq<bv8>, crc: Crc8)
    requires |buf| == CRSF_MAX_LEN && len == PayloadAt(addr) + |payload| + 1 <= CRSF_MAX_LEN
    requires buf[0] == syncByte && buf[1] == (|addr| + 2 + |payload|) as bv8 && buf[2] == tag
    requires forall j | 3 <= j < PayloadAt(addr) :: buf[j] == addr[j - 3]
    requires forall j | PayloadAt(addr) <= j < len - 1 :: buf[j] == payload[j - PayloadAt(addr)]
    requires buf[len - 1] == crc(buf[2..len - 1])
    requires forall j | len <= j < CRSF_MAX_LEN :: buf[j] == 0
    ensures Layout(RawPacket(buf, len), syncByte, tag, addr, payload, crc)
  {
    var at := PayloadAt(addr);
    forall k | 0 <= k < |addr|
      ensures buf[3..at][k] == addr[k]
    {
      assert buf[3 + k] == addr[3 + k - 3];
    }
    forall k | 0 <= k < |payload|
      ensures buf[at..len - 1][k] == payload[k]
    {
      assert buf[at + k] == payload[at + k - at];
    }
    assert buf[3..at] == addr;
    assert buf[at..len - 1] == payload;
  }

  /** The second half of `to_raw_packet_with_sync`, once the payload is in
      place in an otherwise zeroed buffer: writes sync byte, length byte, type
      tag and address bytes one index at a time, then stores after the
      payload the checksum of everything from the type tag to the payload's
      end. The result has the frame layout. */
  method WriteHeaderAndChecksum(buf: array<bv8>, syncByte: bv8, tag: bv8, addr: seq<bv8>, len: nat, ghost payload: seq<bv8>, crc: Crc8)
    returns (raw: RawPacket)
    requires buf.Length == CRSF_MAX_LEN
    requires (|addr| == 0 || |addr| == 2) && len == |payload| && PayloadAt(addr) + len + 1 <= CRSF_MAX_LEN
    requires buf[..] == Zeros(PayloadAt(addr)) + payload + Zeros(CRSF_MAX_LEN - PayloadAt(addr) - len)
    modifies buf
    ensures Layout(raw, syncByte, tag, addr, payload, crc)
    ensures buf[..] == raw.buf
  {
    ghost var b1 := buf[..];
    var at := PayloadAt(addr);
    buf[0] := syncByte;
    // `2 + LEN as u8` (simple) or `4 + LEN as u8` (extended) cannot wrap:
    // it is below `CRSF_MAX_LEN`.
    var lenByte := (|addr| + 2 + len) as bv8;
    buf[1] := lenByte;
    buf[2] := tag;
    if |addr| == 2 {
      buf[3] := addr[0];
      buf[4] := addr[1];
    }
    ghost var b2 := buf[..];
    var checksum := crc(buf[2..at + len]);
    buf[at + len] := checksum;
    raw := RawPacket(buf[..], at + len + 1);
    WrittenBytes(b1, b2, raw.buf, syncByte, lenByte, tag, addr, payload, crc);
    LayoutOfBytes(raw.buf, raw.len, syncByte, tag, addr, payload, crc);
  }

  /** A layout pins down the whole packet: its length and every byte of its
      buffer. */
  lemma LayoutDeterminesPacket(r1: RawPacket, r2: RawPacket, syncByte: bv8, tag: bv8, addr: seq<bv8>, payload: seq<bv8>, crc: Crc8)
    requires Layout(r1, syncByte, tag, addr, payload, crc)
    requires Layout(r2, syncByte, tag, addr, payload, crc)
    ensures r1 == r2
  {
    var at := PayloadAt(addr);
    var end := at + |payload|;
    SliceAgree(r1.buf, r2.buf, 3, at, addr);
    SliceAgree(r1.buf, r2.buf, at, end, payload);
    assert r1.buf[2..end] == r2.buf[2..end];
    assert r1.buf == r2.buf;
  }

  /** What a receiver checks of a frame: the length byte accounts for the
      occupied bytes after it, and the last occupied byte is the checksum of
      the bytes from the type tag up to it. */
  predicate ValidFrame(raw: RawPacket, crc: Crc8)
  {
    && 4 <= raw.len <= |raw.buf|
    && raw.len <= CRSF_MAX_LEN
    && raw.buf[1] == (raw.len - 2) as bv8
    && raw.buf[raw.len - 1] == crc(raw.buf[2..raw.len - 1])
  }

  /** The payload bytes a receiver finds in a valid frame with `addrLen`
      address bytes: everything between the header and the checksum. */
  function PayloadOf(raw: RawPacket, addrLen: nat): seq<bv8>
    requires 3 + addrLen < raw.len <= |raw.buf|
  {
    raw.buf[3 + addrLen..raw.len - 1]
  }

  /** Equal lengths give equal length bytes: a length below 256 fits the
      length byte without wrapping. */
  lemma SameByte(x: int, y: int)
    requires 0 <= x < 256 && x == y
    ensures x as bv8 == y as bv8
  {
  }

  /** The length byte of a frame whose payload size is known: `n`, which is
      below 256, written as the byte `b`. */
  lemma LengthByte(n: int, b: bv8)
    requires n == b as int
    ensures n as bv8 == b
  {
  }

  /** Every frame the framing code builds passes the receiver's check, and
      the receiver finds in it exactly the bytes the encoder wrote. */
  lemma FramedIsValid<P, E>(a: AnyPayload<P, E>, p: P, syncByte: bv8, addr: seq<bv8>, crc: Crc8)
    requires Fits(a, addr)
    requires WritesLen(a, p, CRSF_MAX_LEN - PayloadAt(addr))
    requires a.encode(p, CRSF_MAX_LEN - PayloadAt(addr)).Ok?
    ensures Framed(a, p, syncByte, addr, crc).Ok?
    ensures ValidFrame(Framed(a, p, syncByte, addr, crc).value, crc)
    ensures PayloadOf(Framed(a, p, syncByte, addr, crc).value, |addr|) == a.encode(p, CRSF_MAX_LEN - PayloadAt(addr)).value
  {
    var raw := Framed(a, p, syncByte, addr, crc).value;
    var payload := a.encode(p, CRSF_MAX_LEN - PayloadAt(addr)).value;
    assert raw.len - 1 == PayloadAt(addr) + |payload|;
    SameByte(|addr| + 2 + |payload|, raw.len - 2);
  }

  /** The sync byte is written only at offset 0: two frames built with
      different sync bytes agree on success and on every other byte,
      checksum included, and on the error when the encoder fails. */
  lemma SyncOnlyAffectsFirstByte<P, E>(a: AnyPayload<P, E>, p: P, sync1: bv8, sync2: bv8, addr: seq<bv8>, crc: Crc8)
    requires Fits(a, addr)
    requires WritesLen(a, p, CRSF_MAX_LEN - PayloadAt(addr))
    ensures Framed(a, p, sync1, addr, crc).Ok? == Framed(a, p, sync2, addr, crc).Ok?
    ensures Framed(a, p, sync1, addr, crc).Err? ==> Framed(a, p, sync1, addr, crc) == Framed(a, p, sync2, addr, crc)
    ensures Framed(a, p, sync1, addr, crc).Ok? ==>
              && Framed(a, p, sync1, addr, crc).value.len == Framed(a, p, sync2, addr, crc).value.len
              && Framed(a, p, sync1, addr, crc).value.buf[1..] == Framed(a, p, sync2, addr, crc).value.buf[1..]
  {
    var r1, r2 := Framed(a, p, sync1, addr, crc), Framed(a, p, sync2, addr, crc);
    if r1.Ok? {
      var payload := a.encode(p, CRSF_MAX_LEN - PayloadAt(addr)).value;
      var resynced := RawPacket(r1.value.buf[0 := sync2], r1.value.len);
      Resync(r1.value, sync1, sync2, a.packetType(p), addr, payload, crc);
      LayoutDeterminesPacket(resynced, r2.value, sync2, a.packetType(p), addr, payload, crc);
      assert r1.value.buf[1..] == resynced.buf[1..];
    }
  }

  /** Overwriting the sync byte of a frame gives the frame for the new sync
      byte. */
  lemma Resync(r: RawPacket, sync1: bv8, sync2: bv8, tag: bv8, addr: seq<bv8>, payload: seq<bv8>, crc: Crc8)
    requires Layout(r, sync1, tag, addr, payload, crc)
    ensures Layout(RawPacket(r.buf[0 := sync2], r.len), sync2, tag, addr, payload, crc)
  {
    var b := r.buf[0 := sync2];
    var at := PayloadAt(addr);
    var end := at + |payload|;
    assert b[2..end] == r.buf[2..end];
    assert b[3..at] == r.buf[3..at];
    assert b[at..end] == r.buf[at..end];
  }
}
