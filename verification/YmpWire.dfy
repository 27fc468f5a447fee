// ymp/types.rs: the 15-byte segment header.
module YmpWire {
  import opened Bytes
  import opened Wrappers

  const HEADER_SIZE: nat := 15
  const PKT_DATA: byte := 0x10
  const PKT_ACK: byte := 0x11
  const PKT_SYN: byte := 0x12
  const PKT_SYN_ACK: byte := 0x13

  datatype PktType = Data | Ack | Syn | SynAck

  datatype SegmentHeader = SegmentHeader(pktType: PktType, msgId: u64, seqNo: u16, total: u16, payloadLen: u16)

  function DataHeader(msgId: u64, seqNo: u16, total: u16, payloadLen: u16): SegmentHeader {
    SegmentHeader(Data, msgId, seqNo, total, payloadLen)
  }

  function AckHeader(msgId: u64, seqNo: u16): SegmentHeader {
    SegmentHeader(Ack, msgId, seqNo, 0, 0)
  }

  function SynHeader(msgId: u64): SegmentHeader {
    SegmentHeader(Syn, msgId, 0, 0, 0)
  }

  function SynAckHeader(msgId: u64): SegmentHeader {
    SegmentHeader(SynAck, msgId, 0, 0, 0)
  }

  function TypeByte(t: PktType): byte {
    match t
    case Data => PKT_DATA
    case Ack => PKT_ACK
    case Syn => PKT_SYN
    case SynAck => PKT_SYN_ACK
  }

  function TypeOfByte(b: byte): Option<PktType> {
    if b == PKT_DATA then Some(Data)
    else if b == PKT_ACK then Some(Ack)
    else if b == PKT_SYN then Some(Syn)
    else if b == PKT_SYN_ACK then Some(SynAck)
    else None
  }

  function BE16(x: u16): (s: bytes)
    ensures |s| == 2
  {
    WordWidths();
    ToBigEndian(x, 2)
  }

  function BE64(x: u64): (s: bytes)
    ensures |s| == 8
  {
    WordWidths();
    ToBigEndian(x, 8)
  }

  function Word16(s: bytes): (x: u16)
    requires |s| == 2
  {
    WordWidths(); BigEndianInverse(s);
    FromBigEndian(s)
  }

  function Word64(s: bytes): (x: u64)
    requires |s| == 8
  {
    WordWidths(); BigEndianInverse(s);
    FromBigEndian(s)
  }

  /** The wire layout: type(1) msg_id(8) seq(2) total(2) payload_len(2). */
  function Encoded(h: SegmentHeader): (s: bytes)
    ensures |s| == HEADER_SIZE
  {
    [TypeByte(h.pktType)] + BE64(h.msgId) + BE16(h.seqNo) + BE16(h.total) + BE16(h.payloadLen)
  }

  function Decode(buf: bytes): Option<SegmentHeader> {
    if |buf| < HEADER_SIZE then None
    else match TypeOfByte(buf[0])
      case None => None
      case Some(t) =>
        Some(SegmentHeader(t, Word64(buf[1..9]), Word16(buf[9..11]), Word16(buf[11..13]), Word16(buf[13..15])))
  }

  /** Write `src` over `out[at..]`, as a slice copy does. */
  method CopyInto(out: array<byte>, at: nat, src: bytes)
    requires at + |src| <= out.Length
    modifies out
    ensures out[..] == old(out[..])[..at] + src + old(out[..])[at + |src|..]
  {
    for i := 0 to |src|
      invariant out[at..at + i] == src[..i]
      invariant out[..at] == old(out[..at]) && out[at + i..] == old(out[at + i..])
    {
      out[at + i] := src[i];
      assert out[at..at + i + 1] == out[at..at + i] + [src[i]];
      assert src[..i + 1] == src[..i] + [src[i]];
      assert out[at + i + 1..] == old(out[at + i + 1..]) by {
        assert forall j :: at + i + 1 <= j < out.Length ==> out[j] == old(out[j]);
      }
    }
    assert out[..] == out[..at] + out[at..at + |src|] + out[at + |src|..];
    assert old(out[..at]) == old(out[..])[..at] && old(out[at + |src|..]) == old(out[..])[at + |src|..];
  }

  /** A copy right behind what is done extends what is done. */
  lemma CopyOnto(done: bytes, was: bytes, src: bytes)
    requires |done| + |src| <= |was|
    ensures var out := done + was[|done|..];
            out[..|done|] + src + out[|done| + |src|..] == (done + src) + was[|done + src|..]
  {
  }

  /** `encode`: fill the first 15 bytes of the caller's buffer and nothing else. */
  method Encode(h: SegmentHeader, out: array<byte>)
    requires out.Length >= HEADER_SIZE
    modifies out
    ensures out[..] == Encoded(h) + old(out[..])[HEADER_SIZE..]
  {
    ghost var was := out[..];
    out[0] := TypeByte(h.pktType);
    ghost var done: bytes := [TypeByte(h.pktType)];
    assert out[..] == done + was[1..];
    CopyOnto(done, was, BE64(h.msgId));
    CopyInto(out, 1, BE64(h.msgId));
    done := done + BE64(h.msgId);
    CopyOnto(done, was, BE16(h.seqNo));
    CopyInto(out, 9, BE16(h.seqNo));
    done := done + BE16(h.seqNo);
    CopyOnto(done, was, BE16(h.total));
    CopyInto(out, 11, BE16(h.total));
    done := done + BE16(h.total);
    CopyOnto(done, was, BE16(h.payloadLen));
    CopyInto(out, 13, BE16(h.payloadLen));
  }

  /** Decoding reads back every header, whatever payload follows it. */
  lemma DecodeOfEncoded(h: SegmentHeader, payload: bytes)
    ensures Decode(Encoded(h) + payload) == Some(h)
  {
    WordWidths();
    var buf := Encoded(h) + payload;
    assert buf[1..9] == BE64(h.msgId);
    assert buf[9..11] == BE16(h.seqNo);
    assert buf[11..13] == BE16(h.total);
    assert buf[13..15] == BE16(h.payloadLen);
    BigEndianRoundTrip(h.msgId, 8);
    BigEndianRoundTrip(h.seqNo, 2);
    BigEndianRoundTrip(h.total, 2);
    BigEndianRoundTrip(h.payloadLen, 2);
  }

  /** A decoded header came from exactly one byte string. */
  lemma EncodedOfDecode(buf: bytes)
    requires Decode(buf).Some?
    ensures Encoded(Decode(buf).value) == buf[..HEADER_SIZE]
  {
    var h := Decode(buf).value;
    BigEndianInverse(buf[1..9]);
    BigEndianInverse(buf[9..11]);
    BigEndianInverse(buf[11..13]);
    BigEndianInverse(buf[13..15]);
    assert [TypeByte(h.pktType)] == buf[0..1];
  }

  /** The value of a 64-bit word at `at`, most significant byte first. */
  predicate HoldsWord64(b: bytes, at: nat, x: u64)
    requires at + 8 <= |b|
  {
    x == 0x100_0000_0000_0000 * (b[at] as int) + 0x1_0000_0000_0000 * (b[at + 1] as int) + 0x100_0000_0000 * (b[at + 2] as int) + 0x1_0000_0000 * (b[at + 3] as int)
         + 0x100_0000 * (b[at + 4] as int) + 0x1_0000 * (b[at + 5] as int) + 0x100 * (b[at + 6] as int) + b[at + 7]
  }

  predicate HoldsWord16(b: bytes, at: nat, x: u16)
    requires at + 2 <= |b|
  {
    x == 0x100 * (b[at] as int) + b[at + 1]
  }

  lemma {:induction false} Word64Written(x: u64)
    ensures HoldsWord64(BE64(x), 0, x)
  {
    WordWidths();
    BigEndianRoundTrip(x, 8);
    FromEightBytes(BE64(x));
  }

  lemma {:induction false} Word16Written(x: u16)
    ensures HoldsWord16(BE16(x), 0, x)
  {
    WordWidths();
    BigEndianRoundTrip(x, 2);
    FromTwoBytes(BE16(x));
  }

  /** The header, byte for byte: the type, then the words in network order. */
  lemma {:induction false} HeaderInBytes(h: SegmentHeader)
    ensures var b := Encoded(h);
            && |b| == 15
            && b[0] == (if h.pktType.Data? then 0x10 else if h.pktType.Ack? then 0x11 else if h.pktType.Syn? then 0x12 else 0x13)
            && HoldsWord64(b, 1, h.msgId) && HoldsWord16(b, 9, h.seqNo) && HoldsWord16(b, 11, h.total) && HoldsWord16(b, 13, h.payloadLen)
  {
    var b := Encoded(h);
    Word64Written(h.msgId);
    Word16Written(h.seqNo);
    Word16Written(h.total);
    Word16Written(h.payloadLen);
    assert b[1..9] == BE64(h.msgId) && b[9..11] == BE16(h.seqNo) && b[11..13] == BE16(h.total) && b[13..15] == BE16(h.payloadLen);
  }
}
