/** The 13-byte frame header: a one-byte type tag at 0, the little-endian total
    frame length at 1..2, a little-endian 64-bit timestamp at 3..10 and the
    little-endian checksum at 11..12. */
module MsgHeader {
  import opened Wire

  const EncodedLength: nat := 13

  const MsgTypeOffset: nat := 0
  const MsgTypeLength: nat := 1
  const MsgLenOffset: nat := 1
  const MsgLenLength: nat := 2
  const TimestampOffset: nat := 3
  const TimestampLength: nat := 8
  const ChecksumOffset: nat := 11
  const ChecksumLength: nat := 2

  /** The decoded contents of a header. */
  datatype Header = Header(msgType: byte, msgLen: u16, timestamp: u64, checksum: u16)

  /** The header view over `buf` at `off` was constructed, so every field is in bounds. */
  predicate Fits(buf: seq<byte>, off: nat) {
    off + EncodedLength <= |buf|
  }

  /** The constructor's check: fails exactly when fewer than 13 bytes remain after the offset. */
  function Open(bufferLength: nat, offset: nat): (g: Guard)
    ensures g.Ok? <==> bufferLength >= offset + 13
  {
    CheckView(bufferLength, offset, EncodedLength)
  }

  function MsgType(buf: seq<byte>, off: nat): (c: byte)
    requires Fits(buf, off)
    ensures c == buf[off + MsgTypeOffset]
  {
    buf[off + MsgTypeOffset]
  }

  function SetMsgType(buf: seq<byte>, off: nat, c: byte): (r: seq<byte>)
    requires Fits(buf, off)
    ensures |r| == |buf| && r[off] == c
    ensures forall i :: 0 <= i < |buf| && i != off ==> r[i] == buf[i]
  {
    Splice(buf, off + MsgTypeOffset, [c])
  }

  /** The total frame length, read as the low byte at offset 1 plus 256 times the high byte at 2. */
  function MsgLen(buf: seq<byte>, off: nat): (v: u16)
    requires Fits(buf, off)
    ensures v == buf[off + 1] as int + 256 * buf[off + 2] as int
  {
    Pow256Values();
    var s := buf[off + MsgLenOffset..off + MsgLenOffset + MsgLenLength];
    DecodeLE16(s);
    DecodeLE(s)
  }

  function SetMsgLen(buf: seq<byte>, off: nat, v: u16): (r: seq<byte>)
    requires Fits(buf, off)
    ensures |r| == |buf| && r[off + 1] == v % 256 && r[off + 2] == v / 256
    ensures forall i :: 0 <= i < |buf| && !(off + 1 <= i < off + 3) ==> r[i] == buf[i]
  {
    EncodeLE16(v);
    Splice(buf, off + MsgLenOffset, EncodeLE(v, MsgLenLength))
  }

  /** The timestamp: the one 64-bit value whose little-endian encoding is bytes 3..10. */
  function Timestamp(buf: seq<byte>, off: nat): (v: u64)
    requires Fits(buf, off)
    ensures EncodeLE(v, 8) == buf[off + 3..off + 11]
  {
    Pow256Values();
    EncodeDecode(buf[off + TimestampOffset..off + TimestampOffset + TimestampLength]);
    DecodeLE(buf[off + TimestampOffset..off + TimestampOffset + TimestampLength])
  }

  function SetTimestamp(buf: seq<byte>, off: nat, v: u64): (r: seq<byte>)
    requires Fits(buf, off)
    ensures |r| == |buf| && r[off + 3..off + 11] == EncodeLE(v, 8)
    ensures forall i :: 0 <= i < |buf| && !(off + 3 <= i < off + 11) ==> r[i] == buf[i]
  {
    Splice(buf, off + TimestampOffset, EncodeLE(v, TimestampLength))
  }

  /** The stored checksum, read as the low byte at offset 11 plus 256 times the high byte at 12. */
  function Checksum(buf: seq<byte>, off: nat): (v: u16)
    requires Fits(buf, off)
    ensures v == buf[off + 11] as int + 256 * buf[off + 12] as int
  {
    Pow256Values();
    var s := buf[off + ChecksumOffset..off + ChecksumOffset + ChecksumLength];
    DecodeLE16(s);
    DecodeLE(s)
  }

  function SetChecksum(buf: seq<byte>, off: nat, v: u16): (r: seq<byte>)
    requires Fits(buf, off)
    ensures |r| == |buf| && r[off + 11] == v % 256 && r[off + 12] == v / 256
    ensures forall i :: 0 <= i < |buf| && !(off + 11 <= i < off + 13) ==> r[i] == buf[i]
  {
    EncodeLE16(v);
    Splice(buf, off + ChecksumOffset, EncodeLE(v, ChecksumLength))
  }

  lemma MsgTypeRoundTrip(buf: seq<byte>, off: nat, c: byte)
    requires Fits(buf, off)
    ensures MsgType(SetMsgType(buf, off, c), off) == c
  {
  }

  /** Reading the length back gives what was written. */
  lemma MsgLenRoundTrip(buf: seq<byte>, off: nat, v: u16)
    requires Fits(buf, off)
    ensures MsgLen(SetMsgLen(buf, off, v), off) == v
  {
  }

  /** Reading the timestamp back gives what was written. */
  lemma TimestampRoundTrip(buf: seq<byte>, off: nat, v: u64)
    requires Fits(buf, off)
    ensures Timestamp(SetTimestamp(buf, off, v), off) == v
  {
    Pow256Values();
    DecodeEncode(v, 8);
  }

  /** Reading the checksum back gives what was written. */
  lemma ChecksumRoundTrip(buf: seq<byte>, off: nat, v: u16)
    requires Fits(buf, off)
    ensures Checksum(SetChecksum(buf, off, v), off) == v
  {
  }

  /** The four setters chained in the order the client uses:
      `MsgType(..).MsgLen(..).Timestamp(..).Checksum(..)`. */
  function Write(buf: seq<byte>, off: nat, h: Header): (r: seq<byte>)
    requires Fits(buf, off)
    ensures |r| == |buf|
    ensures forall i :: 0 <= i < |buf| && !(off <= i < off + EncodedLength) ==> r[i] == buf[i]
  {
    var b1 := SetMsgType(buf, off, h.msgType);
    var b2 := SetMsgLen(b1, off, h.msgLen);
    var b3 := SetTimestamp(b2, off, h.timestamp);
    SetChecksum(b3, off, h.checksum)
  }

  /** All four getters. */
  function Read(buf: seq<byte>, off: nat): Header
    requires Fits(buf, off)
  {
    Header(MsgType(buf, off), MsgLen(buf, off), Timestamp(buf, off), Checksum(buf, off))
  }

  /** After setting all four fields, each getter returns its own value: no setter
      disturbs another field. */
  lemma {:induction false} ReadWrite(buf: seq<byte>, off: nat, h: Header)
    requires Fits(buf, off)
    ensures Read(Write(buf, off, h), off) == h
  {
    var b1 := SetMsgType(buf, off, h.msgType);
    var b2 := SetMsgLen(b1, off, h.msgLen);
    var b3 := SetTimestamp(b2, off, h.timestamp);
    var b4 := SetChecksum(b3, off, h.checksum);
    TimestampRoundTrip(b2, off, h.timestamp);
    assert b4[off + 3..off + 11] == b3[off + 3..off + 11];
  }

  /** Writing back the header just read changes nothing: the four fields cover every
      header byte, and the encodings are bijective. */
  lemma {:induction false} WriteRead(buf: seq<byte>, off: nat)
    requires Fits(buf, off)
    ensures Write(buf, off, Read(buf, off)) == buf
  {
    var h := Read(buf, off);
    SetMsgTypeSame(buf, off);
    SetMsgLenSame(buf, off);
    SetTimestampSame(buf, off);
    SetChecksumSame(buf, off);
  }

  lemma SetMsgTypeSame(buf: seq<byte>, off: nat)
    requires Fits(buf, off)
    ensures SetMsgType(buf, off, MsgType(buf, off)) == buf
  {
    var r := SetMsgType(buf, off, MsgType(buf, off));
    assert forall i :: 0 <= i < |buf| ==> r[i] == buf[i];
  }

  lemma SetMsgLenSame(buf: seq<byte>, off: nat)
    requires Fits(buf, off)
    ensures SetMsgLen(buf, off, MsgLen(buf, off)) == buf
  {
    var r := SetMsgLen(buf, off, MsgLen(buf, off));
    assert forall i :: 0 <= i < |buf| ==> r[i] == buf[i];
  }

  lemma SetTimestampSame(buf: seq<byte>, off: nat)
    requires Fits(buf, off)
    ensures SetTimestamp(buf, off, Timestamp(buf, off)) == buf
  {
    EncodeDecode(buf[off + 3..off + 11]);
    SpliceSame(buf, off + 3, 8);
  }

  lemma SetChecksumSame(buf: seq<byte>, off: nat)
    requires Fits(buf, off)
    ensures SetChecksum(buf, off, Checksum(buf, off)) == buf
  {
    var r := SetChecksum(buf, off, Checksum(buf, off));
    assert forall i :: 0 <= i < |buf| ==> r[i] == buf[i];
  }

  /** Splicing a buffer's own bytes back in place leaves it unchanged. */
  lemma SpliceSame(buf: seq<byte>, at: nat, n: nat)
    requires at + n <= |buf|
    ensures Splice(buf, at, buf[at..at + n]) == buf
  {
  }

  /** The header bytes a chained write leaves do not depend on what the buffer held
      before: all 13 bytes are overwritten. */
  lemma {:induction false} WriteOverwritesHeader(buf: seq<byte>, other: seq<byte>, off: nat, h: Header)
    requires Fits(buf, off) && Fits(other, off)
    ensures Write(buf, off, h)[off..off + EncodedLength] == Write(other, off, h)[off..off + EncodedLength]
  {
    var r := Write(buf, off, h);
    var q := Write(other, off, h);
    var b3 := SetTimestamp(SetMsgLen(SetMsgType(buf, off, h.msgType), off, h.msgLen), off, h.timestamp);
    var c3 := SetTimestamp(SetMsgLen(SetMsgType(other, off, h.msgType), off, h.msgLen), off, h.timestamp);
    forall i | off <= i < off + EncodedLength
      ensures r[i] == q[i]
    {
      if off + 3 <= i < off + 11 {
        assert b3[i] == b3[off + 3..off + 11][i - off - 3];
        assert c3[i] == c3[off + 3..off + 11][i - off - 3];
      }
    }
  }
}
