/** Login response body (tag 'E', 33 bytes): a one-byte result code at 0 ('Y' means
    logged in) and a reason in a 32-byte text slot at 1. */
module LoginResponse {
  import opened Wire

  const Tag: byte := 'E' as int
  const EncodedLength: nat := 33
  const Accepted: byte := 'Y' as int

  const CodeOffset: nat := 0
  const CodeLength: nat := 1
  const ReasonOffset: nat := 1
  const ReasonLength: nat := 32

  datatype Body = Body(code: byte, reason: seq<byte>)

  predicate Fits(buf: seq<byte>, off: nat) {
    off + EncodedLength <= |buf|
  }

  /** The constructor's check: fails exactly when fewer than 33 bytes remain after the offset. */
  function Open(bufferLength: nat, offset: nat): (g: Guard)
    ensures g.Ok? <==> bufferLength >= offset + 33
  {
    CheckView(bufferLength, offset, EncodedLength)
  }

  function Code(buf: seq<byte>, off: nat): byte
    requires Fits(buf, off)
  {
    buf[off + CodeOffset]
  }

  /** Stores the code in the first body byte; no other byte changes. */
  function SetCode(buf: seq<byte>, off: nat, c: byte): (r: seq<byte>)
    requires Fits(buf, off)
    ensures |r| == |buf| && r[off] == c
    ensures forall i :: 0 <= i < |buf| && i != off ==> r[i] == buf[i]
  {
    Splice(buf, off + CodeOffset, [c])
  }

  /** The reason getter as the client writes it: the C string that starts at the
      slot, which runs on past the slot when the slot holds no NUL. */
  function Reason(buf: seq<byte>, off: nat): seq<byte>
    requires Fits(buf, off)
  {
    CStringAt(buf, off + ReasonOffset)
  }

  /** The reason field read within its slot: the slot up to its first NUL. */
  function ReasonText(buf: seq<byte>, off: nat): seq<byte>
    requires Fits(buf, off)
  {
    ReadText(buf, off + ReasonOffset, ReasonLength)
  }

  /** Copies `min(|s|, 32)` bytes of `s` to offset 1 and zero-fills up to offset 33;
      the code byte and everything outside the body are untouched. */
  function SetReason(buf: seq<byte>, off: nat, s: seq<byte>): (r: seq<byte>)
    requires Fits(buf, off)
    ensures |r| == |buf| && r[off + 1..off + 33] == TextSlot(s, 32)
    ensures forall i :: 0 <= i < |buf| && !(off + 1 <= i < off + 33) ==> r[i] == buf[i]
  {
    WriteText(buf, off + ReasonOffset, ReasonLength, s)
  }

  /** The getter returns a NUL-free reason shorter than its slot exactly as it was set. */
  lemma ReasonRoundTrip(buf: seq<byte>, off: nat, s: seq<byte>)
    requires Fits(buf, off) && |s| < 32 && NulFree(s)
    ensures Reason(SetReason(buf, off, s), off) == s
  {
    CStringAtWriteText(buf, off + ReasonOffset, ReasonLength, s);
  }

  /** The setters chained: `Code(..).Reason(..)`. */
  function Write(buf: seq<byte>, off: nat, b: Body): (r: seq<byte>)
    requires Fits(buf, off)
    ensures |r| == |buf|
  {
    SetReason(SetCode(buf, off, b.code), off, b.reason)
  }

  function Read(buf: seq<byte>, off: nat): Body
    requires Fits(buf, off)
  {
    Body(Code(buf, off), ReasonText(buf, off))
  }

  /** The 33 bytes a body occupies on the wire. */
  function Encode(b: Body): (r: seq<byte>)
    ensures |r| == EncodedLength
  {
    [b.code] + TextSlot(b.reason, ReasonLength)
  }

  function Truncated(b: Body): Body {
    Body(b.code, b.reason[..Min(|b.reason|, ReasonLength)])
  }

  predicate Readable(b: Body) {
    NulFree(Truncated(b).reason)
  }

  lemma CodeRoundTrip(buf: seq<byte>, off: nat, c: byte)
    requires Fits(buf, off)
    ensures Code(SetCode(buf, off, c), off) == c
  {
  }

  /** Setting the code keeps the reason bytes, and setting the reason keeps the code
      byte, so the two writes commute. */
  lemma SettersCommute(buf: seq<byte>, off: nat, c: byte, reason: seq<byte>)
    requires Fits(buf, off)
    ensures SetReason(SetCode(buf, off, c), off, reason) == SetCode(SetReason(buf, off, reason), off, c)
  {
    var a := SetReason(SetCode(buf, off, c), off, reason);
    var b := SetCode(SetReason(buf, off, reason), off, c);
    forall i | 0 <= i < |buf|
      ensures a[i] == b[i]
    {
      if off + 1 <= i < off + 33 {
        assert a[i] == a[off + 1..off + 33][i - off - 1];
        assert b[i] == b[off + 1..off + 33][i - off - 1];
      }
    }
  }

  /** A chained write stores exactly the body's encoding and nothing else. */
  lemma WriteStoresEncoding(buf: seq<byte>, off: nat, b: Body)
    requires Fits(buf, off)
    ensures Write(buf, off, b)[off..off + EncodedLength] == Encode(b)
    ensures forall i :: 0 <= i < |buf| && !(off <= i < off + EncodedLength) ==> Write(buf, off, b)[i] == buf[i]
  {
    var r := Write(buf, off, b);
    assert r[off..off + 33] == [r[off]] + r[off + 1..off + 33];
  }

  /** Reading back a written body gives the code and the reason truncated to its slot. */
  lemma ReadWrite(buf: seq<byte>, off: nat, b: Body)
    requires Fits(buf, off) && Readable(b)
    ensures Read(Write(buf, off, b), off) == Truncated(b)
  {
    ReadTextWriteText(SetCode(buf, off, b.code), off + 1, 32, b.reason);
  }
}
