/** Logout response body (tag 'G', 32 bytes): a reason in a 32-byte text slot at 0. */
module LogoutResponse {
  import opened Wire

  const Tag: byte := 'G' as int
  const EncodedLength: nat := 32

  const ReasonOffset: nat := 0
  const ReasonLength: nat := 32

  predicate Fits(buf: seq<byte>, off: nat) {
    off + EncodedLength <= |buf|
  }

  /** The constructor's check: fails exactly when fewer than 32 bytes remain after the offset. */
  function Open(bufferLength: nat, offset: nat): (g: Guard)
    ensures g.Ok? <==> bufferLength >= offset + 32
  {
    CheckView(bufferLength, offset, EncodedLength)
  }

  /** The reason getter as the client writes it: the C string that starts at the
      slot, which runs on past the slot when the slot holds no NUL. */
  function Reason(buf: seq<byte>, off: nat): seq<byte>
    requires Fits(buf, off)
  {
    CStringAt(buf, off + ReasonOffset)
  }

  /** The reason field read within its slot: the slot up to its first NUL. */
  function ReasonText(buf: seq<byte>, off: nat): seq<byte>
    requires Fits(buf, off)
  {
    ReadText(buf, off + ReasonOffset, ReasonLength)
  }

  /** Copies `min(|s|, 32)` bytes of `s` to the start of the body and zero-fills the
      rest; no byte outside `[off, off + 32)` changes. */
  function SetReason(buf: seq<byte>, off: nat, s: seq<byte>): (r: seq<byte>)
    requires Fits(buf, off)
    ensures |r| == |buf| && r[off..off + 32] == TextSlot(s, 32)
    ensures forall i :: 0 <= i < |buf| && !(off <= i < off + 32) ==> r[i] == buf[i]
  {
    WriteText(buf, off + ReasonOffset, ReasonLength, s)
  }

  /** The getter returns a NUL-free reason shorter than its slot exactly as it was set. */
  lemma ReasonRoundTrip(buf: seq<byte>, off: nat, s: seq<byte>)
    requires Fits(buf, off) && |s| < 32 && NulFree(s)
    ensures Reason(SetReason(buf, off, s), off) == s
  {
    CStringAtWriteText(buf, off + ReasonOffset, ReasonLength, s);
  }

  /** Reading the reason slot back gives what was written, truncated to the slot. */
  lemma ReasonTextRoundTrip(buf: seq<byte>, off: nat, s: seq<byte>)
    requires Fits(buf, off) && NulFree(s[..Min(|s|, 32)])
    ensures ReasonText(SetReason(buf, off, s), off) == s[..Min(|s|, 32)]
  {
    ReadTextWriteText(buf, off, 32, s);
  }
}
