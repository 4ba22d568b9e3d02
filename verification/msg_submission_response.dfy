/** Submission response body (tag 'R', 32 bytes): the session token in a 32-byte text
    slot at 0. */
module SubmissionResponse {
  import opened Wire

  const Tag: byte := 'R' as int
  const EncodedLength: nat := 32

  const TokenOffset: nat := 0
  const TokenLength: nat := 32

  predicate Fits(buf: seq<byte>, off: nat) {
    off + EncodedLength <= |buf|
  }

  /** The constructor's check: fails exactly when fewer than 32 bytes remain after the offset. */
  function Open(bufferLength: nat, offset: nat): (g: Guard)
    ensures g.Ok? <==> bufferLength >= offset + 32
  {
    CheckView(bufferLength, offset, EncodedLength)
  }

  /** The token getter as the client writes it: the C string that starts at the
      slot, which runs on past the slot when the slot holds no NUL. */
  function Token(buf: seq<byte>, off: nat): seq<byte>
    requires Fits(buf, off)
  {
    CStringAt(buf, off + TokenOffset)
  }

  /** The token field read within its slot: the slot up to its first NUL. */
  function TokenText(buf: seq<byte>, off: nat): seq<byte>
    requires Fits(buf, off)
  {
    ReadText(buf, off + TokenOffset, TokenLength)
  }

  /** Copies `min(|s|, 32)` bytes of `s` to the start of the body and zero-fills the
      rest of the slot; nothing outside the body changes. */
  function SetToken(buf: seq<byte>, off: nat, s: seq<byte>): (r: seq<byte>)
    requires Fits(buf, off)
    ensures |r| == |buf| && r[off..off + 32] == TextSlot(s, 32)
    ensures forall i :: 0 <= i < |buf| && !(off <= i < off + 32) ==> r[i] == buf[i]
  {
    WriteText(buf, off + TokenOffset, TokenLength, s)
  }

  /** The getter returns a NUL-free token shorter than its slot exactly as it was set. */
  lemma TokenRoundTrip(buf: seq<byte>, off: nat, s: seq<byte>)
    requires Fits(buf, off) && |s| < 32 && NulFree(s)
    ensures Token(SetToken(buf, off, s), off) == s
  {
    CStringAtWriteText(buf, off + TokenOffset, TokenLength, s);
  }

  /** Reading the token slot back gives what was written, truncated to the slot. */
  lemma TokenTextRoundTrip(buf: seq<byte>, off: nat, s: seq<byte>)
    requires Fits(buf, off) && NulFree(s[..Min(|s|, 32)])
    ensures TokenText(SetToken(buf, off, s), off) == s[..Min(|s|, 32)]
  {
    ReadTextWriteText(buf, off, 32, s);
  }

  /** A token of 32 bytes or more fills the slot with its first 32 bytes and leaves no
      terminator inside the slot. */
  lemma LongTokenFillsSlot(buf: seq<byte>, off: nat, s: seq<byte>)
    requires Fits(buf, off) && |s| >= 32
    ensures SetToken(buf, off, s)[off..off + 32] == s[..32]
  {
  }
}
