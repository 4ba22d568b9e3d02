/** Logout request (tag 'O'): an empty body, so the frame is the header alone. */
module LogoutRequest {
  import opened Wire

  const Tag: byte := 'O' as int
  const EncodedLength: nat := 0

  /** The constructor's check: with an empty body it fails only when the offset lies
      beyond the end of the buffer. */
  function Open(bufferLength: nat, offset: nat): (g: Guard)
    ensures g.Ok? <==> bufferLength >= offset
  {
    CheckView(bufferLength, offset, EncodedLength)
  }
}
