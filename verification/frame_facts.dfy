/** What a peer finds in each request frame the client sends: a header naming the
    message type, the frame length and the clock reading, a checksum that verifies,
    and the body's encoding right after the header, from which the body reads back. */
module FrameFacts {
  import opened Wire
  import MsgHeader
  import LoginRequest
  import SubmissionRequest
  import LogoutRequest
  import Checksum
  import opened ProtoClient
  import opened SessionSpec

  /** A header followed by a body, with the checksum computed over both, carries the
      header's type, length and timestamp, verifies, and keeps the body unchanged. */
  lemma RequestFrameShape(h: MsgHeader.Header, body: seq<byte>)
    requires h.checksum == 0 && h.msgLen == MsgHeader.EncodedLength + |body|
    requires MsgHeader.EncodedLength + |body| <= Checksum.MaxFrame
    ensures var n := MsgHeader.EncodedLength + |body|;
            var f := Checksum.Checksum(HeaderBytes(h) + body, n);
            MsgHeader.MsgType(f, 0) == h.msgType && MsgHeader.MsgLen(f, 0) == h.msgLen
            && MsgHeader.Timestamp(f, 0) == h.timestamp
            && Checksum.Verifies(f, n) && f[MsgHeader.EncodedLength..] == body
  {
    var n := MsgHeader.EncodedLength + |body|;
    var hb := HeaderBytes(h);
    var raw := hb + body;
    MsgHeader.ReadWrite(Zeros(MsgHeader.EncodedLength), 0, h);
    assert raw[11] == hb[11] && raw[12] == hb[12];
    assert Checksum.Field(raw) == MsgHeader.Checksum(hb, 0) == 0;
    Checksum.VerifyAfterCompute(raw, n);
    var f := Checksum.Checksum(raw, n);
    Checksum.OnlyFieldChanges(raw, n);
    assert f[..11] == hb[..11];
    assert f[13..] == raw[13..] == body;
    assert f[0] == hb[0] && f[1] == hb[1] && f[2] == hb[2];
    assert f[3..11] == hb[3..11];
  }

  /** A body read from a frame whose bytes after the header are the body's encoding. */
  lemma LoginBodyReadsBack(f: seq<byte>, b: LoginRequest.Body)
    requires |f| == LoginRequestLength && f[MsgHeader.EncodedLength..] == LoginRequest.Encode(b)
    requires LoginRequest.Readable(b)
    ensures LoginRequest.Read(f, MsgHeader.EncodedLength) == LoginRequest.Truncated(b)
  {
    var w := LoginRequest.Write(f, 13, b);
    LoginRequest.WriteStoresEncoding(f, 13, b);
    forall i | 13 <= i < |f|
      ensures w[i] == f[i]
    {
      assert w[i] == w[13..109][i - 13] && f[i] == f[13..][i - 13];
    }
    assert w == f;
    LoginRequest.ReadWrite(f, 13, b);
  }

  lemma SubmissionBodyReadsBack(f: seq<byte>, b: SubmissionRequest.Body)
    requires |f| == SubmissionRequestLength && f[MsgHeader.EncodedLength..] == SubmissionRequest.Encode(b)
    requires SubmissionRequest.Readable(b)
    ensures SubmissionRequest.Read(f, MsgHeader.EncodedLength) == SubmissionRequest.Truncated(b)
  {
    var w := SubmissionRequest.Write(f, 13, b);
    SubmissionRequest.WriteStoresEncoding(f, 13, b);
    forall i | 13 <= i < |f|
      ensures w[i] == f[i]
    {
      assert w[i] == w[13..205][i - 13] && f[i] == f[13..][i - 13];
    }
    assert w == f;
    SubmissionRequest.ReadWrite(f, 13, b);
  }

  /** The login request: type 'L', length 109, the login clock reading, a checksum
      that verifies, and user and password that read back cut to their slots. */
  lemma LoginFrameWellFormed(cred: Credentials, stamp: u64)
    ensures var f := LoginFrame(cred, stamp);
            MsgHeader.MsgType(f, 0) == LoginRequest.Tag && MsgHeader.MsgLen(f, 0) == |f|
            && MsgHeader.Timestamp(f, 0) == stamp && Checksum.Verifies(f, |f|)
            && f[MsgHeader.EncodedLength..] == LoginRequest.Encode(LoginBody(cred))
    ensures LoginRequest.Readable(LoginBody(cred)) ==>
              LoginRequest.Read(LoginFrame(cred, stamp), MsgHeader.EncodedLength)
              == LoginRequest.Truncated(LoginBody(cred))
  {
    var h := RequestHeader(LoginRequest.Tag, LoginRequestLength, stamp);
    RequestFrameShape(h, LoginRequest.Encode(LoginBody(cred)));
    if LoginRequest.Readable(LoginBody(cred)) {
      LoginBodyReadsBack(LoginFrame(cred, stamp), LoginBody(cred));
    }
  }

  /** The submission request: type 'S', length 205, the submission clock reading, a
      checksum that verifies, and name, email and repository that read back. */
  lemma SubmissionFrameWellFormed(cred: Credentials, stamp: u64)
    ensures var f := SubmissionFrame(cred, stamp);
            MsgHeader.MsgType(f, 0) == SubmissionRequest.Tag && MsgHeader.MsgLen(f, 0) == |f|
            && MsgHeader.Timestamp(f, 0) == stamp && Checksum.Verifies(f, |f|)
            && f[MsgHeader.EncodedLength..] == SubmissionRequest.Encode(SubmissionBody(cred))
    ensures SubmissionRequest.Readable(SubmissionBody(cred)) ==>
              SubmissionRequest.Read(SubmissionFrame(cred, stamp), MsgHeader.EncodedLength)
              == SubmissionRequest.Truncated(SubmissionBody(cred))
  {
    var h := RequestHeader(SubmissionRequest.Tag, SubmissionRequestLength, stamp);
    RequestFrameShape(h, SubmissionRequest.Encode(SubmissionBody(cred)));
    if SubmissionRequest.Readable(SubmissionBody(cred)) {
      SubmissionBodyReadsBack(SubmissionFrame(cred, stamp), SubmissionBody(cred));
    }
  }

  /** The logout request: a bare header of type 'O' and length 13 that verifies. */
  lemma LogoutFrameWellFormed(stamp: u64)
    ensures var f := LogoutFrame(stamp);
            MsgHeader.MsgType(f, 0) == LogoutRequest.Tag && MsgHeader.MsgLen(f, 0) == |f|
            && MsgHeader.Timestamp(f, 0) == stamp && Checksum.Verifies(f, |f|)
  {
    var h := RequestHeader(LogoutRequest.Tag, LogoutRequestLength, stamp);
    RequestFrameShape(h, []);
    assert HeaderBytes(h) + [] == HeaderBytes(h);
  }
}
