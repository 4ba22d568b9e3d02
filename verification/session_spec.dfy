/** The client session described message by message, with no scratch buffer: each
    request is a fixed frame determined by the credentials and the clock, and each
    reply is judged from the peer's bytes alone. The one thing the scratch buffer
    contributes is what the token getter reads past the token slot: the rest of the
    submission request and the bytes beyond the longest frame, which no attempt
    writes. The connection lemma shows the buffered client computes exactly this, and the
    remaining lemmas characterise when an attempt succeeds, ends at the peer's
    logout, or throws, and what a run over several addresses returns. */
module SessionSpec {
  import opened Wire
  import MsgHeader
  import LoginRequest
  import LoginResponse
  import SubmissionRequest
  import SubmissionResponse
  import LogoutRequest
  import LogoutResponse
  import Checksum
  import opened ProtoClient

  // ---------------------------------------------------------------------------
  // The frames the client sends

  /** The 13 bytes a header occupies on the wire. */
  function HeaderBytes(h: MsgHeader.Header): (r: seq<byte>)
    ensures |r| == MsgHeader.EncodedLength
  {
    MsgHeader.Write(Zeros(MsgHeader.EncodedLength), 0, h)
  }

  function LoginFrame(cred: Credentials, stamp: u64): (f: seq<byte>)
    ensures |f| == LoginRequestLength
  {
    var h := RequestHeader(LoginRequest.Tag, LoginRequestLength, stamp);
    Checksum.Checksum(HeaderBytes(h) + LoginRequest.Encode(LoginBody(cred)), LoginRequestLength)
  }

  function SubmissionFrame(cred: Credentials, stamp: u64): (f: seq<byte>)
    ensures |f| == SubmissionRequestLength
  {
    var h := RequestHeader(SubmissionRequest.Tag, SubmissionRequestLength, stamp);
    Checksum.Checksum(HeaderBytes(h) + SubmissionRequest.Encode(SubmissionBody(cred)), SubmissionRequestLength)
  }

  function LogoutFrame(stamp: u64): (f: seq<byte>)
    ensures |f| == LogoutRequestLength
  {
    var h := RequestHeader(LogoutRequest.Tag, LogoutRequestLength, stamp);
    Checksum.Checksum(HeaderBytes(h), LogoutRequestLength)
  }

  // ---------------------------------------------------------------------------
  // How the client judges the peer's bytes

  /** Reading an `n`-byte frame and verifying it. */
  function Inspect(c: Conn, n: nat): (e: Exchange)
    requires MsgHeader.EncodedLength <= n
    ensures e.verdict.Continue? <==> n <= |c.inbound| && Checksum.Verifies(c.inbound[..n], n)
    ensures e.verdict.Stop? ==> e.verdict.outcome in {Failed(ReadFailed), Failed(BadChecksum)}
    ensures e.conn.inbound == if n <= |c.inbound| then c.inbound[n..] else []
    ensures e.conn.accepts == c.accepts && e.conn.sent == c.sent
  {
    var r := Receive(c, n);
    if !r.complete then Exchange(r.conn, Stop(Failed(ReadFailed)))
    else if Checksum.Verifies(r.data, n) then Exchange(r.conn, Continue)
    else Exchange(r.conn, Stop(Failed(BadChecksum)))
  }

  /** A logout response where another reply was expected. */
  function PeerLogoutReply(c: Conn): (e: Exchange)
    ensures e.conn.accepts == c.accepts && e.conn.sent == c.sent
    ensures e.verdict.Stop? && e.verdict.outcome != Success
  {
    var f := Inspect(c, LogoutResponseLength);
    if f.verdict.Stop? then f else Exchange(f.conn, Stop(PeerLogout))
  }

  /** A login response: verified, then accepted or rejected by its code. */
  function LoginAnswer(c: Conn): (e: Exchange)
    ensures e.verdict.Continue? ==> LoginResponseLength <= |c.inbound|
    ensures e.verdict.Stop? ==> e.verdict.outcome != Success
    ensures e.conn.accepts == c.accepts && e.conn.sent == c.sent
  {
    var f := Inspect(c, LoginResponseLength);
    if f.verdict.Stop? then f
    else if c.inbound[13] == LoginResponse.Accepted then f
    else Exchange(f.conn, Stop(Failed(LoginRejected(ReadText(c.inbound, 14, 32)))))
  }

  /** The login reply, judged on the peer's bytes. */
  function LoginReply(c: Conn): (e: Exchange)
    ensures e.verdict.Continue? ==> LoginResponseLength <= |c.inbound|
    ensures e.verdict.Stop? ==> e.verdict.outcome != Success
    ensures e.conn.accepts == c.accepts && e.conn.sent == c.sent
  {
    var h := Receive(c, MsgHeader.EncodedLength);
    if !h.complete then Exchange(h.conn, Stop(Failed(ReadFailed)))
    else if c.inbound[0] == LoginResponse.Tag then LoginAnswer(c)
    else if c.inbound[0] == LogoutResponse.Tag then PeerLogoutReply(c)
    else Exchange(h.conn, Stop(Failed(UnexpectedResponse)))
  }

  /** The submission reply, judged on the peer's bytes. */
  function SubmissionReply(c: Conn): (e: Exchange)
    ensures e.verdict.Continue? ==> SubmissionResponseLength <= |c.inbound|
    ensures e.verdict.Stop? ==> e.verdict.outcome != Success
    ensures e.conn.accepts == c.accepts && e.conn.sent == c.sent
  {
    var h := Receive(c, MsgHeader.EncodedLength);
    if !h.complete then Exchange(h.conn, Stop(Failed(ReadFailed)))
    else if c.inbound[0] == SubmissionResponse.Tag then Inspect(c, SubmissionResponseLength)
    else if c.inbound[0] == LogoutResponse.Tag then PeerLogoutReply(c)
    else Exchange(h.conn, Stop(Failed(UnexpectedResponse)))
  }

  /** The token the getter reads from a submission response at the head of the
      peer's bytes: the token slot and, when the slot holds no NUL, on into `trail`,
      the bytes that follow the slot in the client's buffer. */
  function TokenOf(inbound: seq<byte>, trail: seq<byte>): seq<byte>
    requires SubmissionResponseLength <= |inbound|
  {
    TakeUntilNul(inbound[MsgHeader.EncodedLength..SubmissionResponseLength] + trail)
  }

  /** The token is the slot's text when the slot holds a NUL, and otherwise the whole
      slot followed by the string that starts the trail. */
  lemma TokenOfSlot(inbound: seq<byte>, trail: seq<byte>)
    requires SubmissionResponseLength <= |inbound|
    ensures TokenOf(inbound, trail) ==
              if |ReadText(inbound, 13, 32)| < 32 then ReadText(inbound, 13, 32)
              else inbound[13..45] + TakeUntilNul(trail)
  {
    TakeUntilNulAppend(inbound[13..45], trail);
  }

  /** What an attempt comes to: its outcome, the token it leaves and the connection. */
  datatype Expectation = Expectation(outcome: Outcome, token: seq<byte>, conn: Conn)

  /** The three frames of an attempt, and what follows the token slot in the client's
      buffer once the submission response is read into it. */
  datatype Requests = Requests(login: seq<byte>, submission: seq<byte>, logout: seq<byte>, trail: seq<byte>)

  /** The frames for these credentials and clock readings; the trail is the rest of the
      submission request past byte 45, then `residue`, the buffer past the longest frame. */
  function RequestsFor(cred: Credentials, stamps: Stamps, residue: seq<byte>): (q: Requests)
    ensures |q.login| == LoginRequestLength && |q.submission| == SubmissionRequestLength
    ensures |q.logout| == LogoutRequestLength
    ensures q.trail == q.submission[SubmissionResponseLength..] + residue
  {
    var submission := SubmissionFrame(cred, stamps.submission);
    Requests(LoginFrame(cred, stamps.login), submission, LogoutFrame(stamps.logout),
             submission[SubmissionResponseLength..] + residue)
  }

  /** Everything an attempt writes when it completes: the three frames in order. */
  function Script(q: Requests): seq<byte> {
    q.login + q.submission + q.logout
  }

  /** What an attempt on `peer` comes to, for a client whose buffer holds `residue`
      past the longest frame. */
  function Expected(cred: Credentials, peer: Peer, residue: seq<byte>): Expectation {
    var c0 := Conn(peer.inbound, peer.accepts, []);
    if !peer.connects then Expectation(Failed(ConnectFailed), [], c0)
    else LoginStage(c0, RequestsFor(cred, peer.stamps, residue))
  }

  function LoginStage(c: Conn, q: Requests): Expectation {
    var w := Transmit(c, q.login);
    if w.verdict.Stop? then Expectation(w.verdict.outcome, [], w.conn) else
    var r := LoginReply(w.conn);
    if r.verdict.Stop? then Expectation(r.verdict.outcome, [], r.conn)
    else SubmissionStage(r.conn, q)
  }

  function SubmissionStage(c: Conn, q: Requests): Expectation {
    var w := Transmit(c, q.submission);
    if w.verdict.Stop? then Expectation(w.verdict.outcome, [], w.conn) else
    var r := SubmissionReply(w.conn);
    if r.verdict.Stop? then Expectation(r.verdict.outcome, [], r.conn)
    else LogoutStage(r.conn, q, TokenOf(w.conn.inbound, q.trail))
  }

  /** The logout exchange; the token stays what the submission left. */
  function LogoutStage(c: Conn, q: Requests, token: seq<byte>): Expectation {
    var w := Transmit(c, q.logout);
    if w.verdict.Stop? then Expectation(w.verdict.outcome, token, w.conn) else
    var r := Inspect(w.conn, LogoutResponseLength);
    if r.verdict.Stop? then Expectation(r.verdict.outcome, token, r.conn)
    else Expectation(Success, token, r.conn)
  }

  // ---------------------------------------------------------------------------
  // The buffered client sends these frames, whatever the buffer held

  lemma PreparedLoginFrame(buf: seq<byte>, cred: Credentials, stamp: u64)
    requires |buf| == BufferSize
    ensures PrepareLogin(buf, cred, stamp)[..LoginRequestLength] == LoginFrame(cred, stamp)
  {
    var h := RequestHeader(LoginRequest.Tag, LoginRequestLength, stamp);
    var b1 := MsgHeader.Write(buf, 0, h);
    var b2 := LoginRequest.Write(b1, MsgHeader.EncodedLength, LoginBody(cred));
    MsgHeader.WriteOverwritesHeader(buf, Zeros(MsgHeader.EncodedLength), 0, h);
    LoginRequest.WriteStoresEncoding(b1, MsgHeader.EncodedLength, LoginBody(cred));
    var pre := HeaderBytes(h) + LoginRequest.Encode(LoginBody(cred));
    assert b2[..13] == b1[..13] == HeaderBytes(h);
    assert b2[..LoginRequestLength] == b2[..13] + b2[13..LoginRequestLength] == pre;
    Checksum.ChecksumPrefix(b2, LoginRequestLength);
    assert PrepareLogin(buf, cred, stamp) == Checksum.Checksum(b2, LoginRequestLength);
    assert LoginFrame(cred, stamp) == Checksum.Checksum(pre, LoginRequestLength);
  }

  lemma PreparedSubmissionFrame(buf: seq<byte>, cred: Credentials, stamp: u64)
    requires |buf| == BufferSize
    ensures PrepareSubmission(buf, cred, stamp)[..SubmissionRequestLength] == SubmissionFrame(cred, stamp)
  {
    var h := RequestHeader(SubmissionRequest.Tag, SubmissionRequestLength, stamp);
    var b1 := MsgHeader.Write(buf, 0, h);
    var b2 := SubmissionRequest.Write(b1, MsgHeader.EncodedLength, SubmissionBody(cred));
    MsgHeader.WriteOverwritesHeader(buf, Zeros(MsgHeader.EncodedLength), 0, h);
    SubmissionRequest.WriteStoresEncoding(b1, MsgHeader.EncodedLength, SubmissionBody(cred));
    var pre := HeaderBytes(h) + SubmissionRequest.Encode(SubmissionBody(cred));
    assert b2[..13] == b1[..13] == HeaderBytes(h);
    assert b2[..SubmissionRequestLength] == b2[..13] + b2[13..SubmissionRequestLength] == pre;
    Checksum.ChecksumPrefix(b2, SubmissionRequestLength);
    assert PrepareSubmission(buf, cred, stamp) == Checksum.Checksum(b2, SubmissionRequestLength);
    assert SubmissionFrame(cred, stamp) == Checksum.Checksum(pre, SubmissionRequestLength);
  }

  lemma PreparedLogoutFrame(buf: seq<byte>, stamp: u64)
    requires |buf| == BufferSize
    ensures PrepareLogout(buf, stamp)[..LogoutRequestLength] == LogoutFrame(stamp)
  {
    var h := RequestHeader(LogoutRequest.Tag, LogoutRequestLength, stamp);
    var b1 := MsgHeader.Write(buf, 0, h);
    MsgHeader.WriteOverwritesHeader(buf, Zeros(MsgHeader.EncodedLength), 0, h);
    assert b1[..LogoutRequestLength] == HeaderBytes(h);
    Checksum.ChecksumPrefix(b1, LogoutRequestLength);
    assert PrepareLogout(buf, stamp) == Checksum.Checksum(b1, LogoutRequestLength);
    assert LogoutFrame(stamp) == Checksum.Checksum(HeaderBytes(h), LogoutRequestLength);
  }

  /** Past the token slot's end, the buffer with the submission request built in it
      holds the rest of the request and then the residue. */
  lemma PreparedSubmissionTrail(buf: seq<byte>, cred: Credentials, stamp: u64)
    requires |buf| == BufferSize
    ensures PrepareSubmission(buf, cred, stamp)[SubmissionResponseLength..]
         == SubmissionFrame(cred, stamp)[SubmissionResponseLength..] + Residue(buf)
  {
    var p := PrepareSubmission(buf, cred, stamp);
    PreparedSubmissionFrame(buf, cred, stamp);
    assert p[45..] == p[..205][45..] + p[205..];
  }

  // ---------------------------------------------------------------------------
  // Each buffered step does what the message-level step says

  lemma WriteLoginMatches(s: Session, cred: Credentials, stamp: u64)
    requires Valid(s)
    ensures WriteLoginRequest(s, cred, stamp).s.conn == Transmit(s.conn, LoginFrame(cred, stamp)).conn
    ensures WriteLoginRequest(s, cred, stamp).verdict == Transmit(s.conn, LoginFrame(cred, stamp)).verdict
  {
    PreparedLoginFrame(s.buf, cred, stamp);
  }

  lemma WriteSubmissionMatches(s: Session, cred: Credentials, stamp: u64)
    requires Valid(s)
    ensures WriteSubmissionRequest(s, cred, stamp).s.conn == Transmit(s.conn, SubmissionFrame(cred, stamp)).conn
    ensures WriteSubmissionRequest(s, cred, stamp).verdict == Transmit(s.conn, SubmissionFrame(cred, stamp)).verdict
  {
    PreparedSubmissionFrame(s.buf, cred, stamp);
  }

  lemma WriteLogoutMatches(s: Session, stamp: u64)
    requires Valid(s)
    ensures WriteLogoutRequest(s, stamp).s.conn == Transmit(s.conn, LogoutFrame(stamp)).conn
    ensures WriteLogoutRequest(s, stamp).verdict == Transmit(s.conn, LogoutFrame(stamp)).verdict
  {
    PreparedLogoutFrame(s.buf, stamp);
  }

  /** Reading a header and then the body of an `n`-byte frame into the buffer, and
      verifying it there, judges the frame exactly as `Inspect` does on the peer's
      bytes; a frame that passes is in the buffer unchanged past the header. */
  lemma ReadBodyMatches(s: Session, n: nat)
    requires Valid(s) && MsgHeader.EncodedLength <= n <= SubmissionRequestLength
    requires MsgHeader.EncodedLength <= |s.conn.inbound|
    ensures ReadBodyAndVerify(ReadExact(s, 0, 13).s, n).s.conn == Inspect(s.conn, n).conn
    ensures ReadBodyAndVerify(ReadExact(s, 0, 13).s, n).verdict == Inspect(s.conn, n).verdict
    ensures ReadBodyAndVerify(ReadExact(s, 0, 13).s, n).verdict.Continue? ==>
              ReadBodyAndVerify(ReadExact(s, 0, 13).s, n).s.buf[13..n] == s.conn.inbound[13..n]
  {
    var inb := s.conn.inbound;
    var h := ReadExact(s, 0, 13);
    var b := ReadExact(h.s, 13, n - 13);
    assert h.s.conn.inbound == inb[13..];
    if b.verdict.Continue? {
      assert b.s.buf[..13] == h.s.buf[..13] == inb[..13];
      assert b.s.buf[13..n] == inb[13..][..n - 13] == inb[13..n];
      assert b.s.buf[..n] == b.s.buf[..13] + b.s.buf[13..n] == inb[..n];
      assert b.s.conn.inbound == inb[n..];
      Checksum.ChecksumPrefix(b.s.buf, n);
      var f := VerifyFrame(b.s, n);
      assert f.s.buf[13..n] == b.s.buf[13..n];
    }
  }

  /** Reading and verifying a frame leaves the buffer past the frame as it was. */
  lemma ReadBodyKeepsTail(s: Session, n: nat)
    requires Valid(s) && MsgHeader.EncodedLength <= n <= SubmissionRequestLength
    ensures ReadBodyAndVerify(ReadExact(s, 0, 13).s, n).s.buf[n..] == s.buf[n..]
  {
    var h := ReadExact(s, 0, 13);
    assert h.s.buf[n..] == s.buf[n..];
  }

  lemma PeerLogoutMatches(s: Session)
    requires Valid(s) && MsgHeader.EncodedLength <= |s.conn.inbound|
    ensures ReadPeerLogout(ReadExact(s, 0, 13).s).s.conn == PeerLogoutReply(s.conn).conn
    ensures ReadPeerLogout(ReadExact(s, 0, 13).s).verdict == PeerLogoutReply(s.conn).verdict
  {
    ReadBodyMatches(s, LogoutResponseLength);
  }

  lemma LoginBodyMatches(s: Session)
    requires Valid(s) && MsgHeader.EncodedLength <= |s.conn.inbound|
    ensures ReadLoginBody(ReadExact(s, 0, 13).s).s.conn == LoginAnswer(s.conn).conn
    ensures ReadLoginBody(ReadExact(s, 0, 13).s).verdict == LoginAnswer(s.conn).verdict
  {
    var h := ReadExact(s, 0, 13);
    ReadBodyMatches(s, LoginResponseLength);
    var f := ReadBodyAndVerify(h.s, LoginResponseLength);
    if f.verdict.Continue? {
      assert f.s.buf[14..46] == s.conn.inbound[14..46];
    }
  }

  lemma SubmissionBodyMatches(s: Session)
    requires Valid(s) && MsgHeader.EncodedLength <= |s.conn.inbound|
    ensures ReadSubmissionBody(ReadExact(s, 0, 13).s).s.conn == Inspect(s.conn, SubmissionResponseLength).conn
    ensures ReadSubmissionBody(ReadExact(s, 0, 13).s).verdict == Inspect(s.conn, SubmissionResponseLength).verdict
    ensures ReadSubmissionBody(ReadExact(s, 0, 13).s).verdict.Continue? ==>
              ReadSubmissionBody(ReadExact(s, 0, 13).s).s.token == TokenOf(s.conn.inbound, s.buf[45..])
  {
    ReadBodyMatches(s, SubmissionResponseLength);
    ReadBodyKeepsTail(s, SubmissionResponseLength);
    var f := ReadBodyAndVerify(ReadExact(s, 0, 13).s, SubmissionResponseLength);
    if f.verdict.Continue? {
      TokenFromBuffer(f.s.buf, s.conn.inbound);
    }
  }

  /** The token getter reads the token slot, filled from the peer's bytes, and on into
      whatever the buffer holds after it. */
  lemma TokenFromBuffer(buf: seq<byte>, inbound: seq<byte>)
    requires |buf| == BufferSize && SubmissionResponseLength <= |inbound|
    requires buf[13..45] == inbound[13..45]
    ensures SubmissionResponse.Token(buf, 13) == TokenOf(inbound, buf[45..])
  {
    assert buf[13..] == inbound[13..45] + buf[45..];
  }

  lemma ReadLoginMatches(s: Session)
    requires Valid(s)
    ensures ReadLoginResponse(s).s.conn == LoginReply(s.conn).conn
    ensures ReadLoginResponse(s).verdict == LoginReply(s.conn).verdict
  {
    var inb := s.conn.inbound;
    if 13 <= |inb| {
      var h := ReadExact(s, 0, 13);
      assert MsgHeader.MsgType(h.s.buf, 0) == inb[0];
      if inb[0] == LoginResponse.Tag {
        LoginBodyMatches(s);
      } else if inb[0] == LogoutResponse.Tag {
        PeerLogoutMatches(s);
      }
    }
  }

  lemma ReadSubmissionMatches(s: Session)
    requires Valid(s)
    ensures ReadSubmissionResponse(s).s.conn == SubmissionReply(s.conn).conn
    ensures ReadSubmissionResponse(s).verdict == SubmissionReply(s.conn).verdict
    ensures ReadSubmissionResponse(s).verdict.Continue? ==>
              ReadSubmissionResponse(s).s.token == TokenOf(s.conn.inbound, s.buf[45..])
  {
    var inb := s.conn.inbound;
    if 13 <= |inb| {
      var h := ReadExact(s, 0, 13);
      assert MsgHeader.MsgType(h.s.buf, 0) == inb[0];
      if inb[0] == SubmissionResponse.Tag {
        SubmissionBodyMatches(s);
      } else if inb[0] == LogoutResponse.Tag {
        PeerLogoutMatches(s);
      }
    }
  }

  lemma ReadLogoutMatches(s: Session)
    requires Valid(s)
    ensures ReadLogoutResponse(s).s.conn == Inspect(s.conn, LogoutResponseLength).conn
    ensures ReadLogoutResponse(s).verdict == Inspect(s.conn, LogoutResponseLength).verdict
  {
    var f := ReadExact(s, 0, LogoutResponseLength);
    if f.verdict.Continue? {
      assert f.s.buf[..45] == s.conn.inbound[..45];
      Checksum.ChecksumPrefix(f.s.buf, LogoutResponseLength);
    }
  }

  // ---------------------------------------------------------------------------
  // One attempt

  /** What an attempt of the buffered client comes to, leaving its buffer aside. */
  function Observed(a: Attempt): Expectation {
    Expectation(a.outcome, a.s.token, a.s.conn)
  }

  lemma LogoutPhaseMatches(s: Session, cred: Credentials, stamps: Stamps, residue: seq<byte>)
    requires Valid(s)
    ensures Observed(LogoutPhase(s, stamps.logout)) == LogoutStage(s.conn, RequestsFor(cred, stamps, residue), s.token)
  {
    WriteLogoutMatches(s, stamps.logout);
    ReadLogoutMatches(WriteLogoutRequest(s, stamps.logout).s);
  }

  lemma SubmissionPhaseMatches(s: Session, cred: Credentials, stamps: Stamps)
    requires Valid(s) && s.token == []
    ensures Observed(SubmissionPhase(s, cred, stamps)) == SubmissionStage(s.conn, RequestsFor(cred, stamps, Residue(s.buf)))
  {
    var q := RequestsFor(cred, stamps, Residue(s.buf));
    var w := WriteSubmissionRequest(s, cred, stamps.submission);
    var t := Transmit(s.conn, q.submission);
    WriteSubmissionMatches(s, cred, stamps.submission);
    assert w.s.conn == t.conn && w.verdict == t.verdict;
    if w.verdict.Stop? {
      assert SubmissionStage(s.conn, q) == Expectation(t.verdict.outcome, [], t.conn);
      assert SubmissionPhase(s, cred, stamps) == Attempt(w.verdict.outcome, w.s);
    } else {
      var r := ReadSubmissionResponse(w.s);
      var e := SubmissionReply(t.conn);
      ReadSubmissionMatches(w.s);
      assert r.s.conn == e.conn && r.verdict == e.verdict;
      if r.verdict.Stop? {
        assert SubmissionStage(s.conn, q) == Expectation(e.verdict.outcome, [], e.conn);
        assert SubmissionPhase(s, cred, stamps) == Attempt(r.verdict.outcome, r.s);
        assert r.s.token == [];
      } else {
        PreparedSubmissionTrail(s.buf, cred, stamps.submission);
        assert w.s.buf[45..] == q.trail;
        assert r.s.token == TokenOf(t.conn.inbound, q.trail);
        LogoutPhaseMatches(r.s, cred, stamps, Residue(s.buf));
        assert SubmissionStage(s.conn, q) == LogoutStage(e.conn, q, TokenOf(t.conn.inbound, q.trail));
        assert SubmissionPhase(s, cred, stamps) == LogoutPhase(r.s, stamps.logout);
        assert Observed(LogoutPhase(r.s, stamps.logout)) == LogoutStage(e.conn, q, TokenOf(t.conn.inbound, q.trail));
      }
    }
  }

  lemma LoginPhaseMatches(s: Session, cred: Credentials, stamps: Stamps)
    requires Valid(s) && s.token == []
    ensures Observed(LoginPhase(s, cred, stamps)) == LoginStage(s.conn, RequestsFor(cred, stamps, Residue(s.buf)))
  {
    var q := RequestsFor(cred, stamps, Residue(s.buf));
    var w := WriteLoginRequest(s, cred, stamps.login);
    WriteLoginMatches(s, cred, stamps.login);
    assert w.s.conn == Transmit(s.conn, q.login).conn;
    if w.verdict.Continue? {
      var r := ReadLoginResponse(w.s);
      ReadLoginMatches(w.s);
      if r.verdict.Continue? {
        SubmissionPhaseMatches(r.s, cred, stamps);
      }
    }
  }

  /** An attempt of the buffered client comes to exactly the message-level
      expectation for its buffer's residue: same outcome, same token, same bytes
      written and consumed. */
  lemma RunOneMatchesExpected(client: Client, cred: Credentials, peer: Peer)
    requires ValidClient(client)
    ensures Observed(RunOne(client, cred, peer)) == Expected(cred, peer, Residue(client.buf))
  {
    if peer.connects {
      LoginPhaseMatches(Session(client.buf, [], Conn(peer.inbound, peer.accepts, [])), cred, peer.stamps);
    }
  }

  // ---------------------------------------------------------------------------
  // When an attempt succeeds

  /** The peer's bytes hold, from `at`, an `n`-byte frame that verifies. */
  predicate FrameAt(inb: seq<byte>, at: nat, n: nat)
    requires MsgHeader.EncodedLength <= n
  {
    at + n <= |inb| && Checksum.Verifies(inb[at..at + n], n)
  }

  /** Bytes the client writes in a complete attempt. */
  const ScriptLength: nat := LoginRequestLength + SubmissionRequestLength + LogoutRequestLength

  /** An attempt completes exactly when the connection opens, the peer takes all
      three requests, and its bytes are a verified login response with code 'Y', a
      verified submission response, and 45 more bytes that verify (of any type). */
  predicate Completes(peer: Peer) {
    var inb := peer.inbound;
    peer.connects && ScriptLength <= peer.accepts
    && FrameAt(inb, 0, LoginResponseLength) && inb[0] == LoginResponse.Tag && inb[13] == LoginResponse.Accepted
    && FrameAt(inb, 46, SubmissionResponseLength) && inb[46] == SubmissionResponse.Tag
    && FrameAt(inb, 91, LogoutResponseLength)
  }

  lemma LoginReplyContinues(c: Conn)
    ensures LoginReply(c).verdict.Continue? <==>
              FrameAt(c.inbound, 0, LoginResponseLength)
              && c.inbound[0] == LoginResponse.Tag && c.inbound[13] == LoginResponse.Accepted
  {
  }

  lemma LoginReplyConsumes(c: Conn)
    ensures LoginReply(c).verdict.Continue? ==> LoginReply(c).conn.inbound == c.inbound[46..]
  {
  }

  lemma SubmissionReplyContinues(c: Conn)
    ensures SubmissionReply(c).verdict.Continue? <==>
              FrameAt(c.inbound, 0, SubmissionResponseLength) && c.inbound[0] == SubmissionResponse.Tag
  {
  }

  lemma SubmissionReplyConsumes(c: Conn)
    ensures SubmissionReply(c).verdict.Continue? ==> SubmissionReply(c).conn.inbound == c.inbound[45..]
  {
  }

  lemma LogoutStageSuccess(c: Conn, q: Requests, token: seq<byte>)
    requires |q.logout| == LogoutRequestLength
    ensures LogoutStage(c, q, token).token == token
    ensures LogoutStage(c, q, token).outcome == Success <==>
              LogoutRequestLength <= c.accepts && FrameAt(c.inbound, 0, LogoutResponseLength)
    ensures LogoutStage(c, q, token).outcome == Success ==> LogoutStage(c, q, token).conn.sent == c.sent + q.logout
  {
  }

  lemma SubmissionStageSuccess(c: Conn, q: Requests)
    requires |q.submission| == SubmissionRequestLength && |q.logout| == LogoutRequestLength
    ensures SubmissionStage(c, q).outcome == Success <==>
              SubmissionRequestLength + LogoutRequestLength <= c.accepts
              && FrameAt(c.inbound, 0, SubmissionResponseLength) && c.inbound[0] == SubmissionResponse.Tag
              && FrameAt(c.inbound, 45, LogoutResponseLength)
  {
    var w := Transmit(c, q.submission);
    if w.verdict.Stop? {
      assert SubmissionStage(c, q) == Expectation(w.verdict.outcome, [], w.conn);
    } else {
      var r := SubmissionReply(w.conn);
      SubmissionReplyContinues(w.conn);
      if r.verdict.Stop? {
        assert SubmissionStage(c, q) == Expectation(r.verdict.outcome, [], r.conn);
      } else {
        SubmissionReplyConsumes(w.conn);
        LogoutStageSuccess(r.conn, q, TokenOf(w.conn.inbound, q.trail));
        FrameAtShift(c.inbound, 45, 0, LogoutResponseLength);
        assert r.conn.accepts == c.accepts - SubmissionRequestLength;
        assert SubmissionStage(c, q) == LogoutStage(r.conn, q, TokenOf(w.conn.inbound, q.trail));
      }
    }
  }

  lemma SubmissionStageEffects(c: Conn, q: Requests)
    requires |q.submission| == SubmissionRequestLength && |q.logout| == LogoutRequestLength
    ensures SubmissionStage(c, q).outcome == Success ==>
              SubmissionStage(c, q).token == TokenOf(c.inbound, q.trail)
              && SubmissionStage(c, q).conn.sent == c.sent + q.submission + q.logout
  {
    var w := Transmit(c, q.submission);
    var r := SubmissionReply(w.conn);
    if w.verdict.Continue? && r.verdict.Continue? {
      LogoutStageSuccess(r.conn, q, TokenOf(w.conn.inbound, q.trail));
    }
  }

  /** A frame found after dropping `k` bytes is the frame `k` bytes further on. */
  lemma FrameAtShift(inb: seq<byte>, k: nat, at: nat, n: nat)
    requires MsgHeader.EncodedLength <= n && k <= |inb|
    ensures FrameAt(inb[k..], at, n) <==> FrameAt(inb, k + at, n)
  {
    if k + at + n <= |inb| {
      assert inb[k..][at..at + n] == inb[k + at..k + at + n];
    }
  }

  lemma LoginStageSuccess(c: Conn, q: Requests)
    requires |q.login| == LoginRequestLength && |q.submission| == SubmissionRequestLength
    requires |q.logout| == LogoutRequestLength
    ensures LoginStage(c, q).outcome == Success <==>
              ScriptLength <= c.accepts
              && FrameAt(c.inbound, 0, LoginResponseLength)
              && c.inbound[0] == LoginResponse.Tag && c.inbound[13] == LoginResponse.Accepted
              && FrameAt(c.inbound, 46, SubmissionResponseLength) && c.inbound[46] == SubmissionResponse.Tag
              && FrameAt(c.inbound, 91, LogoutResponseLength)
  {
    if LoginRequestLength <= c.accepts && FrameAt(c.inbound, 0, LoginResponseLength)
       && c.inbound[0] == LoginResponse.Tag && c.inbound[13] == LoginResponse.Accepted {
      AcceptedLoginStageSuccess(c, q);
    } else {
      LoginStageNoToken(c, q);
    }
  }

  /** After an accepted login, the attempt succeeds exactly when the submission and
      logout exchanges that follow on the rest of the bytes do. */
  lemma AcceptedLoginStageSuccess(c: Conn, q: Requests)
    requires |q.login| == LoginRequestLength && |q.submission| == SubmissionRequestLength
    requires |q.logout| == LogoutRequestLength
    requires LoginRequestLength <= c.accepts && FrameAt(c.inbound, 0, LoginResponseLength)
    requires c.inbound[0] == LoginResponse.Tag && c.inbound[13] == LoginResponse.Accepted
    ensures LoginStage(c, q).outcome == Success <==>
              ScriptLength <= c.accepts
              && FrameAt(c.inbound, 46, SubmissionResponseLength) && c.inbound[46] == SubmissionResponse.Tag
              && FrameAt(c.inbound, 91, LogoutResponseLength)
  {
    var c1 := Conn(c.inbound[46..], c.accepts - LoginRequestLength, c.sent + q.login);
    LoginStageContinues(c, q);
    SubmissionStageSuccess(c1, q);
    AcceptedConditionsShift(c, c1);
  }

  /** The conditions for the submission and logout exchanges, read on the bytes left
      after the login reply, are the same conditions read 46 bytes further on. */
  lemma AcceptedConditionsShift(c: Conn, c1: Conn)
    requires LoginResponseLength <= |c.inbound| && LoginRequestLength <= c.accepts
    requires c1.inbound == c.inbound[46..] && c1.accepts == c.accepts - LoginRequestLength
    ensures (SubmissionRequestLength + LogoutRequestLength <= c1.accepts
             && FrameAt(c1.inbound, 0, SubmissionResponseLength) && c1.inbound[0] == SubmissionResponse.Tag
             && FrameAt(c1.inbound, 45, LogoutResponseLength))
            <==>
            (ScriptLength <= c.accepts
             && FrameAt(c.inbound, 46, SubmissionResponseLength) && c.inbound[46] == SubmissionResponse.Tag
             && FrameAt(c.inbound, 91, LogoutResponseLength))
  {
    FrameAtShift(c.inbound, 46, 0, SubmissionResponseLength);
    FrameAtShift(c.inbound, 46, 45, LogoutResponseLength);
    if 46 < |c.inbound| {
      assert c1.inbound[0] == c.inbound[46];
    }
  }

  /** The login stage on a connection that takes the request and answers with a
      verified login response whose code is 'Y' goes on to the submission stage on
      the rest of the bytes. */
  lemma LoginStageContinues(c: Conn, q: Requests)
    requires |q.login| == LoginRequestLength && LoginRequestLength <= c.accepts
    requires FrameAt(c.inbound, 0, LoginResponseLength)
    requires c.inbound[0] == LoginResponse.Tag && c.inbound[13] == LoginResponse.Accepted
    ensures LoginStage(c, q)
            == SubmissionStage(Conn(c.inbound[46..], c.accepts - LoginRequestLength, c.sent + q.login), q)
  {
    var w := Transmit(c, q.login);
    assert w.verdict.Continue?;
    assert w.conn == Conn(c.inbound, c.accepts - LoginRequestLength, c.sent + q.login);
    var r := LoginReply(w.conn);
    LoginReplyContinues(w.conn);
    LoginReplyConsumes(w.conn);
    assert r.verdict.Continue?;
    assert r.conn == Conn(c.inbound[46..], c.accepts - LoginRequestLength, c.sent + q.login);
  }

  /** Otherwise the login stage stops there, with no token. */
  lemma LoginStageNoToken(c: Conn, q: Requests)
    requires |q.login| == LoginRequestLength
    requires !(LoginRequestLength <= c.accepts && FrameAt(c.inbound, 0, LoginResponseLength)
               && c.inbound[0] == LoginResponse.Tag && c.inbound[13] == LoginResponse.Accepted)
    ensures LoginStage(c, q).token == [] && LoginStage(c, q).outcome != Success
  {
    var w := Transmit(c, q.login);
    if w.verdict.Continue? {
      LoginReplyContinues(w.conn);
      assert LoginReply(w.conn).verdict.Stop?;
    }
  }


  lemma LoginStageEffects(c: Conn, q: Requests)
    requires |q.login| == LoginRequestLength && |q.submission| == SubmissionRequestLength
    requires |q.logout| == LogoutRequestLength
    ensures LoginStage(c, q).outcome == Success ==>
              LoginStage(c, q).token == TokenOf(c.inbound[46..], q.trail)
              && LoginStage(c, q).conn.sent == c.sent + Script(q)
  {
    var w := Transmit(c, q.login);
    LoginReplyConsumes(w.conn);
    var r := LoginReply(w.conn);
    if w.verdict.Continue? && r.verdict.Continue? {
      SubmissionStageEffects(r.conn, q);
      assert r.conn.sent == c.sent + q.login;
      ScriptAfter(c.sent, q);
    }
  }

  lemma ScriptAfter(a: seq<byte>, q: Requests)
    ensures a + q.login + q.submission + q.logout == a + Script(q)
  {
  }

  lemma TokenAfterLogin(inb: seq<byte>, trail: seq<byte>)
    requires 91 <= |inb|
    ensures TokenOf(inb[46..], trail) == TakeUntilNul(inb[59..91] + trail)
  {
    assert inb[46..][13..45] == inb[59..91];
  }

  /** The token an attempt holds once the submission response is read: its token
      slot, bytes 59 to 91 of the peer's bytes, read on as the getter does into the
      rest of the submission request and then the residue. */
  function SessionToken(cred: Credentials, peer: Peer, residue: seq<byte>): seq<byte>
    requires 91 <= |peer.inbound|
  {
    TakeUntilNul(peer.inbound[59..91] + (SubmissionFrame(cred, peer.stamps.submission)[45..] + residue))
  }

  /** An attempt returns true exactly when the peer's script completes; the token it
      leaves is the submission response's, and it has written the three requests. */
  lemma ExpectedSuccess(cred: Credentials, peer: Peer, residue: seq<byte>)
    ensures Expected(cred, peer, residue).outcome == Success <==> Completes(peer)
    ensures Expected(cred, peer, residue).outcome == Success ==>
              91 <= |peer.inbound|
              && Expected(cred, peer, residue).token == SessionToken(cred, peer, residue)
              && Expected(cred, peer, residue).conn.sent == Script(RequestsFor(cred, peer.stamps, residue))
  {
    if peer.connects {
      var q := RequestsFor(cred, peer.stamps, residue);
      var c0 := Conn(peer.inbound, peer.accepts, []);
      assert Expected(cred, peer, residue) == LoginStage(c0, q);
      LoginStageSuccess(c0, q);
      LoginStageEffects(c0, q);
      assert [] + Script(q) == Script(q);
      if 91 <= |peer.inbound| {
        TokenAfterLogin(peer.inbound, q.trail);
      }
    }
  }

  // ---------------------------------------------------------------------------
  // When the token is the slot's text

  /** A name of at most 32 bytes leaves a NUL at byte 45 of the submission request,
      just past where the token slot ends. */
  lemma ShortNameEndsTrail(cred: Credentials, stamp: u64)
    requires |cred.name| <= 32
    ensures SubmissionFrame(cred, stamp)[45] == 0
  {
    var h := RequestHeader(SubmissionRequest.Tag, SubmissionRequestLength, stamp);
    var body := SubmissionRequest.Encode(SubmissionBody(cred));
    var pre := HeaderBytes(h) + body;
    assert pre[45] == body[32] == TextSlot(cred.name, 64)[32];
  }

  /** A name longer than 32 bytes leaves its byte 32 right after the token slot. */
  lemma LongNameStartsTrail(cred: Credentials, stamp: u64)
    requires |cred.name| > 32
    ensures SubmissionFrame(cred, stamp)[45] == cred.name[32]
  {
    SubmissionFrameBody(cred, stamp);
    assert SubmissionFrame(cred, stamp)[45] == SubmissionRequest.Encode(SubmissionBody(cred))[32];
    assert SubmissionRequest.Encode(SubmissionBody(cred))[32] == TextSlot(cred.name, 64)[32];
  }

  /** The other side: with a token that fills its slot and a name whose byte 32 is not
      NUL, the session token is the whole slot followed by more bytes of the name. */
  lemma LongNameReachesToken(cred: Credentials, peer: Peer, residue: seq<byte>)
    requires 91 <= |peer.inbound| && NulFree(peer.inbound[59..91])
    requires |cred.name| > 32 && cred.name[32] != 0
    ensures |SessionToken(cred, peer, residue)| > 32
    ensures SessionToken(cred, peer, residue)[..32] == peer.inbound[59..91]
    ensures SessionToken(cred, peer, residue)[32] == cred.name[32]
  {
    var trail := SubmissionFrame(cred, peer.stamps.submission)[45..] + residue;
    LongNameStartsTrail(cred, peer.stamps.submission);
    TakeUntilNulPastNulFree(peer.inbound[59..91], trail);
    assert trail[0] == cred.name[32];
    assert TakeUntilNul(trail)[0] == trail[0];
  }

  /** The session token is the text of the submission response's token slot when the
      slot holds a NUL or the name leaves one right after it. */
  lemma SessionTokenIsSlotText(cred: Credentials, peer: Peer, residue: seq<byte>)
    requires 91 <= |peer.inbound|
    requires |cred.name| <= 32 || |ReadText(peer.inbound, 59, 32)| < 32
    ensures SessionToken(cred, peer, residue) == ReadText(peer.inbound, 59, 32)
  {
    if |ReadText(peer.inbound, 59, 32)| == 32 {
      ShortNameEndsTrail(cred, peer.stamps.submission);
    }
    SlotTextWhenTerminated(peer.inbound[59..91], SubmissionFrame(cred, peer.stamps.submission)[45..] + residue);
  }

  /** `strlen` from a 32-byte slot stops inside the slot, or right after it when
      what follows starts with a NUL. */
  lemma SlotTextWhenTerminated(slot: seq<byte>, trail: seq<byte>)
    requires |TakeUntilNul(slot)| < |slot| || (|trail| > 0 && trail[0] == 0)
    ensures TakeUntilNul(slot + trail) == TakeUntilNul(slot)
  {
    TakeUntilNulAppend(slot, trail);
  }

  /** The client's own credentials carry a 12-byte name, so its session token is
      always the slot's text. */
  lemma BuiltInSessionToken(peer: Peer, residue: seq<byte>)
    requires 91 <= |peer.inbound|
    ensures SessionToken(BuiltIn, peer, residue) == ReadText(peer.inbound, 59, 32)
  {
    assert |BuiltIn.name| == 12;
    SessionTokenIsSlotText(BuiltIn, peer, residue);
  }

  /** With a token that fills its slot and fields that fill theirs, the session token
      runs through the tail of the name, the whole email and repository slots, and
      into the residue: bytes the buffer held before the attempt. */
  lemma StaleBytesReachToken(cred: Credentials, peer: Peer, residue: seq<byte>)
    requires 91 <= |peer.inbound| && NulFree(peer.inbound[59..91])
    requires |cred.name| >= 64 && NulFree(cred.name[..64])
    requires |cred.email| >= 64 && NulFree(cred.email[..64])
    requires |cred.repo| >= 64 && NulFree(cred.repo[..64])
    ensures SessionToken(cred, peer, residue)
         == peer.inbound[59..91] + cred.name[32..64] + cred.email[..64] + cred.repo[..64]
            + TakeUntilNul(residue)
  {
    var fields := cred.name[32..64] + cred.email[..64] + cred.repo[..64];
    SubmissionTail(cred, peer.stamps.submission);
    NulFreeConcat(cred.name[32..64], cred.email[..64], cred.repo[..64], cred.name[..64]);
    TokenThroughFields(peer.inbound[59..91], fields, residue);
  }

  lemma TokenThroughFields(slot: seq<byte>, fields: seq<byte>, residue: seq<byte>)
    requires NulFree(slot) && NulFree(fields)
    ensures TakeUntilNul(slot + (fields + residue)) == slot + fields + TakeUntilNul(residue)
  {
    TakeUntilNulPastNulFree(fields, residue);
    TakeUntilNulPastNulFree(slot, fields + residue);
  }

  /** Past the token slot's end, a submission request whose fields fill their slots
      holds the last 32 name bytes, then the email and repository slots. */
  lemma SubmissionTail(cred: Credentials, stamp: u64)
    requires |cred.name| >= 64 && |cred.email| >= 64 && |cred.repo| >= 64
    ensures SubmissionFrame(cred, stamp)[45..] == cred.name[32..64] + cred.email[..64] + cred.repo[..64]
  {
    var f := SubmissionFrame(cred, stamp);
    var body := SubmissionRequest.Encode(SubmissionBody(cred));
    SubmissionFrameBody(cred, stamp);
    FullFieldsEncoding(SubmissionBody(cred));
    assert f[45..] == body[32..];
  }

  /** The checksum is stored in the header only: the frame's bytes past the header
      are the body's encoding. */
  lemma SubmissionFrameBody(cred: Credentials, stamp: u64)
    ensures SubmissionFrame(cred, stamp)[13..] == SubmissionRequest.Encode(SubmissionBody(cred))
  {
    var h := RequestHeader(SubmissionRequest.Tag, SubmissionRequestLength, stamp);
    var body := SubmissionRequest.Encode(SubmissionBody(cred));
    var pre := HeaderBytes(h) + body;
    Checksum.OnlyFieldChanges(pre, SubmissionRequestLength);
    assert pre[13..] == body;
  }

  /** With every field at least as long as its 64-byte slot, the encoding from byte
      32 on is the name's second half followed by the email and repo cut to 64 bytes. */
  lemma FullFieldsEncoding(b: SubmissionRequest.Body)
    requires |b.name| >= 64 && |b.email| >= 64 && |b.repo| >= 64
    ensures SubmissionRequest.Encode(b)[32..] == b.name[32..64] + b.email[..64] + b.repo[..64]
  {
    TextSlotFull(b.name, 64);
    TextSlotFull(b.email, 64);
    TextSlotFull(b.repo, 64);
    assert SubmissionRequest.Encode(b) == b.name[..64] + b.email[..64] + b.repo[..64];
    assert b.name[..64][32..] == b.name[32..64];
  }

  lemma NulFreeConcat(a: seq<byte>, b: seq<byte>, c: seq<byte>, whole: seq<byte>)
    requires NulFree(whole) && |whole| == 64 && a == whole[32..] && NulFree(b) && NulFree(c)
    ensures NulFree(a + b + c)
  {
    var s := a + b + c;
    forall i | 0 <= i < |s| ensures s[i] != 0 {
      if i < |a| { assert s[i] == whole[32 + i]; }
      else if i < |a| + |b| { assert s[i] == b[i - |a|]; }
      else { assert s[i] == c[i - |a| - |b|]; }
    }
  }
}
