/** How an attempt ends when it does not complete, where its token comes from, and
    what it has written by then, all stated on the peer's bytes. */
module Endings {
  import opened Wire
  import LoginRequest
  import LoginResponse
  import SubmissionResponse
  import LogoutResponse
  import opened ProtoClient
  import opened SessionSpec

  /** The peer took the login request and answered with a verified login response
      whose code is 'Y'. */
  predicate LoginAccepted(peer: Peer) {
    var inb := peer.inbound;
    peer.connects && LoginRequestLength <= peer.accepts
    && FrameAt(inb, 0, LoginResponseLength) && inb[0] == LoginResponse.Tag && inb[13] == LoginResponse.Accepted
  }

  /** Past the login, the peer took the submission request and answered with a
      verified submission response. */
  predicate SubmissionAnswered(peer: Peer) {
    var inb := peer.inbound;
    LoginAccepted(peer) && LoginRequestLength + SubmissionRequestLength <= peer.accepts
    && FrameAt(inb, 46, SubmissionResponseLength) && inb[46] == SubmissionResponse.Tag
  }

  // ---------------------------------------------------------------------------
  // The peer logs out in place of a reply

  /** A logout response where the login response was expected ends the attempt with
      the peer's logout when it verifies, and with an error otherwise; either way only
      the login request has been written. */
  lemma LogoutInsteadOfLogin(cred: Credentials, peer: Peer, residue: seq<byte>)
    requires peer.connects && LoginRequestLength <= peer.accepts
    requires 13 <= |peer.inbound| && peer.inbound[0] == LogoutResponse.Tag
    ensures Expected(cred, peer, residue).outcome ==
              if FrameAt(peer.inbound, 0, LogoutResponseLength) then PeerLogout
              else if LogoutResponseLength <= |peer.inbound| then Failed(BadChecksum)
              else Failed(ReadFailed)
    ensures Expected(cred, peer, residue).conn.sent == LoginFrame(cred, peer.stamps.login)
    ensures Expected(cred, peer, residue).token == []
  {
    var q := RequestsFor(cred, peer.stamps, residue);
    var c0 := Conn(peer.inbound, peer.accepts, []);
    assert Expected(cred, peer, residue) == LoginStage(c0, q);
    assert Transmit(c0, q.login).conn.sent == q.login;
  }

  /** A logout response where the submission response was expected ends the attempt
      the same way, judged on the bytes after the 46-byte login response; the login
      and submission requests have been written, and no logout request. */
  lemma LogoutInsteadOfSubmission(cred: Credentials, peer: Peer, residue: seq<byte>)
    requires LoginAccepted(peer) && LoginRequestLength + SubmissionRequestLength <= peer.accepts
    requires 46 + 13 <= |peer.inbound| && peer.inbound[46] == LogoutResponse.Tag
    ensures var rest := peer.inbound[46..];
            Expected(cred, peer, residue).outcome ==
              if FrameAt(rest, 0, LogoutResponseLength) then PeerLogout
              else if LogoutResponseLength <= |rest| then Failed(BadChecksum)
              else Failed(ReadFailed)
    ensures Expected(cred, peer, residue).conn.sent
            == LoginFrame(cred, peer.stamps.login) + SubmissionFrame(cred, peer.stamps.submission)
    ensures Expected(cred, peer, residue).token == []
  {
    AcceptedLoginContinues(cred, peer, residue);
    SubmissionStagePeerLogout(AfterLogin(cred, peer), RequestsFor(cred, peer.stamps, residue));
  }

  /** The submission stage when the peer answers with a logout response. */
  lemma SubmissionStagePeerLogout(c: Conn, q: Requests)
    requires |q.submission| == SubmissionRequestLength && SubmissionRequestLength <= c.accepts
    requires 13 <= |c.inbound| && c.inbound[0] == LogoutResponse.Tag
    ensures SubmissionStage(c, q).outcome ==
              if FrameAt(c.inbound, 0, LogoutResponseLength) then PeerLogout
              else if LogoutResponseLength <= |c.inbound| then Failed(BadChecksum)
              else Failed(ReadFailed)
    ensures SubmissionStage(c, q).conn.sent == c.sent + q.submission
    ensures SubmissionStage(c, q).token == []
  {
  }

  /** The connection once an accepted login has consumed its 46-byte reply and the
      109-byte request. */
  function AfterLogin(cred: Credentials, peer: Peer): (c: Conn)
    requires LoginAccepted(peer)
    ensures |c.sent| == LoginRequestLength
  {
    Conn(peer.inbound[46..], peer.accepts - LoginRequestLength, LoginFrame(cred, peer.stamps.login))
  }

  /** After an accepted login the attempt is the submission stage on what remains. */
  lemma AcceptedLoginContinues(cred: Credentials, peer: Peer, residue: seq<byte>)
    requires LoginAccepted(peer)
    ensures Expected(cred, peer, residue) == SubmissionStage(AfterLogin(cred, peer), RequestsFor(cred, peer.stamps, residue))
  {
    var q := RequestsFor(cred, peer.stamps, residue);
    var c0 := Conn(peer.inbound, peer.accepts, []);
    assert Expected(cred, peer, residue) == LoginStage(c0, q);
    LoginStageContinues(c0, q);
    var after := Conn(c0.inbound[46..], c0.accepts - LoginRequestLength, c0.sent + q.login);
    assert c0.sent + q.login == q.login;
    assert AfterLogin(cred, peer) == after;
    assert LoginStage(c0, q) == SubmissionStage(after, q);
  }

  /** Without an accepted login the attempt ends with no token. */
  lemma UnacceptedLoginNoToken(cred: Credentials, peer: Peer, residue: seq<byte>)
    requires !LoginAccepted(peer)
    ensures Expected(cred, peer, residue).token == []
  {
    if peer.connects {
      var q := RequestsFor(cred, peer.stamps, residue);
      var c0 := Conn(peer.inbound, peer.accepts, []);
      assert Expected(cred, peer, residue) == LoginStage(c0, q);
      LoginStageNoToken(c0, q);
    }
  }

  // ---------------------------------------------------------------------------
  // The attempt throws

  /** A verified login response whose code is not 'Y' throws with the response's
      reason after only the login request was written. */
  lemma RejectedLogin(cred: Credentials, peer: Peer, residue: seq<byte>)
    requires peer.connects && LoginRequestLength <= peer.accepts
    requires FrameAt(peer.inbound, 0, LoginResponseLength) && peer.inbound[0] == LoginResponse.Tag
    requires peer.inbound[13] != LoginResponse.Accepted
    ensures Expected(cred, peer, residue).outcome == Failed(LoginRejected(ReadText(peer.inbound, 14, 32)))
    ensures Expected(cred, peer, residue).conn.sent == LoginFrame(cred, peer.stamps.login)
  {
    var q := RequestsFor(cred, peer.stamps, residue);
    var c0 := Conn(peer.inbound, peer.accepts, []);
    assert Expected(cred, peer, residue) == LoginStage(c0, q);
    assert Transmit(c0, q.login).conn.sent == q.login;
  }

  /** A login response that fails its checksum throws, whatever its code. */
  lemma CorruptLogin(cred: Credentials, peer: Peer, residue: seq<byte>)
    requires peer.connects && LoginRequestLength <= peer.accepts
    requires LoginResponseLength <= |peer.inbound| && peer.inbound[0] == LoginResponse.Tag
    requires !FrameAt(peer.inbound, 0, LoginResponseLength)
    ensures Expected(cred, peer, residue).outcome == Failed(BadChecksum)
  {
    var q := RequestsFor(cred, peer.stamps, residue);
    var c0 := Conn(peer.inbound, peer.accepts, []);
    assert Expected(cred, peer, residue) == LoginStage(c0, q);
  }

  /** A reply of any type other than the expected one or a logout response throws,
      before its body is read. */
  lemma UnexpectedLoginReply(cred: Credentials, peer: Peer, residue: seq<byte>)
    requires peer.connects && LoginRequestLength <= peer.accepts && 13 <= |peer.inbound|
    requires peer.inbound[0] != LoginResponse.Tag && peer.inbound[0] != LogoutResponse.Tag
    ensures Expected(cred, peer, residue).outcome == Failed(UnexpectedResponse)
  {
    var q := RequestsFor(cred, peer.stamps, residue);
    var c0 := Conn(peer.inbound, peer.accepts, []);
    assert Expected(cred, peer, residue) == LoginStage(c0, q);
  }

  /** A peer that cannot take the whole login request ends the attempt at the write. */
  lemma ShortLoginWrite(cred: Credentials, peer: Peer, residue: seq<byte>)
    requires peer.connects && peer.accepts < LoginRequestLength
    ensures Expected(cred, peer, residue).outcome == Failed(WriteFailed)
    ensures Expected(cred, peer, residue).conn.sent == LoginFrame(cred, peer.stamps.login)[..peer.accepts]
  {
    var q := RequestsFor(cred, peer.stamps, residue);
    var c0 := Conn(peer.inbound, peer.accepts, []);
    assert Expected(cred, peer, residue) == LoginStage(c0, q);
  }

  // ---------------------------------------------------------------------------
  // The token

  /** The token an attempt leaves is the submission response's, as the getter reads
      it, when the login was accepted and that response verified, and empty otherwise,
      whatever happens at the logout that follows. */
  lemma TokenOrigin(cred: Credentials, peer: Peer, residue: seq<byte>)
    ensures SubmissionAnswered(peer) ==> Expected(cred, peer, residue).token == SessionToken(cred, peer, residue)
    ensures !SubmissionAnswered(peer) ==> Expected(cred, peer, residue).token == []
  {
    if !LoginAccepted(peer) {
      UnacceptedLoginNoToken(cred, peer, residue);
    } else {
      AcceptedLoginContinues(cred, peer, residue);
      var c := AfterLogin(cred, peer);
      var q := RequestsFor(cred, peer.stamps, residue);
      SubmissionTokenOrigin(c, q);
      AnsweredAfterLogin(cred, peer);
      if SubmissionAnswered(peer) {
        TokenAfterLogin(peer.inbound, q.trail);
      }
    }
  }

  /** Whether the submission is answered, judged on the connection after the login. */
  lemma AnsweredAfterLogin(cred: Credentials, peer: Peer)
    requires LoginAccepted(peer)
    ensures var c := AfterLogin(cred, peer);
            SubmissionAnswered(peer) <==>
              SubmissionRequestLength <= c.accepts
              && FrameAt(c.inbound, 0, SubmissionResponseLength) && c.inbound[0] == SubmissionResponse.Tag
  {
    FrameAtShift(peer.inbound, 46, 0, SubmissionResponseLength);
  }

  lemma SubmissionTokenOrigin(c: Conn, q: Requests)
    requires |q.submission| == SubmissionRequestLength
    ensures var ok := SubmissionRequestLength <= c.accepts
                      && FrameAt(c.inbound, 0, SubmissionResponseLength) && c.inbound[0] == SubmissionResponse.Tag;
            SubmissionStage(c, q).token == if ok then TokenOf(c.inbound, q.trail) else []
  {
    var w := Transmit(c, q.submission);
    SubmissionReplyContinues(w.conn);
  }

  /** What the scratch buffer held before an attempt does not change its outcome or
      what it writes and consumes. It reaches the token only through the residue, and
      not at all when the name leaves the byte after the token slot NUL, as the
      client's own name does. */
  lemma StaleBufferIrrelevant(c1: Client, c2: Client, cred: Credentials, peer: Peer)
    requires ValidClient(c1) && ValidClient(c2)
    ensures RunOne(c1, cred, peer).outcome == RunOne(c2, cred, peer).outcome
    ensures RunOne(c1, cred, peer).s.conn == RunOne(c2, cred, peer).s.conn
    ensures Residue(c1.buf) == Residue(c2.buf) || |cred.name| <= 32 ==>
              RunOne(c1, cred, peer).s.token == RunOne(c2, cred, peer).s.token
  {
    RunOneMatchesExpected(c1, cred, peer);
    RunOneMatchesExpected(c2, cred, peer);
    ResidueReachesTokenOnly(cred, peer, Residue(c1.buf), Residue(c2.buf));
    if |cred.name| <= 32 {
      TokenOrigin(cred, peer, Residue(c1.buf));
      TokenOrigin(cred, peer, Residue(c2.buf));
      if SubmissionAnswered(peer) {
        SessionTokenIsSlotText(cred, peer, Residue(c1.buf));
        SessionTokenIsSlotText(cred, peer, Residue(c2.buf));
      }
    }
  }

  /** The residue changes nothing about an attempt but its token. */
  lemma ResidueReachesTokenOnly(cred: Credentials, peer: Peer, r1: seq<byte>, r2: seq<byte>)
    ensures Expected(cred, peer, r1).outcome == Expected(cred, peer, r2).outcome
    ensures Expected(cred, peer, r1).conn == Expected(cred, peer, r2).conn
  {
    if peer.connects {
      var c0 := Conn(peer.inbound, peer.accepts, []);
      var q1 := RequestsFor(cred, peer.stamps, r1);
      var q2 := RequestsFor(cred, peer.stamps, r2);
      assert Expected(cred, peer, r1) == LoginStage(c0, q1);
      assert Expected(cred, peer, r2) == LoginStage(c0, q2);
      LoginStageTrail(c0, q1, q2);
    }
  }

  /** The stages depend on the trail only for the token they leave. */
  lemma LoginStageTrail(c: Conn, q1: Requests, q2: Requests)
    requires q1.login == q2.login && q1.submission == q2.submission && q1.logout == q2.logout
    ensures LoginStage(c, q1).outcome == LoginStage(c, q2).outcome
    ensures LoginStage(c, q1).conn == LoginStage(c, q2).conn
  {
    var w := Transmit(c, q1.login);
    if w.verdict.Continue? {
      var r := LoginReply(w.conn);
      if r.verdict.Continue? {
        SubmissionStageTrail(r.conn, q1, q2);
      }
    }
  }

  lemma SubmissionStageTrail(c: Conn, q1: Requests, q2: Requests)
    requires q1.submission == q2.submission && q1.logout == q2.logout
    ensures SubmissionStage(c, q1).outcome == SubmissionStage(c, q2).outcome
    ensures SubmissionStage(c, q1).conn == SubmissionStage(c, q2).conn
  {
  }

  // ---------------------------------------------------------------------------
  // What has been written

  /** Whatever the outcome, the bytes written are a prefix of the three requests in
      order: a request is written only after the previous one went out whole and its
      reply was accepted. */
  lemma SentIsScriptPrefix(cred: Credentials, peer: Peer, residue: seq<byte>)
    ensures Expected(cred, peer, residue).conn.sent <= Script(RequestsFor(cred, peer.stamps, residue))
  {
    if peer.connects {
      var q := RequestsFor(cred, peer.stamps, residue);
      var c0 := Conn(peer.inbound, peer.accepts, []);
      assert Expected(cred, peer, residue) == LoginStage(c0, q);
      LoginStageSent(c0, q);
      assert [] + Script(q) == Script(q);
    }
  }

  /** Appending a prefix of `b` to `a` gives a prefix of `a + b`. */
  lemma AppendPrefix(a: seq<byte>, p: seq<byte>, b: seq<byte>)
    requires p <= b
    ensures a + p <= a + b
  {
    assert (a + b)[..|a + p|] == a + p;
  }

  /** A transmission appends a prefix of the frame. */
  lemma TransmitSent(c: Conn, frame: seq<byte>)
    ensures c.sent <= Transmit(c, frame).conn.sent <= c.sent + frame
  {
    var n := Min(|frame|, c.accepts);
    AppendPrefix(c.sent, frame[..n], frame);
  }

  lemma LogoutStageSent(c: Conn, q: Requests, token: seq<byte>)
    ensures c.sent <= LogoutStage(c, q, token).conn.sent <= c.sent + q.logout
  {
    TransmitSent(c, q.logout);
  }

  lemma SubmissionStageSent(c: Conn, q: Requests)
    ensures c.sent <= SubmissionStage(c, q).conn.sent <= c.sent + q.submission + q.logout
  {
    var w := Transmit(c, q.submission);
    TransmitSent(c, q.submission);
    AppendPrefix(c.sent, q.submission, q.submission + q.logout);
    assert c.sent + (q.submission + q.logout) == c.sent + q.submission + q.logout;
    if w.verdict.Continue? {
      var r := SubmissionReply(w.conn);
      if r.verdict.Continue? {
        LogoutStageSent(r.conn, q, TokenOf(w.conn.inbound, q.trail));
        assert r.conn.sent == c.sent + q.submission;
      }
    }
  }

  lemma LoginStageSent(c: Conn, q: Requests)
    ensures c.sent <= LoginStage(c, q).conn.sent <= c.sent + Script(q)
  {
    var w := Transmit(c, q.login);
    TransmitSent(c, q.login);
    AppendPrefix(c.sent, q.login, q.login + q.submission + q.logout);
    assert c.sent + (q.login + q.submission + q.logout) == c.sent + Script(q);
    if w.verdict.Continue? {
      var r := LoginReply(w.conn);
      if r.verdict.Continue? {
        SubmissionStageSent(r.conn, q);
        assert r.conn.sent == c.sent + q.login;
        ScriptAfter(c.sent, q);
      }
    }
  }
}
