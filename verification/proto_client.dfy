/** The client session, step for step as the client runs it: one 1024-byte scratch
    buffer shared by every request and response, a login, submission and logout
    exchange per address, and a loop over the resolved addresses that stops at the
    first address where the exchange completes.

    The transport is a script: per address, whether the connection is established,
    the bytes the peer will send (a read past their end is the peer shutting down),
    how many bytes the peer accepts before a write fails, and the clock readings
    the three requests are stamped with. */
module ProtoClient {
  import opened Wire
  import MsgHeader
  import LoginRequest
  import LoginResponse
  import SubmissionRequest
  import SubmissionResponse
  import LogoutRequest
  import LogoutResponse
  import Checksum

  /** Size of the client's scratch buffer; every view is opened over it. */
  const BufferSize: nat := 1024

  /** Lengths of the six frames: header plus the body of the expected type. */
  const LoginRequestLength: nat := MsgHeader.EncodedLength + LoginRequest.EncodedLength
  const LoginResponseLength: nat := MsgHeader.EncodedLength + LoginResponse.EncodedLength
  const SubmissionRequestLength: nat := MsgHeader.EncodedLength + SubmissionRequest.EncodedLength
  const SubmissionResponseLength: nat := MsgHeader.EncodedLength + SubmissionResponse.EncodedLength
  const LogoutRequestLength: nat := MsgHeader.EncodedLength + LogoutRequest.EncodedLength
  const LogoutResponseLength: nat := MsgHeader.EncodedLength + LogoutResponse.EncodedLength

  /** The strings the client sends. */
  datatype Credentials = Credentials(
    user: seq<byte>, password: seq<byte>, name: seq<byte>, email: seq<byte>, repo: seq<byte>)

  /** The bytes of an ASCII string literal. */
  function Ascii(s: string): (r: seq<byte>)
    ensures |r| == |s|
  {
    seq(|s|, i requires 0 <= i < |s| => (s[i] as int) % 256)
  }

  /** The strings the client is built with. */
  const BuiltIn: Credentials := Credentials(
    Ascii("sergiu4096@gmail.com"), Ascii("pwd123"), Ascii("Sergiu Marin"),
    Ascii("sergiu4096@gmail.com"), Ascii("https://github.com/sergiu128/vitorian-challenge"))

  /** The clock readings stamped on the three requests of one attempt. */
  datatype Stamps = Stamps(login: u64, submission: u64, logout: u64)

  /** One resolved address as the transport presents it. */
  datatype Peer = Peer(connects: bool, inbound: seq<byte>, accepts: nat, stamps: Stamps)

  /** The exceptions an attempt can end with. */
  datatype Error =
    | ConnectFailed
    | ReadFailed   // a read that ends short: the peer shut down, or the read failed or timed out
    | WriteFailed
    | BadChecksum
    | LoginRejected(reason: seq<byte>)
    | UnexpectedResponse

  /** How an attempt ends: `RunOne` returns true, returns false, or throws. */
  datatype Outcome = Success | PeerLogout | Failed(error: Error)

  /** An open connection: what the peer has still to send, how many more bytes it
      accepts, and everything written to it so far. */
  datatype Conn = Conn(inbound: seq<byte>, accepts: nat, sent: seq<byte>)

  datatype Verdict = Continue | Stop(outcome: Outcome)

  /** A transport operation's effect on the connection and whether the attempt goes on. */
  datatype Exchange = Exchange(conn: Conn, verdict: Verdict)

  /** The client object between attempts: its scratch buffer and its token. */
  datatype Client = Client(buf: seq<byte>, token: seq<byte>)

  /** The client during an attempt. */
  datatype Session = Session(buf: seq<byte>, token: seq<byte>, conn: Conn)

  datatype Step = Step(s: Session, verdict: Verdict)

  datatype Attempt = Attempt(outcome: Outcome, s: Session)

  /** What the resolver produced for the address and port. */
  datatype Resolution = Resolved(peers: seq<Peer>) | ResolveFailed

  /** The result of a run, how many addresses were attempted, and the client afterwards. */
  datatype Report = Report(ok: bool, tried: nat, client: Client)

  predicate ValidClient(c: Client) {
    |c.buf| == BufferSize
  }

  predicate Valid(s: Session) {
    |s.buf| == BufferSize
  }

  /** The buffer past the longest frame. No request is built there and no reply is
      read there, so an attempt leaves these bytes as it found them; the token getter
      can still read them. */
  function Residue(buf: seq<byte>): seq<byte>
    requires |buf| >= SubmissionRequestLength
  {
    buf[SubmissionRequestLength..]
  }

  // ---------------------------------------------------------------------------
  // Transport

  datatype Received = Received(conn: Conn, data: seq<byte>, complete: bool)

  /** Reading `n` bytes: all of them when the peer has that many left; otherwise
      whatever is left, and the read fails because the peer has shut down. */
  function Receive(c: Conn, n: nat): (r: Received)
    ensures r.complete <==> n <= |c.inbound|
    ensures c.inbound == r.data + r.conn.inbound
    ensures |r.data| <= n && (r.complete ==> |r.data| == n) && (!r.complete ==> r.conn.inbound == [])
    ensures r.conn.accepts == c.accepts && r.conn.sent == c.sent
  {
    if n <= |c.inbound| then Received(c.(inbound := c.inbound[n..]), c.inbound[..n], true)
    else Received(c.(inbound := []), c.inbound, false)
  }

  /** Writing a frame: the peer takes as much of it as it still accepts; the write
      fails if that is not all of it. */
  function Transmit(c: Conn, frame: seq<byte>): (e: Exchange)
    ensures e.verdict.Continue? <==> |frame| <= c.accepts
    ensures e.verdict.Stop? ==> e.verdict.outcome == Failed(WriteFailed)
    ensures e.conn.inbound == c.inbound
    ensures e.conn.sent == c.sent + frame[..Min(|frame|, c.accepts)]
    ensures e.conn.accepts + Min(|frame|, c.accepts) == c.accepts
  {
    if |frame| <= c.accepts then
      Exchange(c.(accepts := c.accepts - |frame|, sent := c.sent + frame), Continue)
    else
      Exchange(c.(accepts := 0, sent := c.sent + frame[..c.accepts]), Stop(Failed(WriteFailed)))
  }

  /** `ReadExact(buf + at, n)`: the bytes read land at `at`, also when the read fails
      part way. */
  function ReadExact(s: Session, at: nat, n: nat): (r: Step)
    requires at + n <= |s.buf|
    ensures |r.s.buf| == |s.buf| && r.s.token == s.token
    ensures r.s.conn == Receive(s.conn, n).conn
    ensures r.verdict.Continue? <==> n <= |s.conn.inbound|
    ensures r.verdict.Continue? ==> r.s.buf[at..at + n] == s.conn.inbound[..n]
    ensures r.verdict.Stop? ==> r.verdict.outcome == Failed(ReadFailed)
    ensures forall i :: 0 <= i < |s.buf| && !(at <= i < at + n) ==> r.s.buf[i] == s.buf[i]
  {
    var got := Receive(s.conn, n);
    var next := s.(buf := Splice(s.buf, at, got.data), conn := got.conn);
    if got.complete then Step(next, Continue) else Step(next, Stop(Failed(ReadFailed)))
  }

  /** `WriteExact(buf, n)`: the first `n` bytes of the buffer go out. */
  function WriteExact(s: Session, n: nat): (r: Step)
    requires n <= |s.buf|
    ensures r.s.buf == s.buf && r.s.token == s.token
    ensures r.verdict.Continue? <==> n <= s.conn.accepts
  {
    var e := Transmit(s.conn, s.buf[..n]);
    Step(s.(conn := e.conn), e.verdict)
  }

  // ---------------------------------------------------------------------------
  // Requests

  function RequestHeader(tag: byte, len: nat, stamp: u64): MsgHeader.Header
    requires len < 0x1_0000
  {
    MsgHeader.Header(tag, len, stamp, 0)
  }

  function LoginBody(cred: Credentials): LoginRequest.Body {
    LoginRequest.Body(cred.user, cred.password)
  }

  function SubmissionBody(cred: Credentials): SubmissionRequest.Body {
    SubmissionRequest.Body(cred.name, cred.email, cred.repo)
  }

  /** The buffer once the login request is built in it: header with a zero checksum,
      body, then the checksum over the whole frame. */
  function PrepareLogin(buf: seq<byte>, cred: Credentials, stamp: u64): (r: seq<byte>)
    requires |buf| == BufferSize
    ensures |r| == BufferSize && Residue(r) == Residue(buf)
  {
    var b1 := MsgHeader.Write(buf, 0, RequestHeader(LoginRequest.Tag, LoginRequestLength, stamp));
    var b2 := LoginRequest.Write(b1, MsgHeader.EncodedLength, LoginBody(cred));
    LoginRequest.WriteStoresEncoding(b1, MsgHeader.EncodedLength, LoginBody(cred));
    Checksum.Checksum(b2, LoginRequestLength)
  }

  function PrepareSubmission(buf: seq<byte>, cred: Credentials, stamp: u64): (r: seq<byte>)
    requires |buf| == BufferSize
    ensures |r| == BufferSize && Residue(r) == Residue(buf)
  {
    var b1 := MsgHeader.Write(buf, 0, RequestHeader(SubmissionRequest.Tag, SubmissionRequestLength, stamp));
    var b2 := SubmissionRequest.Write(b1, MsgHeader.EncodedLength, SubmissionBody(cred));
    SubmissionRequest.WriteStoresEncoding(b1, MsgHeader.EncodedLength, SubmissionBody(cred));
    Checksum.Checksum(b2, SubmissionRequestLength)
  }

  function PrepareLogout(buf: seq<byte>, stamp: u64): (r: seq<byte>)
    requires |buf| == BufferSize
    ensures |r| == BufferSize && Residue(r) == Residue(buf)
  {
    var b1 := MsgHeader.Write(buf, 0, RequestHeader(LogoutRequest.Tag, LogoutRequestLength, stamp));
    Checksum.Checksum(b1, LogoutRequestLength)
  }

  function WriteLoginRequest(s: Session, cred: Credentials, stamp: u64): (r: Step)
    requires Valid(s)
    ensures Valid(r.s) && r.s.token == s.token && Residue(r.s.buf) == Residue(s.buf)
  {
    WriteExact(s.(buf := PrepareLogin(s.buf, cred, stamp)), LoginRequestLength)
  }

  function WriteSubmissionRequest(s: Session, cred: Credentials, stamp: u64): (r: Step)
    requires Valid(s)
    ensures Valid(r.s) && r.s.token == s.token && Residue(r.s.buf) == Residue(s.buf)
  {
    WriteExact(s.(buf := PrepareSubmission(s.buf, cred, stamp)), SubmissionRequestLength)
  }

  function WriteLogoutRequest(s: Session, stamp: u64): (r: Step)
    requires Valid(s)
    ensures Valid(r.s) && r.s.token == s.token && Residue(r.s.buf) == Residue(s.buf)
  {
    WriteExact(s.(buf := PrepareLogout(s.buf, stamp)), LogoutRequestLength)
  }

  // ---------------------------------------------------------------------------
  // Responses

  /** Runs the checksum routine over the first `len` bytes; a nonzero field left
      behind throws. */
  function VerifyFrame(s: Session, len: nat): (r: Step)
    requires MsgHeader.EncodedLength <= len <= |s.buf|
    ensures r.s.buf == Checksum.Checksum(s.buf, len) && r.s.token == s.token && r.s.conn == s.conn
    ensures r.verdict.Continue? <==> Checksum.Verifies(s.buf, len)
    ensures r.verdict.Stop? ==> r.verdict.outcome == Failed(BadChecksum)
  {
    var b := Checksum.Checksum(s.buf, len);
    Step(s.(buf := b), if MsgHeader.Checksum(b, 0) != 0 then Stop(Failed(BadChecksum)) else Continue)
  }

  /** With the header already in the buffer, reads the body of an `len`-byte frame
      behind it and verifies the frame. */
  function ReadBodyAndVerify(s: Session, len: nat): (r: Step)
    requires Valid(s) && MsgHeader.EncodedLength <= len <= SubmissionRequestLength
    ensures Valid(r.s) && r.s.token == s.token && Residue(r.s.buf) == Residue(s.buf)
    ensures r.s.buf[len..] == s.buf[len..]
  {
    var b := ReadExact(s, MsgHeader.EncodedLength, len - MsgHeader.EncodedLength);
    if b.verdict.Stop? then b else VerifyFrame(b.s, len)
  }

  /** A logout response in place of the expected reply: once verified, the attempt
      ends without an error. */
  function ReadPeerLogout(s: Session): (r: Step)
    requires Valid(s)
    ensures Valid(r.s) && r.s.token == s.token && Residue(r.s.buf) == Residue(s.buf)
  {
    var f := ReadBodyAndVerify(s, LogoutResponseLength);
    if f.verdict.Stop? then f else Step(f.s, Stop(PeerLogout))
  }

  /** The body of a login response: verified, then code 'Y' continues and any other
      code throws with the reason, read within its slot. */
  function ReadLoginBody(s: Session): (r: Step)
    requires Valid(s)
    ensures Valid(r.s) && r.s.token == s.token && Residue(r.s.buf) == Residue(s.buf)
  {
    var f := ReadBodyAndVerify(s, LoginResponseLength);
    if f.verdict.Stop? then f
    else if LoginResponse.Code(f.s.buf, MsgHeader.EncodedLength) == LoginResponse.Accepted then f
    else Step(f.s, Stop(Failed(LoginRejected(LoginResponse.ReasonText(f.s.buf, MsgHeader.EncodedLength)))))
  }

  /** The body of a submission response: verified, then its token is kept, as the
      token getter reads it: from the slot on to the first NUL in the buffer, which
      lies past the slot when the peer's token fills it. */
  function ReadSubmissionBody(s: Session): (r: Step)
    requires Valid(s)
    ensures Valid(r.s) && Residue(r.s.buf) == Residue(s.buf)
    ensures r.verdict.Stop? ==> r.s.token == s.token
  {
    var f := ReadBodyAndVerify(s, SubmissionResponseLength);
    if f.verdict.Stop? then f
    else Step(f.s.(token := SubmissionResponse.Token(f.s.buf, MsgHeader.EncodedLength)), Continue)
  }

  /** The reply to the login: a verified login response with code 'Y' continues; a
      verified logout response ends the attempt without an error; any other code, a
      checksum mismatch or any other type throws. The body length is that of the type
      the tag names; the header's length field is not consulted. */
  function ReadLoginResponse(s: Session): (r: Step)
    requires Valid(s)
    ensures Valid(r.s) && r.s.token == s.token && Residue(r.s.buf) == Residue(s.buf)
  {
    var h := ReadExact(s, 0, MsgHeader.EncodedLength);
    if h.verdict.Stop? then h
    else
      var tag := MsgHeader.MsgType(h.s.buf, 0);
      if tag == LoginResponse.Tag then ReadLoginBody(h.s)
      else if tag == LogoutResponse.Tag then ReadPeerLogout(h.s)
      else Step(h.s, Stop(Failed(UnexpectedResponse)))
  }

  /** The reply to the submission: a verified submission response stores its token
      and continues; a verified logout response ends the attempt without an error. */
  function ReadSubmissionResponse(s: Session): (r: Step)
    requires Valid(s)
    ensures Valid(r.s) && Residue(r.s.buf) == Residue(s.buf)
    ensures r.verdict.Stop? ==> r.s.token == s.token
  {
    var h := ReadExact(s, 0, MsgHeader.EncodedLength);
    if h.verdict.Stop? then h
    else
      var tag := MsgHeader.MsgType(h.s.buf, 0);
      if tag == SubmissionResponse.Tag then ReadSubmissionBody(h.s)
      else if tag == LogoutResponse.Tag then ReadPeerLogout(h.s)
      else Step(h.s, Stop(Failed(UnexpectedResponse)))
  }

  /** The reply to the logout: a fixed 45 bytes, verified, whatever their type. */
  function ReadLogoutResponse(s: Session): (r: Step)
    requires Valid(s)
    ensures Valid(r.s) && r.s.token == s.token && Residue(r.s.buf) == Residue(s.buf)
  {
    var f := ReadExact(s, 0, LogoutResponseLength);
    if f.verdict.Stop? then f else VerifyFrame(f.s, LogoutResponseLength)
  }

  // ---------------------------------------------------------------------------
  // Attempts and the address loop

  /** One attempt on one address: the token is cleared, the connection opened, then
      login, submission and logout, each a request and its reply. */
  function RunOne(client: Client, cred: Credentials, peer: Peer): (a: Attempt)
    requires ValidClient(client)
    ensures Valid(a.s) && Residue(a.s.buf) == Residue(client.buf)
  {
    var s0 := Session(client.buf, [], Conn(peer.inbound, peer.accepts, []));
    if !peer.connects then Attempt(Failed(ConnectFailed), s0)
    else LoginPhase(s0, cred, peer.stamps)
  }

  function LoginPhase(s: Session, cred: Credentials, stamps: Stamps): (a: Attempt)
    requires Valid(s)
    ensures Valid(a.s) && Residue(a.s.buf) == Residue(s.buf)
  {
    var w := WriteLoginRequest(s, cred, stamps.login);
    if w.verdict.Stop? then Attempt(w.verdict.outcome, w.s) else
    var r := ReadLoginResponse(w.s);
    if r.verdict.Stop? then Attempt(r.verdict.outcome, r.s)
    else SubmissionPhase(r.s, cred, stamps)
  }

  function SubmissionPhase(s: Session, cred: Credentials, stamps: Stamps): (a: Attempt)
    requires Valid(s)
    ensures Valid(a.s) && Residue(a.s.buf) == Residue(s.buf)
  {
    var w := WriteSubmissionRequest(s, cred, stamps.submission);
    if w.verdict.Stop? then Attempt(w.verdict.outcome, w.s) else
    var r := ReadSubmissionResponse(w.s);
    if r.verdict.Stop? then Attempt(r.verdict.outcome, r.s)
    else LogoutPhase(r.s, stamps.logout)
  }

  function LogoutPhase(s: Session, stamp: u64): (a: Attempt)
    requires Valid(s)
    ensures Valid(a.s) && Residue(a.s.buf) == Residue(s.buf)
  {
    var w := WriteLogoutRequest(s, stamp);
    if w.verdict.Stop? then Attempt(w.verdict.outcome, w.s) else
    var r := ReadLogoutResponse(w.s);
    if r.verdict.Stop? then Attempt(r.verdict.outcome, r.s) else Attempt(Success, r.s)
  }

  /** The addresses in order until one attempt succeeds; an attempt that returns
      false or throws moves on to the next. */
  function RunAll(client: Client, cred: Credentials, peers: seq<Peer>): (r: Report)
    requires ValidClient(client)
    ensures ValidClient(r.client) && r.tried <= |peers|
    ensures Residue(r.client.buf) == Residue(client.buf)
    ensures r.ok ==> r.tried >= 1
    ensures !r.ok ==> r.tried == |peers|
    decreases |peers|
  {
    if |peers| == 0 then Report(false, 0, client)
    else
      var a := RunOne(client, cred, peers[0]);
      var after := Client(a.s.buf, a.s.token);
      if a.outcome == Success then Report(true, 1, after)
      else
        var rest := RunAll(after, cred, peers[1..]);
        rest.(tried := rest.tried + 1)
  }

  /** Resolution that fails or yields no address ends the run with no attempt. */
  function Run(client: Client, cred: Credentials, res: Resolution): (r: Report)
    requires ValidClient(client)
    ensures ValidClient(r.client) && Residue(r.client.buf) == Residue(client.buf)
    ensures r.ok ==> res.Resolved? && 1 <= r.tried <= |res.peers|
    ensures !r.ok ==> r.tried == (if res.Resolved? then |res.peers| else 0)
    ensures r.tried == 0 ==> r.client == client
  {
    if res.ResolveFailed? || |res.peers| == 0 then Report(false, 0, client)
    else RunAll(client, cred, res.peers)
  }
}
