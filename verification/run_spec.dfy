/** The run over the resolved addresses: it tries them in order, stops at the first
    attempt that completes, and reports failure only after every address failed. */
module RunSpec {
  import opened Wire
  import opened ProtoClient
  import opened SessionSpec

  // ---------------------------------------------------------------------------
  // First match in a list

  /** Some element of `xs` satisfies `p`. */
  predicate Any<T>(p: T -> bool, xs: seq<T>) {
    exists k :: 0 <= k < |xs| && p(xs[k])
  }

  /** The index of the first element of `xs` that satisfies `p`, or `|xs|` when none
      does. */
  function FirstIndex<T>(p: T -> bool, xs: seq<T>): (k: nat)
    ensures k <= |xs|
  {
    if |xs| == 0 then 0
    else if p(xs[0]) then 0
    else 1 + FirstIndex(p, xs[1..])
  }

  /** `FirstIndex` finds a match exactly when there is one, and every element before
      it fails `p`. */
  lemma {:induction false} FirstIndexIsFirst<T>(p: T -> bool, xs: seq<T>)
    ensures FirstIndex(p, xs) < |xs| <==> Any(p, xs)
    ensures FirstIndex(p, xs) < |xs| ==> p(xs[FirstIndex(p, xs)])
    ensures forall j :: 0 <= j < FirstIndex(p, xs) ==> !p(xs[j])
    decreases |xs|
  {
    if |xs| > 0 && !p(xs[0]) {
      FirstIndexIsFirst(p, xs[1..]);
      assert forall j :: 1 <= j < |xs| ==> xs[j] == xs[1..][j - 1];
      if Any(p, xs) {
        var k :| 0 <= k < |xs| && p(xs[k]);
        assert k > 0 && p(xs[1..][k - 1]);
      }
    }
  }

  // ---------------------------------------------------------------------------
  // The run

  /** The attempt against one address succeeds exactly when that peer completes the
      script, and then leaves the submission response's token in the client, read as
      the getter reads it over the client's buffer. */
  lemma AttemptSucceeds(client: Client, cred: Credentials, peer: Peer)
    requires ValidClient(client)
    ensures RunOne(client, cred, peer).outcome == Success <==> Completes(peer)
    ensures RunOne(client, cred, peer).outcome == Success ==>
              91 <= |peer.inbound|
              && RunOne(client, cred, peer).s.token == SessionToken(cred, peer, Residue(client.buf))
  {
    RunOneMatchesExpected(client, cred, peer);
    ExpectedSuccess(cred, peer, Residue(client.buf));
  }

  /** `p` tells whether the attempt by client `c` on `peer` succeeds; a successful
      attempt leaves the token read from bytes 59..90 of the peer's replies on into
      the client's buffer. */
  ghost predicate Agrees(cred: Credentials, p: Peer -> bool, c: Client, peer: Peer)
    requires ValidClient(c)
  {
    (RunOne(c, cred, peer).outcome == Success <==> p(peer))
    && (RunOne(c, cred, peer).outcome == Success ==>
          91 <= |peer.inbound| && RunOne(c, cred, peer).s.token == SessionToken(cred, peer, Residue(c.buf)))
  }

  /** `p` tells, from the peer alone, whether an attempt succeeds, whatever the client. */
  ghost predicate Decides(cred: Credentials, p: Peer -> bool) {
    forall c: Client, peer: Peer | ValidClient(c) :: Agrees(cred, p, c, peer)
  }

  lemma CompletesDecides(cred: Credentials)
    ensures Decides(cred, Completes)
  {
    forall c: Client, peer: Peer | ValidClient(c)
      ensures Agrees(cred, Completes, c, peer)
    {
      AttemptSucceeds(c, cred, peer);
    }
  }

  /** The run stops right after the first address whose attempt succeeds and keeps
      the token that attempt left; when no attempt succeeds it reports failure. */
  lemma {:induction false} RunAllStopsAtFirst(client: Client, cred: Credentials, p: Peer -> bool, peers: seq<Peer>)
    requires ValidClient(client) && Decides(cred, p)
    ensures var r := RunAll(client, cred, peers);
            var k := FirstIndex(p, peers);
            (r.ok <==> k < |peers|)
            && (r.ok ==> r.tried == k + 1 && 91 <= |peers[k].inbound|
                         && r.client.token == SessionToken(cred, peers[k], Residue(client.buf)))
    decreases |peers|
  {
    if |peers| > 0 {
      var a := RunOne(client, cred, peers[0]);
      var after := Client(a.s.buf, a.s.token);
      var r := RunAll(client, cred, peers);
      assert Agrees(cred, p, client, peers[0]);
      if a.outcome == Success {
        assert r == Report(true, 1, after);
        assert FirstIndex(p, peers) == 0;
      } else {
        assert ValidClient(after) && Residue(after.buf) == Residue(client.buf);
        RunAllStopsAtFirst(after, cred, p, peers[1..]);
        var rest := RunAll(after, cred, peers[1..]);
        assert r == rest.(tried := rest.tried + 1);
        var k := FirstIndex(p, peers[1..]);
        assert FirstIndex(p, peers) == k + 1;
        if rest.ok {
          assert peers[k + 1] == peers[1..][k];
        }
      }
    }
  }

  /** A report that stops right after the first match, read back as a statement about
      the addresses. */
  lemma FirstMatchReport<T>(p: T -> bool, ok: bool, tried: nat, xs: seq<T>)
    requires ok <==> FirstIndex(p, xs) < |xs|
    requires ok ==> tried == FirstIndex(p, xs) + 1
    ensures ok <==> Any(p, xs)
    ensures ok ==> tried - 1 == FirstIndex(p, xs) && p(xs[tried - 1]) && forall j :: 0 <= j < tried - 1 ==> !p(xs[j])
  {
    FirstIndexIsFirst(p, xs);
  }

  /** The run over a list of addresses succeeds exactly when the attempt at one of
      them succeeds; it then stops at the first such address, leaving that address's
      token, read over what the client's buffer held past the longest frame when the
      run began; when it fails it has tried every address. Which addresses succeed
      is decided by the peer alone: by `Completes` (see `CompletesDecides`), or by any
      predicate that agrees with the attempts, which can only be that one. */
  lemma RunAllFirstSuccess(client: Client, cred: Credentials, p: Peer -> bool, peers: seq<Peer>)
    requires ValidClient(client) && Decides(cred, p)
    ensures RunAll(client, cred, peers).ok <==> Any(p, peers)
    ensures RunAll(client, cred, peers).ok ==>
              var k := RunAll(client, cred, peers).tried - 1;
              p(peers[k])
              && (forall j :: 0 <= j < k ==> !p(peers[j]))
              && 91 <= |peers[k].inbound|
              && RunAll(client, cred, peers).client.token == SessionToken(cred, peers[k], Residue(client.buf))
    ensures !RunAll(client, cred, peers).ok ==> RunAll(client, cred, peers).tried == |peers|
  {
    var r := RunAll(client, cred, peers);
    RunAllStopsAtFirst(client, cred, p, peers);
    FirstMatchReport(p, r.ok, r.tried, peers);
  }

  /** The same, stated on `Completes`: the run succeeds exactly when some address
      completes the script, and then stops at the first one that does. */
  lemma RunAllFirstComplete(client: Client, cred: Credentials, peers: seq<Peer>)
    requires ValidClient(client)
    ensures RunAll(client, cred, peers).ok <==> Any(Completes, peers)
    ensures RunAll(client, cred, peers).ok ==>
              var k := RunAll(client, cred, peers).tried - 1;
              Completes(peers[k]) && forall j :: 0 <= j < k ==> !Completes(peers[j])
  {
    CompletesDecides(cred);
    RunAllFirstSuccess(client, cred, Completes, peers);
  }

  /** The client's verdict: success exactly when resolution yields an address whose
      attempt succeeds. */
  lemma RunSucceeds(client: Client, cred: Credentials, p: Peer -> bool, res: Resolution)
    requires ValidClient(client) && Decides(cred, p)
    ensures Run(client, cred, res).ok <==> res.Resolved? && Any(p, res.peers)
  {
    if res.Resolved? {
      RunAllFirstSuccess(client, cred, p, res.peers);
    }
  }

  /** With a name of at most 32 bytes, a successful run leaves exactly the text of
      the token slot of the address it stopped at, whatever the buffer held. */
  lemma ShortNameRunToken(client: Client, cred: Credentials, peers: seq<Peer>)
    requires ValidClient(client) && |cred.name| <= 32
    ensures var r := RunAll(client, cred, peers);
            r.ok ==> 91 <= |peers[r.tried - 1].inbound|
                     && r.client.token == ReadText(peers[r.tried - 1].inbound, 59, 32)
  {
    var r := RunAll(client, cred, peers);
    assert r.ok ==> 91 <= |peers[r.tried - 1].inbound|
                    && r.client.token == SessionToken(cred, peers[r.tried - 1], Residue(client.buf)) by {
      CompletesDecides(cred);
      RunAllFirstSuccess(client, cred, Completes, peers);
    }
    if r.ok {
      SessionTokenIsSlotText(cred, peers[r.tried - 1], Residue(client.buf));
    }
  }

  /** The client's own credentials carry a 12-byte name, so a successful run leaves
      the text of the token slot. */
  lemma BuiltInRunToken(client: Client, peers: seq<Peer>)
    requires ValidClient(client)
    ensures var r := RunAll(client, BuiltIn, peers);
            r.ok ==> 91 <= |peers[r.tried - 1].inbound|
                     && r.client.token == ReadText(peers[r.tried - 1].inbound, 59, 32)
  {
    assert |BuiltIn.name| == 12;
    ShortNameRunToken(client, BuiltIn, peers);
  }
}
