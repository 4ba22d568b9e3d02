/** Submission request body (tag 'S', 192 bytes): name, email and repository URL, each
    in a 64-byte text slot, at 0, 64 and 128. */
module SubmissionRequest {
  import opened Wire

  const Tag: byte := 'S' as int
  const EncodedLength: nat := 3 * 64

  const NameOffset: nat := 0
  const NameLength: nat := 64
  const EmailOffset: nat := 64
  const EmailLength: nat := 64
  const RepoOffset: nat := 128
  const RepoLength: nat := 64

  datatype Body = Body(name: seq<byte>, email: seq<byte>, repo: seq<byte>)

  predicate Fits(buf: seq<byte>, off: nat) {
    off + EncodedLength <= |buf|
  }

  /** The constructor's check: fails exactly when fewer than 192 bytes remain after the offset. */
  function Open(bufferLength: nat, offset: nat): (g: Guard)
    ensures g.Ok? <==> bufferLength >= offset + 192
  {
    CheckView(bufferLength, offset, EncodedLength)
  }

  /** The name getter as the client writes it: the C string that starts at the
      slot, which runs on past the slot when the slot holds no NUL. */
  function Name(buf: seq<byte>, off: nat): seq<byte>
    requires Fits(buf, off)
  {
    CStringAt(buf, off + NameOffset)
  }

  /** The name field read within its slot: the slot up to its first NUL. */
  function NameText(buf: seq<byte>, off: nat): seq<byte>
    requires Fits(buf, off)
  {
    ReadText(buf, off + NameOffset, NameLength)
  }

  /** Copies `min(|s|, 64)` bytes into the name slot and zero-fills the rest of it. */
  function SetName(buf: seq<byte>, off: nat, s: seq<byte>): (r: seq<byte>)
    requires Fits(buf, off)
    ensures |r| == |buf| && r[off..off + 64] == TextSlot(s, 64)
    ensures forall i :: 0 <= i < |buf| && !(off <= i < off + 64) ==> r[i] == buf[i]
  {
    WriteText(buf, off + NameOffset, NameLength, s)
  }

  /** The getter returns a NUL-free name shorter than its slot exactly as it was set. */
  lemma NameRoundTrip(buf: seq<byte>, off: nat, s: seq<byte>)
    requires Fits(buf, off) && |s| < 64 && NulFree(s)
    ensures Name(SetName(buf, off, s), off) == s
  {
    CStringAtWriteText(buf, off + NameOffset, NameLength, s);
  }

  /** The email getter as the client writes it: the C string that starts at the
      slot, which runs on past the slot when the slot holds no NUL. */
  function Email(buf: seq<byte>, off: nat): seq<byte>
    requires Fits(buf, off)
  {
    CStringAt(buf, off + EmailOffset)
  }

  /** The email field read within its slot: the slot up to its first NUL. */
  function EmailText(buf: seq<byte>, off: nat): seq<byte>
    requires Fits(buf, off)
  {
    ReadText(buf, off + EmailOffset, EmailLength)
  }

  /** Copies `min(|s|, 64)` bytes into the email slot and zero-fills the rest of it. */
  function SetEmail(buf: seq<byte>, off: nat, s: seq<byte>): (r: seq<byte>)
    requires Fits(buf, off)
    ensures |r| == |buf| && r[off + 64..off + 128] == TextSlot(s, 64)
    ensures forall i :: 0 <= i < |buf| && !(off + 64 <= i < off + 128) ==> r[i] == buf[i]
  {
    WriteText(buf, off + EmailOffset, EmailLength, s)
  }

  /** The getter returns a NUL-free email shorter than its slot exactly as it was set. */
  lemma EmailRoundTrip(buf: seq<byte>, off: nat, s: seq<byte>)
    requires Fits(buf, off) && |s| < 64 && NulFree(s)
    ensures Email(SetEmail(buf, off, s), off) == s
  {
    CStringAtWriteText(buf, off + EmailOffset, EmailLength, s);
  }

  /** The repository URL getter as the client writes it: the C string that starts at the
      slot, which runs on past the slot when the slot holds no NUL. */
  function Repo(buf: seq<byte>, off: nat): seq<byte>
    requires Fits(buf, off)
  {
    CStringAt(buf, off + RepoOffset)
  }

  /** The repository URL field read within its slot: the slot up to its first NUL. */
  function RepoText(buf: seq<byte>, off: nat): seq<byte>
    requires Fits(buf, off)
  {
    ReadText(buf, off + RepoOffset, RepoLength)
  }

  /** Copies `min(|s|, 64)` bytes into the repository slot and zero-fills the rest of it. */
  function SetRepo(buf: seq<byte>, off: nat, s: seq<byte>): (r: seq<byte>)
    requires Fits(buf, off)
    ensures |r| == |buf| && r[off + 128..off + 192] == TextSlot(s, 64)
    ensures forall i :: 0 <= i < |buf| && !(off + 128 <= i < off + 192) ==> r[i] == buf[i]
  {
    WriteText(buf, off + RepoOffset, RepoLength, s)
  }

  /** The getter returns a NUL-free repository URL shorter than its slot exactly as it was set. */
  lemma RepoRoundTrip(buf: seq<byte>, off: nat, s: seq<byte>)
    requires Fits(buf, off) && |s| < 64 && NulFree(s)
    ensures Repo(SetRepo(buf, off, s), off) == s
  {
    CStringAtWriteText(buf, off + RepoOffset, RepoLength, s);
  }

  /** The setters chained as the client uses them: `Name(..).Email(..).Repo(..)`. */
  function Write(buf: seq<byte>, off: nat, b: Body): (r: seq<byte>)
    requires Fits(buf, off)
    ensures |r| == |buf|
  {
    SetRepo(SetEmail(SetName(buf, off, b.name), off, b.email), off, b.repo)
  }

  function Read(buf: seq<byte>, off: nat): Body
    requires Fits(buf, off)
  {
    Body(NameText(buf, off), EmailText(buf, off), RepoText(buf, off))
  }

  /** The 192 bytes a body occupies on the wire. */
  function Encode(b: Body): (r: seq<byte>)
    ensures |r| == EncodedLength
  {
    TextSlot(b.name, NameLength) + TextSlot(b.email, EmailLength) + TextSlot(b.repo, RepoLength)
  }

  function Truncated(b: Body): Body {
    Body(b.name[..Min(|b.name|, 64)], b.email[..Min(|b.email|, 64)], b.repo[..Min(|b.repo|, 64)])
  }

  predicate Readable(b: Body) {
    NulFree(Truncated(b).name) && NulFree(Truncated(b).email) && NulFree(Truncated(b).repo)
  }

  /** Writing one field leaves the bytes of the other two fields as they were. */
  lemma SettersKeepOtherFields(buf: seq<byte>, off: nat, s: seq<byte>)
    requires Fits(buf, off)
    ensures SetName(buf, off, s)[off + 64..off + 192] == buf[off + 64..off + 192]
    ensures SetEmail(buf, off, s)[off..off + 64] == buf[off..off + 64]
    ensures SetEmail(buf, off, s)[off + 128..off + 192] == buf[off + 128..off + 192]
    ensures SetRepo(buf, off, s)[off..off + 128] == buf[off..off + 128]
  {
  }

  /** A chained write stores exactly the body's encoding and nothing else. */
  lemma WriteStoresEncoding(buf: seq<byte>, off: nat, b: Body)
    requires Fits(buf, off)
    ensures Write(buf, off, b)[off..off + EncodedLength] == Encode(b)
    ensures forall i :: 0 <= i < |buf| && !(off <= i < off + EncodedLength) ==> Write(buf, off, b)[i] == buf[i]
  {
    var b1 := SetName(buf, off, b.name);
    var b2 := SetEmail(b1, off, b.email);
    var r := SetRepo(b2, off, b.repo);
    assert r[off..off + 64] == b2[off..off + 64] == b1[off..off + 64];
    assert r[off + 64..off + 128] == b2[off + 64..off + 128];
    assert r[off..off + 192] == r[off..off + 64] + r[off + 64..off + 128] + r[off + 128..off + 192];
  }

  /** Reading back a written body gives each field truncated to its slot. */
  lemma ReadWrite(buf: seq<byte>, off: nat, b: Body)
    requires Fits(buf, off) && Readable(b)
    ensures Read(Write(buf, off, b), off) == Truncated(b)
  {
    var b1 := SetName(buf, off, b.name);
    var b2 := SetEmail(b1, off, b.email);
    var r := SetRepo(b2, off, b.repo);
    ReadTextWriteText(buf, off, 64, b.name);
    ReadTextWriteText(b1, off + 64, 64, b.email);
    ReadTextWriteText(b2, off + 128, 64, b.repo);
    assert r[off..off + 64] == b2[off..off + 64] == b1[off..off + 64];
    assert r[off + 64..off + 128] == b2[off + 64..off + 128];
  }
}
