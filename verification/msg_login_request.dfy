/** Login request body (tag 'L', 96 bytes): the user in a 64-byte text slot at 0
    and the password in a 32-byte text slot at 64. */
module LoginRequest {
  import opened Wire

  const Tag: byte := 'L' as int
  const EncodedLength: nat := 96

  const UserOffset: nat := 0
  const UserLength: nat := 64
  const PasswordOffset: nat := 64
  const PasswordLength: nat := 32

  datatype Body = Body(user: seq<byte>, password: seq<byte>)

  /** The view over `buf` at `off` was constructed, so both slots are in bounds. */
  predicate Fits(buf: seq<byte>, off: nat) {
    off + EncodedLength <= |buf|
  }

  /** The constructor's check: fails exactly when fewer than 96 bytes remain after the offset. */
  function Open(bufferLength: nat, offset: nat): (g: Guard)
    ensures g.Ok? <==> bufferLength >= offset + 96
  {
    CheckView(bufferLength, offset, EncodedLength)
  }

  /** The user getter as the client writes it: the C string that starts at the
      slot, which runs on past the slot when the slot holds no NUL. */
  function User(buf: seq<byte>, off: nat): seq<byte>
    requires Fits(buf, off)
  {
    CStringAt(buf, off + UserOffset)
  }

  /** The user field read within its slot: the slot up to its first NUL. */
  function UserText(buf: seq<byte>, off: nat): seq<byte>
    requires Fits(buf, off)
  {
    ReadText(buf, off + UserOffset, UserLength)
  }

  /** Copies `min(|s|, 64)` bytes of `s` into the user slot and zero-fills the rest of
      it; no other byte of the buffer changes. */
  function SetUser(buf: seq<byte>, off: nat, s: seq<byte>): (r: seq<byte>)
    requires Fits(buf, off)
    ensures |r| == |buf| && r[off..off + 64] == TextSlot(s, 64)
    ensures forall i :: 0 <= i < |buf| && !(off <= i < off + 64) ==> r[i] == buf[i]
  {
    WriteText(buf, off + UserOffset, UserLength, s)
  }

  /** The getter returns a NUL-free user shorter than its slot exactly as it was set. */
  lemma UserRoundTrip(buf: seq<byte>, off: nat, s: seq<byte>)
    requires Fits(buf, off) && |s| < 64 && NulFree(s)
    ensures User(SetUser(buf, off, s), off) == s
  {
    CStringAtWriteText(buf, off + UserOffset, UserLength, s);
  }

  /** The password getter as the client writes it: the C string that starts at the
      slot, which runs on past the slot when the slot holds no NUL. */
  function Password(buf: seq<byte>, off: nat): seq<byte>
    requires Fits(buf, off)
  {
    CStringAt(buf, off + PasswordOffset)
  }

  /** The password field read within its slot: the slot up to its first NUL. */
  function PasswordText(buf: seq<byte>, off: nat): seq<byte>
    requires Fits(buf, off)
  {
    ReadText(buf, off + PasswordOffset, PasswordLength)
  }

  /** Copies `min(|s|, 32)` bytes of `s` into the password slot and zero-fills the rest
      of it; no other byte of the buffer changes. */
  function SetPassword(buf: seq<byte>, off: nat, s: seq<byte>): (r: seq<byte>)
    requires Fits(buf, off)
    ensures |r| == |buf| && r[off + 64..off + 96] == TextSlot(s, 32)
    ensures forall i :: 0 <= i < |buf| && !(off + 64 <= i < off + 96) ==> r[i] == buf[i]
  {
    WriteText(buf, off + PasswordOffset, PasswordLength, s)
  }

  /** The getter returns a NUL-free password shorter than its slot exactly as it was set. */
  lemma PasswordRoundTrip(buf: seq<byte>, off: nat, s: seq<byte>)
    requires Fits(buf, off) && |s| < 32 && NulFree(s)
    ensures Password(SetPassword(buf, off, s), off) == s
  {
    CStringAtWriteText(buf, off + PasswordOffset, PasswordLength, s);
  }

  /** The setters chained as the client uses them: `User(..).Password(..)`. */
  function Write(buf: seq<byte>, off: nat, b: Body): (r: seq<byte>)
    requires Fits(buf, off)
    ensures |r| == |buf|
  {
    SetPassword(SetUser(buf, off, b.user), off, b.password)
  }

  function Read(buf: seq<byte>, off: nat): Body
    requires Fits(buf, off)
  {
    Body(UserText(buf, off), PasswordText(buf, off))
  }

  /** The 96 bytes a body occupies on the wire. */
  function Encode(b: Body): (r: seq<byte>)
    ensures |r| == EncodedLength
  {
    TextSlot(b.user, UserLength) + TextSlot(b.password, PasswordLength)
  }

  /** What survives an encoding: each field cut to its slot. */
  function Truncated(b: Body): Body {
    Body(b.user[..Min(|b.user|, UserLength)], b.password[..Min(|b.password|, PasswordLength)])
  }

  /** The fields can be read back exactly when their truncations hold no NUL. */
  predicate Readable(b: Body) {
    NulFree(Truncated(b).user) && NulFree(Truncated(b).password)
  }

  /** Writing the user never touches the password slot, and the other way round, so
      the two writes commute. */
  lemma SettersCommute(buf: seq<byte>, off: nat, user: seq<byte>, password: seq<byte>)
    requires Fits(buf, off)
    ensures SetPassword(SetUser(buf, off, user), off, password)
         == SetUser(SetPassword(buf, off, password), off, user)
  {
    var a := SetPassword(SetUser(buf, off, user), off, password);
    var b := SetUser(SetPassword(buf, off, password), off, user);
    forall i | 0 <= i < |buf|
      ensures a[i] == b[i]
    {
      if off <= i < off + 64 {
        assert a[i] == a[off..off + 64][i - off];
        assert b[i] == b[off..off + 64][i - off];
      } else if off + 64 <= i < off + 96 {
        assert a[i] == a[off + 64..off + 96][i - off - 64];
        assert b[i] == b[off + 64..off + 96][i - off - 64];
      }
    }
  }

  /** A chained write stores exactly the body's encoding in the view's 96 bytes and
      leaves every other byte of the buffer as it was. */
  lemma WriteStoresEncoding(buf: seq<byte>, off: nat, b: Body)
    requires Fits(buf, off)
    ensures Write(buf, off, b)[off..off + EncodedLength] == Encode(b)
    ensures forall i :: 0 <= i < |buf| && !(off <= i < off + EncodedLength) ==> Write(buf, off, b)[i] == buf[i]
  {
    var b1 := SetUser(buf, off, b.user);
    var r := SetPassword(b1, off, b.password);
    assert r[off..off + 64] == b1[off..off + 64];
    assert r[off..off + 96] == r[off..off + 64] + r[off + 64..off + 96];
  }

  /** Reading back a written body gives each field truncated to its slot. */
  lemma ReadWrite(buf: seq<byte>, off: nat, b: Body)
    requires Fits(buf, off) && Readable(b)
    ensures Read(Write(buf, off, b), off) == Truncated(b)
  {
    var b1 := SetUser(buf, off, b.user);
    var r := SetPassword(b1, off, b.password);
    ReadTextWriteText(buf, off, 64, b.user);
    assert r[off..off + 64] == b1[off..off + 64];
    ReadTextWriteText(b1, off + 64, 32, b.password);
  }

  /** The user getter as written reads past a user slot that was filled completely:
      with a 64-byte user and a non-empty password, it returns the user followed by
      password bytes, while the slot-bounded `UserText` returns the user. */
  lemma UserGetterOverrunsIntoPassword(buf: seq<byte>, off: nat, b: Body)
    requires Fits(buf, off)
    requires |b.user| >= 64 && NulFree(b.user[..64])
    requires |b.password| >= 1 && b.password[0] != 0
    ensures |User(Write(buf, off, b), off)| > UserLength
    ensures UserText(Write(buf, off, b), off) == b.user[..64]
  {
    var r := Write(buf, off, b);
    WriteStoresEncoding(buf, off, b);
    assert r[off..off + 65] == Encode(b)[..65];
    assert NulFree(r[off..off + 65]);
    CStringOverrunsFullSlot(r, off, 64);
    var b1 := SetUser(buf, off, b.user);
    ReadTextWriteText(buf, off, 64, b.user);
    assert r[off..off + 64] == b1[off..off + 64];
  }

  /** The getters as written read back a chained write exactly when each field is
      NUL-free and shorter than its slot, so that the slot keeps a terminator. */
  lemma GettersReadBack(buf: seq<byte>, off: nat, b: Body)
    requires Fits(buf, off)
    requires |b.user| < UserLength && NulFree(b.user)
    requires |b.password| < PasswordLength && NulFree(b.password)
    ensures User(Write(buf, off, b), off) == b.user
    ensures Password(Write(buf, off, b), off) == b.password
  {
    var b1 := SetUser(buf, off, b.user);
    var r := SetPassword(b1, off, b.password);
    UserRoundTrip(buf, off, b.user);
    PasswordRoundTrip(b1, off, b.password);
    assert r[off..off + 64] == b1[off..off + 64];
    CStringAtWithinSlot(b1, r, off, 64);
  }
}
