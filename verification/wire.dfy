/** Fixed-width wire primitives shared by every message view: bytes, little-endian
    unsigned integers, in-place splicing of a caller-owned buffer, and zero-padded
    text slots. A buffer is a `seq<byte>`; a "view" is just an offset into it. */
module Wire {

  type byte = b: int | 0 <= b < 0x100
  type u16 = x: int | 0 <= x < 0x1_0000
  type u64 = x: int | 0 <= x < 0x1_0000_0000_0000_0000

  /** Result of a view constructor's size check. */
  datatype Guard = Ok | BufferTooSmall(needed: nat, available: nat)

  /** The check every view constructor performs: the view's encoded length must fit
      between `offset` and the end of a buffer of `bufferLength` bytes. */
  function CheckView(bufferLength: nat, offset: nat, encodedLength: nat): (g: Guard)
    ensures g.Ok? <==> offset + encodedLength <= bufferLength
    ensures g.BufferTooSmall? ==> g.needed == offset + encodedLength && g.available == bufferLength
  {
    if bufferLength < offset + encodedLength then BufferTooSmall(offset + encodedLength, bufferLength)
    else Ok
  }

  function Min(a: nat, b: nat): nat {
    if a <= b then a else b
  }

  function Pow256(n: nat): (p: nat)
    ensures p >= 1
  {
    if n == 0 then 1 else 256 * Pow256(n - 1)
  }

  lemma Pow256Values()
    ensures Pow256(1) == 0x100
    ensures Pow256(2) == 0x1_0000
    ensures Pow256(8) == 0x1_0000_0000_0000_0000
  {
    assert Pow256(1) == 0x100;
    assert Pow256(2) == 0x1_0000;
    assert Pow256(3) == 0x100_0000;
    assert Pow256(4) == 0x1_0000_0000;
    assert Pow256(5) == 0x100_0000_0000;
    assert Pow256(6) == 0x1_0000_0000_0000;
    assert Pow256(7) == 0x100_0000_0000_0000;
  }

  /** The `n` low-order bytes of `v`, least significant first. */
  function EncodeLE(v: nat, n: nat): (r: seq<byte>)
    ensures |r| == n
  {
    if n == 0 then [] else [v % 256] + EncodeLE(v / 256, n - 1)
  }

  /** The unsigned integer whose little-endian encoding is `s`. */
  function DecodeLE(s: seq<byte>): (v: nat)
    ensures v < Pow256(|s|)
  {
    if |s| == 0 then 0 else s[0] + 256 * DecodeLE(s[1..])
  }

  /** Decoding an encoding gives the value back when it fits in `n` bytes. */
  lemma {:induction false} DecodeEncode(v: nat, n: nat)
    requires v < Pow256(n)
    ensures DecodeLE(EncodeLE(v, n)) == v
  {
    if n > 0 {
      var r := EncodeLE(v, n);
      assert r[1..] == EncodeLE(v / 256, n - 1);
      DecodeEncode(v / 256, n - 1);
    }
  }

  /** Encoding a decoded value gives the bytes back: the encoding is a bijection. */
  lemma {:induction false} EncodeDecode(s: seq<byte>)
    ensures EncodeLE(DecodeLE(s), |s|) == s
  {
    if |s| > 0 {
      var v := DecodeLE(s);
      var w := DecodeLE(s[1..]);
      assert v % 256 == s[0] && v / 256 == w;
      EncodeDecode(s[1..]);
      assert s == [s[0]] + s[1..];
    }
  }

  /** A two-byte encoding holds the low byte, then the high byte. */
  lemma EncodeLE16(v: u16)
    ensures EncodeLE(v, 2) == [v % 256, v / 256]
  {
    assert EncodeLE(v / 256, 1) == [(v / 256) % 256];
  }

  /** A two-byte sequence decodes to its first byte plus 256 times its second. */
  lemma DecodeLE16(s: seq<byte>)
    requires |s| == 2
    ensures DecodeLE(s) == s[0] as int + 256 * s[1] as int
  {
    assert DecodeLE(s[1..][1..]) == 0;
  }

  /** `buf` with `data` copied over it starting at `at` (a `memcpy` into the buffer). */
  function Splice(buf: seq<byte>, at: nat, data: seq<byte>): (r: seq<byte>)
    requires at + |data| <= |buf|
    ensures |r| == |buf|
    ensures r[at..at + |data|] == data
    ensures forall i :: at <= i < at + |data| ==> r[i] == data[i - at]
    ensures forall i :: 0 <= i < |buf| && !(at <= i < at + |data|) ==> r[i] == buf[i]
  {
    buf[..at] + data + buf[at + |data|..]
  }

  function Zeros(n: nat): (r: seq<byte>)
    ensures |r| == n && forall i :: 0 <= i < n ==> r[i] == 0
  {
    seq(n, _ => 0)
  }

  /** The bytes a text writer leaves in a slot of `width` bytes: the first
      `min(|s|, width)` bytes of `s`, then zero fill. A string at least as long as
      the slot fills it completely and leaves no terminator. */
  function TextSlot(s: seq<byte>, width: nat): (r: seq<byte>)
    ensures |r| == width
    ensures forall i :: 0 <= i < Min(|s|, width) ==> r[i] == s[i]
    ensures forall i :: Min(|s|, width) <= i < width ==> r[i] == 0
  {
    s[..Min(|s|, width)] + Zeros(width - Min(|s|, width))
  }

  /** A string at least as long as the slot fills it with its first `width` bytes. */
  lemma TextSlotFull(s: seq<byte>, width: nat)
    requires |s| >= width
    ensures TextSlot(s, width) == s[..width]
  {
  }

  /** A text writer: `memcpy` of `min(|s|, width)` bytes then `memset` of the rest. */
  function WriteText(buf: seq<byte>, at: nat, width: nat, s: seq<byte>): (r: seq<byte>)
    requires at + width <= |buf|
    ensures |r| == |buf|
    ensures r[at..at + width] == TextSlot(s, width)
    ensures forall i :: 0 <= i < |buf| && !(at <= i < at + width) ==> r[i] == buf[i]
  {
    Splice(buf, at, TextSlot(s, width))
  }

  predicate NulFree(s: seq<byte>) {
    forall i :: 0 <= i < |s| ==> s[i] != 0
  }

  /** The longest NUL-free prefix of `s`: what `strlen` delimits. */
  function TakeUntilNul(s: seq<byte>): (r: seq<byte>)
    ensures |r| <= |s| && r == s[..|r|]
    ensures NulFree(r)
    ensures |r| == |s| || s[|r|] == 0
  {
    if |s| == 0 || s[0] == 0 then [] else [s[0]] + TakeUntilNul(s[1..])
  }

  /** The three properties of `TakeUntilNul` determine its result. */
  lemma {:induction false} TakeUntilNulUnique(s: seq<byte>, p: seq<byte>)
    requires |p| <= |s| && p == s[..|p|] && NulFree(p)
    requires |p| == |s| || s[|p|] == 0
    ensures TakeUntilNul(s) == p
  {
    if |p| > 0 {
      assert s[0] == p[0];
      assert p[1..] == s[1..][..|p| - 1];
      TakeUntilNulUnique(s[1..], p[1..]);
      assert p == [p[0]] + p[1..];
    }
  }

  /** A NUL-free run of `k + 1` bytes at the start of `s` is all taken. */
  lemma {:induction false} TakeUntilNulCoversRun(s: seq<byte>, k: nat)
    requires k < |s| && NulFree(s[..k + 1])
    ensures |TakeUntilNul(s)| > k
  {
    assert s[0] == s[..k + 1][0];
    if k > 0 {
      assert s[1..][..k] == s[..k + 1][1..];
      TakeUntilNulCoversRun(s[1..], k - 1);
    }
  }

  /** Slot-bounded text reader: the bytes of the slot up to its first NUL, or the
      whole slot when it holds none. */
  function ReadText(buf: seq<byte>, at: nat, width: nat): (r: seq<byte>)
    requires at + width <= |buf|
    ensures |r| <= width && r == buf[at..at + |r|] && NulFree(r)
    ensures |r| == width || buf[at + |r|] == 0
  {
    TakeUntilNul(buf[at..at + width])
  }

  /** The text reader as the views write it (`std::string{b}`): it stops at the first
      NUL anywhere after `at`, not at the end of the slot. Reading past the end of the
      buffer is undefined in the client; here it stops at the end. */
  function CStringAt(buf: seq<byte>, at: nat): (r: seq<byte>)
    requires at <= |buf|
    ensures |r| <= |buf| - at && r == buf[at..at + |r|] && NulFree(r)
    ensures at + |r| == |buf| || buf[at + |r|] == 0
  {
    TakeUntilNul(buf[at..])
  }

  /** Round trip of a text slot: the bounded reader returns what the writer stored,
      truncated to the slot, whenever the stored bytes contain no NUL. */
  lemma ReadTextWriteText(buf: seq<byte>, at: nat, width: nat, s: seq<byte>)
    requires at + width <= |buf|
    requires NulFree(s[..Min(|s|, width)])
    ensures ReadText(WriteText(buf, at, width, s), at, width) == s[..Min(|s|, width)]
  {
    var slot := TextSlot(s, width);
    var p := s[..Min(|s|, width)];
    assert slot[..|p|] == p;
    TakeUntilNulUnique(slot, p);
  }

  /** `strlen` over a concatenation: it stops inside `a` when `a` holds a NUL, and
      otherwise takes all of `a` and goes on into `b`. */
  lemma {:induction false} TakeUntilNulAppend(a: seq<byte>, b: seq<byte>)
    ensures TakeUntilNul(a + b) ==
              if |TakeUntilNul(a)| < |a| then TakeUntilNul(a) else a + TakeUntilNul(b)
  {
    var ta := TakeUntilNul(a);
    if |ta| < |a| {
      assert (a + b)[..|ta|] == ta;
      assert (a + b)[|ta|] == a[|ta|];
      TakeUntilNulUnique(a + b, ta);
    } else {
      var tb := TakeUntilNul(b);
      var p := a + tb;
      assert ta == a;
      assert (a + b)[..|p|] == p;
      assert NulFree(p) by {
        forall i | 0 <= i < |p| ensures p[i] != 0 {
          if i >= |a| { assert p[i] == tb[i - |a|]; }
        }
      }
      if |p| < |a + b| { assert (a + b)[|p|] == b[|tb|]; }
      TakeUntilNulUnique(a + b, p);
    }
  }

  /** `strlen` runs through a NUL-free prefix. */
  lemma TakeUntilNulPastNulFree(a: seq<byte>, b: seq<byte>)
    requires NulFree(a)
    ensures TakeUntilNul(a + b) == a + TakeUntilNul(b)
  {
    TakeUntilNulUnique(a, a);
    TakeUntilNulAppend(a, b);
  }

  /** How the as-written reader relates to the slot-bounded one: they agree when the
      slot holds a NUL; when it holds none, the as-written reader returns the whole
      slot followed by whatever string starts right after it. */
  lemma CStringAtSlot(buf: seq<byte>, at: nat, width: nat)
    requires at + width <= |buf|
    ensures CStringAt(buf, at) ==
              if |ReadText(buf, at, width)| < width then ReadText(buf, at, width)
              else buf[at..at + width] + CStringAt(buf, at + width)
  {
    assert buf[at..] == buf[at..at + width] + buf[at + width..];
    TakeUntilNulAppend(buf[at..at + width], buf[at + width..]);
  }

  /** A string that ends inside its slot depends on the slot's bytes alone. */
  lemma CStringAtWithinSlot(a: seq<byte>, b: seq<byte>, at: nat, width: nat)
    requires at + width <= |a| && at + width <= |b|
    requires a[at..at + width] == b[at..at + width]
    requires |CStringAt(a, at)| < width
    ensures CStringAt(b, at) == CStringAt(a, at)
  {
    CStringAtSlot(a, at, width);
    CStringAtSlot(b, at, width);
  }

  /** Round trip of a text slot through the as-written reader: a NUL-free string
      shorter than its slot is stored with a terminator and read back exactly. */
  lemma CStringAtWriteText(buf: seq<byte>, at: nat, width: nat, s: seq<byte>)
    requires at + width <= |buf|
    requires |s| < width && NulFree(s)
    ensures CStringAt(WriteText(buf, at, width, s), at) == s
  {
    var r := WriteText(buf, at, width, s);
    assert r[at..][..|s|] == s;
    assert r[at..][|s|] == r[at..at + width][|s|] == 0;
    TakeUntilNulUnique(r[at..], s);
  }

  /** The as-written reader overruns a slot that the writer filled completely: when
      the byte just after the slot is not NUL, the string it returns is longer than
      the slot. */
  lemma CStringOverrunsFullSlot(buf: seq<byte>, at: nat, width: nat)
    requires at + width < |buf|
    requires NulFree(buf[at..at + width + 1])
    ensures |CStringAt(buf, at)| > width
  {
    assert buf[at..][..width + 1] == buf[at..at + width + 1];
    TakeUntilNulCoversRun(buf[at..], width);
  }
}
