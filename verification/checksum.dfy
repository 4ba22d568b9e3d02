/** The one's-complement 16-bit frame checksum. One routine both computes and
    verifies: it remembers the header's checksum field, zeroes it, sums the frame as
    little-endian 16-bit words (a trailing odd byte is added unshifted) together with
    the remembered value in a 32-bit accumulator, folds the carries back twice and
    stores the complement. Run on a frame whose field is zero it computes the
    checksum; run again on the unchanged frame it leaves the field at zero. The
    header is at offset 0 of the summed buffer, as in every call the client makes. */
module Checksum {
  import opened Wire
  import MsgHeader

  const Modulus32: nat := 0x1_0000_0000
  const OnesModulus: nat := 0xFFFF

  /** Largest frame the client builds or reads: the size of its scratch buffer. */
  const MaxFrame: nat := 1024

  /** Sum of the little-endian 16-bit words of `s`; a trailing odd byte counts as a
      low-order value. */
  function WordSum(s: seq<byte>): nat
    decreases |s|
  {
    if |s| == 0 then 0
    else if |s| == 1 then s[0]
    else s[0] + 256 * s[1] + WordSum(s[2..])
  }

  /** One carry fold: `(x >> 16) + (x & 0xFFFF)`. */
  function Fold(x: nat): nat {
    x / 0x1_0000 + x % 0x1_0000
  }

  /** The stored value: `uint16_t(~sum)` on a 32-bit `sum`. */
  function Complement(x: nat): u16 {
    (0xFFFF_FFFF - x) % 0x1_0000
  }

  /** The checksum field of a buffer whose header sits at offset 0. */
  function Field(buf: seq<byte>): u16
    requires MsgHeader.Fits(buf, 0)
  {
    MsgHeader.Checksum(buf, 0)
  }

  /** The routine over the first `len` bytes of `buf`. `len` must be at least 1: the
      loop bound `len - 1` is unsigned and would wrap at 0. */
  function Checksum(buf: seq<byte>, len: nat): (r: seq<byte>)
    requires MsgHeader.Fits(buf, 0) && 1 <= len <= |buf|
    ensures |r| == |buf|
    ensures forall i :: 0 <= i < |buf| && i != 11 && i != 12 ==> r[i] == buf[i]
  {
    var remembered := Field(buf);
    var zeroed := MsgHeader.SetChecksum(buf, 0, 0);
    var sum := (remembered + WordSum(zeroed[..len])) % Modulus32;
    MsgHeader.SetChecksum(zeroed, 0, Complement(Fold(Fold(sum))))
  }

  /** The frame is intact: verifying it leaves a zero checksum field. */
  predicate Verifies(buf: seq<byte>, len: nat)
    requires MsgHeader.Fits(buf, 0) && 1 <= len <= |buf|
  {
    Field(Checksum(buf, len)) == 0
  }

  // ---------------------------------------------------------------------------
  // The word loop

  lemma {:induction false} WordSumSplit(a: seq<byte>, b: seq<byte>)
    requires |a| % 2 == 0
    ensures WordSum(a + b) == WordSum(a) + WordSum(b)
    decreases |a|
  {
    if |a| > 0 {
      assert (a + b)[0] == a[0] && (a + b)[1] == a[1];
      assert (a + b)[2..] == a[2..] + b;
      WordSumSplit(a[2..], b);
    } else {
      assert a + b == b;
    }
  }

  lemma WordSumPair(x: byte, y: byte)
    ensures WordSum([x, y]) == x + 256 * y
  {
    assert [x, y][2..] == [];
  }

  lemma AddMod32(a: int, b: int)
    ensures (a % Modulus32 + b) % Modulus32 == (a + b) % Modulus32
  {
    assert a == Modulus32 * (a / Modulus32) + a % Modulus32;
  }

  lemma SmallMod32(t: nat)
    requires t < Modulus32
    ensures t % Modulus32 == t
  {
  }

  lemma AddModOnes(a: int, b: int)
    ensures (a % OnesModulus + b) % OnesModulus == (a + b) % OnesModulus
  {
    assert a == OnesModulus * (a / OnesModulus) + a % OnesModulus;
  }

  /** Adding the word at `j` keeps the accumulator equal to the wrapped sum so far. */
  lemma AddWordStep(b: seq<byte>, j: nat, seed: nat, sum: nat)
    requires j % 2 == 0 && j + 2 <= |b|
    requires sum == (seed + WordSum(b[..j])) % Modulus32
    ensures (sum + (b[j] as int + 256 * b[j + 1] as int)) % Modulus32
         == (seed + WordSum(b[..j + 2])) % Modulus32
  {
    WordSumSplit(b[..j], b[j..j + 2]);
    assert b[..j + 2] == b[..j] + b[j..j + 2];
    WordSumPair(b[j], b[j + 1]);
    AddMod32(seed + WordSum(b[..j]), b[j] as int + 256 * b[j + 1] as int);
  }

  /** Adding a trailing odd byte, unshifted, completes the wrapped sum. */
  lemma AddTailStep(b: seq<byte>, len: nat, seed: nat, sum: nat)
    requires len % 2 == 1 && len <= |b|
    requires sum == (seed + WordSum(b[..len - 1])) % Modulus32
    ensures (sum + b[len - 1]) % Modulus32 == (seed + WordSum(b[..len])) % Modulus32
  {
    var j := len - 1;
    WordSumSplit(b[..j], [b[j]]);
    assert b[..len] == b[..j] + [b[j]];
    AddMod32(seed + WordSum(b[..j]), b[j]);
  }

  /** The accumulation loop of the routine, with the accumulator wrapping at 2^32:
      words `b[j..j+2]` for even `j < len - 1`, then the last byte when `len` is odd. */
  method SumWords(b: seq<byte>, len: nat, seed: nat) returns (sum: nat)
    requires 1 <= len <= |b| && seed < Modulus32
    ensures sum == (seed + WordSum(b[..len])) % Modulus32
  {
    sum := seed;
    var j := 0;
    while j < len - 1
      invariant j % 2 == 0 && j <= len
      invariant sum == (seed + WordSum(b[..j])) % Modulus32
    {
      AddWordStep(b, j, seed, sum);
      sum := (sum + (b[j] as int + 256 * b[j + 1] as int)) % Modulus32;
      j := j + 2;
    }
    if len % 2 != 0 {
      AddTailStep(b, len, seed, sum);
      sum := (sum + b[len - 1]) % Modulus32;
    } else {
      assert b[..j] == b[..len];
    }
  }

  /** The routine in the shape of the client's: remember, zero, accumulate, fold
      twice, store the complement. */
  method ComputeOrVerify(buf: seq<byte>, len: nat) returns (r: seq<byte>)
    requires MsgHeader.Fits(buf, 0) && 1 <= len <= |buf|
    ensures r == Checksum(buf, len)
  {
    var remembered := MsgHeader.Checksum(buf, 0);
    var zeroed := MsgHeader.SetChecksum(buf, 0, 0);
    var sum := SumWords(zeroed, len, remembered);
    ghost var total := sum;
    sum := sum / 0x1_0000 + sum % 0x1_0000;
    assert sum == Fold(total);
    sum := sum / 0x1_0000 + sum % 0x1_0000;
    assert sum == Fold(Fold(total));
    r := MsgHeader.SetChecksum(zeroed, 0, Complement(sum));
  }

  // ---------------------------------------------------------------------------
  // Arithmetic of the fold

  /** The word sum never exceeds 0xFFFF per started word. */
  lemma {:induction false} WordSumBound(s: seq<byte>)
    ensures WordSum(s) <= OnesModulus * ((|s| + 1) / 2)
    decreases |s|
  {
    if |s| >= 2 {
      WordSumBound(s[2..]);
    }
  }

  /** For frames up to the scratch buffer's size the 32-bit accumulator, seeded with
      any 16-bit value, cannot overflow. */
  lemma NoOverflow(s: seq<byte>, seed: u16)
    requires |s| <= MaxFrame
    ensures seed + WordSum(s) < Modulus32
  {
    WordSumBound(s);
  }

  /** Two folds of a 32-bit value give at most 0xFFFF, are congruent to it modulo
      0xFFFF, and are zero only for zero. */
  lemma FoldTwice(x: nat)
    requires x < Modulus32
    ensures Fold(Fold(x)) <= OnesModulus
    ensures (x - Fold(Fold(x))) % OnesModulus == 0
    ensures Fold(Fold(x)) == 0 <==> x == 0
  {
    var f := Fold(x);
    assert x - f == OnesModulus * (x / 0x1_0000);
    assert f - Fold(f) == OnesModulus * (f / 0x1_0000);
    assert x - Fold(f) == OnesModulus * (x / 0x1_0000 + f / 0x1_0000);
  }

  /** A value in `[1, 0xFFFF]` congruent to 0 modulo 0xFFFF is 0xFFFF. */
  lemma OnlyFullValueIsCongruentToZero(f: nat)
    requires 0 < f <= OnesModulus && f % OnesModulus == 0
    ensures f == OnesModulus
  {
  }

  /** A nonzero value smaller than 0xFFFF in magnitude is not a multiple of 0xFFFF. */
  lemma SmallNonzeroNotCongruent(d: int)
    requires d != 0 && -0xFFFF < d < 0xFFFF
    ensures d % OnesModulus != 0
  {
  }

  // ---------------------------------------------------------------------------
  // Properties of the routine

  /** Only the checksum field, bytes 11 and 12, can change. */
  lemma OnlyFieldChanges(buf: seq<byte>, len: nat)
    requires MsgHeader.Fits(buf, 0) && 1 <= len <= |buf|
    ensures Checksum(buf, len)[..11] == buf[..11]
    ensures Checksum(buf, len)[13..] == buf[13..]
  {
  }

  /** The routine looks at nothing past `len`: on the first `len` bytes alone it
      produces the same frame, so a frame's verdict does not depend on what follows it
      in the buffer. */
  lemma ChecksumPrefix(buf: seq<byte>, len: nat)
    requires MsgHeader.EncodedLength <= len <= |buf|
    ensures Checksum(buf, len)[..len] == Checksum(buf[..len], len)
    ensures Verifies(buf, len) <==> Verifies(buf[..len], len)
  {
    var p := buf[..len];
    var z := MsgHeader.SetChecksum(buf, 0, 0);
    var zp := MsgHeader.SetChecksum(p, 0, 0);
    assert zp[..len] == z[..len];
    var r := Checksum(buf, len);
    var rp := Checksum(p, len);
    assert Field(buf) == Field(p);
    assert forall i :: 0 <= i < len ==> r[i] == rp[i];
    assert r[..len] == rp;
  }

  /** How one run transforms the buffer: the field is zeroed, then set to the
      complement of the folded sum of the remembered value and the zeroed frame. */
  lemma ChecksumShape(buf: seq<byte>, len: nat)
    requires MsgHeader.Fits(buf, 0) && 1 <= len <= |buf|
    ensures MsgHeader.SetChecksum(Checksum(buf, len), 0, 0) == MsgHeader.SetChecksum(buf, 0, 0)
    ensures Field(Checksum(buf, len))
         == Complement(Fold(Fold((Field(buf) + WordSum(MsgHeader.SetChecksum(buf, 0, 0)[..len])) % Modulus32)))
  {
    var zeroed := MsgHeader.SetChecksum(buf, 0, 0);
    var sum := (Field(buf) + WordSum(zeroed[..len])) % Modulus32;
    var r := MsgHeader.SetChecksum(zeroed, 0, Complement(Fold(Fold(sum))));
    MsgHeader.ChecksumRoundTrip(zeroed, 0, Complement(Fold(Fold(sum))));
    var rz := MsgHeader.SetChecksum(r, 0, 0);
    assert forall i :: 0 <= i < |buf| ==> rz[i] == zeroed[i];
  }

  /** The complement of two folds of a sum below 2^32 - 0xFFFF is 0xFFFF minus them,
      and adding it back to the sum makes the next run store zero. */
  lemma CancelArithmetic(s: nat)
    requires s + OnesModulus < Modulus32
    ensures Complement(Fold(Fold(s))) == OnesModulus - Fold(Fold(s))
    ensures ((Complement(Fold(Fold(s))) + s) % OnesModulus) == 0
    ensures Complement(Fold(Fold((Complement(Fold(Fold(s))) + s) % Modulus32))) == 0
  {
    FoldTwice(s);
    var c := OnesModulus - Fold(Fold(s));
    assert Complement(Fold(Fold(s))) == c;
    var t := c + s;
    assert t % OnesModulus == 0 by {
      AddModOnes(s - Fold(Fold(s)), OnesModulus);
      assert t == (s - Fold(Fold(s))) + OnesModulus;
    }
    assert t % Modulus32 == t;
    FoldTwice(t);
    var f := Fold(Fold(t));
    assert f % OnesModulus == 0 by {
      AddModOnes(t - f, f);
    }
    OnlyFullValueIsCongruentToZero(f);
  }

  /** Run over a frame whose field was zeroed first, the routine stores the complement
      of the twice-folded word sum, and that value brings the word sum to a multiple
      of 0xFFFF: the one's-complement checksum. */
  lemma ComputeStoresComplement(buf: seq<byte>, len: nat)
    requires MsgHeader.Fits(buf, 0) && 1 <= len <= |buf| && len <= MaxFrame
    requires Field(buf) == 0
    ensures Field(Checksum(buf, len)) == OnesModulus - Fold(Fold(WordSum(buf[..len])))
    ensures (Field(Checksum(buf, len)) + WordSum(buf[..len])) % OnesModulus == 0
  {
    var s := WordSum(buf[..len]);
    ZeroedFieldSum(buf, len);
    NoOverflow(buf[..len], 0xFFFF);
    CancelArithmetic(s);
  }

  /** On a buffer whose field is already zero, one run stores the complement of the
      folded word sum of its first `len` bytes. */
  lemma ZeroedFieldSum(buf: seq<byte>, len: nat)
    requires MsgHeader.Fits(buf, 0) && 1 <= len <= |buf| && len <= MaxFrame
    requires Field(buf) == 0
    ensures Field(Checksum(buf, len)) == Complement(Fold(Fold(WordSum(buf[..len]))))
    ensures MsgHeader.SetChecksum(Checksum(buf, len), 0, 0) == buf
  {
    MsgHeader.SetChecksumSame(buf, 0);
    var z := MsgHeader.SetChecksum(buf, 0, 0);
    assert z == buf;
    var s := WordSum(buf[..len]);
    NoOverflow(buf[..len], 0);
    SmallMod32(s);
    assert (Field(buf) + WordSum(z[..len])) % Modulus32 == s;
    ChecksumShape(buf, len);
  }

  /** Verifying a computed frame: the remembered checksum cancels the sum, the field
      ends at zero, and the buffer is back to what it was before the checksum was
      computed. */
  lemma VerifyAfterCompute(buf: seq<byte>, len: nat)
    requires MsgHeader.Fits(buf, 0) && 1 <= len <= |buf| && len <= MaxFrame
    requires Field(buf) == 0
    ensures Checksum(Checksum(buf, len), len) == buf
    ensures Verifies(Checksum(buf, len), len)
  {
    var b1 := Checksum(buf, len);
    var s := WordSum(buf[..len]);
    ZeroedFieldSum(buf, len);
    NoOverflow(buf[..len], 0xFFFF);
    CancelArithmetic(s);
    var c := Field(b1);
    assert c == Complement(Fold(Fold(s)));
    ChecksumShape(b1, len);
    var b2 := Checksum(b1, len);
    assert MsgHeader.SetChecksum(b1, 0, 0) == buf;
    assert Field(b2) == Complement(Fold(Fold((c + s) % Modulus32)));
    assert Field(b2) == 0;
    MsgHeader.SetChecksumSame(b2, 0);
    assert MsgHeader.SetChecksum(b2, 0, 0) == buf;
  }

  /** How much a byte at index `i` weighs in the word sum: low byte of a word (or a
      trailing odd byte) 1, high byte 256. */
  function Weight(i: nat): nat {
    if i % 2 == 0 then 1 else 256
  }

  /** Changing one byte moves the word sum by the difference times its weight. */
  lemma {:induction false} WordSumUpdate(s: seq<byte>, i: nat, v: byte)
    requires i < |s|
    ensures WordSum(s[i := v]) == WordSum(s) + (v - s[i]) * Weight(i)
    decreases |s|
  {
    var u := s[i := v];
    if |s| == 1 {
    } else if i < 2 {
      assert u[2..] == s[2..];
    } else {
      assert u[2..] == s[2..][i - 2 := v];
      WordSumUpdate(s[2..], i - 2, v);
    }
  }

  /** A sum that misses a multiple of 0xFFFF by a nonzero amount smaller than 0xFFFF
      does not complement to zero. */
  lemma DetectArithmetic(t: nat, m: int, delta: int)
    requires t < Modulus32 && t == OnesModulus * m + delta
    requires delta != 0 && -0xFFFF < delta < 0xFFFF
    ensures Complement(Fold(Fold(t))) != 0
  {
    FoldTwice(t);
    var f := Fold(Fold(t));
    SmallNonzeroNotCongruent(delta);
    MultipleOfOnes(m);
    AddModOnes(OnesModulus * m, delta);
    assert t % OnesModulus != 0;
    AddModOnes(t - f, f);
    assert f % OnesModulus != 0;
    assert Complement(f) == OnesModulus - f;
  }

  lemma MultipleOfOnes(m: int)
    ensures (OnesModulus * m) % OnesModulus == 0
  {
  }

  /** A value congruent to 0 modulo 0xFFFF is 0xFFFF times its quotient. */
  lemma QuotientOfOnes(x: int)
    requires x % OnesModulus == 0
    ensures x == OnesModulus * (x / OnesModulus)
  {
  }

  /** How much a change of byte `i` moves the remembered value plus the word sum of
      the zeroed frame. The field starts at the odd offset 11, so its low byte weighs 1
      and its high byte 256, the reverse of the word positions it straddles. */
  function ChangeWeight(i: nat): nat {
    if i == MsgHeader.ChecksumOffset then 1
    else if i == MsgHeader.ChecksumOffset + 1 then 256
    else Weight(i)
  }

  /** A nonzero byte difference times a weight of 1 or 256 is nonzero and smaller
      than 0xFFFF in magnitude. */
  lemma WeightedChangeBound(d: int, w: nat)
    requires d != 0 && -256 < d < 256 && (w == 1 || w == 256)
    ensures d * w != 0 && -0xFFFF < d * w < 0xFFFF
  {
  }

  /** Changing any single byte of the first `len` bytes of a computed frame makes
      verification leave a nonzero field, so the client rejects it. */
  lemma SingleByteChangeDetected(buf: seq<byte>, len: nat, i: nat, v: byte)
    requires MsgHeader.Fits(buf, 0) && 1 <= len <= |buf| && len <= MaxFrame
    requires Field(buf) == 0
    requires i < len && v != Checksum(buf, len)[i]
    ensures !Verifies(Checksum(buf, len)[i := v], len)
  {
    var b2 := Checksum(buf, len)[i := v];
    var t := Field(b2) + WordSum(MsgHeader.SetChecksum(b2, 0, 0)[..len]);
    var m, delta := ChangedTotal(buf, len, i, v);
    TotalBelowWrap(b2, len);
    DetectArithmetic(t, m, delta);
    SmallMod32(t);
    ChecksumShape(b2, len);
  }

  /** The total a verification of the changed frame folds: a multiple of 0xFFFF
      moved by a nonzero amount smaller than 0xFFFF. */
  lemma ChangedTotal(buf: seq<byte>, len: nat, i: nat, v: byte) returns (m: int, delta: int)
    requires MsgHeader.Fits(buf, 0) && 1 <= len <= |buf| && len <= MaxFrame
    requires Field(buf) == 0
    requires i < len && v != Checksum(buf, len)[i]
    ensures var b2 := Checksum(buf, len)[i := v];
            Field(b2) + WordSum(MsgHeader.SetChecksum(b2, 0, 0)[..len]) == OnesModulus * m + delta
            && delta != 0 && -0xFFFF < delta < 0xFFFF
  {
    var b1 := Checksum(buf, len);
    var base := Field(b1) + WordSum(buf[..len]);
    ComputeStoresComplement(buf, len);
    QuotientOfOnes(base);
    m := base / OnesModulus;
    var d, w := v - b1[i], ChangeWeight(i);
    delta := d * w;
    ChangeShiftsSum(buf, len, i, v);
    WeightedChangeBound(d, w);
  }

  /** The total stays below 2^32 whatever the bytes. */
  lemma TotalBelowWrap(b: seq<byte>, len: nat)
    requires MsgHeader.Fits(b, 0) && len <= |b| && len <= MaxFrame
    ensures Field(b) + WordSum(MsgHeader.SetChecksum(b, 0, 0)[..len]) < Modulus32
  {
    NoOverflow(MsgHeader.SetChecksum(b, 0, 0)[..len], Field(b));
  }

  /** After changing byte `i` of a computed frame, the remembered value plus the word
      sum of the zeroed frame differ from their intact total by the change times the
      byte's weight: through the field when `i` is 11 or 12, through the sum otherwise. */
  lemma ChangeShiftsSum(buf: seq<byte>, len: nat, i: nat, v: byte)
    requires MsgHeader.Fits(buf, 0) && 1 <= len <= |buf| && len <= MaxFrame
    requires Field(buf) == 0 && i < len
    ensures Field(Checksum(buf, len)[i := v])
              + WordSum(MsgHeader.SetChecksum(Checksum(buf, len)[i := v], 0, 0)[..len])
         == Field(Checksum(buf, len)) + WordSum(buf[..len])
              + (v - Checksum(buf, len)[i]) * ChangeWeight(i)
  {
    var b1 := Checksum(buf, len);
    var b2 := b1[i := v];
    var z2 := MsgHeader.SetChecksum(b2, 0, 0);
    ZeroedFieldSum(buf, len);
    if i == 11 || i == 12 {
      assert z2 == MsgHeader.SetChecksum(b1, 0, 0);
    } else {
      assert z2[..len] == buf[..len][i := v];
      WordSumUpdate(buf[..len], i, v);
    }
  }
}
