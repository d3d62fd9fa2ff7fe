/**
 SHA-1 as RFC 3174 defines it: padding (section 4), functions and constants
 (section 5), and the 80-word message schedule (section 6.1).
 */
module Sha1Spec {
  import opened Basics

  type Word = bv32

  datatype Regs = Regs(a: Word, b: Word, c: Word, d: Word, e: Word)

  // Rotations to the left.
  function Rol1(x: Word): Word { (x << 1) | (x >> 31) }

  function Rol5(x: Word): Word { (x << 5) | (x >> 27) }

  function Rol30(x: Word): Word { (x << 30) | (x >> 2) }

  // Section 5: f(t; B, C, D) and K(t).
  function F(t: nat, b: Word, c: Word, d: Word): Word {
    if t < 20 then (b & c) | (!b & d)
    else if t < 40 then b ^ c ^ d
    else if t < 60 then (b & c) | (b & d) | (c & d)
    else b ^ c ^ d
  }

  function K(t: nat): Word {
    if t < 20 then 0x5A827999 else if t < 40 then 0x6ED9EBA1 else if t < 60 then 0x8F1BBCDC else 0xCA62C1D6
  }

  // Four bytes, most significant first.
  function BigEndian(b0: Byte, b1: Byte, b2: Byte, b3: Byte): Word {
    ((b0 as Word) << 24) | ((b1 as Word) << 16) | ((b2 as Word) << 8) | (b3 as Word)
  }

  function Expand(w3: Word, w8: Word, w14: Word, w16: Word): Word { Rol1(w3 ^ w8 ^ w14 ^ w16) }

  // Word t of the schedule of a 64-byte block (section 6.1, steps a and b).
  function W(block: seq<Byte>, t: nat): Word
    requires |block| == 64
  {
    if t < 16 then BigEndian(block[4 * t], block[4 * t + 1], block[4 * t + 2], block[4 * t + 3])
    else Expand(W(block, t - 3), W(block, t - 8), W(block, t - 14), W(block, t - 16))
  }

  function Sum(r: Word, f: Word, e: Word, w: Word, k: Word): Word { r + f + e + w + k }

  // One round (section 6.1, step d).
  function Round(r: Regs, t: nat, w: Word): Regs {
    Regs(Sum(Rol5(r.a), F(t, r.b, r.c, r.d), r.e, w, K(t)), r.a, Rol30(r.b), r.c, r.d)
  }

  function Rounds(r: Regs, ws: seq<Word>, t: nat): Regs
    requires t <= |ws|
  {
    if t == 0 then r else Round(Rounds(r, ws, t - 1), t - 1, ws[t - 1])
  }

  function Words(block: seq<Byte>): seq<Word>
    requires |block| == 64
  {
    seq(80, t requires 0 <= t < 80 => W(block, t))
  }

  function Compress(r: Regs, block: seq<Byte>): Regs
    requires |block| == 64
  {
    Add(r, Rounds(r, Words(block), 80))
  }

  function Add(r: Regs, s: Regs): Regs { Regs(r.a + s.a, r.b + s.b, r.c + s.c, r.d + s.d, r.e + s.e) }

  function Start(): Regs { Regs(0x67452301, 0xEFCDAB89, 0x98BADCFE, 0x10325476, 0xC3D2E1F0) }

  // All blocks of a whole number of blocks, in order.
  function Absorb(r: Regs, m: seq<Byte>): Regs
    requires |m| % 64 == 0
    decreases |m|
  {
    if m == [] then r else Absorb(Compress(r, m[..64]), m[64..])
  }

  // The eight bytes of a 64-bit number, most significant first.
  function Octets(high: nat, low: nat): seq<Byte>
    requires high < 0x1_0000_0000 && low < 0x1_0000_0000
  {
    seq(8, i requires 0 <= i < 8 => OctetOf(if i >= 4 then low else high, 3 - i % 4))
  }

  // Byte k of a number, byte 0 being the least significant.
  function OctetOf(n: nat, k: nat): Byte {
    (n / Shift(k) % 256) as Byte
  }

  function Shift(k: nat): (r: nat)
    ensures r > 0
  {
    if k == 0 then 1 else 256 * Shift(k - 1)
  }

  function Zeros(n: nat): seq<Byte> { seq(n, _ => 0) }

  // The number of zero bytes that bring the length to 56 modulo 64.
  function Gap(n: nat): nat { (119 - n % 64) % 64 }

  // Section 4, for a length in bits modulo 2^64.
  function Pad(m: seq<Byte>): seq<Byte> {
    var bits := 8 * |m| % 0x1_0000_0000_0000_0000;
    m + [0x80] + Zeros(Gap(|m|)) + Octets(bits / 0x1_0000_0000, bits % 0x1_0000_0000)
  }

  lemma GapWhole(n: nat)
    ensures (n + 9 + Gap(n)) % 64 == 0
  {}

  lemma PadWhole(m: seq<Byte>)
    ensures |Pad(m)| % 64 == 0
  {
    GapWhole(|m|);
    assert |Pad(m)| == |m| + 9 + Gap(|m|);
  }

  function WordBytes(w: Word): seq<Byte> {
    [((w >> 24) & 255) as Byte, ((w >> 16) & 255) as Byte, ((w >> 8) & 255) as Byte, (w & 255) as Byte]
  }

  function Digest(r: Regs): seq<Byte> {
    WordBytes(r.a) + WordBytes(r.b) + WordBytes(r.c) + WordBytes(r.d) + WordBytes(r.e)
  }

  /** The SHA-1 digest of a message. */
  function Sha1(m: seq<Byte>): seq<Byte> {
    PadWhole(m);
    Digest(Absorb(Start(), Pad(m)))
  }

  // ------------------------------------------------------------------ lemmas

  lemma {:induction false} AbsorbAppend(r: Regs, a: seq<Byte>, b: seq<Byte>)
    requires |a| % 64 == 0 && |b| % 64 == 0
    ensures Absorb(r, a + b) == Absorb(Absorb(r, a), b)
    decreases |a|
  {
    if a == [] {
      assert a + b == b;
    } else {
      assert (a + b)[..64] == a[..64] && (a + b)[64..] == a[64..] + b;
      AbsorbAppend(Compress(r, a[..64]), a[64..], b);
    }
  }

  lemma AbsorbOne(r: Regs, b: seq<Byte>)
    requires |b| == 64
    ensures Absorb(r, b) == Compress(r, b)
  {
    assert b[..64] == b && b[64..] == [];
    assert Absorb(Compress(r, b), []) == Compress(r, b);
  }
}
