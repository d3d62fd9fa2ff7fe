/**
 What pins the definitions of SHA-1 that code and standard share: rotations turn back,
 byte and word views are inverse, the schedule recurrence, the constants of section 5
 and the padding of section 4 of RFC 3174.
 */
module Sha1Laws {
  import opened Basics
  import opened Sha1Spec

  /** Each rotation is undone by the opposite one. */
  lemma Rol1TurnsBack(x: Word)
    ensures (Rol1(x) >> 1) | (Rol1(x) << 31) == x
  {}

  lemma Rol5TurnsBack(x: Word)
    ensures (Rol5(x) >> 5) | (Rol5(x) << 27) == x
  {}

  lemma Rol30TurnsBack(x: Word)
    ensures (Rol30(x) >> 30) | (Rol30(x) << 2) == x
  {}

  /** From word 16 on, a schedule word turned back by one bit is the exclusive or of four earlier ones. */
  lemma ScheduleRecurrence(block: seq<Byte>, t: nat)
    requires |block| == 64 && 16 <= t
    ensures (W(block, t) >> 1) | (W(block, t) << 31) ==
              W(block, t - 3) ^ W(block, t - 8) ^ W(block, t - 14) ^ W(block, t - 16)
  {
    Rol1TurnsBack(W(block, t - 3) ^ W(block, t - 8) ^ W(block, t - 14) ^ W(block, t - 16));
  }

  // The number whose square root gives the constant of round t.
  function Radicand(t: nat): nat { if t < 20 then 2 else if t < 40 then 3 else if t < 60 then 5 else 10 }

  /** The constant of a round is the square root of 2, 3, 5 or 10 in units of 2^-30, rounded down. */
  lemma ConstantsAreRoots(t: nat)
    ensures var k := K(t) as nat;
            k * k <= Radicand(t) * 0x1000_0000_0000_0000 < (k + 1) * (k + 1)
  {}

  /** In rounds 0 to 19 each bit of f is the bit of c where b is set, and of d elsewhere. */
  lemma FirstChooses(t: nat, b: Word, c: Word, d: Word)
    requires t < 20
    ensures F(t, b, c, d) & b == c & b && F(t, b, c, d) & !b == d & !b
  {}

  /** In rounds 40 to 59 it is the bit of b where b and c agree, and of d elsewhere. */
  lemma ThirdIsMajority(t: nat, b: Word, c: Word, d: Word)
    requires 40 <= t < 60
    ensures F(t, b, c, d) & !(b ^ c) == b & !(b ^ c) && F(t, b, c, d) & (b ^ c) == d & (b ^ c)
  {}

  /** A word is four bytes, most significant first, and the bytes are read back. */
  lemma BytesOfWord(w: Word)
    ensures var b := WordBytes(w); |b| == 4 && BigEndian(b[0], b[1], b[2], b[3]) == w
  {}

  lemma WordOfBytes(b0: Byte, b1: Byte, b2: Byte, b3: Byte)
    ensures WordBytes(BigEndian(b0, b1, b2, b3)) == [b0, b1, b2, b3]
  {}

  // Bytes read as a number, most significant first.
  function Number(s: seq<Byte>): nat {
    if s == [] then 0 else 256 * Number(s[..|s| - 1]) + s[|s| - 1] as nat
  }

  lemma NumberAppend(s: seq<Byte>, b: Byte)
    ensures Number(s + [b]) == 256 * Number(s) + b as nat
  {
    assert (s + [b])[..|s|] == s;
  }

  lemma OctetValue(n: nat, k: nat)
    ensures OctetOf(n, k) as nat == n / Shift(k) % 256
  {
    ByteBack(n / Shift(k) % 256);
  }

  lemma ByteBack(x: int)
    requires 0 <= x < 256
    ensures (x as Byte) as int == x
  {
    assert x % 256 == x;
  }

  lemma Quarters(n: nat)
    requires n < 0x1_0000_0000
    ensures n == 256 * (256 * (256 * (n / 0x100_0000 % 256) + n / 0x1_0000 % 256) + n / 0x100 % 256) + n % 256
  {}

  // The four bytes of a 32-bit number.
  lemma FourBytes(n: nat)
    requires n < 0x1_0000_0000
    ensures n == 256 * (256 * (256 * (OctetOf(n, 3) as nat) + OctetOf(n, 2) as nat) + OctetOf(n, 1) as nat)
                 + OctetOf(n, 0) as nat
  {
    ShiftIs();
    Quarters(n);
    OctetValue(n, 0);
    OctetValue(n, 1);
    OctetValue(n, 2);
    OctetValue(n, 3);
  }

  lemma ShiftIs()
    ensures Shift(0) == 1 && Shift(1) == 0x100 && Shift(2) == 0x1_0000 && Shift(3) == 0x100_0000
  {}

  lemma FourMore(s: seq<Byte>, n: nat)
    requires n < 0x1_0000_0000
    ensures Number(s + [OctetOf(n, 3)] + [OctetOf(n, 2)] + [OctetOf(n, 1)] + [OctetOf(n, 0)]) ==
              0x1_0000_0000 * Number(s) + n
  {
    var a := s + [OctetOf(n, 3)];
    var b := a + [OctetOf(n, 2)];
    var c := b + [OctetOf(n, 1)];
    NumberAppend(s, OctetOf(n, 3));
    NumberAppend(a, OctetOf(n, 2));
    NumberAppend(b, OctetOf(n, 1));
    NumberAppend(c, OctetOf(n, 0));
    FourBytes(n);
  }

  lemma OctetsAre(high: nat, low: nat)
    requires high < 0x1_0000_0000 && low < 0x1_0000_0000
    ensures Octets(high, low) == [OctetOf(high, 3), OctetOf(high, 2), OctetOf(high, 1), OctetOf(high, 0),
                                  OctetOf(low, 3), OctetOf(low, 2), OctetOf(low, 1), OctetOf(low, 0)]
  {
    var o := Octets(high, low);
    EightOf(o);
    OctetAt(high, low, 0);
    OctetAt(high, low, 1);
    OctetAt(high, low, 2);
    OctetAt(high, low, 3);
    OctetAt(high, low, 4);
    OctetAt(high, low, 5);
    OctetAt(high, low, 6);
    OctetAt(high, low, 7);
  }

  lemma EightOf<T>(s: seq<T>)
    requires |s| == 8
    ensures s == [s[0], s[1], s[2], s[3], s[4], s[5], s[6], s[7]]
  {}

  lemma OctetAt(high: nat, low: nat, i: nat)
    requires high < 0x1_0000_0000 && low < 0x1_0000_0000 && i < 8
    ensures Octets(high, low)[i] == if i < 4 then OctetOf(high, 3 - i) else OctetOf(low, 7 - i)
  {
    assert i % 4 == if i < 4 then i else i - 4;
  }

  /** The eight bytes of a number read big-endian give it back. */
  lemma OctetsRead(high: nat, low: nat)
    requires high < 0x1_0000_0000 && low < 0x1_0000_0000
    ensures Number(Octets(high, low)) == 0x1_0000_0000 * high + low
  {
    OctetsAre(high, low);
    var s := [OctetOf(high, 3), OctetOf(high, 2), OctetOf(high, 1), OctetOf(high, 0)];
    FourMore([], high);
    assert s == [] + [OctetOf(high, 3)] + [OctetOf(high, 2)] + [OctetOf(high, 1)] + [OctetOf(high, 0)];
    FourMore(s, low);
    assert Octets(high, low) == s + [OctetOf(low, 3)] + [OctetOf(low, 2)] + [OctetOf(low, 1)] + [OctetOf(low, 0)];
  }

  /** The padded message: the message, a one bit, as few zero bytes as bring it to a whole number of blocks, and its
      length in bits modulo 2^64 as eight bytes. */
  lemma PadIs(m: seq<Byte>)
    ensures var p, n := Pad(m), |Pad(m)|;
      && n % 64 == 0 && |m| + 9 <= n < |m| + 9 + 64
      && m <= p && p[|m|] == 0x80 && (forall k | |m| < k < n - 8 :: p[k] == 0)
      && Number(p[n - 8..]) == 8 * |m| % 0x1_0000_0000_0000_0000
  {
    PadWhole(m);
    var bits := 8 * |m| % 0x1_0000_0000_0000_0000;
    var o := Octets(bits / 0x1_0000_0000, bits % 0x1_0000_0000);
    assert Pad(m)[|Pad(m)| - 8..] == o;
    OctetsRead(bits / 0x1_0000_0000, bits % 0x1_0000_0000);
  }
}
