/**
 The hashing context of dyninstT/common/sha1.C: SHA1Init, SHA1Update, SHA1Final and
 sha1_file, with the 64-byte buffer, the 64-bit count kept in two words, and the
 in-place transform that overwrites the blocks it hashes (SHA1HANDSOFF is off).
 */
module Sha1Context {
  import opened Basics
  import opened Sha1Spec
  import opened Sha1Block

  const M32: nat := 0x1_0000_0000
  const M64: nat := 0x1_0000_0000_0000_0000

  // ------------------------------------------------------------------- count

  // The two counters hold the message length in bits, modulo 2^64.
  ghost predicate Counted(c0: nat, c1: nat, n: nat) {
    c0 < M32 && c1 < M32 && 8 * n % M64 == c1 * M32 + c0
  }

  lemma CountedOffset(c0: nat, c1: nat, n: nat)
    requires Counted(c0, c1, n)
    ensures c0 / 8 % 64 == n % 64
  {
    var q := 8 * n / M64;
    assert 8 * n == q * M64 + c1 * M32 + c0;
    LowPart(n, q * M32 + c1, c0);
  }

  lemma LowPart(n: nat, k: nat, c0: nat)
    requires 8 * n == k * M32 + c0
    ensures c0 / 8 % 64 == n % 64
  {
    var t := k * 0x80_0000;
    assert c0 == 8 * (n - 64 * t);
    assert n == c0 / 8 + 64 * t;
    assert (c0 / 8 + 64 * t) % 64 == c0 / 8 % 64;
  }

  lemma CountOctets(c0: nat, c1: nat, m: seq<Byte>)
    requires Counted(c0, c1, |m|)
    ensures Pad(m) == m + [0x80] + Zeros(Gap(|m|)) + Octets(c1, c0)
  {
    var bits := 8 * |m| % M64;
    assert bits / M32 == c1 && bits % M32 == c0;
  }

  lemma ZerosStep(m: seq<Byte>, n: nat)
    ensures m + [0x80] + Zeros(n) + [0] == m + [0x80] + Zeros(n + 1)
  {}

  lemma GapLeft(m: nat, n: nat)
    requires n <= Gap(m)
    ensures n == Gap(m) <==> (m + 1 + n) % 64 == 56
  {}

  // count[0] += len << 3, with the carry, and count[1] += len >> 29 (lines 236-237)
  function AddCount(c0: nat, c1: nat, len: nat): (nat, nat) {
    var low := 8 * len % M32;
    var c0' := (c0 + low) % M32;
    var c1' := if c0' < low then (c1 + 1) % M32 else c1;
    (c0', (c1' + len / 0x2000_0000) % M32)
  }

  lemma AddCountCounts(c0: nat, c1: nat, n: nat, len: nat)
    requires Counted(c0, c1, n) && len < M32
    ensures var (d0, d1) := AddCount(c0, c1, len); Counted(d0, d1, n + len)
  {
    var (d0, d1) := AddCount(c0, c1, len);
    var low, high := 8 * len % M32, len / 0x2000_0000;
    assert 8 * len == high * M32 + low;
    var carry := if d0 < low then 1 else 0;
    assert c0 + low == d0 + carry * M32;
    var total := c1 + carry + high;
    var wraps := total / M32;
    assert total == d1 + wraps * M32 by { HighWord(c1, carry, high); }
    var q := 8 * n / M64;
    assert 8 * n == q * M64 + c1 * M32 + c0;
    assert 8 * (n + len) == (q + wraps) * M64 + d1 * M32 + d0;
    ModIs(8 * (n + len), q + wraps, d1 * M32 + d0);
  }

  lemma HighWord(c1: nat, carry: nat, high: nat)
    requires c1 < M32 && carry <= 1
    ensures ((if carry == 1 then (c1 + 1) % M32 else c1) + high) % M32
         == (c1 + carry + high) % M32
  {}

  lemma ModIs(x: nat, q: nat, r: nat)
    requires x == q * M64 + r && r < M64
    ensures x % M64 == r
  {}

  // A position a whole number of blocks beyond the first; the loop test of line 241 stays within 32 bits there.
  ghost predicate AtBlock(from: nat, i: nat, len: nat) {
    from <= i <= len && (exists t: nat :: i == from + Blocks(t)) && i + 63 < M32
  }

  function Blocks(t: nat): nat { 64 * t }

  lemma FirstAt(from: nat, len: nat)
    requires 0 < from <= 64 && from <= len && 64 - from + len < M32
    ensures AtBlock(from, from, len)
  {
    assert from == from + Blocks(0);
  }

  lemma NextAt(from: nat, i: nat, len: nat)
    requires AtBlock(from, i, len) && i + 63 < len && 0 < from <= 64 && 64 - from + len < M32
    ensures AtBlock(from, i + 64, len)
  {
    var t: nat :| i == from + Blocks(t);
    assert i + 64 == from + Blocks(t + 1);
  }

  // ------------------------------------------------------------------ message

  // The whole blocks of a message and the rest.
  ghost function Whole(m: seq<Byte>): seq<Byte> { m[..|m| - |m| % 64] }

  ghost function Rest(m: seq<Byte>): seq<Byte> { m[|m| - |m| % 64..] }

  lemma WholeRest(m: seq<Byte>, t: seq<Byte>)
    requires |m| % 64 == 0 && |t| < 64
    ensures Whole(m + t) == m && Rest(m + t) == t && Whole(m + t) + Rest(m + t) == m + t
  {
    assert |m + t| % 64 == |t|;
  }

  // The registers after the whole blocks m.
  ghost predicate Hashed(r: Regs, m: seq<Byte>) { |m| % 64 == 0 && r == Absorb(Start(), m) }

  lemma HashedBlock(r: Regs, m: seq<Byte>, b: seq<Byte>, mb: seq<Byte>)
    requires Hashed(r, m) && |b| == 64 && mb == m + b
    ensures Hashed(Compress(r, b), mb)
  {
    AbsorbAppend(Start(), m, b);
    AbsorbOne(r, b);
  }

  lemma NextSlice(m: seq<Byte>, d: seq<Byte>, i: nat)
    requires i + 64 <= |d|
    ensures m + d[..i + 64] == (m + d[..i]) + d[i..i + 64]
    ensures d[i..][..64] == d[i..i + 64] && d[i..][64..] == d[i + 64..]
  {}

  // All of the message but the last, partial block is hashed.
  lemma Landed(m: seq<Byte>, d: seq<Byte>, i: nat, len: nat)
    requires i <= len <= |d| && len < i + 64 && |m + d[..i]| % 64 == 0
    ensures Whole(m + d[..len]) == m + d[..i] && Rest(m + d[..len]) == d[i..][..len - i]
    ensures |m + d[..len]| % 64 == len - i
  {
    assert m + d[..len] == (m + d[..i]) + d[i..len];
    WholeRest(m + d[..i], d[i..len]);
  }

  lemma Kept(m: seq<Byte>, d: seq<Byte>, len: nat)
    requires len <= |d| && |m| % 64 + len < 64
    ensures Whole(m + d[..len]) == Whole(m) && Rest(m + d[..len]) == Rest(m) + d[0..len]
    ensures |m + d[..len]| % 64 == |m| % 64 + len
  {
    assert m == Whole(m) + Rest(m);
    assert m + d[..len] == Whole(m) + (Rest(m) + d[..len]);
    WholeRest(Whole(m), Rest(m) + d[..len]);
  }

  // ------------------------------------------------------- overwritten blocks

  // Byte r of a stored little-endian word.
  function StoredByte(w: Word, r: nat): Byte {
    if r == 0 then (w & 255) as Byte
    else if r == 1 then ((w >> 8) & 255) as Byte
    else if r == 2 then ((w >> 16) & 255) as Byte
    else ((w >> 24) & 255) as Byte
  }

  // What the transform leaves in place of a block: the last sixteen words of its schedule.
  function Scrambled(block: seq<Byte>): (s: seq<Byte>)
    requires |block| == 64
    ensures |s| == 64
  {
    seq(64, k requires 0 <= k < 64 => StoredByte(W(block, 64 + k / 4), k % 4))
  }

  ghost function ScrambledAt(s: seq<Byte>, i: nat): (r: seq<Byte>)
    requires i + 64 <= |s|
    ensures |r| == |s|
  {
    s[..i] + Scrambled(s[i..i + 64]) + s[i + 64..]
  }

  // Data whose whole blocks from i on, up to len, have been hashed in place.
  ghost function ScrambledFrom(s: seq<Byte>, i: nat, len: nat): seq<Byte>
    requires len <= |s|
    decreases |s| - i
  {
    if i + 64 <= len then ScrambledFrom(ScrambledAt(s, i), i + 64, len) else s
  }

  // ------------------------------------------------------------------ context

  class Context {
    var state: Regs
    var count0: nat
    var count1: nat
    const buffer: array<Byte>
    ghost var msg: seq<Byte>

    ghost predicate Valid()
      reads this, buffer
    {
      && buffer.Length == 64
      && Counted(count0, count1, |msg|)
      && Hashed(state, Whole(msg))
      && buffer[..|msg| % 64] == Rest(msg)
    }

    /** SHA1Init (lines 214-223) */
    constructor ()
      ensures Valid() && msg == [] && fresh(buffer)
    {
      state := Start();
      count0, count1 := 0, 0;
      buffer := new Byte[64];
      msg := [];
    }

    /** SHA1Transform (lines 159-209) on the 64 bytes at this position */
    method Transform(buf: array<Byte>, at: nat)
      requires at + 64 <= buf.Length
      modifies this`state, buf
      ensures state == Compress(old(state), old(buf[at..at + 64]))
      ensures buf[..] == ScrambledAt(old(buf[..]), at)
    {
      var block := buf[at..at + 64];
      var last;
      state, last := CompressBlock(state, block);
      StoreWords(buf, at, last, block);
    }

    // The bytes of the words in place.
    method StoreWords(buf: array<Byte>, at: nat, last: seq<Word>, ghost block: seq<Byte>)
      requires at + 64 <= buf.Length && buf[at..at + 64] == block && last == Words(block)[64..]
      modifies buf
      ensures buf[..] == ScrambledAt(old(buf[..]), at)
    {
      ghost var was := buf[..];
      forall k | 0 <= k < 64 {
        buf[at + k] := StoredByte(last[k / 4], k % 4);
      }
      assert was[at..at + 64] == block;
      assert buf[at..at + 64] == Scrambled(block);
      assert buf[..] == buf[..at] + buf[at..at + 64] + buf[at + 64..];
      assert buf[..at] == was[..at] && buf[at + 64..] == was[at + 64..];
    }

    // memcpy into the buffer
    method Fill(j: nat, data: array<Byte>, from: nat, n: nat)
      requires buffer.Length == 64 && j + n <= 64 && from + n <= data.Length && data != buffer
      modifies buffer
      ensures buffer[..j + n] == old(buffer[..j]) + data[from..from + n]
    {
      forall k | 0 <= k < n {
        buffer[j + k] := data[from + k];
      }
    }

    /**
     SHA1Update (lines 228-251). The source computes j + len in 32 bits, so it serves
     calls in which that sum does not wrap; then i + 63 does not wrap either.
     */
    method Update(data: array<Byte>, len: nat)
      requires Valid() && len <= data.Length && |msg| % 64 + len < M32 && data != buffer
      modifies this, buffer, data
      ensures Valid() && msg == old(msg) + old(data[..])[..len]
      ensures data[..] == if old(|msg|) % 64 + len > 63 then ScrambledFrom(old(data[..]), 64 - old(|msg|) % 64, len)
                          else old(data[..])
    {
      ghost var m, d := msg, data[..];
      var j := Count(len, |m|);
      Take(j, data, len, m);
      msg := m + d[..len];
    }

    // The bytes into whole blocks and the buffer (lines 238-247).
    method Take(j: nat, data: array<Byte>, len: nat, ghost m: seq<Byte>)
      requires buffer.Length == 64 && data != buffer && len <= data.Length && j + len < M32
      requires j == |m| % 64 && buffer[..j] == Rest(m) && Hashed(state, Whole(m))
      modifies this`state, buffer, data
      ensures var mm := m + old(data[..])[..len]; Hashed(state, Whole(mm)) && buffer[..|mm| % 64] == Rest(mm)
      ensures data[..] == if j + len > 63 then ScrambledFrom(old(data[..]), 64 - j, len) else old(data[..])
    {
      ghost var d := data[..];
      if j + len > 63 {
        var i := HashBlocks(j, data, len, m);
        Stash(data, i, len, m, d);
      } else {
        Append(j, data, len, m);
      }
    }

    // The last memcpy (line 247) after blocks were hashed.
    method Stash(data: array<Byte>, i: nat, len: nat, ghost m: seq<Byte>, ghost d: seq<Byte>)
      requires buffer.Length == 64 && data != buffer && |d| == data.Length
      requires i <= len <= data.Length && len < i + 64 && data[i..] == d[i..] && Hashed(state, m + d[..i])
      modifies buffer
      ensures Hashed(state, Whole(m + d[..len])) && buffer[..|m + d[..len]| % 64] == Rest(m + d[..len])
    {
      Fill(0, data, i, len - i);
      assert data[i..len] == data[i..][..len - i];
      Landed(m, d, i, len);
    }

    // The last memcpy (line 247) when the data does not fill the buffer.
    method Append(j: nat, data: array<Byte>, len: nat, ghost m: seq<Byte>)
      requires buffer.Length == 64 && data != buffer && len <= data.Length
      requires j == |m| % 64 && j + len <= 63 && buffer[..j] == Rest(m) && Hashed(state, Whole(m))
      modifies buffer
      ensures var mm := m + data[..][..len]; Hashed(state, Whole(mm)) && buffer[..|mm| % 64] == Rest(mm)
    {
      Fill(j, data, 0, len);
      assert data[0..len] == data[..][0..len];
      Kept(m, data[..], len);
    }

    // The offset in the buffer and the new counters (lines 235-237).
    method Count(len: nat, ghost n: nat) returns (j: nat)
      requires Counted(count0, count1, n) && len < M32
      modifies this`count0, this`count1
      ensures j == n % 64 && Counted(count0, count1, n + len)
    {
      CountedOffset(count0, count1, n);
      AddCountCounts(count0, count1, n, len);
      j := count0 / 8 % 64;
      var (c0, c1) := AddCount(count0, count1, len);
      count0, count1 := c0, c1;
    }

    // The full block of the buffer, then the blocks that lie whole in the data (lines 239-243).
    method HashBlocks(j: nat, data: array<Byte>, len: nat, ghost m: seq<Byte>) returns (i: nat)
      requires buffer.Length == 64 && data != buffer && len <= data.Length && j + len < M32
      requires j == |m| % 64 && j + len > 63 && buffer[..j] == Rest(m) && Hashed(state, Whole(m))
      modifies this`state, buffer, data
      ensures 64 - j <= i <= len < i + 64 && Hashed(state, m + old(data[..])[..i])
      ensures data[..] == ScrambledFrom(old(data[..]), 64 - j, len)
      ensures data[i..] == old(data[..])[i..]
    {
      i := 64 - j;
      FirstBlock(j, data, m);
      i := HashData(data, 64 - j, len, m);
    }

    // The loop of lines 241-243.
    method HashData(data: array<Byte>, from: nat, len: nat, ghost m: seq<Byte>) returns (i: nat)
      requires from <= len <= data.Length && Hashed(state, m + data[..][..from])
      requires 0 < from <= 64 && 64 - from + len < M32
      modifies this`state, data
      ensures from <= i <= len < i + 64 && Hashed(state, m + old(data[..])[..i])
      ensures data[..] == ScrambledFrom(old(data[..]), from, len)
      ensures data[i..] == old(data[..])[i..]
    {
      ghost var d := data[..];
      i := from;
      FirstAt(from, len);
      while i + 63 < len
        invariant from <= i <= len && Hashed(state, m + d[..i])
        invariant AtBlock(from, i, len)
        invariant data[i..] == d[i..]
        invariant ScrambledFrom(data[..], i, len) == ScrambledFrom(d, from, len)
      {
        HashNext(data, i, from, len, m, d);
        i := i + 64;
      }
    }

    // One pass of that loop.
    method HashNext(data: array<Byte>, i: nat, ghost from: nat, len: nat, ghost m: seq<Byte>, ghost d: seq<Byte>)
      requires i + 63 < len <= data.Length == |d| && data[i..] == d[i..] && Hashed(state, m + d[..i])
      requires 0 < from <= 64 && 64 - from + len < M32 && AtBlock(from, i, len)
      requires ScrambledFrom(data[..], i, len) == ScrambledFrom(d, from, len)
      modifies this`state, data
      ensures data[i + 64..] == d[i + 64..] && Hashed(state, m + d[..i + 64]) && AtBlock(from, i + 64, len)
      ensures ScrambledFrom(data[..], i + 64, len) == ScrambledFrom(d, from, len)
    {
      NextAt(from, i, len);
      NextBlock(data, i, m, d);
    }

    method FirstBlock(j: nat, data: array<Byte>, ghost m: seq<Byte>)
      requires buffer.Length == 64 && data != buffer
      requires j == |m| % 64 && 64 - j <= data.Length && buffer[..j] == Rest(m) && Hashed(state, Whole(m))
      modifies this`state, buffer
      ensures Hashed(state, m + data[..][..64 - j])
    {
      Fill(j, data, 0, 64 - j);
      ghost var first := Rest(m) + data[..][..64 - j];
      assert buffer[0..64] == buffer[..64] == first by { assert data[0..64 - j] == data[..][..64 - j]; }
      assert m + data[..][..64 - j] == Whole(m) + first by { assert m == Whole(m) + Rest(m); }
      HashedBlock(state, Whole(m), first, m + data[..][..64 - j]);
      Transform(buffer, 0);
    }

    method NextBlock(data: array<Byte>, i: nat, ghost m: seq<Byte>, ghost d: seq<Byte>)
      requires i + 64 <= data.Length == |d| && data[i..] == d[i..] && Hashed(state, m + d[..i])
      modifies this`state, data
      ensures data[..] == ScrambledAt(old(data[..]), i) && data[i + 64..] == d[i + 64..]
      ensures Hashed(state, m + d[..i + 64])
    {
      ghost var was := data[..];
      NextSlice(m, d, i);
      NextSlice(m, was, i);
      assert data[i..i + 64] == was[i..i + 64] == d[i..i + 64];
      HashedBlock(state, m + d[..i], d[i..i + 64], m + d[..i + 64]);
      Transform(data, i);
      assert data[i + 64..] == was[i + 64..];
    }

    // One byte of padding.
    method UpdateByte(b: Byte)
      requires Valid()
      modifies this, buffer
      ensures Valid() && msg == old(msg) + [b]
    {
      var data := new Byte[1](_ => b);
      assert data[..][..1] == [b];
      Update(data, 1);
    }

    // Zero bytes until eight are left in the block (lines 266-268); 504 and 448 are 63 and 56 times 8.
    method PadZeros(ghost m: seq<Byte>)
      requires Valid() && msg == m + [0x80]
      modifies this, buffer
      ensures Valid() && msg == m + [0x80] + Zeros(Gap(|m|))
    {
      ghost var n := 0;
      var atEnd := EightLeft();
      GapLeft(|m|, 0);
      while !atEnd
        invariant Valid() && n <= Gap(|m|) && msg == m + [0x80] + Zeros(n)
        invariant atEnd <==> n == Gap(|m|)
        decreases Gap(|m|) - n
      {
        atEnd := PadOne(m, n);
        n := n + 1;
        GapLeft(|m|, n);
      }
    }

    method PadOne(ghost m: seq<Byte>, ghost n: nat) returns (atEnd: bool)
      requires Valid() && msg == m + [0x80] + Zeros(n)
      modifies this, buffer
      ensures Valid() && msg == m + [0x80] + Zeros(n + 1)
      ensures atEnd <==> (|m| + 1 + (n + 1)) % 64 == 56
    {
      UpdateByte(0);
      ZerosStep(m, n);
      atEnd := EightLeft();
    }

    // The loop test of line 266.
    method EightLeft() returns (b: bool)
      requires Valid()
      ensures b <==> |msg| % 64 == 56
    {
      CountedOffset(count0, count1, |msg|);
      b := count0 / 8 % 64 == 56;
    }

    // The padding of SHA1Final (lines 261-269).
    method Finish()
      requires Valid()
      modifies this, buffer
      ensures Valid() && msg == Pad(old(msg))
    {
      ghost var m := msg;
      var octets := Octets(count1, count0);
      CountOctets(count0, count1, m);
      var finalcount := new Byte[8](i requires 0 <= i < 8 => octets[i]);
      UpdateByte(0x80);
      PadZeros(m);
      assert finalcount[..][..8] == octets;
      Update(finalcount, 8);
    }

    /** SHA1Final (lines 256-283): the digest of everything given to Update; the context is wiped. */
    method Final(digest: array<Byte>)
      requires Valid() && digest.Length >= 20 && digest != buffer
      modifies this, buffer, digest
      ensures digest[..20] == Sha1(old(msg)) && digest[20..] == old(digest[20..])
      ensures state == Regs(0, 0, 0, 0, 0) && count0 == count1 == 0 && forall k | 0 <= k < 64 :: buffer[k] == 0
    {
      ghost var m := msg;
      Finish();
      PadWhole(m);
      assert Whole(msg) == msg;
      PutDigest(digest);
      forall k | 0 <= k < 64 {
        buffer[k] := 0;
      }
      state := Regs(0, 0, 0, 0, 0);
      count0, count1 := 0, 0;
    }

    // The bytes of the state, most significant first (lines 270-273).
    method PutDigest(digest: array<Byte>)
      requires digest.Length >= 20
      modifies digest
      ensures digest[..20] == Digest(state) && digest[20..] == old(digest[20..])
    {
      ghost var rest := digest[20..];
      var bytes := Digest(state);
      for i := 0 to 20
        invariant digest[..i] == bytes[..i] && digest[20..] == rest
      {
        digest[i] := bytes[i];
      }
    }
  }
}
