/**
 One block of dyninstT/common/sha1.C: SHA1Transform (lines 159-209) with its
 16-word in-place schedule and renamed registers, against the 80-word definition.
 */
module Sha1Block {
  import opened Basics
  import opened Sha1Spec

  // Four bytes as a little-endian machine loads them through the union.
  function LittleEndian(b0: Byte, b1: Byte, b2: Byte, b3: Byte): Word { BigEndian(b3, b2, b1, b0) }

  function Loaded(block: seq<Byte>, t: nat): Word
    requires |block| == 64 && t < 16
  {
    LittleEndian(block[4 * t], block[4 * t + 1], block[4 * t + 2], block[4 * t + 3])
  }

  function Rol8(x: Word): Word { (x << 8) | (x >> 24) }

  function Rol24(x: Word): Word { (x << 24) | (x >> 8) }

  // blk0 (lines 130-131)
  function Swap(x: Word): Word { (Rol24(x) & 0xFF00FF00) | (Rol8(x) & 0x00FF00FF) }

  // The mixing terms of R0 to R4 (lines 137-141)
  function Mix(i: nat, w: Word, x: Word, y: Word): Word {
    if i < 20 then (w & (x ^ y)) ^ y
    else if i < 40 then w ^ x ^ y
    else if i < 60 then ((w | x) & y) | (w & x)
    else w ^ x ^ y
  }

  lemma SwapIsBigEndian(b0: Byte, b1: Byte, b2: Byte, b3: Byte)
    ensures Swap(LittleEndian(b0, b1, b2, b3)) == BigEndian(b0, b1, b2, b3)
  {}

  lemma ChooseSame(w: Word, x: Word, y: Word)
    ensures (w & (x ^ y)) ^ y == (w & x) | (!w & y)
  {}

  lemma MajoritySame(w: Word, x: Word, y: Word)
    ensures ((w | x) & y) | (w & x) == (w & x) | (w & y) | (x & y)
  {}

  /** The mixing terms are the functions of the standard. */
  lemma MixIsF(i: nat, w: Word, x: Word, y: Word)
    ensures Mix(i, w, x, y) == F(i, w, x, y)
  {
    ChooseSame(w, x, y);
    MajoritySame(w, x, y);
  }

  lemma SumSame(z: Word, f: Word, b: Word, k: Word, r: Word)
    ensures z + (f + b + k + r) == Sum(r, f, z, b, k)
  {}

  // The new value of z in R0 to R4.
  function Op(v: Word, w: Word, x: Word, y: Word, z: Word, i: nat, word: Word): Word {
    z + (Mix(i, w, x, y) + word + K(i) + Rol5(v))
  }

  /** With its registers renamed, each of R0 to R4 is a round of the standard. */
  lemma OpIsRound(v: Word, w: Word, x: Word, y: Word, z: Word, i: nat, word: Word)
    ensures Regs(Op(v, w, x, y, z, i, word), v, Rol30(w), x, y) == Round(Regs(v, w, x, y, z), i, word)
  {
    MixIsF(i, w, x, y);
    SumSame(z, Mix(i, w, x, y), word, K(i), Rol5(v));
  }

  // The loaded words of a block and its schedule.
  ghost predicate Scheduled(raw: seq<Word>, ws: seq<Word>) {
    && |raw| == 16 && |ws| == 80
    && forall t | 0 <= t < 80 :: ScheduledAt(raw, ws, t)
  }

  ghost predicate ScheduledAt(raw: seq<Word>, ws: seq<Word>, t: nat)
    requires |raw| == 16 && t < |ws|
  {
    ws[t] == if t < 16 then Swap(raw[t]) else Expand(ws[t - 3], ws[t - 8], ws[t - 14], ws[t - 16])
  }

  function LoadedWords(block: seq<Byte>): seq<Word>
    requires |block| == 64
  {
    seq(16, t requires 0 <= t < 16 => Loaded(block, t))
  }

  lemma WordsScheduled(block: seq<Byte>)
    requires |block| == 64
    ensures Scheduled(LoadedWords(block), Words(block))
  {
    forall t | 0 <= t < 80
      ensures ScheduledAt(LoadedWords(block), Words(block), t)
    {
      if t < 16 { SwapIsBigEndian(block[4 * t], block[4 * t + 1], block[4 * t + 2], block[4 * t + 3]); }
    }
  }

  // After t rounds the 16 words hold the last 16 words of the schedule, the loaded words where it is shorter.
  ghost predicate Window<T>(raw: seq<T>, ws: seq<T>, t: nat, l: seq<T>) {
    && |l| == |raw| == 16 && t <= |ws|
    && (forall s | 0 <= s < t && t <= s + 16 :: l[s % 16] == ws[s])
    && (forall s | t <= s < 16 :: l[s] == raw[s])
  }

  lemma WindowGives<T>(raw: seq<T>, ws: seq<T>, i: nat, l: seq<T>)
    requires Window(raw, ws, i, l) && 16 <= i
    ensures l[(i + 13) % 16] == ws[i - 3] && l[(i + 8) % 16] == ws[i - 8]
    ensures l[(i + 2) % 16] == ws[i - 14] && l[i % 16] == ws[i - 16]
  {
    assert (i - 3) % 16 == (i + 13) % 16 && (i - 8) % 16 == (i + 8) % 16;
    assert (i - 14) % 16 == (i + 2) % 16 && (i - 16) % 16 == i % 16;
  }

  lemma WindowStep<T>(raw: seq<T>, ws: seq<T>, i: nat, l: seq<T>, x: T)
    requires Window(raw, ws, i, l) && i < |ws| && x == ws[i]
    ensures Window(raw, ws, i + 1, l[i % 16 := x])
  {}

  lemma WindowEnd<T>(raw: seq<T>, ws: seq<T>, l: seq<T>)
    requires Window(raw, ws, 80, l) && |ws| == 80
    ensures l == ws[64..]
  {
    forall k | 0 <= k < 16
      ensures l[k] == ws[64 + k]
    {
      assert (64 + k) % 16 == k;
    }
  }

  // blk0(i) and blk(i) (lines 130-134)
  method Blk(i: nat, l: seq<Word>, ghost raw: seq<Word>, ghost ws: seq<Word>) returns (l': seq<Word>)
    requires Scheduled(raw, ws) && i < 80 && Window(raw, ws, i, l)
    ensures Window(raw, ws, i + 1, l') && l'[i % 16] == ws[i]
  {
    assert ScheduledAt(raw, ws, i);
    var x;
    if i < 16 {
      assert i % 16 == i;
      x := Swap(l[i % 16]);
    } else {
      WindowGives(raw, ws, i, l);
      x := Expand(l[(i + 13) % 16], l[(i + 8) % 16], l[(i + 2) % 16], l[i % 16]);
    }
    WindowStep(raw, ws, i, l, x);
    l' := l[i % 16 := x];
  }

  // One of R0 to R4 (lines 137-141); the caller renames the registers.
  method R(v: Word, w: Word, x: Word, y: Word, z: Word, i: nat, l: seq<Word>, ghost raw: seq<Word>, ghost ws: seq<Word>)
    returns (w': Word, z': Word, l': seq<Word>)
    requires Scheduled(raw, ws) && i < 80 && Window(raw, ws, i, l)
    ensures Regs(z', v, w', x, y) == Round(Regs(v, w, x, y, z), i, ws[i])
    ensures Window(raw, ws, i + 1, l')
  {
    l' := Blk(i, l, raw, ws);
    OpIsRound(v, w, x, y, z, i, l'[i % 16]);
    z' := Op(v, w, x, y, z, i, l'[i % 16]);
    w' := Rol30(w);
  }

  ghost function Five(r: Regs, ws: seq<Word>, i: nat): Regs
    requires i + 5 <= |ws|
  {
    var r3 := Round(Round(Round(r, i, ws[i]), i + 1, ws[i + 1]), i + 2, ws[i + 2]);
    Round(Round(r3, i + 3, ws[i + 3]), i + 4, ws[i + 4])
  }

  // Five rounds, after which the registers have their names back.
  method FiveRounds(r: Regs, i: nat, l: seq<Word>, ghost raw: seq<Word>, ghost ws: seq<Word>)
    returns (r': Regs, l': seq<Word>)
    requires Scheduled(raw, ws) && i + 5 <= 80 && Window(raw, ws, i, l)
    ensures r' == Five(r, ws, i) && Window(raw, ws, i + 5, l')
  {
    var Regs(a, b, c, d, e) := r;
    b, e, l' := R(a, b, c, d, e, i, l, raw, ws);
    a, d, l' := R(e, a, b, c, d, i + 1, l', raw, ws);
    e, c, l' := R(d, e, a, b, c, i + 2, l', raw, ws);
    d, b, l' := R(c, d, e, a, b, i + 3, l', raw, ws);
    c, a, l' := R(b, c, d, e, a, i + 4, l', raw, ws);
    r' := Regs(a, b, c, d, e);
  }

  lemma RoundsStep(r: Regs, ws: seq<Word>, i: nat)
    requires i + 5 <= |ws|
    ensures Rounds(r, ws, i + 5) == Five(Rounds(r, ws, i), ws, i)
  {
    assert Rounds(r, ws, i + 2) == Round(Rounds(r, ws, i + 1), i + 1, ws[i + 1]);
    assert Rounds(r, ws, i + 4) == Round(Rounds(r, ws, i + 3), i + 3, ws[i + 3]);
  }

  /** The rounds of SHA1Transform (lines 181-200), sixteen groups of five; the words of the block end as the
      last sixteen of the schedule. */
  method Rounds80(r: Regs, l: seq<Word>, ghost ws: seq<Word>) returns (r': Regs, l': seq<Word>)
    requires Scheduled(l, ws)
    ensures r' == Rounds(r, ws, 80) && l' == ws[64..]
  {
    r', l' := r, l;
    for g := 0 to 16
      invariant r' == Rounds(r, ws, 5 * g) && Window(l, ws, 5 * g, l')
    {
      RoundsStep(r, ws, 5 * g);
      r', l' := FiveRounds(r', 5 * g, l', l, ws);
    }
    WindowEnd(l, ws, l');
  }

  /** SHA1Transform on the words of a block (lines 175-206) */
  method CompressBlock(r: Regs, block: seq<Byte>) returns (r': Regs, last: seq<Word>)
    requires |block| == 64
    ensures r' == Compress(r, block) && last == Words(block)[64..]
  {
    WordsScheduled(block);
    var s;
    s, last := Rounds80(r, LoadedWords(block), Words(block));
    r' := Add(r, s);
  }
}
