/**
 The word-by-word transfer of dyninstT/common/linuxKludges.C: PtraceBulkRead
 (lines 335-385) and PtraceBulkWrite (lines 428-493). The traced process is its bytes
 and the words that ptrace lets the tracer peek and poke.
 */
module PtraceBulk {
  import opened Basics

  type Memory = map<nat, Byte>

  // ------------------------------------------------------------------- memory

  ghost predicate Covered(m: Memory, a: nat, n: nat) { forall x | a <= x < a + n :: x in m }

  function Bytes(m: Memory, a: nat, n: nat): (r: seq<Byte>)
    requires Covered(m, a, n)
    ensures |r| == n && forall i | 0 <= i < n :: r[i] == m[a + i]
  {
    seq(n, i requires 0 <= i < n => m[a + i])
  }

  // The memory with these bytes at a.
  function Poked(m: Memory, a: nat, bytes: seq<Byte>): Memory {
    map x | x in m :: if a <= x < a + |bytes| then bytes[x - a] else m[x]
  }

  /** The first n bytes of the data are at a, and every other byte is as before. */
  ghost predicate Wrote(m: Memory, m': Memory, a: nat, data: seq<Byte>, n: nat)
    requires n <= |data|
  {
    m'.Keys == m.Keys && forall x | x in m :: m'[x] == if a <= x < a + n then data[x - a] else m[x]
  }

  // A word whose bytes are the data from n on where it lies in the next k bytes, and memory elsewhere.
  ghost predicate Edited(m: Memory, w: nat, bytes: seq<Byte>, a: nat, data: seq<Byte>, n: nat, k: nat)
    requires n + k <= |data|
  {
    && Covered(m, w, |bytes|)
    && w <= a + n && a + n + k <= w + |bytes|
    && forall i | 0 <= i < |bytes| :: bytes[i] == if a + n <= w + i < a + n + k then data[w + i - a] else m[w + i]
  }

  lemma WroteMore(m: Memory, m1: Memory, a: nat, data: seq<Byte>, n: nat, k: nat, w: nat, bytes: seq<Byte>)
    requires n + k <= |data| && Wrote(m, m1, a, data, n) && Edited(m1, w, bytes, a, data, n, k)
    ensures Wrote(m, Poked(m1, w, bytes), a, data, n + k)
  {
    var m2 := Poked(m1, w, bytes);
    forall x | x in m
      ensures m2[x] == if a <= x < a + n + k then data[x - a] else m[x]
    {
      if w <= x < w + |bytes| { assert bytes[x - w] == m2[x]; }
    }
  }

  // -------------------------------------------------------------------- words

  // The word at w shares a byte with the n bytes at a.
  predicate Touches(w: nat, a: nat, n: nat, len: nat)
    requires len > 0
  {
    0 < n && w % len == 0 && w < a + n && a < w + len
  }

  predicate Inside(w: nat, a: nat, n: nat, len: nat) { a <= w && w + len <= a + n }

  // Distinct words do not overlap.
  lemma WordsApart(v: nat, w: nat, len: nat)
    requires 0 < len && v % len == 0 && w % len == 0 && v < w
    ensures v + len <= w
  {
    var p, q := v / len, w / len;
    assert v == len * p && w == len * q;
    if p >= q { MulMono(q, p, len); }
    if p + 1 <= q {
      MulMono(p + 1, q, len);
      assert len * (p + 1) == len * p + len;
    }
  }

  // Every other word that shares a byte with the range lies wholly before or after the word at w.
  lemma OtherWords(a: nat, n: nat, len: nat, w: nat)
    requires 0 < len && w % len == 0
    ensures forall v: nat | Touches(v, a, n, len) :: v == w || v + len <= w || w + len <= v
  {
    forall v: nat | Touches(v, a, n, len)
      ensures v == w || v + len <= w || w + len <= v
    {
      if w < v { WordsApart(w, v, len); }
      if v < w { WordsApart(v, w, len); }
    }
  }

  lemma AlignedDown(a: nat, len: nat)
    requires 0 < len
    ensures a % len <= a && (a - a % len) % len == 0 && a < a - a % len + len
    ensures (a - a % len + len) % len == 0
  {
    var q := a / len;
    assert a == len * q + a % len;
    MultipleOf(len, q);
    MultipleOf(len, q + 1);
    assert len * (q + 1) == len * q + len;
  }

  lemma MultipleOf(len: nat, q: nat)
    requires 0 < len
    ensures len * q % len == 0
  {
    var x, r := len * q / len, len * q % len;
    assert len * q == len * x + r;
    if x < q {
      MulMono(x + 1, q, len);
    } else if q < x {
      MulMono(q + 1, x, len);
    }
  }

  lemma NextAligned(w: nat, len: nat)
    requires 0 < len && w % len == 0
    ensures (w + len) % len == 0
  {
    assert w % len == 0;
    AlignedDown(w, len);
  }

  lemma PatchedNone(word: seq<Byte>, at: nat, data: seq<Byte>, from: nat)
    requires at <= |word| && from <= |data|
    ensures Patched(word, at, data[from..from]) == word
  {
  }

  lemma PatchedStep(word: seq<Byte>, at: nat, data: seq<Byte>, from: nat, i: nat)
    requires at + i < |word| && from + i < |data|
    ensures Patched(word, at, data[from..from + i])[at + i := data[from + i]]
         == Patched(word, at, data[from..from + (i + 1)])
  {
  }

  // A word read, patched with the next k bytes, is the word to poke.
  lemma PatchedEdits(m: Memory, w: nat, len: nat, at: nat, a: nat, data: seq<Byte>, n: nat, k: nat)
    requires Covered(m, w, len) && at + k <= len && n + k <= |data| && w + at == a + n
    ensures Edited(m, w, Patched(Bytes(m, w, len), at, data[n..n + k]), a, data, n, k)
  {}

  // The first n0 bytes of a buffer are the memory at a; the others are as they were.
  ghost predicate Got(m: Memory, dp: seq<Byte>, was: seq<Byte>, a: nat, n0: nat) {
    && |dp| == |was| && n0 <= |dp| && Covered(m, a, n0)
    && (forall i | 0 <= i < n0 :: dp[i] == m[a + i])
    && (forall i | n0 <= i < |dp| :: dp[i] == was[i])
  }

  /** What a complete read fetches after a complete write of the range is the data written. */
  lemma ReadBack(m: Memory, m': Memory, a: nat, data: seq<Byte>, dp: seq<Byte>, was: seq<Byte>)
    requires Wrote(m, m', a, data, |data|) && Got(m', dp, was, a, |data|)
    ensures dp == data + was[|data|..]
  {
    assert forall i | 0 <= i < |data| :: a + i in m && dp[i] == data[i];
  }

  lemma GotMore(m: Memory, s: seq<Byte>, s': seq<Byte>, was: seq<Byte>, a: nat, n0: nat, k: nat, w: nat, at: nat,
                len: nat)
    requires Got(m, s, was, a, n0) && Covered(m, w, len) && w + at == a + n0 && at + k <= len
    requires |s'| == |s| && n0 + k <= |s|
    requires forall i | 0 <= i < |s| :: s'[i] == if n0 <= i < n0 + k then Bytes(m, w, len)[at + (i - n0)] else s[i]
    ensures Got(m, s', was, a, n0 + k)
  {
    forall i | n0 <= i < n0 + k
      ensures a + i in m && s'[i] == m[a + i]
    {
      assert w + (at + (i - n0)) == a + i;
    }
  }

  class Tracee {
    const len: nat
    const readable: set<nat>
    const writable: set<nat>
    var mem: Memory

    ghost predicate Valid()
      reads this
    {
      len > 0 && forall w | w in readable + writable :: Covered(mem, w, len)
    }

    // PTRACE_PEEKTEXT and PTRACE_PEEKDATA
    method Peek(w: nat) returns (r: Option<seq<Byte>>)
      requires Valid()
      ensures r == if w in readable then Some(Bytes(mem, w, len)) else None
    {
      r := if w in readable then Some(Bytes(mem, w, len)) else None;
    }

    // PTRACE_POKETEXT
    method Poke(w: nat, bytes: seq<Byte>) returns (ok: bool)
      requires Valid() && |bytes| == len
      modifies this`mem
      ensures Valid() && ok == (w in writable) && mem == if ok then Poked(old(mem), w, bytes) else old(mem)
    {
      ok := w in writable;
      if ok {
        mem := Poked(mem, w, bytes);
      }
    }

    // A word can be stored: it is writable, and readable unless the data covers it whole.
    predicate CanStore(w: nat, a: nat, n: nat) {
      w in writable && (Inside(w, a, n, len) || w in readable)
    }

    ghost predicate AllStore(a: nat, n: nat)
      requires len > 0
    {
      forall w: nat | Touches(w, a, n, len) :: CanStore(w, a, n)
    }

    // The word at w is the first that cannot be stored, so `done` bytes were.
    ghost predicate FirstFailure(w: nat, a: nat, n: nat, done: nat)
      requires len > 0
    {
      && Touches(w, a, n, len) && !CanStore(w, a, n) && done == (if w < a then 0 else w - a)
      && forall v: nat | Touches(v, a, n, len) && v < w :: CanStore(v, a, n)
    }

    // Peek a word, put k bytes of the data into it, poke it back (lines 432-448 and 470-492).
    method Merge(w: nat, at: nat, data: seq<Byte>, from: nat, k: nat) returns (ok: bool)
      requires Valid() && at + k <= len && from + k <= |data|
      modifies this`mem
      ensures Valid() && ok == (w in readable && w in writable)
      ensures !ok ==> mem == old(mem)
      ensures ok ==> Covered(old(mem), w, len)
                     && mem == Poked(old(mem), w, Patched(Bytes(old(mem), w, len), at, data[from..from + k]))
    {
      var r := Peek(w);
      if r.None? {
        return false;
      }
      var p := Patch(r.value, at, data, from, k);
      ok := Poke(w, p);
    }

    // The words that end before the n0-th byte of the range have been stored, and the bytes with them.
    ghost predicate Progress(m0: Memory, a: nat, data: seq<Byte>, n0: nat)
      reads this
    {
      && len > 0 && n0 <= |data| && Wrote(m0, mem, a, data, n0)
      && forall v: nat | Touches(v, a, |data|, len) && (v + len <= a + n0 || n0 == |data|) :: CanStore(v, a, |data|)
    }

    // One word of the transfer stored through Merge.
    method StoreMerged(w: nat, at: nat, a: nat, data: seq<Byte>, n0: nat, k: nat, ghost m0: Memory) returns (ok: bool)
      requires Valid() && Progress(m0, a, data, n0) && n0 + k <= |data| && 0 < k
      requires w % len == 0 && w + at == a + n0 && at + k <= len && (w + at + k == w + len || n0 + k == |data|)
      requires !Inside(w, a, |data|, len) && (at == 0 || n0 == 0)
      modifies this`mem
      ensures Valid() && ok == CanStore(w, a, |data|)
      ensures ok ==> Progress(m0, a, data, n0 + k)
      ensures !ok ==> Progress(m0, a, data, n0) && FirstFailure(w, a, |data|, n0)
    {
      ghost var m := mem;
      ok := Merge(w, at, data, n0, k);
      OtherWords(a, |data|, len, w);
      if ok {
        PatchedEdits(m, w, len, at, a, data, n0, k);
        WroteMore(m0, m, a, data, n0, k, w, Patched(Bytes(m, w, len), at, data[n0..n0 + k]));
      }
    }

    // One word of the transfer taken whole from the data.
    method StoreWhole(a: nat, data: seq<Byte>, n0: nat, ghost m0: Memory) returns (ok: bool)
      requires Valid() && Progress(m0, a, data, n0) && n0 + len <= |data| && (a + n0) % len == 0
      modifies this`mem
      ensures Valid() && ok == CanStore(a + n0, a, |data|)
      ensures ok ==> Progress(m0, a, data, n0 + len)
      ensures !ok ==> Progress(m0, a, data, n0) && FirstFailure(a + n0, a, |data|, n0)
    {
      ghost var m := mem;
      var w := data[n0..n0 + len];
      ok := Poke(a + n0, w);
      OtherWords(a, |data|, len, a + n0);
      if ok {
        assert Edited(m, a + n0, w, a, data, n0, len);
        WroteMore(m0, m, a, data, n0, len, a + n0, w);
      }
    }

    /** The word-by-word path of PtraceBulkWrite (lines 428-493) */
    method BulkWrite(a: nat, data: seq<Byte>) returns (ok: bool, ghost done: nat)
      requires Valid()
      modifies this`mem
      ensures Valid() && done <= |data| && Wrote(old(mem), mem, a, data, done)
      ensures ok <==> AllStore(a, |data|)
      ensures ok ==> done == |data|
      ensures !ok ==> exists w: nat :: FirstFailure(w, a, |data|, done)
    {
      ghost var m0 := mem;
      var nbytes := |data|;
      done := 0;
      if nbytes == 0 {
        return true, 0;
      }
      var cnt := a % len;
      var off := 0;
      AlignedDown(a, len);
      if cnt != 0 {
        var k := if len - cnt < nbytes then len - cnt else nbytes;
        OtherWords(a, |data|, len, a - cnt);
        ok := StoreMerged(a - cnt, cnt, a, data, 0, k, m0);
        if !ok {
          return false, 0;
        }
        if len - cnt >= nbytes {
          return true, nbytes;
        }
        off := len - cnt;
        nbytes := nbytes - (len - cnt);
      }
      ok, off, nbytes := WriteBody(a, data, off, nbytes, m0);
      if !ok {
        return false, off;
      }
      if nbytes > 0 {
        ok := StoreMerged(a + off, 0, a, data, off, nbytes, m0);
        return ok, if ok then |data| else off;
      }
      return true, off;
    }

    // The aligned words (lines 458-468).
    method WriteBody(a: nat, data: seq<Byte>, off0: nat, nbytes0: nat, ghost m0: Memory)
      returns (ok: bool, off: nat, nbytes: nat)
      requires Valid() && off0 + nbytes0 == |data| && (a + off0) % len == 0 && Progress(m0, a, data, off0)
      modifies this`mem
      ensures Valid() && off + nbytes == |data| && (a + off) % len == 0 && Progress(m0, a, data, off)
      ensures ok ==> nbytes < len
      ensures !ok ==> FirstFailure(a + off, a, |data|, off)
    {
      off, nbytes := off0, nbytes0;
      while nbytes >= len
        invariant Valid() && off + nbytes == |data| && (a + off) % len == 0 && Progress(m0, a, data, off)
      {
        ok := StoreWhole(a, data, off, m0);
        if !ok {
          return;
        }
        NextAligned(a + off, len);
        off, nbytes := off + len, nbytes - len;
      }
      ok := true;
    }

    ghost predicate AllReadable(a: nat, n: nat)
      requires len > 0
    {
      forall w: nat | Touches(w, a, n, len) :: w in readable
    }

    ghost predicate FirstUnreadable(w: nat, a: nat, n: nat, done: nat)
      requires len > 0
    {
      && Touches(w, a, n, len) && w !in readable && done == (if w < a then 0 else w - a)
      && forall v: nat | Touches(v, a, n, len) && v < w :: v in readable
    }

    // The first n0 bytes have been fetched, from words that are all readable; the others are untouched.
    ghost predicate Fetched(dp: array<Byte>, was: seq<Byte>, a: nat, n: nat, n0: nat)
      reads this, dp
    {
      && len > 0 && n0 <= n <= dp.Length && Got(mem, dp[..], was, a, n0)
      && forall v: nat | Touches(v, a, n, len) && (v + len <= a + n0 || n0 == n) :: v in readable
    }

    // Peek a word and copy k of its bytes (lines 342-347, 363-368 and 377-383).
    method FetchWord(w: nat, at: nat, a: nat, n: nat, n0: nat, k: nat, dp: array<Byte>, ghost was: seq<Byte>)
      returns (ok: bool)
      requires Valid() && Fetched(dp, was, a, n, n0) && n0 + k <= n && 0 < k
      requires w % len == 0 && w + at == a + n0 && at + k <= len && (at + k == len || n0 + k == n)
      requires at == 0 || n0 == 0
      modifies dp
      ensures ok == (w in readable)
      ensures ok ==> Fetched(dp, was, a, n, n0 + k)
      ensures !ok ==> Fetched(dp, was, a, n, n0) && FirstUnreadable(w, a, n, n0)
    {
      OtherWords(a, n, len, w);
      var r := Peek(w);
      if r.None? {
        return false;
      }
      ghost var before := dp[..];
      CopyBytes(r.value, at, dp, n0, k);
      GotMore(mem, before, dp[..], was, a, n0, k, w, at, len);
      ok := true;
    }

    /** The word-by-word path of PtraceBulkRead (lines 335-385) */
    method BulkRead(a: nat, size: nat, dp: array<Byte>) returns (ok: bool, ghost done: nat)
      requires Valid() && size <= dp.Length
      modifies dp
      ensures done <= size && Got(mem, dp[..], old(dp[..]), a, done)
      ensures ok <==> AllReadable(a, size)
      ensures ok ==> done == size
      ensures !ok ==> exists w: nat :: FirstUnreadable(w, a, size, done)
    {
      ghost var was := dp[..];
      done := 0;
      if size == 0 {
        return true, 0;
      }
      var cnt := a % len;
      var off, left := 0, size;
      AlignedDown(a, len);
      if cnt != 0 {
        var k := if len - cnt < size then len - cnt else size;
        ok := FetchWord(a - cnt, cnt, a, size, 0, k, dp, was);
        if !ok {
          return false, 0;
        }
        if len - cnt >= size {
          return true, size;
        }
        off := len - cnt;
        left := size - (len - cnt);
      }
      ok, off, left := ReadBody(a, size, off, left, dp, was);
      if !ok {
        return false, off;
      }
      if left > 0 {
        ok := FetchWord(a + off, 0, a, size, off, left, dp, was);
        return ok, if ok then size else off;
      }
      return true, off;
    }

    // The aligned words (lines 361-372).
    method ReadBody(a: nat, size: nat, off0: nat, left0: nat, dp: array<Byte>, ghost was: seq<Byte>)
      returns (ok: bool, off: nat, left: nat)
      requires Valid() && off0 + left0 == size && (a + off0) % len == 0 && Fetched(dp, was, a, size, off0)
      modifies dp
      ensures off + left == size && (a + off) % len == 0 && Fetched(dp, was, a, size, off)
      ensures ok ==> left < len
      ensures !ok ==> FirstUnreadable(a + off, a, size, off)
    {
      off, left := off0, left0;
      while left >= len
        invariant off + left == size && (a + off) % len == 0 && Fetched(dp, was, a, size, off)
      {
        ok := FetchWord(a + off, 0, a, size, off, len, dp, was);
        if !ok {
          return;
        }
        NextAligned(a + off, len);
        off, left := off + len, left - len;
      }
      ok := true;
    }
  }

  // The loops of lines 441-442 and 486-487.
  method Patch(word: seq<Byte>, at: nat, data: seq<Byte>, from: nat, k: nat) returns (p: seq<Byte>)
    requires at + k <= |word| && from + k <= |data|
    ensures p == Patched(word, at, data[from..from + k])
  {
    p := word;
    PatchedNone(word, at, data, from);
    for i := 0 to k
      invariant |p| == |word| && p == Patched(word, at, data[from..from + i])
    {
      PatchedStep(word, at, data, from, i);
      p := p[at + i := data[from + i]];
    }
  }

  method CopyBytes(p: seq<Byte>, at: nat, dp: array<Byte>, off: nat, k: nat)
    requires at + k <= |p| && off + k <= dp.Length
    modifies dp
    ensures forall i | 0 <= i < dp.Length :: dp[i] == if off <= i < off + k then p[at + (i - off)] else old(dp[i])
  {
    for i := 0 to k
      invariant forall j | 0 <= j < dp.Length :: dp[j] == if off <= j < off + i then p[at + (j - off)] else old(dp[j])
    {
      dp[off + i] := p[at + i];
    }
  }

  // The word with these bytes from position at on.
  function Patched(word: seq<Byte>, at: nat, bytes: seq<Byte>): seq<Byte>
    requires at + |bytes| <= |word|
  {
    word[..at] + bytes + word[at + |bytes|..]
  }
}
