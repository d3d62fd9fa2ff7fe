/**
 Words, masks and branch keys of the AArch64 decoder-table generator
 (dyninst/instructionAPI/aarch64_manual_parser.py). A word is its 32 bits, most
 significant first.
 */
module DecodeWords {
  import opened Basics

  predicate IsWord(w: seq<bool>) { |w| == 32 }

  type Word = w: seq<bool> | IsWord(w) witness seq(32, _ => false)

  function Zero(): Word { seq(32, _ => false) }

  function Full(): Word { seq(32, _ => true) }

  function And(a: Word, b: Word): Word { seq(32, k requires 0 <= k < 32 => a[k] && b[k]) }

  function AndNot(a: Word, b: Word): Word { seq(32, k requires 0 <= k < 32 => a[k] && !b[k]) }

  function Or(a: Word, b: Word): Word { seq(32, k requires 0 <= k < 32 => a[k] || b[k]) }

  // (w << 1) & 0xffffffff
  function Shl(w: Word): Word { w[1..] + [false] }

  // w >> 1
  function Shr(w: Word): Word { [false] + w[..31] }

  function Bit(b: bool): nat { if b then 1 else 0 }

  // The number of set bits.
  function Ones(w: seq<bool>): nat {
    if w == [] then 0 else Bit(w[0]) + Ones(w[1..])
  }

  // The bits of e under the mask m, read as a number, after the bits already in acc.
  function Collapse(e: seq<bool>, m: seq<bool>, acc: nat): nat
    requires |e| == |m|
    decreases |m|
  {
    if m == [] then acc
    else Collapse(e[1..], m[1..], if m[0] then 2 * acc + Bit(e[0]) else acc)
  }

  function Key(e: Word, m: Word): nat { Collapse(e, m, 0) }

  predicate AgreeOn(a: seq<bool>, b: seq<bool>, m: seq<bool>)
    requires |a| == |b| == |m|
  {
    forall k | 0 <= k < |m| :: m[k] ==> a[k] == b[k]
  }

  lemma {:induction false} CollapseEqual(a: seq<bool>, b: seq<bool>, m: seq<bool>, x: nat, y: nat)
    requires |a| == |b| == |m|
    ensures Collapse(a, m, x) == Collapse(b, m, y) <==> x == y && AgreeOn(a, b, m)
    decreases |m|
  {
    if m != [] {
      var x' := if m[0] then 2 * x + Bit(a[0]) else x;
      var y' := if m[0] then 2 * y + Bit(b[0]) else y;
      CollapseEqual(a[1..], b[1..], m[1..], x', y');
      assert AgreeOn(a, b, m) <==> (m[0] ==> a[0] == b[0]) && AgreeOn(a[1..], b[1..], m[1..]) by {
        if (m[0] ==> a[0] == b[0]) && AgreeOn(a[1..], b[1..], m[1..]) {
          forall k | 0 <= k < |m|
            ensures m[k] ==> a[k] == b[k]
          {
            if k > 0 { assert m[1..][k - 1] == m[k] && a[1..][k - 1] == a[k] && b[1..][k - 1] == b[k]; }
          }
        }
      }
    }
  }

  /** Two words have the same key under a mask exactly when they agree on the mask's bits. */
  lemma KeyEqualIffAgree(a: Word, b: Word, m: Word)
    ensures Key(a, m) == Key(b, m) <==> AgreeOn(a, b, m)
  {
    CollapseEqual(a, b, m, 0, 0);
  }

  // The bits of e under the mask, in their order.
  function Selected(e: seq<bool>, m: seq<bool>): seq<bool>
    requires |e| == |m|
    decreases |m|
  {
    if m == [] then [] else (if m[0] then [e[0]] else []) + Selected(e[1..], m[1..])
  }

  // The number a sequence of bits stands for, most significant first.
  function Binary(s: seq<bool>): nat {
    if s == [] then 0 else 2 * Binary(s[..|s| - 1]) + Bit(s[|s| - 1])
  }

  lemma BinaryAppend(s: seq<bool>, b: bool)
    ensures Binary(s + [b]) == 2 * Binary(s) + Bit(b)
  {
    assert (s + [b])[..|s|] == s;
  }

  lemma {:induction false} CollapseReads(e: seq<bool>, m: seq<bool>, p: seq<bool>)
    requires |e| == |m|
    ensures Collapse(e, m, Binary(p)) == Binary(p + Selected(e, m))
    decreases |m|
  {
    if m == [] {
      assert p + [] == p;
    } else {
      var rest := Selected(e[1..], m[1..]);
      if m[0] {
        BinaryAppend(p, e[0]);
        CollapseReads(e[1..], m[1..], p + [e[0]]);
        assert p + ([e[0]] + rest) == p + [e[0]] + rest;
      } else {
        CollapseReads(e[1..], m[1..], p);
        assert [] + rest == rest;
      }
    }
  }

  /** A key is the binary number of the selected bits. */
  lemma KeyIsBinary(e: Word, m: Word)
    ensures Key(e, m) == Binary(Selected(e, m))
  {
    CollapseReads(e, m, []);
    assert [] + Selected(e, m) == Selected(e, m);
  }

  lemma {:induction false} CollapseBound(e: seq<bool>, m: seq<bool>, acc: nat)
    requires |e| == |m|
    ensures Collapse(e, m, acc) < (acc + 1) * Pow2(Ones(m))
    decreases |m|
  {
    if m != [] {
      var acc' := if m[0] then 2 * acc + Bit(e[0]) else acc;
      CollapseBound(e[1..], m[1..], acc');
      var p := Pow2(Ones(m[1..]));
      if m[0] {
        assert (acc' + 1) * p <= (2 * acc + 2) * p == (acc + 1) * (2 * p);
      }
    }
  }

  lemma {:induction false} CollapsePad(e: seq<bool>, m: seq<bool>, acc: nat, b: bool)
    requires |e| == |m|
    ensures Collapse(e + [b], m + [false], acc) == Collapse(e, m, acc)
    decreases |m|
  {
    if m != [] {
      assert (e + [b])[1..] == e[1..] + [b] && (m + [false])[1..] == m[1..] + [false];
      CollapsePad(e[1..], m[1..], if m[0] then 2 * acc + Bit(e[0]) else acc, b);
    } else {
      assert (e + [b])[1..] == [] && (m + [false])[1..] == [];
    }
  }

  lemma {:induction false} CollapseZero(e: seq<bool>, m: seq<bool>, acc: nat)
    requires |e| == |m| && forall k | 0 <= k < |m| :: !m[k]
    ensures Collapse(e, m, acc) == acc
    decreases |m|
  {
    if m != [] { CollapseZero(e[1..], m[1..], acc); }
  }

  // One past the last set bit.
  function Extent(m: seq<bool>): nat {
    if m == [] then 0 else if m[|m| - 1] then |m| else Extent(m[..|m| - 1])
  }

  lemma {:induction false} ExtentIs(m: seq<bool>)
    ensures Extent(m) <= |m| && (Extent(m) > 0 ==> m[Extent(m) - 1])
    ensures forall k | Extent(m) <= k < |m| :: !m[k]
  {
    if m != [] { ExtentIs(m[..|m| - 1]); }
  }

  lemma ExtentShl(m: Word)
    requires m != Zero()
    ensures Extent(Shl(m)) < Extent(m)
  {
    ExtentIs(m);
    ExtentIs(Shl(m));
    assert exists k | 0 <= k < 32 :: m[k] != Zero()[k];
  }

  lemma ShlStep(e: Word, m: Word, acc: nat)
    ensures Collapse(Shl(e), Shl(m), if m[0] then 2 * acc + Bit(e[0]) else acc) == Collapse(e, m, acc)
  {
    CollapsePad(e[1..], m[1..], if m[0] then 2 * acc + Bit(e[0]) else acc, false);
  }

  /** clapseMask (lines 421-428) */
  method ClapseMask(encoding: Word, mask: Word) returns (ret: nat)
    ensures ret == Key(encoding, mask)
  {
    ret := 0;
    var curMask, enc := mask, encoding;
    while curMask != Zero()
      invariant Collapse(enc, curMask, ret) == Key(encoding, mask)
      decreases Extent(curMask)
    {
      ShlStep(enc, curMask, ret);
      ExtentShl(curMask);
      if curMask[0] {
        ret := 2 * ret + Bit(enc[0]);
      }
      curMask := Shl(curMask);
      enc := Shl(enc);
    }
    CollapseZero(enc, curMask, ret);
  }

  lemma Distribute(a: nat, b: nat, p: nat)
    ensures (2 * a + b) * p == a * (2 * p) + b * p
  {
    assert (2 * a + b) * p == (2 * a) * p + b * p;
  }

  lemma {:induction false} CollapseSplit(e: seq<bool>, m: seq<bool>, acc: nat)
    requires |e| == |m|
    ensures Collapse(e, m, acc) == acc * Pow2(Ones(m)) + Collapse(e, m, 0)
    decreases |m|
  {
    if m != [] && m[0] {
      var b, p := Bit(e[0]), Pow2(Ones(m[1..]));
      CollapseSplit(e[1..], m[1..], 2 * acc + b);
      CollapseSplit(e[1..], m[1..], b);
      assert (2 * acc + b) * p == acc * (2 * p) + b * p by { Distribute(acc, b, p); }
    } else if m != [] {
      CollapseSplit(e[1..], m[1..], acc);
    }
  }

  /** The decoder's key loop (InstructionDecoder-aarch64.C:3065-3074) reads the masked bits from the least
      significant end, the generator from the most significant end; both give the same key. */
  method BranchMapKey(insn: Word, mask: Word) returns (key: nat)
    ensures key == Key(insn, mask)
  {
    key := 0;
    var at, mapKeyIndex := 0, 0;
    while at < 32
      invariant 0 <= at <= 32
      invariant mapKeyIndex == Ones(mask[32 - at..])
      invariant key == Collapse(insn[32 - at..], mask[32 - at..], 0)
    {
      ghost var e, m := insn[31 - at..], mask[31 - at..];
      assert e[1..] == insn[32 - at..] && m[1..] == mask[32 - at..];
      CollapseSplit(e[1..], m[1..], Bit(e[0]));
      if mask[31 - at] {
        key := key + Bit(insn[31 - at]) * Pow2(mapKeyIndex);
        mapKeyIndex := mapKeyIndex + 1;
      }
      at := at + 1;
    }
    assert insn[0..] == insn && mask[0..] == mask;
  }

  lemma {:induction false} OnesAppend(a: seq<bool>, b: bool)
    ensures Ones(a + [b]) == Ones(a) + Bit(b)
  {
    if a != [] {
      assert (a + [b])[1..] == a[1..] + [b];
      OnesAppend(a[1..], b);
    }
  }

  lemma {:induction false} OnesZero(a: seq<bool>)
    ensures Ones(a) == 0 <==> forall k | 0 <= k < |a| :: !a[k]
  {
    if a != [] {
      OnesZero(a[1..]);
      assert (forall k | 0 <= k < |a[1..]| :: !a[1..][k]) ==> forall k | 1 <= k < |a| :: a[k] == a[1..][k - 1];
    }
  }

  // The positions of the set bits.
  function SetBits(a: seq<bool>): set<nat> { set k: nat | k < |a| && a[k] }

  lemma SetBitsAppend(a: seq<bool>, b: bool)
    ensures |SetBits(a + [b])| == |SetBits(a)| + Bit(b)
  {
    var s, t := SetBits(a + [b]), SetBits(a);
    assert |a| !in t;
    assert s == if b then t + {|a|} else t;
  }

  /** The number of set bits is the size of the set of their positions. */
  lemma {:induction false} OnesCounts(a: seq<bool>)
    ensures Ones(a) == |SetBits(a)|
  {
    if a != [] {
      var n := |a| - 1;
      assert a[..n] + [a[n]] == a;
      OnesCounts(a[..n]);
      OnesAppend(a[..n], a[n]);
      SetBitsAppend(a[..n], a[n]);
    }
  }

  lemma {:induction false} OnesOnly(a: seq<bool>, k: nat)
    requires k < |a| && a[k] && forall j | 0 <= j < |a| && j != k :: !a[j]
    ensures Ones(a) == 1
  {
    if k == 0 {
      OnesZero(a[1..]);
    } else {
      OnesOnly(a[1..], k - 1);
    }
  }

  lemma {:induction false} OnesWithin(a: seq<bool>, b: seq<bool>)
    requires |a| == |b| && forall j | 0 <= j < |a| && a[j] :: b[j]
    ensures Ones(a) <= Ones(b)
  {
    if a != [] { OnesWithin(a[1..], b[1..]); }
  }

  lemma {:induction false} OnesMore(a: seq<bool>, b: seq<bool>, k: nat)
    requires |a| == |b| && k < |a| && b[k] && !a[k] && forall j | 0 <= j < |a| && a[j] :: b[j]
    ensures Ones(a) < Ones(b)
  {
    if k == 0 {
      OnesWithin(a[1..], b[1..]);
    } else {
      OnesMore(a[1..], b[1..], k - 1);
    }
  }

  lemma {:induction false} OnesBound(a: seq<bool>)
    ensures Ones(a) <= |a|
  {
    if a != [] { OnesBound(a[1..]); }
  }

  // Adding bits that were not there adds their number.
  lemma {:induction false} OnesUnion(a: seq<bool>, b: seq<bool>, c: seq<bool>)
    requires |a| == |b| == |c| && forall k | 0 <= k < |a| :: !(a[k] && b[k]) && c[k] == (a[k] || b[k])
    ensures Ones(c) == Ones(a) + Ones(b)
  {
    if a != [] { OnesUnion(a[1..], b[1..], c[1..]); }
  }

  /** num1sInMask (lines 458-465) */
  method Num1sInMask(m: Word) returns (num: nat)
    ensures num == Ones(m)
  {
    var mask := m;
    num := 0;
    while mask != Zero()
      invariant num + Ones(mask) == Ones(m)
      decreases Ones(mask), |mask| - LeadingZeros(mask)
    {
      var low := mask[31];
      assert mask == mask[..31] + [low];
      OnesAppend(mask[..31], low);
      ShrLeads(mask);
      if low {
        num := num + 1;
      }
      mask := Shr(mask);
    }
    OnesZero(mask);
  }

  function LeadingZeros(m: seq<bool>): nat {
    if m == [] || m[0] then 0 else 1 + LeadingZeros(m[1..])
  }

  lemma ShrLeads(m: Word)
    requires m != Zero()
    ensures LeadingZeros(m) <= 32
    ensures !m[31] ==> LeadingZeros(Shr(m)) > LeadingZeros(m)
  {
    LeadingZerosBound(m);
    if !m[31] {
      assert Shr(m)[1..] == m[..31];
      LeadingZerosPrefix(m[..31]);
      assert m == m[..31] + [false];
    }
  }

  lemma {:induction false} LeadingZerosBound(m: seq<bool>)
    ensures LeadingZeros(m) <= |m|
  {
    if m != [] { LeadingZerosBound(m[1..]); }
  }

  lemma {:induction false} LeadingZerosPrefix(a: seq<bool>)
    ensures LeadingZeros(a) <= LeadingZeros(a + [false])
    ensures (exists k | 0 <= k < |a| :: a[k]) ==> LeadingZeros(a + [false]) == LeadingZeros(a)
  {
    if a != [] {
      assert (a + [false])[1..] == a[1..] + [false];
      LeadingZerosPrefix(a[1..]);
      if k :| 0 <= k < |a| && a[k] {
        if !a[0] { assert a[1..][k - 1]; }
      }
    }
  }
}
