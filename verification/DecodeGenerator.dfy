/**
 The generator of the AArch64 decoder table (aarch64_manual_parser.py, class
 DecodeTable) and the decoder's recursive lookup (findInsnTableIndex).
 */
module DecodeGenerator {
  import opened Basics
  import opened DecodeWords
  import opened DecodeTable

  // Slots up to 2**32 are accepted (line 530).
  const SLOT_LIMIT: nat := 0x1_0000_0000

  ghost predicate InRange(insns: seq<Insn>, ins: seq<nat>) { forall j | 0 <= j < |ins| :: ins[j] < |insns| }

  // ------------------------------------------------------------------- masks

  /** The bits fixed in all listed instructions and not yet processed (lines 555-563) */
  method ValidMaskBits(insns: seq<Insn>, ins: seq<nat>, processed: Word) returns (valid: Word)
    requires InRange(insns, ins)
    ensures forall k | 0 <= k < 32 :: valid[k] <==> !processed[k] && forall i | i in ins :: insns[i].mask[k]
  {
    valid := Full();
    var at := 0;
    while at < |ins|
      invariant 0 <= at <= |ins|
      invariant forall j, k | 0 <= j < at && 0 <= k < 32 && valid[k] :: insns[ins[j]].mask[k]
      invariant forall k | 0 <= k < 32 && (forall i | i in ins :: insns[i].mask[k]) :: valid[k]
    {
      assert ins[at] in ins;
      valid := And(valid, insns[ins[at]].mask);
      at := at + 1;
    }
    ghost var all := valid;
    valid := AndNot(valid, processed);
    assert forall k | 0 <= k < 32 :: valid[k] == (all[k] && !processed[k]);
  }

  lemma ValidIsCommon(insns: seq<Insn>, ins: seq<nat>, processed: Word, valid: Word)
    requires InRange(insns, ins)
    requires forall k | 0 <= k < 32 :: valid[k] <==> !processed[k] && forall i | i in ins :: insns[i].mask[k]
    ensures valid == Common(insns, Elems(ins), processed)
    ensures valid == Zero() ==> NothingLeft(insns, ins, processed)
  {
    forall k: nat | k < 32
      ensures FixedIn(insns, Elems(ins), k) <==> forall i | i in ins :: insns[i].mask[k]
    {
      assert forall i | i in ins :: i in Elems(ins);
    }
  }

  lemma AscendingSeveral(ins: seq<nat>)
    requires Ascending(ins) && 2 <= |ins|
    ensures Several(Elems(ins))
  {
    assert ins[0] < ins[1] && ins[0] in Elems(ins) && ins[1] in Elems(ins);
  }

  // w shifted left n times.
  ghost function Shifted(w: Word, n: nat): Word
    requires n <= 32
  {
    w[n..] + seq(n, _ => false)
  }

  // The first n bits of w, the others clear.
  ghost function Keep(w: Word, n: nat): Word { seq(32, k requires 0 <= k < 32 => k < n && w[k]) }

  lemma KeepStep(w: Word, n: nat)
    requires n < 32
    ensures Shifted(w, n)[0] == w[n] && Shl(Shifted(w, n)) == Shifted(w, n + 1)
    ensures Keep(w, n + 1) == if w[n] then Keep(w, n)[n := true] else Keep(w, n)
    ensures Ones(w[..n + 1]) == Ones(w[..n]) + Bit(w[n])
  {
    assert w[..n + 1] == w[..n] + [w[n]];
    OnesAppend(w[..n], w[n]);
  }

  /** The mask rebuilt bit by bit from the top, with its number of set bits (lines 604-618) */
  method CurrentMask(valid: Word) returns (curMask: Word, numCurMaskBit: nat)
    ensures curMask == valid && numCurMaskBit == Ones(valid)
  {
    curMask, numCurMaskBit := Zero(), 0;
    var rest, bit := valid, 0;
    assert valid == Shifted(valid, 0) && Zero() == Keep(valid, 0);
    while bit < 32
      invariant 0 <= bit <= 32
      invariant rest == Shifted(valid, bit) && curMask == Keep(valid, bit)
      invariant numCurMaskBit == Ones(valid[..bit])
    {
      KeepStep(valid, bit);
      if rest[0] {
        curMask := curMask[bit := true];
        numCurMaskBit := numCurMaskBit + 1;
      }
      rest := Shl(rest);
      bit := bit + 1;
    }
    assert valid[..32] == valid && Keep(valid, 32) == valid;
  }

  // ---------------------------------------------------------------- branches

  ghost function Total(groups: seq<seq<nat>>, n: nat): nat
    requires n <= |groups|
  {
    if n == 0 then 0 else Total(groups, n - 1) + |groups[n - 1]|
  }

  lemma {:induction false} TotalUpdate(groups: seq<seq<nat>>, b: nat, x: nat, n: nat)
    requires b < |groups| && n <= |groups|
    ensures Total(groups[b := groups[b] + [x]], n) == Total(groups, n) + (if b < n then 1 else 0)
  {
    if n > 0 { TotalUpdate(groups, b, x, n - 1); }
  }

  lemma {:induction false} TotalEmpty(groups: seq<seq<nat>>, n: nat)
    requires n <= |groups| && forall j | 0 <= j < |groups| :: groups[j] == []
    ensures Total(groups, n) == 0
  {
    if n > 0 { TotalEmpty(groups, n - 1); }
  }

  lemma {:induction false} TotalPrefix(groups: seq<seq<nat>>, more: seq<seq<nat>>, n: nat)
    requires n <= |groups|
    ensures Total(groups + more, n) == Total(groups, n)
  {
    if n > 0 { TotalPrefix(groups, more, n - 1); }
  }

  lemma {:induction false} TotalAtLeast(groups: seq<seq<nat>>, n: nat)
    requires n <= |groups| && forall j | 0 <= j < |groups| :: groups[j] != []
    ensures n <= Total(groups, n)
  {
    if n > 0 { TotalAtLeast(groups, n - 1); }
  }

  // A list of some of the first n instructions, all with branch number b.
  ghost predicate ListOk(insns: seq<Insn>, ins: seq<nat>, n: nat, m: Word, list: seq<nat>, b: nat)
    requires n <= |ins|
  {
    Ascending(list) && forall i | i in list :: i in ins[..n] && i < |insns| && Key(insns[i].enc, m) == b
  }

  ghost predicate HasPlace(insn: Insn, i: nat, m: Word, lists: seq<seq<nat>>) {
    Key(insn.enc, m) < |lists| && i in lists[Key(insn.enc, m)]
  }

  // The first n instructions have been put in the lists of their branch numbers.
  ghost predicate Sorting(insns: seq<Insn>, ins: seq<nat>, n: nat, m: Word, lists: seq<seq<nat>>)
    requires n <= |ins| && InRange(insns, ins)
  {
    && (forall b | 0 <= b < |lists| :: ListOk(insns, ins, n, m, lists[b], b))
    && (forall j | 0 <= j < n :: HasPlace(insns[ins[j]], ins[j], m, lists))
    && Total(lists, |lists|) == n
  }

  lemma ListOkStep(insns: seq<Insn>, ins: seq<nat>, n: nat, m: Word, list: seq<nat>, b: nat)
    requires n < |ins| && Ascending(ins) && InRange(insns, ins) && ListOk(insns, ins, n, m, list, b)
    ensures ListOk(insns, ins, n + 1, m, list, b)
    ensures Key(insns[ins[n]].enc, m) == b ==> ListOk(insns, ins, n + 1, m, list + [ins[n]], b)
  {
    assert ins[..n + 1] == ins[..n] + [ins[n]];
    forall k | 0 <= k < |list|
      ensures list[k] < ins[n]
    {
      assert list[k] in list;
      var j :| 0 <= j < n && ins[..n][j] == list[k];
      assert ins[j] < ins[n];
    }
  }

  lemma SortingStep(insns: seq<Insn>, ins: seq<nat>, n: nat, m: Word, lists: seq<seq<nat>>, b: nat)
    requires n < |ins| && Ascending(ins) && InRange(insns, ins) && Sorting(insns, ins, n, m, lists)
    requires b == Key(insns[ins[n]].enc, m) < |lists|
    ensures Sorting(insns, ins, n + 1, m, lists[b := lists[b] + [ins[n]]])
  {
    var next := lists[b := lists[b] + [ins[n]]];
    TotalUpdate(lists, b, ins[n], |lists|);
    forall c | 0 <= c < |next|
      ensures ListOk(insns, ins, n + 1, m, next[c], c)
    {
      ListOkStep(insns, ins, n, m, lists[c], c);
    }
    forall j | 0 <= j < n + 1
      ensures HasPlace(insns[ins[j]], ins[j], m, next)
    {
      if j < n { assert HasPlace(insns[ins[j]], ins[j], m, lists); }
    }
  }

  /** Instructions by branch number, one list for each number (lines 636-645) */
  method IndexLists(insns: seq<Insn>, ins: seq<nat>, curMask: Word, numCurMaskBit: nat)
    returns (indexList: seq<seq<nat>>)
    requires Ascending(ins) && InRange(insns, ins) && numCurMaskBit == Ones(curMask)
    ensures Sorting(insns, ins, |ins|, curMask, indexList)
  {
    indexList := seq(Pow2(numCurMaskBit), _ => []);
    TotalEmpty(indexList, |indexList|);
    var at := 0;
    while at < |ins|
      invariant 0 <= at <= |ins| && |indexList| == Pow2(numCurMaskBit)
      invariant Sorting(insns, ins, at, curMask, indexList)
    {
      var enc := insns[ins[at]].enc;
      var branchNo := ClapseMask(And(enc, curMask), curMask);
      KeyEqualIffAgree(And(enc, curMask), enc, curMask);
      CollapseBound(enc, curMask, 0);
      SortingStep(insns, ins, at, curMask, indexList, branchNo);
      indexList := indexList[branchNo := indexList[branchNo] + [ins[at]]];
      at := at + 1;
    }
  }

  // These are the non-empty ones of the first n lists, in order, with their numbers.
  ghost predicate Picked(lists: seq<seq<nat>>, n: nat, valid: seq<seq<nat>>, pos: seq<nat>)
    requires n <= |lists|
  {
    && |valid| == |pos|
    && (forall j | 0 <= j < |pos| :: pos[j] < n && valid[j] == lists[pos[j]] && valid[j] != [])
    && (forall j, k | 0 <= j < k < |pos| :: pos[j] < pos[k])
    && (forall b | 0 <= b < n && lists[b] != [] :: b in pos)
  }

  ghost predicate SameTotal(lists: seq<seq<nat>>, n: nat, valid: seq<seq<nat>>)
    requires n <= |lists|
  {
    Total(valid, |valid|) == Total(lists, n)
  }

  lemma SameTotalStep(lists: seq<seq<nat>>, n: nat, valid: seq<seq<nat>>)
    requires n < |lists| && SameTotal(lists, n, valid)
    ensures SameTotal(lists, n + 1, if lists[n] == [] then valid else valid + [lists[n]])
  {
    TotalPrefix(valid, [lists[n]], |valid|);
  }

  lemma PickedStep(lists: seq<seq<nat>>, n: nat, valid: seq<seq<nat>>, pos: seq<nat>)
    requires n < |lists| && Picked(lists, n, valid, pos)
    ensures lists[n] == [] ==> Picked(lists, n + 1, valid, pos)
    ensures lists[n] != [] ==> Picked(lists, n + 1, valid + [lists[n]], pos + [n])
  {}

  // The non-empty ones of the first n lists and their numbers.
  ghost function NonEmpty(lists: seq<seq<nat>>, n: nat): (seq<seq<nat>>, seq<nat>)
    requires n <= |lists|
  {
    if n == 0 then ([], [])
    else
      var (valid, pos) := NonEmpty(lists, n - 1);
      if lists[n - 1] == [] then (valid, pos) else (valid + [lists[n - 1]], pos + [n - 1])
  }

  lemma {:induction false} NonEmptyPicked(lists: seq<seq<nat>>, n: nat)
    requires n <= |lists|
    ensures Picked(lists, n, NonEmpty(lists, n).0, NonEmpty(lists, n).1)
  {
    if n > 0 {
      NonEmptyPicked(lists, n - 1);
      PickedStep(lists, n - 1, NonEmpty(lists, n - 1).0, NonEmpty(lists, n - 1).1);
    }
  }

  lemma {:induction false} NonEmptyTotal(lists: seq<seq<nat>>, n: nat)
    requires n <= |lists|
    ensures SameTotal(lists, n, NonEmpty(lists, n).0)
  {
    if n > 0 {
      NonEmptyTotal(lists, n - 1);
      SameTotalStep(lists, n - 1, NonEmpty(lists, n - 1).0);
    }
  }

  lemma PickedGroups(insns: seq<Insn>, ins: seq<nat>, m: Word, lists: seq<seq<nat>>, valid: seq<seq<nat>>,
                     pos: seq<nat>)
    requires InRange(insns, ins) && Sorting(insns, ins, |ins|, m, lists) && Picked(lists, |lists|, valid, pos)
    requires SameTotal(lists, |lists|, valid)
    ensures Grouped(insns, ins, m, valid, pos) && Total(valid, |valid|) == |ins|
  {
    assert ins[..|ins|] == ins;
    forall j | 0 <= j < |valid|
      ensures ListOk(insns, ins, |ins|, m, valid[j], pos[j])
    {
      assert ListOk(insns, ins, |ins|, m, lists[pos[j]], pos[j]);
    }
    forall i | i in ins
      ensures exists j :: 0 <= j < |valid| && i in valid[j]
    {
      var k :| 0 <= k < |ins| && ins[k] == i;
      assert HasPlace(insns[ins[k]], ins[k], m, lists);
      PickedHas(lists, valid, pos, i, Key(insns[i].enc, m));
    }
  }

  lemma PickedHas(lists: seq<seq<nat>>, valid: seq<seq<nat>>, pos: seq<nat>, i: nat, b: nat)
    requires Picked(lists, |lists|, valid, pos) && b < |lists| && i in lists[b]
    ensures exists j :: 0 <= j < |valid| && i in valid[j]
  {
    assert b in pos;
    var j :| 0 <= j < |pos| && pos[j] == b;
    assert i in valid[j];
  }

  /** The non-empty lists and their branch numbers (lines 649-658) */
  method ValidLists(insns: seq<Insn>, ins: seq<nat>, curMask: Word, numCurMaskBit: nat)
    returns (validIndexList: seq<seq<nat>>, posToBrNo: seq<nat>)
    requires Ascending(ins) && InRange(insns, ins) && numCurMaskBit == Ones(curMask)
    ensures Grouped(insns, ins, curMask, validIndexList, posToBrNo)
    ensures Total(validIndexList, |validIndexList|) == |ins|
  {
    var indexList := IndexLists(insns, ins, curMask, numCurMaskBit);
    validIndexList, posToBrNo := PickLists(indexList);
    NonEmptyPicked(indexList, |indexList|);
    NonEmptyTotal(indexList, |indexList|);
    PickedGroups(insns, ins, curMask, indexList, validIndexList, posToBrNo);
  }

  method PickLists(indexList: seq<seq<nat>>) returns (validIndexList: seq<seq<nat>>, posToBrNo: seq<nat>)
    ensures (validIndexList, posToBrNo) == NonEmpty(indexList, |indexList|)
  {
    validIndexList, posToBrNo := [], [];
    var br := 0;
    while br < |indexList|
      invariant 0 <= br <= |indexList| && (validIndexList, posToBrNo) == NonEmpty(indexList, br)
    {
      if |indexList[br]| != 0 {
        validIndexList := validIndexList + [indexList[br]];
        posToBrNo := posToBrNo + [br];
      }
      br := br + 1;
    }
  }

  // The branches of a decision, at consecutive slots (lines 662-664).
  method EntryList(posToBrNo: seq<nat>, a: nat) returns (entries: seq<(nat, nat)>)
    ensures entries == BranchList(posToBrNo, a)
  {
    entries := [];
    for i := 0 to |posToBrNo|
      invariant |entries| == i
      invariant forall j | 0 <= j < i :: entries[j] == (posToBrNo[j], a + j)
    {
      entries := entries + [(posToBrNo[i], a + i)];
    }
  }

  // Position k holds the first of the instructions with the fewest fixed bits.
  ghost predicate FirstFewest(insns: seq<Insn>, ins: seq<nat>, k: nat)
    requires InRange(insns, ins) && k < |ins|
  {
    && (forall j | 0 <= j < k :: Ones(insns[ins[j]].mask) > Ones(insns[ins[k]].mask))
    && (forall j | k <= j < |ins| :: Ones(insns[ins[j]].mask) >= Ones(insns[ins[k]].mask))
  }

  lemma FirstFewestBefore(insns: seq<Insn>, ins: seq<nat>, index: nat)
    requires InRange(insns, ins) && Ascending(ins)
    requires exists k: nat :: k < |ins| && FirstFewest(insns, ins, k) && index == ins[k]
    ensures index in ins && index < |insns| && forall i | i in ins :: i < |insns| && !Before(insns, i, index)
  {
    var k: nat :| k < |ins| && FirstFewest(insns, ins, k) && index == ins[k];
    forall i | i in ins
      ensures i < |insns| && !Before(insns, i, index)
    {
      var j :| 0 <= j < |ins| && ins[j] == i;
      if j > k { assert ins[k] < ins[j]; }
    }
  }

  /** The head of the alias list sorted by number of fixed bits (lines 467-468 and 496-503): Python's sort is
      stable, so it is the first of the instructions with the fewest. */
  method FewestFixedBits(insns: seq<Insn>, ins: seq<nat>) returns (index: nat)
    requires ins != [] && InRange(insns, ins)
    ensures exists k: nat :: k < |ins| && FirstFewest(insns, ins, k) && index == ins[k]
  {
    ghost var k := 0;
    index := ins[0];
    var fewest := Num1sInMask(insns[index].mask);
    var at := 1;
    while at < |ins|
      invariant 1 <= at <= |ins| && k < at && index == ins[k] && fewest == Ones(insns[index].mask)
      invariant forall j | 0 <= j < k :: Ones(insns[ins[j]].mask) > fewest
      invariant forall j | k <= j < at :: Ones(insns[ins[j]].mask) >= fewest
    {
      var num := Num1sInMask(insns[ins[at]].mask);
      if num < fewest {
        index, k, fewest := ins[at], at, num;
      }
      at := at + 1;
    }
    assert FirstFewest(insns, ins, k);
  }

  // ------------------------------------------------------------------- bounds

  // The bits not yet processed.
  ghost function Left(processed: Word): nat {
    OnesBound(processed);
    32 - Ones(processed)
  }

  // Slots that a call on n instructions may still reserve: one for each instruction and bit left.
  ghost function Need(n: nat, left: nat): nat {
    if n == 0 then 0 else Need(n - 1, left) + left
  }

  lemma {:induction false} NeedAdds(a: nat, b: nat, left: nat)
    ensures Need(a, left) + Need(b, left) == Need(a + b, left)
  {
    if b > 0 { NeedAdds(a, b - 1, left); }
  }

  lemma {:induction false} NeedFewer(n: nat, left: nat, left': nat)
    requires left' < left
    ensures n + Need(n, left') <= Need(n, left)
  {
    if n > 0 { NeedFewer(n - 1, left, left'); }
  }

  lemma {:induction false} NeedIs(n: nat, left: nat)
    ensures Need(n, left) == n * left
  {
    if n > 0 { NeedIs(n - 1, left); }
  }

  lemma MaskGrows(processed: Word, m: Word)
    requires m != Zero() && Fresh(m, processed)
    ensures Left(Or(processed, m)) < Left(processed)
  {
    OnesUnion(processed, m, Or(processed, m));
    OnesZero(m);
    OnesBound(Or(processed, m));
    assert Ones(m) == 0 ==> m == Zero();
  }

  lemma NeedSplits(n: nat, a: nat, b: nat, left: nat, left': nat)
    requires a + b <= n && left' < left
    ensures n + Need(a, left') + Need(b, left') <= Need(n, left)
  {
    NeedAdds(a, b, left');
    NeedAdds(a + b, n - a - b, left');
    NeedFewer(n, left, left');
  }

  lemma PartialStart(insns: seq<Insn>, d: Growth, groups: seq<seq<nat>>, processed: Word, a: nat)
    requires Inv(insns, d)
    ensures Partial(insns, d, d, groups, 0, processed, a)
  {
    SlotsSmall(a);
    SlotsSmall(d.avail);
  }

  // A decision placed on g at this slot, whose branches start at slot first.
  datatype Plan = Plan(g: Growth, d: Growth, ins: seq<nat>, slot: nat, m: Word, groups: seq<seq<nat>>, pos: seq<nat>,
                       first: nat)
  {
    ghost predicate Shaped(insns: seq<Insn>) {
      d == WithDecision(g, slot, m, pos) && first == g.avail && m != Zero() && GroupsOk(insns, ins, m, groups, pos)
    }

    ghost predicate Ok(insns: seq<Insn>) { Shaped(insns) && Ready(insns, g, ins, slot) }

    lemma GroupShape(insns: seq<Insn>, n: nat)
      requires Shaped(insns) && n < |groups|
      ensures InRange(insns, groups[n]) && Ascending(groups[n]) && groups[n] != [] && first + n < d.avail
    {
      assert GroupOk(insns, ins, m, groups[n], pos[n]);
      assert forall j | 0 <= j < |groups[n]| :: groups[n][j] in groups[n];
    }
  }

  // While branch n is next: its slot is still empty and its instructions are not placed.
  lemma BranchReady(insns: seq<Insn>, p: Plan, h: Growth, group: seq<nat>, n: nat, processed: Word, slot: nat)
    requires p.Ok(insns) && n < |p.groups| && group == p.groups[n] && slot == p.first + n
    requires Partial(insns, p.d, h, p.groups, n, processed, p.first)
    ensures Ready(insns, h, group, slot) && Ascending(group) && group != []
  {
    assert GroupOk(insns, p.ins, p.m, p.groups[n], p.pos[n]);
    BranchSlotFree(p.g, h, p.slot, p.m, p.pos, Slots(p.first, p.first + n), Members(p.groups, n), n);
    BranchFresh(insns, p.ins, p.m, p.groups, p.pos, n, p.g.home.Keys, h.home.Keys);
  }

  lemma PlanStart(insns: seq<Insn>, p: Plan, processed: Word)
    requires p.Ok(insns)
    ensures Partial(insns, p.d, p.d, p.groups, 0, processed, p.first)
  {
    DecisionInv(insns, p.g, p.slot, p.m, p.pos);
    PartialStart(insns, p.d, p.groups, processed, p.first);
  }

  lemma BranchFresh(insns: seq<Insn>, ins: seq<nat>, m: Word, groups: seq<seq<nat>>, pos: seq<nat>, n: nat,
                    before: set<nat>, now: set<nat>)
    requires GroupsOk(insns, ins, m, groups, pos) && n < |groups|
    requires now == before + Members(groups, n) && forall i | i in ins :: i !in before
    ensures forall i | i in groups[n] :: i < |insns| && i !in now
  {
    forall i | i in groups[n]
      ensures i !in Members(groups, n)
    {
      GroupApart(insns, ins, m, groups, pos, n, n, i);
    }
  }

  lemma {:induction false} GroupApart(insns: seq<Insn>, ins: seq<nat>, m: Word, groups: seq<seq<nat>>, pos: seq<nat>,
                                      n: nat, k: nat, i: nat)
    requires GroupsOk(insns, ins, m, groups, pos) && k <= n < |groups| && i in groups[n]
    ensures i !in Members(groups, k)
  {
    if k > 0 {
      GroupApart(insns, ins, m, groups, pos, n, k - 1, i);
      assert GroupOk(insns, ins, m, groups[n], pos[n]) && GroupOk(insns, ins, m, groups[k - 1], pos[k - 1]);
    }
  }

  lemma BranchSlotFree(g: Growth, h: Growth, slot: nat, m: Word, pos: seq<nat>, filled: set<nat>, placed: set<nat>,
                       n: nat)
    requires SlotsOk(g) && slot < g.avail && n < |pos| && g.avail + |pos| <= h.avail
    requires filled == Slots(g.avail, g.avail + n) && Grew(WithDecision(g, slot, m, pos), h, filled, placed)
    ensures g.avail + n !in h.table
  {
    assert !Between(g.avail + n, g.avail, g.avail + n) && !Between(g.avail + n, g.avail + |pos|, h.avail);
  }

  // ---------------------------------------------------------------- generator

  class Generator {
    const insns: seq<Insn>
    var table: Table
    var entryAvailable: nat
    var processedIndex: set<nat>
    var numOfLeafNodes: nat
    var numNodes: nat
    ghost var home: map<nat, nat>
    ghost var parent: map<nat, (nat, nat)>
    ghost var seen: map<nat, Word>

    ghost function State(): Growth
      reads this
    {
      Growth(table, entryAvailable, home, parent, seen)
    }

    /** Slot 0 is reserved for the root (lines 482-493) */
    constructor (insns: seq<Insn>)
      ensures this.insns == insns && State() == Growth(map[], 1, map[], map[], map[])
      ensures processedIndex == {} && numOfLeafNodes == 0 && numNodes == 0
    {
      this.insns := insns;
      table, entryAvailable, processedIndex := map[], 1, {};
      numOfLeafNodes, numNodes := 0, 0;
      home, parent, seen := map[], map[], map[];
    }

    // Every slot reserved so far passes the guard of line 530.
    predicate Fits()
      reads this
    {
      entryAvailable <= SLOT_LIMIT + 1
    }

    // No slot beyond the limit is ever written.
    ghost predicate Capped()
      reads this
    {
      forall s | s in table :: s <= SLOT_LIMIT
    }

    // A leaf line (printDecodertable with no branches).
    method PlaceLeaf(ins: seq<nat>, index: nat, processed: Word, slot: nat)
      modifies this
      ensures State() == WithLeaf(old(State()), slot, index, ins, processed)
      ensures processedIndex == old(processedIndex) + Elems(ins)
      ensures numNodes == old(numNodes) + 1 && numOfLeafNodes == old(numOfLeafNodes) + |ins|
    {
      table := table[slot := Entry(Zero(), [], index)];
      home := map i | i in home.Keys + Elems(ins) :: if i in ins then slot else home[i];
      seen := seen[slot := processed];
      var at := 0;
      while at < |ins|
        invariant 0 <= at <= |ins| && processedIndex == old(processedIndex) + Elems(ins[..at])
        modifies this`processedIndex
      {
        assert Elems(ins[..at + 1]) == Elems(ins[..at]) + {ins[at]} by {
          assert ins[..at + 1] == ins[..at] + [ins[at]];
        }
        processedIndex := processedIndex + {ins[at]};
        at := at + 1;
      }
      assert ins[..|ins|] == ins;
      numNodes := numNodes + 1;
      numOfLeafNodes := numOfLeafNodes + |ins|;
    }

    // A decision line with one reserved slot for each branch (lines 662-673).
    method PlaceDecision(curMask: Word, posToBrNo: seq<nat>, slot: nat)
      modifies this`table, this`entryAvailable, this`parent, this`numNodes
      ensures State() == WithDecision(old(State()), slot, curMask, posToBrNo)
      ensures numNodes == old(numNodes) + 1
    {
      var entryList := EntryList(posToBrNo, entryAvailable);
      parent := map c | c in parent.Keys + Slots(entryAvailable, entryAvailable + |posToBrNo|) ::
        if c >= entryAvailable then (slot, c - entryAvailable) else parent[c];
      entryAvailable := entryAvailable + |posToBrNo|;
      table := table[slot := Entry(curMask, entryList, -1)];
      numNodes := numNodes + 1;
    }

    /**
     buildDecodeTable (lines 527-686). Where a reserved slot exceeds the limit the guard
     of line 530 leaves it empty; as long as none does, the call does what Built says and
     meets no instruction twice (line 548).
     */
    method BuildDecodeTable(ins: seq<nat>, processed: Word, slot: nat)
      requires InRange(insns, ins) && Ascending(ins) && slot < entryAvailable && Capped()
      requires Fits() ==> Ready(insns, State(), ins, slot) && processedIndex == home.Keys
      modifies this
      ensures Capped()
      ensures old(entryAvailable) <= entryAvailable <= old(entryAvailable) + Need(|ins|, Left(processed))
      ensures Fits() && ins == [] ==> State() == old(State())
      ensures Fits() && ins != [] ==> Built(insns, old(State()), State(), ins, processed, slot)
      ensures Fits() ==> processedIndex == home.Keys && numOfLeafNodes == old(numOfLeafNodes) + |ins|
      ensures Fits() ==>
        numNodes == old(numNodes) + (if ins == [] then 0 else 1 + entryAvailable - old(entryAvailable))
      decreases Left(processed), 2
    {
      if slot > SLOT_LIMIT {
        return;
      }
      if |ins| < 1 {
        return;
      }
      if |ins| == 1 {
        BuildLeaf(ins, ins[0], processed, slot);
        return;
      }
      var validMaskBits := ValidMaskBits(insns, ins, processed);
      ValidIsCommon(insns, ins, processed, validMaskBits);
      if validMaskBits == Zero() {
        var index := FewestFixedBits(insns, ins);
        FirstFewestBefore(insns, ins, index);
        BuildLeaf(ins, index, processed, slot);
        return;
      }
      var curMask, numCurMaskBit := CurrentMask(validMaskBits);
      BuildDecision(ins, curMask, numCurMaskBit, processed, slot);
    }

    // A leaf for one instruction (lines 540-553) or for aliases (lines 573-581).
    method BuildLeaf(ins: seq<nat>, index: nat, processed: Word, slot: nat)
      requires InRange(insns, ins) && slot <= SLOT_LIMIT && Capped() && index in ins && index < |insns|
      requires ins == [index] || NothingLeft(insns, ins, processed)
      requires forall i | i in ins :: i < |insns| && !Before(insns, i, index)
      requires Fits() ==> Ready(insns, State(), ins, slot) && processedIndex == home.Keys
      modifies this
      ensures Capped() && entryAvailable == old(entryAvailable)
      ensures Fits() ==> Built(insns, old(State()), State(), ins, processed, slot)
      ensures Fits() ==> processedIndex == home.Keys && numOfLeafNodes == old(numOfLeafNodes) + |ins|
      ensures numNodes == old(numNodes) + 1
    {
      if Fits() {
        LeafBuilt(insns, State(), ins, slot, index, processed);
      }
      PlaceLeaf(ins, index, processed, slot);
    }

    // The branches of one decision, built one after another (lines 634-686).
    method BuildDecision(ins: seq<nat>, curMask: Word, numCurMaskBit: nat, processed: Word, slot: nat)
      requires InRange(insns, ins) && Ascending(ins) && 2 <= |ins| && slot < entryAvailable && slot <= SLOT_LIMIT
      requires curMask != Zero() && numCurMaskBit == Ones(curMask)
      requires curMask == Common(insns, Elems(ins), processed) && Capped()
      requires Fits() ==> Ready(insns, State(), ins, slot) && processedIndex == home.Keys
      modifies this
      ensures Capped()
      ensures old(entryAvailable) <= entryAvailable <= old(entryAvailable) + Need(|ins|, Left(processed))
      ensures Fits() ==> Built(insns, old(State()), State(), ins, processed, slot)
      ensures Fits() ==> processedIndex == home.Keys && numOfLeafNodes == old(numOfLeafNodes) + |ins|
      ensures Fits() ==> numNodes == old(numNodes) + 1 + entryAvailable - old(entryAvailable)
      decreases Left(processed), 1
    {
      ghost var g := State();
      var processedMask := Or(processed, curMask);
      CommonIs(insns, ins, curMask, processed);
      AscendingSeveral(ins);
      MaskGrows(processed, curMask);
      var groups, pos := ValidLists(insns, ins, curMask, numCurMaskBit);
      TotalAtLeast(groups, |groups|);
      var first := entryAvailable;
      PlaceDecision(curMask, pos, slot);
      ghost var d := State();
      ghost var plan := Plan(g, d, ins, slot, curMask, groups, pos, first);
      if Fits() { PlanStart(insns, plan, processedMask); }
      BuildBranches(groups, processedMask, first, plan, processed, numOfLeafNodes, numNodes);
      NeedSplits(|ins|, |ins|, 0, Left(processed), Left(processedMask));
      if Fits() {
        DecisionBuilt(insns, g, d, State(), ins, slot, curMask, groups, pos, processed, processedMask, first);
      }
    }

    // The first n branches are built, with this many leaves and, beside the slots, nodes counted.
    ghost predicate OnTrack(plan: Plan, n: nat, processed: Word, leaves: nat, nodes: int)
      requires n <= |plan.groups|
      reads this
    {
      && plan.Ok(insns) && Partial(insns, plan.d, State(), plan.groups, n, processed, plan.first)
      && processedIndex == home.Keys && numOfLeafNodes == leaves
      && numNodes == nodes + n + entryAvailable - plan.d.avail
    }

    // The loop of lines 685-686.
    method BuildBranches(groups: seq<seq<nat>>, processedMask: Word, first: nat, ghost plan: Plan,
                         ghost processed: Word, ghost leaves: nat, ghost nodes: int)
      requires plan.Shaped(insns) && entryAvailable == plan.d.avail && first == plan.first && groups == plan.groups
      requires Left(processedMask) < Left(processed) && Capped()
      requires Fits() ==> OnTrack(plan, 0, processedMask, leaves, nodes)
      modifies this
      ensures Capped()
      ensures var all := Total(groups, |groups|);
        && old(entryAvailable) <= entryAvailable <= old(entryAvailable) + Need(all, Left(processedMask))
        && (Fits() ==> OnTrack(plan, |plan.groups|, processedMask, leaves + all, nodes))
      decreases Left(processed), 0
    {
      ghost var placed := 0;
      for n := 0 to |groups|
        invariant placed == Total(groups, n) && Capped() && plan.d.avail <= entryAvailable
        invariant Roomy(plan, placed, Left(processedMask))
        invariant Fits() ==> OnTrack(plan, n, processedMask, leaves + placed, nodes)
      {
        placed := BuildNext(groups, processedMask, first, plan, n, leaves, nodes, placed);
      }
    }

    // The slots reserved beyond the branches of the plan are no more than this many instructions may need.
    ghost predicate Roomy(plan: Plan, placed: nat, left: nat)
      reads this
    {
      entryAvailable <= plan.d.avail + Need(placed, left)
    }

    // One pass of that loop.
    method BuildNext(groups: seq<seq<nat>>, processed: Word, first: nat, ghost plan: Plan, n: nat, ghost leaves: nat,
                     ghost nodes: int, ghost placed: nat)
      returns (ghost placed': nat)
      requires plan.Shaped(insns) && first == plan.first && groups == plan.groups && n < |groups|
      requires placed == Total(groups, n) && Capped() && plan.d.avail <= entryAvailable
      requires Roomy(plan, placed, Left(processed))
      requires Fits() ==> OnTrack(plan, n, processed, leaves + placed, nodes)
      modifies this
      ensures placed' == Total(groups, n + 1) && Capped() && plan.d.avail <= entryAvailable
      ensures Roomy(plan, placed', Left(processed))
      ensures Fits() ==> OnTrack(plan, n + 1, processed, leaves + placed', nodes)
      decreases Left(processed), 4
    {
      NeedAdds(placed, |groups[n]|, Left(processed));
      BuildBranch(groups[n], processed, first + n, plan, n, leaves + placed, nodes);
      placed' := placed + |groups[n]|;
    }

    // The recursive call of line 686.
    method BuildBranch(group: seq<nat>, processed: Word, slot: nat, ghost plan: Plan, ghost n: nat, ghost leaves: nat,
                       ghost nodes: int)
      requires plan.Shaped(insns) && n < |plan.groups| && group == plan.groups[n] && slot == plan.first + n
      requires plan.d.avail <= entryAvailable && Capped()
      requires Fits() ==> OnTrack(plan, n, processed, leaves, nodes)
      modifies this
      ensures Capped()
      ensures old(entryAvailable) <= entryAvailable <= old(entryAvailable) + Need(|group|, Left(processed))
      ensures Fits() ==> OnTrack(plan, n + 1, processed, leaves + |group|, nodes)
      decreases Left(processed), 3
    {
      ghost var h := State();
      plan.GroupShape(insns, n);
      if Fits() { BranchReady(insns, plan, h, group, n, processed, slot); }
      BuildDecodeTable(group, processed, slot);
      if Fits() {
        PartialStep(insns, plan.d, h, State(), plan.groups, n, processed, plan.first, group, slot);
      }
    }
  }
}
