/**
 The AArch64 decoder table: the generator's decision tree
 (dyninst/instructionAPI/aarch64_manual_parser.py, class DecodeTable) and the
 decoder's walk over it (dyninst/instructionAPI/src/InstructionDecoder-aarch64.C,
 findInsnTableIndex), as values. DecodeGenerator.dfy holds the code.
 */
module DecodeTable {
  import opened DecodeWords

  // An instruction: its fixed bits and which bits those are.
  datatype Insn = Insn(enc: Word, mask: Word)

  // A table line: decision mask, (key, slot) branches, instruction index (-1 in a decision).
  datatype Entry = Entry(mask: Word, branches: seq<(nat, nat)>, index: int)

  type Table = map<nat, Entry>

  // What the walk finds: a leaf, a key without a branch, or a slot it cannot follow.
  datatype Lookup = Leaf(slot: nat) | NoBranch | Stuck

  // The slot of the branch with this key, or -1.
  function Next(bs: seq<(nat, nat)>, key: nat): int {
    if bs == [] then -1 else if bs[0].0 == key then bs[0].1 else Next(bs[1..], key)
  }

  // The leaf the decoder reaches from a slot. Branches lead to later slots below limit.
  function Walk(t: Table, slot: nat, w: Word, limit: nat): Lookup
    decreases limit - slot
  {
    if slot !in t || slot >= limit then Stuck
    else if t[slot].mask == Zero() then Leaf(slot)
    else
      var next := Next(t[slot].branches, Key(w, t[slot].mask));
      if next < 0 then NoBranch
      else if next <= slot then Stuck
      else Walk(t, next, w, limit)
  }

  // The bits that the walk of a word looks at: the masks of the decisions it passes.
  function Examined(t: Table, slot: nat, w: Word, limit: nat): Word
    decreases limit - slot
  {
    if slot !in t || slot >= limit || t[slot].mask == Zero() then Zero()
    else
      var next := Next(t[slot].branches, Key(w, t[slot].mask));
      if next <= slot then t[slot].mask else Or(t[slot].mask, Examined(t, next, w, limit))
  }

  // The word has every fixed bit of the instruction.
  ghost predicate Matches(insn: Insn, w: Word) { AgreeOn(w, insn.enc, insn.mask) }

  /**
   The table so far and the bookkeeping of the proof: avail is the first slot not
   reserved, home the leaf of each placed instruction, parent the branch that leads to a
   reserved slot, seen the bits decided on the way to a leaf.
   */
  datatype Growth = Growth(
    table: Table,
    avail: nat,
    home: map<nat, nat>,
    parent: map<nat, (nat, nat)>,
    seen: map<nat, Word>)

  ghost predicate IsLeaf(t: Table, s: nat) { s in t && t[s].mask == Zero() }

  // Bit k is fixed by every instruction at leaf s.
  ghost predicate FixedByAll(insns: seq<Insn>, home: map<nat, nat>, s: nat, k: nat)
    requires k < 32
  {
    forall i | i in home && home[i] == s && i < |insns| :: insns[i].mask[k]
  }

  // Of two aliases the generator keeps the one with fewer fixed bits, and of equals the one listed first.
  predicate Before(insns: seq<Insn>, i: nat, j: nat)
    requires i < |insns| && j < |insns|
  {
    Ones(insns[i].mask) < Ones(insns[j].mask) || (Ones(insns[i].mask) == Ones(insns[j].mask) && i < j)
  }

  /** A leaf names the first of its members in that order; it has one member, or every bit that all its members
      fix was decided on the way to it. */
  ghost predicate LeafOk(insns: seq<Insn>, g: Growth, s: nat)
    requires s in g.table
  {
    var best := g.table[s].index;
    && s in g.seen && g.table[s].branches == []
    && 0 <= best < |insns| && best in g.home && g.home[best] == s
    && (forall i | i in g.home && g.home[i] == s && i < |insns| :: !Before(insns, i, best))
    && (|| (forall i | i in g.home && g.home[i] == s :: i == best)
        || (forall k | 0 <= k < 32 && FixedByAll(insns, g.home, s, k) :: g.seen[s][k]))
  }

  ghost predicate BranchOk(g: Growth, s: nat, k: nat)
    requires s in g.table && k < |g.table[s].branches|
  {
    var c := g.table[s].branches[k].1;
    s < c < g.avail && c == g.table[s].branches[0].1 + k && c in g.parent && g.parent[c] == (s, k)
  }

  ghost predicate ParentOk(g: Growth, c: nat)
    requires c in g.parent
  {
    var (s, k) := g.parent[c];
    c < g.avail && s in g.table && k < |g.table[s].branches| && g.table[s].branches[k].1 == c
  }

  // Leaves are as above; branches and parents are each other's inverse.
  ghost predicate Inv(insns: seq<Insn>, g: Growth) {
    SlotsOk(g) && LeavesOk(insns, g) && BranchesOk(g) && ParentsOk(g) && HomesOk(insns, g)
  }

  ghost predicate SlotsOk(g: Growth) { forall s | s in g.table :: s < g.avail }

  ghost predicate LeavesOk(insns: seq<Insn>, g: Growth) {
    forall s | s in g.table && g.table[s].mask == Zero() :: LeafOk(insns, g, s)
  }

  ghost predicate BranchesOk(g: Growth) {
    forall s, k: nat | s in g.table && k < |g.table[s].branches| :: BranchOk(g, s, k)
  }

  ghost predicate ParentsOk(g: Growth) { forall c | c in g.parent :: ParentOk(g, c) }

  ghost predicate HomesOk(insns: seq<Insn>, g: Growth) {
    forall i | i in g.home :: i < |insns| && IsLeaf(g.table, g.home[i])
  }

  // Nothing already in g is changed in h, and no old leaf gets a new member.
  ghost predicate Extends(g: Growth, h: Growth) {
    && g.avail <= h.avail
    && (forall s | s in g.table :: s in h.table && h.table[s] == g.table[s])
    && (forall i | i in g.home :: i in h.home && h.home[i] == g.home[i])
    && (forall i | i in h.home && i !in g.home :: h.home[i] !in g.table)
    && (forall c | c in g.parent :: c in h.parent && h.parent[c] == g.parent[c])
    && (forall s | s in g.seen && s in g.table :: s in h.seen && h.seen[s] == g.seen[s])
  }

  // From this slot every word that matches a listed instruction walks to that instruction's leaf.
  ghost predicate Complete(insns: seq<Insn>, h: Growth, ins: seq<nat>, slot: nat) {
    forall i: nat, w: Word | i in ins && i < |insns| :: Arrives(insns, h, i, w, slot)
  }

  ghost predicate Arrives(insns: seq<Insn>, h: Growth, i: nat, w: Word, slot: nat)
    requires i < |insns|
  {
    Matches(insns[i], w) ==> i in h.home && Walk(h.table, slot, w, h.avail) == Leaf(h.home[i])
  }

  ghost predicate Within(a: Word, b: Word) { forall k | 0 <= k < 32 && a[k] :: b[k] }

  // The members of leaf s are listed; they fix the bits decided from this slot on, and w agrees with them there.
  ghost predicate Agrees(insns: seq<Insn>, h: Growth, ins: seq<nat>, processed: Word, w: Word, s: nat) {
    && IsLeaf(h.table, s) && s in h.seen && Within(processed, h.seen[s])
    && forall i | i in h.home && h.home[i] == s && i < |insns| ::
         && i in ins && AgreeOn(w, insns[i].enc, AndNot(h.seen[s], processed))
         && Within(AndNot(h.seen[s], processed), insns[i].mask)
  }

  // From this slot no word gets stuck, and one that reaches a leaf agrees with its members.
  ghost predicate Decided(insns: seq<Insn>, h: Growth, ins: seq<nat>, processed: Word, slot: nat) {
    forall w: Word ::
      var r := Walk(h.table, slot, w, h.avail);
      !r.Stuck? && (r.Leaf? ==> Agrees(insns, h, ins, processed, w, r.slot))
  }

  // Whether a word reaches a leaf from this slot depends only on the bits decided from this slot on.
  ghost predicate Free(h: Growth, processed: Word, slot: nat) {
    forall w: Word, v: Word :: Follows(h, processed, slot, w, v)
  }

  ghost predicate Follows(h: Growth, processed: Word, slot: nat, w: Word, v: Word) {
    var r := Walk(h.table, slot, w, h.avail);
    r.Leaf? && r.slot in h.seen && AgreeOn(v, w, AndNot(h.seen[r.slot], processed)) ==>
      Walk(h.table, slot, v, h.avail) == r
  }

  // The bits decided on the way to a leaf are the ones already decided and those the walk looks at.
  ghost predicate Traced(h: Growth, processed: Word, slot: nat) {
    forall w: Word :: Traces(h, processed, slot, w)
  }

  ghost predicate Traces(h: Growth, processed: Word, slot: nat, w: Word) {
    var r := Walk(h.table, slot, w, h.avail);
    r.Leaf? && r.slot in h.seen ==> h.seen[r.slot] == Or(processed, Examined(h.table, slot, w, h.avail))
  }

  // ------------------------------------------------- decoding without a table

  // The mask decides only bits that were not decided before.
  ghost predicate Fresh(m: Word, processed: Word) { forall k | 0 <= k < 32 && m[k] :: !processed[k] }

  // Every instruction of the set fixes bit k.
  ghost predicate FixedIn(insns: seq<Insn>, c: set<nat>, k: nat)
    requires k < 32
  {
    forall i | i in c && i < |insns| :: insns[i].mask[k]
  }

  // The bits that all instructions of the set fix and that are not processed yet.
  ghost function Common(insns: seq<Insn>, c: set<nat>, processed: Word): Word {
    seq(32, k requires 0 <= k < 32 => !processed[k] && FixedIn(insns, c, k))
  }

  ghost predicate Several(c: set<nat>) { exists i, j :: i in c && j in c && i != j }

  // The instructions of the set that have the bits of the word under the mask.
  ghost function Agreeing(insns: seq<Insn>, c: set<nat>, m: Word, w: Word): set<nat> {
    set i | i in c && i < |insns| && AgreeOn(w, insns[i].enc, m)
  }

  ghost function Open(processed: Word): set<nat> { set k: nat | k < 32 && !processed[k] }

  lemma OpenShrinks(processed: Word, m: Word)
    requires m != Zero() && Fresh(m, processed)
    ensures Open(Or(processed, m)) < Open(processed)
  {
    var k :| 0 <= k < 32 && m[k] != Zero()[k];
    assert k in Open(processed) && k !in Open(Or(processed, m));
  }

  /** The instructions that are left for a word when, as long as there are several, those that disagree with it on
      the bits they all fix are dropped. */
  ghost function Candidates(insns: seq<Insn>, c: set<nat>, processed: Word, w: Word): set<nat>
    decreases Open(processed)
  {
    var m := Common(insns, c, processed);
    if !Several(c) || m == Zero() then c
    else
      OpenShrinks(processed, m);
      Candidates(insns, Agreeing(insns, c, m, w), Or(processed, m), w)
  }

  // The bits compared on the way.
  ghost function Compared(insns: seq<Insn>, c: set<nat>, processed: Word, w: Word): Word
    decreases Open(processed)
  {
    var m := Common(insns, c, processed);
    if !Several(c) || m == Zero() then Zero()
    else
      OpenShrinks(processed, m);
      Or(m, Compared(insns, Agreeing(insns, c, m, w), Or(processed, m), w))
  }

  ghost function MembersOf(h: Growth, s: nat): set<nat> { set i | i in h.home && h.home[i] == s }

  // From this slot every word ends at the leaf of its candidates, or nowhere if it has none, and the walk looks at
  // the bits compared.
  ghost predicate Mirrors(insns: seq<Insn>, h: Growth, c: set<nat>, processed: Word, slot: nat) {
    forall w: Word :: MirrorsAt(insns, h, c, processed, slot, w)
  }

  ghost predicate MirrorsAt(insns: seq<Insn>, h: Growth, c: set<nat>, processed: Word, slot: nat, w: Word) {
    var r := Walk(h.table, slot, w, h.avail);
    && (r.Leaf? ==> IsLeaf(h.table, r.slot))
    && Candidates(insns, c, processed, w) == (if r.Leaf? then MembersOf(h, r.slot) else {})
    && Compared(insns, c, processed, w) == Examined(h.table, slot, w, h.avail)
  }

  ghost predicate Ascending(s: seq<nat>) { forall i, j | 0 <= i < j < |s| :: s[i] < s[j] }

  // From this slot the walk is complete and sound for the listed instructions.
  ghost predicate BranchBuilt(insns: seq<Insn>, h: Growth, group: seq<nat>, processed: Word, slot: nat) {
    && Complete(insns, h, group, slot) && Decided(insns, h, group, processed, slot)
    && Free(h, processed, slot) && Traced(h, processed, slot)
    && Mirrors(insns, h, Elems(group), processed, slot)
  }

  /** What one call of the generator does: it fills its slot and every slot it reserves, gives each
      reserved slot one parent, places each listed instruction at one leaf, and from its slot the walk is
      complete and sound for them. */
  ghost predicate Built(insns: seq<Insn>, g: Growth, h: Growth, ins: seq<nat>, processed: Word, slot: nat) {
    && Inv(insns, h) && Extends(g, h)
    && Grew(g, h, {slot}, Elems(ins))
    && BranchBuilt(insns, h, ins, processed, slot)
  }

  ghost predicate Between(s: nat, a: nat, b: nat) { a <= s < b }

  ghost function Slots(a: nat, b: nat): set<nat> { set s: nat | s < b && Between(s, a, b) }

  ghost function Elems(s: seq<nat>): set<nat> { set x | x in s }

  // From g to h these slots and all newly reserved ones were filled, and these instructions placed.
  ghost predicate Grew(g: Growth, h: Growth, filled: set<nat>, placed: set<nat>) {
    && h.table.Keys == g.table.Keys + filled + Slots(g.avail, h.avail)
    && h.parent.Keys == g.parent.Keys + Slots(g.avail, h.avail)
    && h.home.Keys == g.home.Keys + placed
  }

  lemma SlotsJoin(a: nat, b: nat, c: nat)
    requires a <= b <= c
    ensures Slots(a, b) + Slots(b, c) == Slots(a, c)
  {
    assert forall s :: s in Slots(a, b) <==> Between(s, a, b);
    assert forall s :: s in Slots(b, c) <==> Between(s, b, c);
    assert forall s :: s in Slots(a, c) <==> Between(s, a, c);
  }

  lemma SlotsSmall(a: nat)
    ensures Slots(a, a) == {} && Slots(a, a + 1) == {a}
  {
    assert Between(a, a, a + 1);
  }

  lemma GrewTrans(g: Growth, h: Growth, k: Growth, s: set<nat>, t: set<nat>, m: set<nat>, n: set<nat>)
    requires g.avail <= h.avail <= k.avail && Grew(g, h, s, m) && Grew(h, k, t, n)
    ensures Grew(g, k, s + t, m + n)
  {
    SlotsJoin(g.avail, h.avail, k.avail);
  }

  // ------------------------------------------------------------------ growth

  // The walk does not change when the table only grows.
  lemma {:induction false} WalkGrows(t: Table, u: Table, slot: nat, w: Word, limit: nat, limit': nat)
    requires limit <= limit' && forall s | s in t :: s in u && u[s] == t[s]
    requires !Walk(t, slot, w, limit).Stuck?
    ensures Walk(u, slot, w, limit') == Walk(t, slot, w, limit)
    ensures Examined(u, slot, w, limit') == Examined(t, slot, w, limit)
    decreases limit - slot
  {
    if t[slot].mask != Zero() {
      var next := Next(t[slot].branches, Key(w, t[slot].mask));
      if next >= 0 { WalkGrows(t, u, next, w, limit, limit'); }
    }
  }

  lemma CompleteGrows(insns: seq<Insn>, g: Growth, h: Growth, ins: seq<nat>, slot: nat)
    requires Extends(g, h) && Complete(insns, g, ins, slot)
    ensures Complete(insns, h, ins, slot)
  {
    forall i: nat, w: Word | i in ins && i < |insns|
      ensures Arrives(insns, h, i, w, slot)
    {
      assert Arrives(insns, g, i, w, slot);
      if Matches(insns[i], w) { WalkGrows(g.table, h.table, slot, w, g.avail, h.avail); }
    }
  }

  lemma DecidedGrows(insns: seq<Insn>, g: Growth, h: Growth, ins: seq<nat>, processed: Word, slot: nat)
    requires Extends(g, h) && Decided(insns, g, ins, processed, slot)
    ensures Decided(insns, h, ins, processed, slot)
  {
    forall w: Word
      ensures Walk(h.table, slot, w, h.avail) == Walk(g.table, slot, w, g.avail)
    {
      WalkGrows(g.table, h.table, slot, w, g.avail, h.avail);
    }
    forall w: Word, s | Agrees(insns, g, ins, processed, w, s)
      ensures Agrees(insns, h, ins, processed, w, s)
    {}
  }

  lemma FreeGrows(insns: seq<Insn>, g: Growth, h: Growth, ins: seq<nat>, processed: Word, slot: nat)
    requires Extends(g, h) && Decided(insns, g, ins, processed, slot) && Free(g, processed, slot)
    ensures Free(h, processed, slot)
  {
    forall w: Word, v: Word
      ensures Follows(h, processed, slot, w, v)
    {
      var r := Walk(g.table, slot, w, g.avail);
      WalkGrows(g.table, h.table, slot, w, g.avail, h.avail);
      WalkGrows(g.table, h.table, slot, v, g.avail, h.avail);
      assert Follows(g, processed, slot, w, v);
      if r.Leaf? { assert Agrees(insns, g, ins, processed, w, r.slot); }
    }
  }

  lemma TracedGrows(insns: seq<Insn>, g: Growth, h: Growth, ins: seq<nat>, processed: Word, slot: nat)
    requires Extends(g, h) && Decided(insns, g, ins, processed, slot) && Traced(g, processed, slot)
    ensures Traced(h, processed, slot)
  {
    forall w: Word
      ensures Traces(h, processed, slot, w)
    {
      var r := Walk(g.table, slot, w, g.avail);
      WalkGrows(g.table, h.table, slot, w, g.avail, h.avail);
      assert Traces(g, processed, slot, w);
      if r.Leaf? { assert Agrees(insns, g, ins, processed, w, r.slot); }
    }
  }

  lemma MembersGrow(g: Growth, h: Growth, s: nat)
    requires Extends(g, h) && s in g.table
    ensures MembersOf(h, s) == MembersOf(g, s)
  {}

  lemma MirrorsGrows(insns: seq<Insn>, g: Growth, h: Growth, ins: seq<nat>, c: set<nat>, processed: Word, slot: nat)
    requires Extends(g, h) && Decided(insns, g, ins, processed, slot) && Mirrors(insns, g, c, processed, slot)
    ensures Mirrors(insns, h, c, processed, slot)
  {
    forall w: Word
      ensures MirrorsAt(insns, h, c, processed, slot, w)
    {
      var r := Walk(g.table, slot, w, g.avail);
      assert MirrorsAt(insns, g, c, processed, slot, w);
      WalkGrows(g.table, h.table, slot, w, g.avail, h.avail);
      if r.Leaf? { MembersGrow(g, h, r.slot); }
    }
  }

  lemma ExtendsTrans(g: Growth, h: Growth, k: Growth)
    requires Extends(g, h) && Extends(h, k)
    ensures Extends(g, k)
  {}

  // ------------------------------------------------------------------ leaves

  ghost function WithLeaf(g: Growth, slot: nat, index: nat, ins: seq<nat>, processed: Word): Growth {
    g.(table := g.table[slot := Entry(Zero(), [], index)],
       home := map i | i in g.home.Keys + Elems(ins) :: if i in ins then slot else g.home[i],
       seen := g.seen[slot := processed])
  }

  // The slot is reserved and empty, and none of the instructions is placed.
  ghost predicate Ready(insns: seq<Insn>, g: Growth, ins: seq<nat>, slot: nat) {
    && Inv(insns, g) && slot < g.avail && slot !in g.table
    && (forall i | i in ins :: i < |insns| && i !in g.home)
  }

  // Every bit fixed by all the listed instructions is in the mask.
  ghost predicate NothingLeft(insns: seq<Insn>, ins: seq<nat>, processed: Word) {
    forall k | 0 <= k < 32 && (forall i | i in ins && i < |insns| :: insns[i].mask[k]) :: processed[k]
  }

  lemma LeafHomes(g: Growth, slot: nat, index: nat, ins: seq<nat>, processed: Word)
    requires slot !in g.table
    requires forall i | i in g.home :: g.home[i] in g.table && i !in ins
    ensures var h := WithLeaf(g, slot, index, ins, processed);
            && (forall i | i in h.home :: h.home[i] == slot <==> i in ins)
            && (forall i :: i in h.home <==> i in g.home || i in ins)
            && (forall i | i in g.home :: h.home[i] == g.home[i])
  {}

  lemma LeafLeaves(insns: seq<Insn>, g: Growth, ins: seq<nat>, slot: nat, index: nat, processed: Word)
    requires slot !in g.table && LeavesOk(insns, g) && HomesOk(insns, g) && index in ins
    requires forall i | i in ins :: index < |insns| && i < |insns| && i !in g.home && !Before(insns, i, index)
    requires ins == [index] || NothingLeft(insns, ins, processed)
    ensures LeavesOk(insns, WithLeaf(g, slot, index, ins, processed))
  {
    var h := WithLeaf(g, slot, index, ins, processed);
    LeafHomes(g, slot, index, ins, processed);
    forall s | s in h.table && h.table[s].mask == Zero()
      ensures LeafOk(insns, h, s)
    {
      if s == slot {
        NewLeafOk(insns, h, ins, slot, index, processed);
      } else {
        assert LeafOk(insns, g, s);
        forall k | 0 <= k < 32 && FixedByAll(insns, h.home, s, k)
          ensures FixedByAll(insns, g.home, s, k)
        {}
      }
    }
  }

  lemma NewLeafOk(insns: seq<Insn>, h: Growth, ins: seq<nat>, slot: nat, index: nat, processed: Word)
    requires slot in h.table && h.table[slot] == Entry(Zero(), [], index) && slot in h.seen && h.seen[slot] == processed
    requires forall i | i in ins :: i in h.home
    requires forall i | i in h.home :: h.home[i] == slot <==> i in ins
    requires index in ins && forall i | i in ins :: index < |insns| && i < |insns| && !Before(insns, i, index)
    requires ins == [index] || NothingLeft(insns, ins, processed)
    ensures LeafOk(insns, h, slot)
  {
    if ins != [index] {
      forall k | 0 <= k < 32 && FixedByAll(insns, h.home, slot, k)
        ensures processed[k]
      {
        assert forall i | i in ins && i < |insns| :: insns[i].mask[k];
      }
    }
  }

  lemma LeafInv(insns: seq<Insn>, g: Growth, ins: seq<nat>, slot: nat, index: nat, processed: Word)
    requires Ready(insns, g, ins, slot)
    ensures var h := WithLeaf(g, slot, index, ins, processed);
            SlotsOk(h) && BranchesOk(h) && ParentsOk(h) && HomesOk(insns, h) && Extends(g, h)
  {
    var h := WithLeaf(g, slot, index, ins, processed);
    assert BranchesOk(h) by {
      forall s, k: nat | s in h.table && k < |h.table[s].branches|
        ensures BranchOk(h, s, k)
      {
        assert s != slot && BranchOk(g, s, k);
      }
    }
    assert ParentsOk(h) by {
      forall c | c in h.parent
        ensures ParentOk(h, c)
      {
        assert ParentOk(g, c);
      }
    }
  }

  lemma LeafBuilt(insns: seq<Insn>, g: Growth, ins: seq<nat>, slot: nat, index: nat, processed: Word)
    requires Ready(insns, g, ins, slot) && index in ins
    requires forall i | i in ins :: i < |insns| && !Before(insns, i, index)
    requires ins == [index] || NothingLeft(insns, ins, processed)
    ensures Built(insns, g, WithLeaf(g, slot, index, ins, processed), ins, processed, slot)
  {
    var h := WithLeaf(g, slot, index, ins, processed);
    LeafInv(insns, g, ins, slot, index, processed);
    LeafLeaves(insns, g, ins, slot, index, processed);
    LeafGrew(g, slot, index, ins, processed);
    LeafHomes(g, slot, index, ins, processed);
    LeafWalks(insns, h, ins, slot, processed);
  }

  lemma LeafGrew(g: Growth, slot: nat, index: nat, ins: seq<nat>, processed: Word)
    ensures Grew(g, WithLeaf(g, slot, index, ins, processed), {slot}, Elems(ins))
  {
    SlotsSmall(g.avail);
  }

  lemma LeafMirrors(insns: seq<Insn>, h: Growth, ins: seq<nat>, slot: nat, processed: Word)
    requires IsLeaf(h.table, slot) && slot < h.avail && (|ins| == 1 || NothingLeft(insns, ins, processed))
    requires (forall i | i in ins :: i in h.home) && forall i | i in h.home :: h.home[i] == slot <==> i in ins
    ensures Mirrors(insns, h, Elems(ins), processed, slot)
  {
    var c := Elems(ins);
    assert MembersOf(h, slot) == c;
    if |ins| == 1 {
      assert ins == [ins[0]] && !Several(c);
    } else {
      NothingLeftIs(insns, ins, processed);
    }
    forall w: Word
      ensures MirrorsAt(insns, h, c, processed, slot, w)
    {
      assert Walk(h.table, slot, w, h.avail) == Leaf(slot);
    }
  }

  lemma NothingLeftIs(insns: seq<Insn>, ins: seq<nat>, processed: Word)
    requires NothingLeft(insns, ins, processed)
    ensures Common(insns, Elems(ins), processed) == Zero()
  {
    forall k: nat | k < 32
      ensures !Common(insns, Elems(ins), processed)[k]
    {
      if FixedIn(insns, Elems(ins), k) {
        assert forall i | i in ins && i < |insns| :: insns[i].mask[k] by {
          assert forall i | i in ins :: i in Elems(ins);
        }
      }
    }
  }

  lemma LeafWalks(insns: seq<Insn>, h: Growth, ins: seq<nat>, slot: nat, processed: Word)
    requires IsLeaf(h.table, slot) && slot < h.avail && slot in h.seen && h.seen[slot] == processed
    requires (forall i | i in ins :: i in h.home) && forall i | i in h.home :: h.home[i] == slot <==> i in ins
    requires |ins| == 1 || NothingLeft(insns, ins, processed)
    ensures BranchBuilt(insns, h, ins, processed, slot)
  {
    LeafMirrors(insns, h, ins, slot, processed);
    assert forall w: Word :: Walk(h.table, slot, w, h.avail) == Leaf(slot);
    assert forall w: Word, v: Word :: Follows(h, processed, slot, w, v);
    assert forall w: Word :: Agrees(insns, h, ins, processed, w, slot);
    assert Or(processed, Zero()) == processed;
    assert forall w: Word :: Traces(h, processed, slot, w);
  }

  // --------------------------------------------------------------- decisions

  ghost function BranchList(pos: seq<nat>, a: nat): seq<(nat, nat)> {
    seq(|pos|, j requires 0 <= j < |pos| => (pos[j], a + j))
  }

  ghost function WithDecision(g: Growth, slot: nat, m: Word, pos: seq<nat>): Growth {
    g.(table := g.table[slot := Entry(m, BranchList(pos, g.avail), -1)],
       avail := g.avail + |pos|,
       parent := map c | c in g.parent.Keys + Slots(g.avail, g.avail + |pos|) ::
         if c >= g.avail then (slot, c - g.avail) else g.parent[c])
  }

  lemma DecisionInv(insns: seq<Insn>, g: Growth, slot: nat, m: Word, pos: seq<nat>)
    requires Inv(insns, g) && slot < g.avail && slot !in g.table && m != Zero()
    ensures Inv(insns, WithDecision(g, slot, m, pos)) && Extends(g, WithDecision(g, slot, m, pos))
  {
    var h := WithDecision(g, slot, m, pos);
    assert LeavesOk(insns, h) by {
      forall s | s in h.table && h.table[s].mask == Zero()
        ensures LeafOk(insns, h, s)
      {
        assert LeafOk(insns, g, s);
      }
    }
    assert forall c | c in g.parent :: ParentOk(g, c);
    DecisionLinks(g, slot, m, pos);
  }

  lemma DecisionLinks(g: Growth, slot: nat, m: Word, pos: seq<nat>)
    requires BranchesOk(g) && ParentsOk(g) && slot < g.avail && slot !in g.table
    ensures var h := WithDecision(g, slot, m, pos); BranchesOk(h) && ParentsOk(h)
  {
    var h := WithDecision(g, slot, m, pos);
    forall s, k: nat | s in h.table && k < |h.table[s].branches|
      ensures BranchOk(h, s, k)
    {
      if s != slot {
        assert BranchOk(g, s, k);
      } else {
        assert Between(g.avail + k, g.avail, g.avail + |pos|);
      }
    }
    forall c | c in h.parent
      ensures ParentOk(h, c)
    {
      if c < g.avail { assert ParentOk(g, c); }
    }
  }

  /** The instructions of one list by branch: group j holds those whose key under the mask is pos[j]. */
  ghost predicate Grouped(insns: seq<Insn>, ins: seq<nat>, m: Word, groups: seq<seq<nat>>, pos: seq<nat>) {
    GroupsOk(insns, ins, m, groups, pos) && forall i | i in ins :: exists j :: 0 <= j < |groups| && i in groups[j]
  }

  ghost predicate GroupsOk(insns: seq<Insn>, ins: seq<nat>, m: Word, groups: seq<seq<nat>>, pos: seq<nat>) {
    && |groups| == |pos|
    && (forall j, k | 0 <= j < k < |pos| :: pos[j] < pos[k])
    && (forall j | 0 <= j < |groups| :: GroupOk(insns, ins, m, groups[j], pos[j]))
  }

  ghost predicate GroupOk(insns: seq<Insn>, ins: seq<nat>, m: Word, group: seq<nat>, key: nat) {
    && group != [] && Ascending(group)
    && forall i | i in group :: i in ins && i < |insns| && Key(insns[i].enc, m) == key
  }

  ghost function Members(groups: seq<seq<nat>>, n: nat): set<nat>
    requires n <= |groups|
  {
    if n == 0 then {} else Members(groups, n - 1) + Elems(groups[n - 1])
  }

  // Every bit of the mask is fixed in every listed instruction.
  ghost predicate FixedInAll(insns: seq<Insn>, ins: seq<nat>, m: Word) {
    forall i, k | i in ins && i < |insns| && 0 <= k < 32 && m[k] :: insns[i].mask[k]
  }

  // The first n branches of a decision at slots a, a+1, ... have been built on g.
  ghost predicate Partial(insns: seq<Insn>, g: Growth, h: Growth, groups: seq<seq<nat>>, n: nat, processed: Word,
                          a: nat)
    requires n <= |groups|
  {
    && Inv(insns, h) && Extends(g, h)
    && Grew(g, h, Slots(a, a + n), Members(groups, n))
    && AllBuilt(insns, h, groups, n, processed, a)
  }

  ghost predicate AllBuilt(insns: seq<Insn>, h: Growth, groups: seq<seq<nat>>, n: nat, processed: Word, a: nat)
    requires n <= |groups|
  {
    forall j | 0 <= j < n :: BranchBuilt(insns, h, groups[j], processed, a + j)
  }

  lemma BranchGrows(insns: seq<Insn>, g: Growth, h: Growth, group: seq<nat>, processed: Word, slot: nat)
    requires Extends(g, h) && BranchBuilt(insns, g, group, processed, slot)
    ensures BranchBuilt(insns, h, group, processed, slot)
  {
    CompleteGrows(insns, g, h, group, slot);
    DecidedGrows(insns, g, h, group, processed, slot);
    FreeGrows(insns, g, h, group, processed, slot);
    TracedGrows(insns, g, h, group, processed, slot);
    MirrorsGrows(insns, g, h, group, Elems(group), processed, slot);
  }

  lemma PartialStep(insns: seq<Insn>, g: Growth, h: Growth, k: Growth, groups: seq<seq<nat>>, n: nat,
                    processed: Word, a: nat, group: seq<nat>, slot: nat)
    requires n < |groups| && group == groups[n] && slot == a + n
    requires Partial(insns, g, h, groups, n, processed, a)
    requires Built(insns, h, k, group, processed, slot)
    ensures Partial(insns, g, k, groups, n + 1, processed, a)
  {
    ExtendsTrans(g, h, k);
    StepGrew(g, h, k, groups, n, a);
    BranchesGrow(insns, h, k, groups, n, processed, a, group, slot);
  }

  lemma StepGrew(g: Growth, h: Growth, k: Growth, groups: seq<seq<nat>>, n: nat, a: nat)
    requires n < |groups| && g.avail <= h.avail <= k.avail
    requires Grew(g, h, Slots(a, a + n), Members(groups, n)) && Grew(h, k, {a + n}, Elems(groups[n]))
    ensures Grew(g, k, Slots(a, a + n + 1), Members(groups, n + 1))
  {
    GrewTrans(g, h, k, Slots(a, a + n), {a + n}, Members(groups, n), Elems(groups[n]));
    SlotsJoin(a, a + n, a + n + 1);
    SlotsSmall(a + n);
  }

  lemma BranchesGrow(insns: seq<Insn>, h: Growth, k: Growth, groups: seq<seq<nat>>, n: nat, processed: Word, a: nat,
                     group: seq<nat>, slot: nat)
    requires n < |groups| && group == groups[n] && slot == a + n
    requires Extends(h, k) && BranchBuilt(insns, k, group, processed, slot)
    requires AllBuilt(insns, h, groups, n, processed, a)
    ensures AllBuilt(insns, k, groups, n + 1, processed, a)
  {
    forall j | 0 <= j < n
      ensures BranchBuilt(insns, k, groups[j], processed, a + j)
    {
      BranchGrows(insns, h, k, groups[j], processed, a + j);
    }
  }

  lemma {:induction false} NextIs(pos: seq<nat>, a: nat, from: nat, key: nat)
    requires from <= |pos| && forall j, k | 0 <= j < k < |pos| :: pos[j] < pos[k]
    ensures forall j | from <= j < |pos| && pos[j] == key :: Next(BranchList(pos, a)[from..], key) == a + j
    ensures (forall j | from <= j < |pos| :: pos[j] != key) ==> Next(BranchList(pos, a)[from..], key) == -1
    decreases |pos| - from
  {
    var bs := BranchList(pos, a);
    if from < |pos| {
      assert bs[from..][0] == (pos[from], a + from) && bs[from..][1..] == bs[from + 1..];
      NextIs(pos, a, from + 1, key);
    }
  }

  // One step of the walk from a decision.
  lemma WalkFromDecision(h: Growth, slot: nat, m: Word, pos: seq<nat>, a: nat, w: Word)
    requires slot in h.table && slot < a && a + |pos| <= h.avail && m != Zero()
    requires h.table[slot] == Entry(m, BranchList(pos, a), -1)
    requires forall j, k | 0 <= j < k < |pos| :: pos[j] < pos[k]
    ensures forall j | 0 <= j < |pos| && pos[j] == Key(w, m) ::
              && Walk(h.table, slot, w, h.avail) == Walk(h.table, a + j, w, h.avail)
              && Examined(h.table, slot, w, h.avail) == Or(m, Examined(h.table, a + j, w, h.avail))
    ensures (forall j | 0 <= j < |pos| :: pos[j] != Key(w, m)) ==>
              Walk(h.table, slot, w, h.avail) == NoBranch && Examined(h.table, slot, w, h.avail) == m
  {
    NextIs(pos, a, 0, Key(w, m));
    assert BranchList(pos, a)[0..] == BranchList(pos, a);
  }

  lemma CompleteFromGroups(insns: seq<Insn>, h: Growth, ins: seq<nat>, slot: nat, m: Word, groups: seq<seq<nat>>,
                           pos: seq<nat>, a: nat, processed: Word)
    requires slot in h.table && slot < a && a + |pos| <= h.avail && m != Zero()
    requires h.table[slot] == Entry(m, BranchList(pos, a), -1)
    requires Grouped(insns, ins, m, groups, pos)
    requires FixedInAll(insns, ins, m)
    requires AllBuilt(insns, h, groups, |groups|, processed, a)
    ensures Complete(insns, h, ins, slot)
  {
    forall i: nat, w: Word | i in ins && i < |insns|
      ensures Arrives(insns, h, i, w, slot)
    {
      if Matches(insns[i], w) {
        var j :| 0 <= j < |groups| && i in groups[j];
        assert AgreeOn(w, insns[i].enc, m);
        KeyEqualIffAgree(w, insns[i].enc, m);
        WalkFromDecision(h, slot, m, pos, a, w);
        assert BranchBuilt(insns, h, groups[j], processed, a + j);
        assert Arrives(insns, h, i, w, a + j);
      }
    }
  }

  lemma DecidedFromGroups(insns: seq<Insn>, h: Growth, ins: seq<nat>, slot: nat, m: Word, groups: seq<seq<nat>>,
                          pos: seq<nat>, a: nat, processed: Word)
    requires slot in h.table && slot < a && a + |pos| <= h.avail && m != Zero()
    requires h.table[slot] == Entry(m, BranchList(pos, a), -1)
    requires Grouped(insns, ins, m, groups, pos) && FixedInAll(insns, ins, m)
    requires AllBuilt(insns, h, groups, |groups|, Or(processed, m), a)
    ensures Decided(insns, h, ins, processed, slot)
  {
    forall w: Word
      ensures var r := Walk(h.table, slot, w, h.avail);
              !r.Stuck? && (r.Leaf? ==> Agrees(insns, h, ins, processed, w, r.slot))
    {
      WalkFromDecision(h, slot, m, pos, a, w);
      if j :| 0 <= j < |pos| && pos[j] == Key(w, m) {
        var r := Walk(h.table, slot, w, h.avail);
        assert r == Walk(h.table, a + j, w, h.avail) && BranchBuilt(insns, h, groups[j], Or(processed, m), a + j);
        if r.Leaf? {
          AgreesWider(insns, h, ins, groups[j], processed, m, w, r.slot, pos[j]);
        }
      }
    }
  }

  lemma AgreesWider(insns: seq<Insn>, h: Growth, ins: seq<nat>, group: seq<nat>, processed: Word, m: Word, w: Word,
                    s: nat, key: nat)
    requires Agrees(insns, h, group, Or(processed, m), w, s) && Key(w, m) == key
    requires forall i | i in group :: i in ins && i < |insns| && Key(insns[i].enc, m) == key
    requires FixedInAll(insns, ins, m)
    ensures Agrees(insns, h, ins, processed, w, s)
  {
    forall i | i in h.home && h.home[i] == s && i < |insns|
      ensures i in ins && AgreeOn(w, insns[i].enc, AndNot(h.seen[s], processed))
      ensures Within(AndNot(h.seen[s], processed), insns[i].mask)
    {
      KeyEqualIffAgree(w, insns[i].enc, m);
      assert AgreeOn(w, insns[i].enc, AndNot(h.seen[s], Or(processed, m)));
      forall k | 0 <= k < 32 && AndNot(h.seen[s], processed)[k]
        ensures w[k] == insns[i].enc[k] && insns[i].mask[k]
      {
        if !m[k] { assert AndNot(h.seen[s], Or(processed, m))[k]; }
      }
    }
  }

  lemma {:induction false} MembersIs(groups: seq<seq<nat>>, n: nat)
    requires n <= |groups|
    ensures forall x :: x in Members(groups, n) <==> exists j :: 0 <= j < n && x in groups[j]
  {
    if n > 0 {
      MembersIs(groups, n - 1);
      var last := groups[n - 1];
      assert forall x :: x in Elems(last) <==> x in last;
    }
  }

  lemma MembersAll(insns: seq<Insn>, ins: seq<nat>, m: Word, groups: seq<seq<nat>>, pos: seq<nat>)
    requires Grouped(insns, ins, m, groups, pos)
    ensures Members(groups, |groups|) == Elems(ins)
  {
    MembersIs(groups, |groups|);
  }

  /** A decision whose branches have all been built is itself built. */
  lemma DecisionBuilt(insns: seq<Insn>, g: Growth, d: Growth, h: Growth, ins: seq<nat>, slot: nat, m: Word,
                      groups: seq<seq<nat>>, pos: seq<nat>, processed: Word, m': Word, a: nat)
    requires d == WithDecision(g, slot, m, pos) && m' == Or(processed, m) && a == g.avail
    requires Inv(insns, g) && slot < g.avail && slot !in g.table && m != Zero()
    requires Grouped(insns, ins, m, groups, pos)
    requires Several(Elems(ins)) && m == Common(insns, Elems(ins), processed)
    requires Partial(insns, d, h, groups, |groups|, m', a)
    ensures Built(insns, g, h, ins, processed, slot)
  {
    DecisionFrame(insns, g, h, slot, m, groups, pos, Or(processed, m));
    MembersAll(insns, ins, m, groups, pos);
    CommonIs(insns, ins, m, processed);
    DecisionWalks(insns, h, ins, slot, m, groups, pos, g.avail, processed);
  }

  lemma DecisionFrame(insns: seq<Insn>, g: Growth, h: Growth, slot: nat, m: Word, groups: seq<seq<nat>>,
                      pos: seq<nat>, processed: Word)
    requires Inv(insns, g) && slot < g.avail && slot !in g.table && m != Zero() && |groups| == |pos|
    requires Partial(insns, WithDecision(g, slot, m, pos), h, groups, |groups|, processed, g.avail)
    ensures Extends(g, h) && Grew(g, h, {slot}, Members(groups, |groups|)) && g.avail + |pos| <= h.avail
    ensures slot in h.table && h.table[slot] == Entry(m, BranchList(pos, g.avail), -1)
  {
    var d := WithDecision(g, slot, m, pos);
    DecisionInv(insns, g, slot, m, pos);
    DecisionKept(g, d, h, slot, m, pos);
    DecisionGrew(g, d, h, slot, m, pos, |groups|, Members(groups, |groups|));
  }

  lemma DecisionKept(g: Growth, d: Growth, h: Growth, slot: nat, m: Word, pos: seq<nat>)
    requires d == WithDecision(g, slot, m, pos) && Extends(g, d) && Extends(d, h)
    ensures Extends(g, h) && g.avail + |pos| <= h.avail
    ensures slot in h.table && h.table[slot] == Entry(m, BranchList(pos, g.avail), -1)
  {
    assert slot in d.table;
  }

  lemma DecisionGrew(g: Growth, d: Growth, h: Growth, slot: nat, m: Word, pos: seq<nat>, n: nat, placed: set<nat>)
    requires d == WithDecision(g, slot, m, pos) && n == |pos| && d.avail <= h.avail
    requires Grew(d, h, Slots(g.avail, g.avail + n), placed)
    ensures Grew(g, h, {slot}, placed)
  {
    SlotsJoin(g.avail, d.avail, h.avail);
    assert d.table.Keys == g.table.Keys + {slot};
    assert d.parent.Keys == g.parent.Keys + Slots(g.avail, d.avail);
  }

  lemma DecisionWalks(insns: seq<Insn>, h: Growth, ins: seq<nat>, slot: nat, m: Word, groups: seq<seq<nat>>,
                      pos: seq<nat>, a: nat, processed: Word)
    requires slot in h.table && slot < a && a + |pos| <= h.avail && m != Zero()
    requires h.table[slot] == Entry(m, BranchList(pos, a), -1)
    requires Grouped(insns, ins, m, groups, pos)
    requires FixedInAll(insns, ins, m) && Fresh(m, processed)
    requires Several(Elems(ins)) && m == Common(insns, Elems(ins), processed)
    requires AllBuilt(insns, h, groups, |groups|, Or(processed, m), a)
    ensures BranchBuilt(insns, h, ins, processed, slot)
  {
    CompleteFromGroups(insns, h, ins, slot, m, groups, pos, a, Or(processed, m));
    DecidedFromGroups(insns, h, ins, slot, m, groups, pos, a, processed);
    FreeFromGroups(insns, h, ins, slot, m, groups, pos, a, processed);
    TracedFromGroups(insns, h, ins, slot, m, groups, pos, a, processed);
    MirrorsFromGroups(insns, h, ins, slot, m, groups, pos, a, processed);
  }

  lemma CommonIs(insns: seq<Insn>, ins: seq<nat>, m: Word, processed: Word)
    requires m == Common(insns, Elems(ins), processed)
    ensures FixedInAll(insns, ins, m) && Fresh(m, processed)
  {
    forall i, k | i in ins && i < |insns| && 0 <= k < 32 && m[k]
      ensures insns[i].mask[k]
    {
      assert FixedIn(insns, Elems(ins), k) && i in Elems(ins);
    }
  }

  // The group of a word's key holds the listed instructions that agree with it; without a group there is none.
  lemma GroupAgrees(insns: seq<Insn>, ins: seq<nat>, m: Word, groups: seq<seq<nat>>, pos: seq<nat>, w: Word)
    requires Grouped(insns, ins, m, groups, pos)
    ensures forall j | 0 <= j < |pos| && pos[j] == Key(w, m) ::
              Agreeing(insns, Elems(ins), m, w) == Elems(groups[j])
    ensures (forall j | 0 <= j < |pos| :: pos[j] != Key(w, m)) ==> Agreeing(insns, Elems(ins), m, w) == {}
  {
    forall i, j | 0 <= j < |groups| && i in groups[j]
      ensures i in ins && i < |insns| && (AgreeOn(w, insns[i].enc, m) <==> pos[j] == Key(w, m))
    {
      assert GroupOk(insns, ins, m, groups[j], pos[j]);
      KeyEqualIffAgree(w, insns[i].enc, m);
    }
    forall i | i in Agreeing(insns, Elems(ins), m, w)
      ensures exists j :: 0 <= j < |groups| && i in groups[j] && pos[j] == Key(w, m)
    {
      var j :| 0 <= j < |groups| && i in groups[j];
    }
  }

  // One comparison of the word with all candidates.
  lemma CandidatesStep(insns: seq<Insn>, c: set<nat>, processed: Word, m: Word, w: Word, c': set<nat>)
    requires Several(c) && m == Common(insns, c, processed) && m != Zero() && c' == Agreeing(insns, c, m, w)
    ensures Candidates(insns, c, processed, w) == Candidates(insns, c', Or(processed, m), w)
    ensures Compared(insns, c, processed, w) == Or(m, Compared(insns, c', Or(processed, m), w))
  {}

  lemma MirrorsFromGroups(insns: seq<Insn>, h: Growth, ins: seq<nat>, slot: nat, m: Word, groups: seq<seq<nat>>,
                          pos: seq<nat>, a: nat, processed: Word)
    requires slot in h.table && slot < a && a + |pos| <= h.avail && m != Zero()
    requires h.table[slot] == Entry(m, BranchList(pos, a), -1)
    requires Grouped(insns, ins, m, groups, pos)
    requires Several(Elems(ins)) && m == Common(insns, Elems(ins), processed)
    requires AllBuilt(insns, h, groups, |groups|, Or(processed, m), a)
    ensures Mirrors(insns, h, Elems(ins), processed, slot)
  {
    forall w: Word
      ensures MirrorsAt(insns, h, Elems(ins), processed, slot, w)
    {
      WalkFromDecision(h, slot, m, pos, a, w);
      GroupAgrees(insns, ins, m, groups, pos, w);
      if j :| 0 <= j < |pos| && pos[j] == Key(w, m) {
        assert BranchBuilt(insns, h, groups[j], Or(processed, m), a + j);
        MirrorsBranch(insns, h, Elems(ins), Elems(groups[j]), slot, m, processed, a + j, w);
      } else {
        MirrorsNothing(insns, h, Elems(ins), slot, m, processed, w);
      }
    }
  }

  lemma MirrorsBranch(insns: seq<Insn>, h: Growth, c: set<nat>, c': set<nat>, slot: nat, m: Word, processed: Word,
                      branch: nat, w: Word)
    requires Several(c) && m == Common(insns, c, processed) && m != Zero() && c' == Agreeing(insns, c, m, w)
    requires Walk(h.table, slot, w, h.avail) == Walk(h.table, branch, w, h.avail)
    requires Examined(h.table, slot, w, h.avail) == Or(m, Examined(h.table, branch, w, h.avail))
    requires Mirrors(insns, h, c', Or(processed, m), branch)
    ensures MirrorsAt(insns, h, c, processed, slot, w)
  {
    CandidatesStep(insns, c, processed, m, w, c');
    assert MirrorsAt(insns, h, c', Or(processed, m), branch, w);
  }

  lemma MirrorsNothing(insns: seq<Insn>, h: Growth, c: set<nat>, slot: nat, m: Word, processed: Word, w: Word)
    requires Several(c) && m == Common(insns, c, processed) && m != Zero() && Agreeing(insns, c, m, w) == {}
    requires Walk(h.table, slot, w, h.avail) == NoBranch && Examined(h.table, slot, w, h.avail) == m
    ensures MirrorsAt(insns, h, c, processed, slot, w)
  {
    CandidatesStep(insns, c, processed, m, w, {});
    NoneAgree(insns, Or(processed, m), w);
    assert Or(m, Zero()) == m;
  }

  lemma NoneAgree(insns: seq<Insn>, processed: Word, w: Word)
    ensures Candidates(insns, {}, processed, w) == {} && Compared(insns, {}, processed, w) == Zero()
  {}

  lemma TracedFromGroups(insns: seq<Insn>, h: Growth, ins: seq<nat>, slot: nat, m: Word, groups: seq<seq<nat>>,
                         pos: seq<nat>, a: nat, processed: Word)
    requires slot in h.table && slot < a && a + |pos| <= h.avail && m != Zero()
    requires h.table[slot] == Entry(m, BranchList(pos, a), -1)
    requires GroupsOk(insns, ins, m, groups, pos)
    requires AllBuilt(insns, h, groups, |groups|, Or(processed, m), a)
    ensures Traced(h, processed, slot)
  {
    forall w: Word
      ensures Traces(h, processed, slot, w)
    {
      WalkFromDecision(h, slot, m, pos, a, w);
      if j :| 0 <= j < |pos| && pos[j] == Key(w, m) {
        assert BranchBuilt(insns, h, groups[j], Or(processed, m), a + j);
        assert Traces(h, Or(processed, m), a + j, w);
        OrRegroups(processed, m, Examined(h.table, a + j, w, h.avail));
      }
    }
  }

  lemma OrRegroups(a: Word, b: Word, c: Word)
    ensures Or(Or(a, b), c) == Or(a, Or(b, c))
  {}

  lemma FreeFromGroups(insns: seq<Insn>, h: Growth, ins: seq<nat>, slot: nat, m: Word, groups: seq<seq<nat>>,
                       pos: seq<nat>, a: nat, processed: Word)
    requires slot in h.table && slot < a && a + |pos| <= h.avail && m != Zero() && Fresh(m, processed)
    requires h.table[slot] == Entry(m, BranchList(pos, a), -1)
    requires GroupsOk(insns, ins, m, groups, pos)
    requires AllBuilt(insns, h, groups, |groups|, Or(processed, m), a)
    ensures Free(h, processed, slot)
  {
    forall w: Word, v: Word
      ensures Follows(h, processed, slot, w, v)
    {
      WalkFromDecision(h, slot, m, pos, a, w);
      WalkFromDecision(h, slot, m, pos, a, v);
      if j :| 0 <= j < |pos| && pos[j] == Key(w, m) {
        var r := Walk(h.table, a + j, w, h.avail);
        assert BranchBuilt(insns, h, groups[j], Or(processed, m), a + j);
        if r.Leaf? && r.slot in h.seen && AgreeOn(v, w, AndNot(h.seen[r.slot], processed)) {
          assert Agrees(insns, h, groups[j], Or(processed, m), w, r.slot);
          NarrowAgree(v, w, h.seen[r.slot], processed, m);
          KeyEqualIffAgree(v, w, m);
          assert Follows(h, Or(processed, m), a + j, w, v);
        }
      }
    }
  }

  lemma NarrowAgree(v: Word, w: Word, seen: Word, processed: Word, m: Word)
    requires AgreeOn(v, w, AndNot(seen, processed)) && Fresh(m, processed) && Within(Or(processed, m), seen)
    ensures AgreeOn(v, w, m) && AgreeOn(v, w, AndNot(seen, Or(processed, m)))
  {
    forall k | 0 <= k < 32 && m[k]
      ensures v[k] == w[k]
    {
      assert Or(processed, m)[k] && AndNot(seen, processed)[k];
    }
    forall k | 0 <= k < 32 && AndNot(seen, Or(processed, m))[k]
      ensures v[k] == w[k]
    {
      assert AndNot(seen, processed)[k];
    }
  }
}
