/**
 The generated AArch64 decoder table as the decoder uses it: the lookup of
 InstructionDecoder-aarch64.C (findInsnTableIndex) over the table written by the
 generator's main program (aarch64_manual_parser.py, lines 795-806).
 */
module DecodeLookup {
  import opened DecodeWords
  import opened DecodeTable
  import opened DecodeGenerator

  ghost function Blank(): Growth { Growth(map[], 1, map[], map[], map[]) }

  ghost function All(n: nat): seq<nat> { seq(n, i => i) }

  // The table that the generator writes for these instructions.
  ghost predicate Generated(insns: seq<Insn>, g: Growth) {
    insns != [] && Built(insns, Blank(), g, All(|insns|), Zero(), 0)
  }

  lemma BlankReady(insns: seq<Insn>)
    ensures Ready(insns, Blank(), All(|insns|), 0) && Ascending(All(|insns|))
    ensures Need(|insns|, Left(Zero())) == 32 * |insns|
  {
    OnesZero(Zero());
    NeedIs(|insns|, 32);
  }

  // A slot beyond the limit is reserved but never written.
  lemma BuiltOnlyWithin(insns: seq<Insn>, g: Growth)
    requires Generated(insns, g) && forall s | s in g.table :: s <= SLOT_LIMIT
    ensures g.avail <= SLOT_LIMIT + 1
  {
    assert Grew(Blank(), g, {0}, Elems(All(|insns|)));
    if 1 < g.avail {
      assert Between(g.avail - 1, 1, g.avail) && g.avail - 1 in Slots(1, g.avail);
    }
  }

  /** The generator on any instruction array: the table is the specified one exactly when every slot passes the
      guard, which up to 2^27 instructions always do; then every instruction is counted once, and every slot is
      one node. */
  method Generate(insns: seq<Insn>) returns (gen: Generator)
    ensures fresh(gen) && gen.insns == insns && gen.entryAvailable <= 1 + 32 * |insns|
    ensures insns != [] ==> (Generated(insns, gen.State()) <==> gen.entryAvailable <= SLOT_LIMIT + 1)
    ensures |insns| <= 0x800_0000 ==> gen.entryAvailable <= SLOT_LIMIT + 1
    ensures insns != [] && gen.entryAvailable <= SLOT_LIMIT + 1 ==> gen.numNodes == gen.entryAvailable
    ensures gen.entryAvailable <= SLOT_LIMIT + 1 ==>
              gen.numOfLeafNodes == |insns| && gen.processedIndex == Elems(All(|insns|))
  {
    gen := new Generator(insns);
    var validInsnIndex := seq(|insns|, i => i);
    assert validInsnIndex == All(|insns|);
    BlankReady(insns);
    gen.BuildDecodeTable(validInsnIndex, Zero(), 0);
    if Generated(insns, gen.State()) { BuiltOnlyWithin(insns, gen.State()); }
  }

  // The instruction index that a walk yields: 0 when a key has no branch (line 3076).
  function Decoded(t: Table, r: Lookup): int { if r.Leaf? && r.slot in t then t[r.slot].index else 0 }

  lemma {:induction false} WalkEnds(t: Table, slot: nat, w: Word, limit: nat)
    ensures var r := Walk(t, slot, w, limit); r.Leaf? ==> r.slot in t && t[r.slot].mask == Zero()
    decreases limit - slot
  {
    if slot in t && slot < limit && t[slot].mask != Zero() {
      var next := Next(t[slot].branches, Key(w, t[slot].mask));
      if slot < next { WalkEnds(t, next, w, limit); }
    }
  }

  /** findInsnTableIndex (lines 3053-3081) */
  method FindInsnTableIndex(table: Table, slot: nat, insn: Word, ghost limit: nat) returns (index: int)
    requires !Walk(table, slot, insn, limit).Stuck?
    ensures index == Decoded(table, Walk(table, slot, insn, limit))
    decreases limit - slot
  {
    WalkEnds(table, slot, insn, limit);
    var curEntry := table[slot];
    if curEntry.mask == Zero() {
      return curEntry.index;
    }
    var branchMapKey := BranchMapKey(insn, curEntry.mask);
    var next := Next(curEntry.branches, branchMapKey);
    if next < 0 {
      return 0;
    }
    index := FindInsnTableIndex(table, next, insn, limit);
  }

  // ---------------------------------------------------------------- theorems

  // What findInsnTableIndex returns for a word from slot 0 of the generated table.
  ghost function Returned(g: Growth, w: Word): int { Decoded(g.table, Walk(g.table, 0, w, g.avail)) }

  // The bits the decoder looks at for a word.
  ghost function LooksAt(g: Growth, w: Word): Word { Examined(g.table, 0, w, g.avail) }

  ghost predicate Reaches(g: Growth, w: Word, s: nat) { Walk(g.table, 0, w, g.avail) == Leaf(s) }

  // Instructions i and j are at one leaf.
  ghost predicate Together(g: Growth, i: nat, j: nat) { i in g.home && j in g.home && g.home[i] == g.home[j] }

  /** Decoding never gets lost: every word ends at a leaf or at a key without a branch. */
  lemma NeverStuck(insns: seq<Insn>, g: Growth, w: Word)
    requires Generated(insns, g)
    ensures !Walk(g.table, 0, w, g.avail).Stuck?
  {
    assert Decided(insns, g, All(|insns|), Zero(), 0);
  }

  /** A word that matches instruction i is decoded at i's leaf, to the member of that leaf with the fewest fixed
      bits, the first of equals, and to i itself when the leaf is i's alone. */
  lemma MatchIsDecoded(insns: seq<Insn>, g: Growth, i: nat, w: Word)
    requires Generated(insns, g) && i < |insns| && Matches(insns[i], w)
    ensures i in g.home && Walk(g.table, 0, w, g.avail) == Leaf(g.home[i]) && g.home[i] in g.table
    ensures var r := Decoded(g.table, Walk(g.table, 0, w, g.avail));
            && 0 <= r < |insns| && r in g.home && g.home[r] == g.home[i]
            && (forall j | j in g.home && g.home[j] == g.home[i] && j < |insns| :: !Before(insns, j, r))
            && ((forall j | j in g.home && g.home[j] == g.home[i] :: j == i) ==> r == i)
  {
    assert All(|insns|)[i] == i;
    assert Complete(insns, g, All(|insns|), 0) && Arrives(insns, g, i, w, 0);
    assert HomesOk(insns, g) && IsLeaf(g.table, g.home[i]) && LeafOk(insns, g, g.home[i]);
  }

  /** Instructions that one word can match share a leaf. */
  lemma OverlapsShareLeaf(insns: seq<Insn>, g: Growth, i: nat, j: nat, w: Word)
    requires Generated(insns, g) && i < |insns| && j < |insns| && Matches(insns[i], w) && Matches(insns[j], w)
    ensures Together(g, i, j)
  {
    MatchIsDecoded(insns, g, i, w);
    MatchIsDecoded(insns, g, j, w);
  }

  /** A word decoded at a leaf of several instructions has every bit that all of them fix. */
  lemma AliasesAgree(insns: seq<Insn>, g: Growth, w: Word, i: nat, j: nat, k: nat)
    requires Generated(insns, g) && i != j && Together(g, i, j) && Reaches(g, w, g.home[i])
    requires k < 32 && FixedByAll(insns, g.home, g.home[i], k)
    ensures i < |insns| && w[k] == insns[i].enc[k]
  {
    var s := g.home[i];
    assert HomesOk(insns, g) && IsLeaf(g.table, s) && LeafOk(insns, g, s);
    LeafAgrees(insns, g, s, w, i);
  }

  // Of two members of a leaf one is kept before the other.
  lemma BeforeTotal(insns: seq<Insn>, i: nat, j: nat)
    requires i < |insns| && j < |insns|
    ensures i != j ==> (Before(insns, i, j) <==> !Before(insns, j, i))
  {
  }

  // No instruction at the leaf of i has fewer fixed bits, or as many and a smaller index.
  ghost predicate FirstAtLeaf(insns: seq<Insn>, g: Growth, i: nat)
    requires i < |insns| && i in g.home
  {
    forall j | j in g.home && j < |insns| && g.home[j] == g.home[i] :: !Before(insns, j, i)
  }

  lemma NamedIffFirst(insns: seq<Insn>, g: Growth, i: nat)
    requires Generated(insns, g) && i < |insns| && i in g.home && g.home[i] in g.table
    ensures g.table[g.home[i]].index == i <==> FirstAtLeaf(insns, g, i)
  {
    assert HomesOk(insns, g) && IsLeaf(g.table, g.home[i]) && LeafOk(insns, g, g.home[i]);
    var r := g.table[g.home[i]].index;
    if FirstAtLeaf(insns, g, i) {
      assert !Before(insns, r, i) && !Before(insns, i, r);
      BeforeTotal(insns, i, r);
    }
  }

  lemma LeafAgrees(insns: seq<Insn>, g: Growth, s: nat, w: Word, i: nat)
    requires Generated(insns, g) && Reaches(g, w, s) && s in g.seen
    requires i < |insns| && i in g.home && g.home[i] == s
    ensures AgreeOn(w, insns[i].enc, g.seen[s]) && Within(g.seen[s], insns[i].mask)
  {
    assert Decided(insns, g, All(|insns|), Zero(), 0);
    assert Agrees(insns, g, All(|insns|), Zero(), w, s);
    forall k | 0 <= k < 32 && g.seen[s][k]
      ensures w[k] == insns[i].enc[k] && insns[i].mask[k]
    {
      assert AndNot(g.seen[s], Zero())[k];
    }
  }

  // The bits decided on the way to the leaf of i are those the decoder looks at for the encoding of i.
  lemma SeenIsLookedAt(insns: seq<Insn>, g: Growth, i: nat)
    requires Generated(insns, g) && i < |insns|
    ensures i in g.home && g.home[i] in g.seen && g.seen[g.home[i]] == LooksAt(g, insns[i].enc)
    ensures LeafOk(insns, g, g.home[i]) && Within(LooksAt(g, insns[i].enc), insns[i].mask)
  {
    MatchIsDecoded(insns, g, i, insns[i].enc);
    assert HomesOk(insns, g) && IsLeaf(g.table, g.home[i]) && LeafOk(insns, g, g.home[i]);
    assert Traced(g, Zero(), 0) && Traces(g, Zero(), 0, insns[i].enc);
    assert Or(Zero(), LooksAt(g, insns[i].enc)) == LooksAt(g, insns[i].enc);
    LeafAgrees(insns, g, g.home[i], insns[i].enc, i);
  }

  /** A word reaches the leaf of instruction i exactly when it agrees with i on the bits that the decoder looks at
      for the encoding of i. */
  lemma ReachesIffAgrees(insns: seq<Insn>, g: Growth, i: nat, w: Word)
    requires Generated(insns, g) && i < |insns|
    ensures i in g.home && (Reaches(g, w, g.home[i]) <==> AgreeOn(w, insns[i].enc, LooksAt(g, insns[i].enc)))
  {
    MatchIsDecoded(insns, g, i, insns[i].enc);
    SeenIsLookedAt(insns, g, i);
    var s := g.home[i];
    if AgreeOn(w, insns[i].enc, g.seen[s]) {
      assert AgreeOn(w, insns[i].enc, AndNot(g.seen[s], Zero()));
      assert Follows(g, Zero(), 0, insns[i].enc, w);
    }
    if Reaches(g, w, s) { LeafAgrees(insns, g, s, w, i); }
  }

  /** At a leaf of several instructions the decoder has looked at exactly the bits that all of them fix. */
  lemma SharedLeafLooksAt(insns: seq<Insn>, g: Growth, i: nat, j: nat, k: nat)
    requires Generated(insns, g) && i < |insns| && k < 32 && i != j && Together(g, i, j)
    ensures LooksAt(g, insns[i].enc)[k] <==> FixedByAll(insns, g.home, g.home[i], k)
  {
    SeenIsLookedAt(insns, g, i);
    MatchIsDecoded(insns, g, i, insns[i].enc);
    if g.seen[g.home[i]][k] {
      forall m | m in g.home && g.home[m] == g.home[i] && m < |insns|
        ensures insns[m].mask[k]
      {
        LeafAgrees(insns, g, g.home[i], insns[i].enc, m);
      }
    }
  }

  // Some instruction agrees with the word where the decoder looks.
  ghost predicate Known(insns: seq<Insn>, g: Growth, w: Word) { exists i: nat :: i < |insns| && Suits(insns, g, i, w) }

  ghost predicate Suits(insns: seq<Insn>, g: Growth, i: nat, w: Word)
    requires i < |insns|
  {
    AgreeOn(w, insns[i].enc, LooksAt(g, insns[i].enc))
  }

  lemma LeafIffKnown(insns: seq<Insn>, g: Growth, w: Word)
    requires Generated(insns, g)
    ensures Walk(g.table, 0, w, g.avail).Leaf? <==> Known(insns, g, w)
  {
    var r := Walk(g.table, 0, w, g.avail);
    if i: nat :| i < |insns| && Suits(insns, g, i, w) { ReachesIffAgrees(insns, g, i, w); }
    if r.Leaf? {
      WalkEnds(g.table, 0, w, g.avail);
      assert LeavesOk(insns, g) && LeafOk(insns, g, r.slot);
      var i := g.table[r.slot].index;
      ReachesIffAgrees(insns, g, i, w);
      assert Suits(insns, g, i, w);
    }
  }

  /** The decoder's result for any word: instruction i exactly when the word agrees with i where the decoder looks
      and no instruction at i's leaf has fewer fixed bits, or as many and a smaller index; and index 0 also when the
      word agrees with no instruction there. */
  lemma ReturnedIff(insns: seq<Insn>, g: Growth, w: Word, i: nat)
    requires Generated(insns, g) && i < |insns|
    ensures i in g.home
    ensures Returned(g, w) == i <==>
              (Suits(insns, g, i, w) && FirstAtLeaf(insns, g, i)) || (i == 0 && !Known(insns, g, w))
  {
    var r := Walk(g.table, 0, w, g.avail);
    ReachesIffAgrees(insns, g, i, w);
    SeenIsLookedAt(insns, g, i);
    assert HomesOk(insns, g);
    NamedIffFirst(insns, g, i);
    LeafIffKnown(insns, g, w);
    if r.Leaf? {
      WalkEnds(g.table, 0, w, g.avail);
      assert LeavesOk(insns, g) && LeafOk(insns, g, r.slot);
    }
  }

  /** A word that matches instruction i is decoded to i exactly when i is the first at its leaf. If it is not, only
      index 0 is still returned, for the words that agree with no instruction. */
  lemma DecodedIffFirst(insns: seq<Insn>, g: Growth, i: nat, w: Word)
    requires Generated(insns, g) && i < |insns| && Matches(insns[i], w)
    ensures i in g.home && (Returned(g, w) == i <==> FirstAtLeaf(insns, g, i))
    ensures !FirstAtLeaf(insns, g, i) ==> forall v: Word :: Returned(g, v) == i <==> i == 0 && !Known(insns, g, v)
  {
    MatchIsDecoded(insns, g, i, w);
    ReachesIffAgrees(insns, g, i, w);
    assert Suits(insns, g, i, w);
    ReturnedIff(insns, g, w, i);
    if !FirstAtLeaf(insns, g, i) {
      forall v: Word
        ensures Returned(g, v) == i <==> i == 0 && !Known(insns, g, v)
      {
        ReturnedIff(insns, g, v, i);
      }
    }
  }

  /** On the instruction array alone: an instruction some of whose words also match one with fewer fixed bits, or
      with as many and a smaller index, is never returned; index 0 only for the words that agree with no
      instruction. */
  lemma ShadowedIsNeverDecoded(insns: seq<Insn>, g: Growth, i: nat, j: nat, w: Word, v: Word)
    requires Generated(insns, g) && i < |insns| && j < |insns|
    requires Matches(insns[i], w) && Matches(insns[j], w) && Before(insns, j, i)
    ensures Returned(g, v) == i <==> i == 0 && !Known(insns, g, v)
  {
    OverlapsShareLeaf(insns, g, i, j, w);
    DecodedIffFirst(insns, g, i, w);
  }

  lemma DecidedMatches(insns: seq<Insn>, g: Growth, i: nat, w: Word)
    requires Generated(insns, g) && i < |insns| && i in g.home
    requires Within(insns[i].mask, LooksAt(g, insns[i].enc)) && Reaches(g, w, g.home[i])
    ensures Matches(insns[i], w)
  {
    ReachesIffAgrees(insns, g, i, w);
  }

  lemma UndecidedMisses(insns: seq<Insn>, g: Growth, i: nat) returns (w: Word)
    requires Generated(insns, g) && i < |insns| && i in g.home
    requires !Within(insns[i].mask, LooksAt(g, insns[i].enc))
    ensures Reaches(g, w, g.home[i]) && !Matches(insns[i], w)
  {
    var e, looked := insns[i].enc, LooksAt(g, insns[i].enc);
    var k :| 0 <= k < 32 && insns[i].mask[k] && !looked[k];
    w := e[k := !e[k]];
    ReachesIffAgrees(insns, g, i, w);
  }

  // Every word that reaches the leaf of i matches i.
  ghost predicate LeafMatches(insns: seq<Insn>, g: Growth, i: nat)
    requires i < |insns| && i in g.home
  {
    forall w: Word | Reaches(g, w, g.home[i]) :: Matches(insns[i], w)
  }

  /** Every word that reaches the leaf of instruction i matches i exactly when the decoder looks at all bits that i
      fixes. */
  lemma LeafMatchesIff(insns: seq<Insn>, g: Growth, i: nat)
    requires Generated(insns, g) && i < |insns|
    ensures i in g.home && (LeafMatches(insns, g, i) <==> Within(insns[i].mask, LooksAt(g, insns[i].enc)))
  {
    ReachesIffAgrees(insns, g, i, insns[i].enc);
    if Within(insns[i].mask, LooksAt(g, insns[i].enc)) {
      forall w: Word | Reaches(g, w, g.home[i])
        ensures Matches(insns[i], w)
      {
        DecidedMatches(insns, g, i, w);
      }
    } else {
      var w := UndecidedMisses(insns, g, i);
    }
  }

  /** At a leaf of several instructions: every word that reaches it matches instruction i exactly when every bit that
      i fixes is fixed by all of them. */
  lemma SharedLeafMatchesIff(insns: seq<Insn>, g: Growth, i: nat, j: nat)
    requires Generated(insns, g) && i < |insns| && i != j && Together(g, i, j)
    ensures LeafMatches(insns, g, i) <==>
              forall k | 0 <= k < 32 && insns[i].mask[k] :: FixedByAll(insns, g.home, g.home[i], k)
  {
    LeafMatchesIff(insns, g, i);
    forall k: nat | k < 32
      ensures LooksAt(g, insns[i].enc)[k] <==> FixedByAll(insns, g.home, g.home[i], k)
    {
      SharedLeafLooksAt(insns, g, i, j, k);
    }
  }

  // ------------------------------------------------------- on the array alone

  ghost function Whole(insns: seq<Insn>): set<nat> { Elems(All(|insns|)) }

  // The instruction of the set with the fewest fixed bits, the first of equals.
  ghost predicate IsFirst(insns: seq<Insn>, c: set<nat>, i: nat) {
    i < |insns| && i in c && forall j | j in c && j < |insns| :: !Before(insns, j, i)
  }

  /** The decoder looks at exactly the bits that the comparison of the word with the whole array would. */
  lemma LooksAtArray(insns: seq<Insn>, g: Growth, w: Word)
    requires Generated(insns, g)
    ensures LooksAt(g, w) == Compared(insns, Whole(insns), Zero(), w)
  {
    assert Mirrors(insns, g, Whole(insns), Zero(), 0) && MirrorsAt(insns, g, Whole(insns), Zero(), 0, w);
  }

  /** The decoder's result for any word: the first of the candidates that the comparison with the whole array leaves,
      and index 0 when it leaves none. */
  lemma ReturnedOnArray(insns: seq<Insn>, g: Growth, w: Word, i: nat)
    requires Generated(insns, g) && i < |insns|
    ensures var c := Candidates(insns, Whole(insns), Zero(), w);
            Returned(g, w) == i <==> IsFirst(insns, c, i) || (i == 0 && c == {})
  {
    var r := Walk(g.table, 0, w, g.avail);
    assert Mirrors(insns, g, Whole(insns), Zero(), 0) && MirrorsAt(insns, g, Whole(insns), Zero(), 0, w);
    if r.Leaf? {
      assert LeavesOk(insns, g) && LeafOk(insns, g, r.slot);
      LeafNamesFirst(insns, g, r.slot, i);
    }
  }

  lemma LeafNamesFirst(insns: seq<Insn>, g: Growth, s: nat, i: nat)
    requires s in g.table && LeafOk(insns, g, s) && i < |insns|
    ensures MembersOf(g, s) != {}
    ensures g.table[s].index == i <==> IsFirst(insns, MembersOf(g, s), i)
  {
    var best := g.table[s].index;
    assert best in MembersOf(g, s);
    if IsFirst(insns, MembersOf(g, s), i) { BeforeTotal(insns, i, best); }
  }

  // Every instruction of the array fixes bit k.
  ghost predicate FixedEverywhere(insns: seq<Insn>, k: nat)
    requires k < 32
  {
    forall i | 0 <= i < |insns| :: insns[i].mask[k]
  }

  lemma RootMask(insns: seq<Insn>)
    requires 2 <= |insns|
    ensures Several(Whole(insns))
    ensures forall k | 0 <= k < 32 :: Common(insns, Whole(insns), Zero())[k] <==> FixedEverywhere(insns, k)
  {
    forall i: nat | i < |insns|
      ensures i in Whole(insns)
    {
      assert All(|insns|)[i] == i;
    }
    assert 0 in Whole(insns) && 1 in Whole(insns);
    forall k: nat | k < 32
      ensures FixedIn(insns, Whole(insns), k) <==> FixedEverywhere(insns, k)
    {}
  }

  /** With two instructions or more the decoder looks at every bit that all of them fix, for every word. */
  lemma CommonIsLookedAt(insns: seq<Insn>, g: Growth, w: Word, k: nat)
    requires Generated(insns, g) && 2 <= |insns| && k < 32 && FixedEverywhere(insns, k)
    ensures LooksAt(g, w)[k]
  {
    RootMask(insns);
    LooksAtArray(insns, g, w);
    var m := Common(insns, Whole(insns), Zero());
    assert m[k];
    CandidatesStep(insns, Whole(insns), Zero(), m, w, Agreeing(insns, Whole(insns), m, w));
  }

  // The word differs from the instruction on a bit that all instructions fix.
  ghost predicate Excludes(insns: seq<Insn>, w: Word, i: nat)
    requires i < |insns|
  {
    exists k | 0 <= k < 32 :: FixedEverywhere(insns, k) && w[k] != insns[i].enc[k]
  }

  /** A word that differs from every instruction on a bit that all of them fix gets index 0. */
  lemma ExcludedIsInvalid(insns: seq<Insn>, g: Growth, w: Word)
    requires Generated(insns, g) && 2 <= |insns| && forall i | 0 <= i < |insns| :: Excludes(insns, w, i)
    ensures Returned(g, w) == 0
  {
    RootMask(insns);
    var c, m := Whole(insns), Common(insns, Whole(insns), Zero());
    NoneLeft(insns, c, m, w);
    CandidatesStep(insns, c, Zero(), m, w, {});
    NoneAgree(insns, Or(Zero(), m), w);
    ReturnedOnArray(insns, g, w, 0);
  }

  lemma NoneLeft(insns: seq<Insn>, c: set<nat>, m: Word, w: Word)
    requires insns != [] && forall i | 0 <= i < |insns| :: Excludes(insns, w, i)
    requires forall k | 0 <= k < 32 :: m[k] <==> FixedEverywhere(insns, k)
    ensures m != Zero() && Agreeing(insns, c, m, w) == {}
  {
    assert Excludes(insns, w, 0);
    forall i | i in c && i < |insns|
      ensures !AgreeOn(w, insns[i].enc, m)
    {
      assert Excludes(insns, w, i);
    }
  }

  // --------------------------------------------------------------- witnesses

  /** Beside INVALID and an instruction with both its bits set, a word with one of them is invalid. */
  lemma UnallocatedIsInvalid(insns: seq<Insn>, g: Growth, x: Insn, w: Word)
    requires insns == [Invalid(), x] && Generated(insns, g) && x.mask == Invalid().mask && x.enc[3] && x.enc[4]
    requires w[3] != w[4]
    ensures Returned(g, w) == 0
  {
    assert insns[0].mask[3] && insns[0].mask[4];
    assert FixedEverywhere(insns, 3) && FixedEverywhere(insns, 4);
    forall i | 0 <= i < |insns|
      ensures Excludes(insns, w, i)
    {
      assert w[3] != insns[i].enc[3] || w[4] != insns[i].enc[4];
    }
    ExcludedIsInvalid(insns, g, w);
  }

  // Entry 0 of the array, INVALID: encoding 0, bits 28 and 27 (lines 167 and 217-219 of the generator).
  function Invalid(): Insn { Insn(Zero(), seq(32, k => k == 3 || k == 4)) }

  // The word with just bits a up to b set, counted from the most significant.
  function Bits(a: nat, b: nat): Word { seq(32, k => a <= k < b) }

  lemma OnesBits(a: nat)
    requires a < 31
    ensures Ones(Bits(a, a + 1)) == 1 && Ones(Bits(a, a + 2)) > 1 && Ones(Invalid().mask) > 1
  {
    OnesOnly(Bits(a, a + 1), a);
    OnesMore(Bits(a, a + 1), Bits(a, a + 2), a + 1);
    OnesOnly(Bits(3, 4), 3);
    OnesMore(Bits(3, 4), Invalid().mask, 4);
  }

  // Entry 0 and two instructions whose fixed bits are all 0.
  ghost function Pair(a: Word, b: Word): seq<Insn> { [Invalid(), Insn(Zero(), a), Insn(Zero(), b)] }

  lemma PairMatches(a: Word, b: Word, i: nat)
    requires i < 3
    ensures |Pair(a, b)| == 3 && Matches(Pair(a, b)[i], Zero())
  {}

  lemma PairBefore(a: Word, b: Word)
    requires Ones(b) < Ones(a)
    ensures Before(Pair(a, b), 2, 1)
  {}

  /** An instruction that is never returned: it fixes two bits, the next one only the first of them, and the zero
      word matches both. */
  lemma AliasIsNeverDecoded(insns: seq<Insn>, g: Growth, n: nat, v: Word)
    requires n < 31 && insns == Pair(Bits(n, n + 2), Bits(n, n + 1)) && Generated(insns, g)
    ensures Matches(insns[1], Zero()) && Returned(g, v) != 1
  {
    OnesBits(n);
    PairBefore(insns[1].mask, insns[2].mask);
    PairMatches(insns[1].mask, insns[2].mask, 1);
    PairMatches(insns[1].mask, insns[2].mask, 2);
    ShadowedIsNeverDecoded(insns, g, 1, 2, Zero(), v);
  }

  lemma FirstOfPair(a: Word, b: Word, j: nat)
    requires j < 3 && Ones(a) == Ones(b) < Ones(Invalid().mask)
    ensures !Before(Pair(a, b), j, 1)
  {}

  // The decoder looks at no bit on the way to the leaf of two instructions that fix no bit in common.
  lemma PairLooksAtNothing(insns: seq<Insn>, g: Growth, a: Word, b: Word, k: nat)
    requires insns == Pair(a, b) && Generated(insns, g) && k < 32 && !(a[k] && b[k])
    ensures !LooksAt(g, Zero())[k]
  {
    PairMatches(a, b, 1);
    PairMatches(a, b, 2);
    OverlapsShareLeaf(insns, g, 1, 2, Zero());
    SharedLeafLooksAt(insns, g, 1, 2, k);
    assert !insns[1].mask[k] || !insns[2].mask[k];
  }

  lemma PairSuits(insns: seq<Insn>, g: Growth, a: Word, b: Word, w: Word)
    requires insns == Pair(a, b) && Generated(insns, g) && forall k | 0 <= k < 32 :: !(a[k] && b[k])
    ensures |insns| == 3 && Suits(insns, g, 1, w)
  {
    forall k: nat | k < 32
      ensures !LooksAt(g, Zero())[k]
    {
      PairLooksAtNothing(insns, g, a, b, k);
    }
  }

  lemma PairFirst(insns: seq<Insn>, g: Growth, a: Word, b: Word)
    requires insns == Pair(a, b) && 1 in g.home && Ones(a) == Ones(b) < Ones(Invalid().mask)
    ensures |insns| == 3 && FirstAtLeaf(insns, g, 1)
  {
    forall j | j in g.home && j < |insns| && g.home[j] == g.home[1]
      ensures !Before(insns, j, 1)
    {
      FirstOfPair(a, b, j);
    }
  }

  // Then every word is decoded to the first of them, if no one comes before it.
  lemma PairReturned(insns: seq<Insn>, g: Growth, a: Word, b: Word, w: Word)
    requires insns == Pair(a, b) && Generated(insns, g) && forall k | 0 <= k < 32 :: !(a[k] && b[k])
    requires Ones(a) == Ones(b) < Ones(Invalid().mask)
    ensures Returned(g, w) == 1
  {
    PairSuits(insns, g, a, b, w);
    ReturnedIff(insns, g, w, 1);
    PairFirst(insns, g, a, b);
  }

  lemma BitMatches(n: nat, w: Word)
    requires n < 32
    ensures Matches(Insn(Zero(), Bits(n, n + 1)), w) <==> !w[n]
  {
    assert Bits(n, n + 1)[n];
  }

  /** Words that are decoded to an instruction they do not match: two instructions fix one bit each, not the same,
      and the decoder looks at neither. */
  lemma MismatchIsDecoded(insns: seq<Insn>, g: Growth, n: nat, w: Word)
    requires n < 30 && insns == Pair(Bits(n, n + 1), Bits(n + 1, n + 2)) && Generated(insns, g)
    ensures Returned(g, w) == 1 && (Matches(insns[1], w) <==> !w[n])
  {
    var a, b := Bits(n, n + 1), Bits(n + 1, n + 2);
    OnesBits(n);
    OnesBits(n + 1);
    PairReturned(insns, g, a, b, w);
    BitMatches(n, w);
  }

  /** Every slot below entryAvailable is written, every slot but the root has exactly one branch to it, and the
      branches of a decision lead to consecutive slots. */
  lemma OneParentEach(insns: seq<Insn>, g: Growth, c: nat)
    requires Generated(insns, g) && c < g.avail
    ensures c in g.table
    ensures forall s | s in g.table :: s < g.avail
    ensures forall s: nat, k: nat, s': nat, k': nat | LeadsTo(g.table, s, k, c) && LeadsTo(g.table, s', k', c) ::
              s == s' && k == k'
    ensures (exists s: nat, k: nat :: LeadsTo(g.table, s, k, c)) <==> c != 0
    ensures forall s: nat, k: nat | LeadsTo(g.table, s, k, c) :: c == g.table[s].branches[0].1 + k
  {
    assert Between(c, 1, g.avail) <==> c in Slots(1, g.avail);
    assert Grew(Blank(), g, {0}, Elems(All(|insns|)));
    assert BranchesOk(g) && ParentsOk(g);
    forall s: nat, k: nat | LeadsTo(g.table, s, k, c)
      ensures c in g.parent && g.parent[c] == (s, k) && c != 0 && c == g.table[s].branches[0].1 + k
    {
      assert BranchOk(g, s, k);
    }
    if c != 0 {
      assert ParentOk(g, c);
      assert LeadsTo(g.table, g.parent[c].0, g.parent[c].1, c);
    }
  }

  ghost predicate LeadsTo(t: Table, s: nat, k: nat, c: nat) {
    s in t && k < |t[s].branches| && t[s].branches[k].1 == c
  }
}
