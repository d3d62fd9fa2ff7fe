/**
 Insertion and removal in the interval tree: after any sequence of them, the marks are
 sound and complete for exactly the live intervals.
 */
module IbsInsert {
  import opened IbsTree
  import opened IbsMarks

  // addLeft and addRight seen from the top of the subtree, with the bound that rightUp and leftUp give.
  function LeftMarked(t: Tree, i: Interval, hi: int): Tree {
    if t == Nil then MarkLeft(Leaf(i.low), i, hi)
    else
      var m := MarkLeft(t, i, hi);
      if t.val == i.low then m
      else if t.val < i.low then m.(right := LeftMarked(t.right, i, hi))
      else m.(left := LeftMarked(t.left, i, t.val))
  }

  function RightMarked(t: Tree, i: Interval, lo: int): Tree {
    if t == Nil then MarkRight(Leaf(i.high), i, lo)
    else
      var m := MarkRight(t, i, lo);
      if t.val == i.high then m
      else if t.val < i.high then m.(right := RightMarked(t.right, i, t.val))
      else m.(left := RightMarked(t.left, i, lo))
  }

  lemma {:induction false} AddLeftZips(i: Interval, r: Tree, p: Path)
    ensures var s := AddLeft(i, r, p);
      Zip(s.tree, s.path) == Zip(LeftMarked(r, i, HiOf(p)), p)
    decreases r
  {
    if r.Node? && r.val != i.low {
      var m := MarkLeft(r, i, HiOf(p));
      AddLeftZips(i, if r.val < i.low then r.right else r.left, Down(m, i.low < r.val, p));
    }
  }

  lemma {:induction false} AddRightZips(i: Interval, r: Tree, p: Path)
    ensures var s := AddRight(i, r, p);
      Zip(s.tree, s.path) == Zip(RightMarked(r, i, LoOf(p)), p)
    decreases r
  {
    if r.Node? && r.val != i.high {
      var m := MarkRight(r, i, LoOf(p));
      AddRightZips(i, if r.val < i.high then r.right else r.left, Down(m, i.high < r.val, p));
    }
  }

  // The spot that addLeft and addRight return lies on the way to the endpoint.
  lemma {:induction false} AddLeftRange(i: Interval, r: Tree, p: Path)
    requires LoOf(p) < i.low < HiOf(p)
    ensures var s := AddLeft(i, r, p); LoOf(s.path) < i.low < HiOf(s.path)
    decreases r
  {
    if r.Node? && r.val != i.low {
      var m := MarkLeft(r, i, HiOf(p));
      AddLeftRange(i, if r.val < i.low then r.right else r.left, Down(m, i.low < r.val, p));
    }
  }

  lemma {:induction false} AddRightRange(i: Interval, r: Tree, p: Path)
    requires LoOf(p) < i.high < HiOf(p)
    ensures var s := AddRight(i, r, p); LoOf(s.path) < i.high < HiOf(s.path)
    decreases r
  {
    if r.Node? && r.val != i.high {
      var m := MarkRight(r, i, LoOf(p));
      AddRightRange(i, if r.val < i.high then r.right else r.left, Down(m, i.high < r.val, p));
    }
  }

  // ----------------------------------------------------------- marks of addLeft

  lemma {:induction false} LeftMarkedOk(t: Tree, i: Interval, lo: int, hi: int)
    requires Ordered(t, lo, hi) && Sound(t, lo, hi) && lo < i.low < hi && i.low <= i.high
    ensures Ordered(LeftMarked(t, i, hi), lo, hi) && Sound(LeftMarked(t, i, hi), lo, hi)
    ensures Marks(LeftMarked(t, i, hi)) <= Marks(t) + {i}
    ensures i in EqualAt(LeftMarked(t, i, hi), i.low)
  {
    if t.Node? {
      if t.val < i.low { LeftMarkedOk(t.right, i, t.val, hi); }
      else if i.low < t.val { LeftMarkedOk(t.left, i, lo, t.val); }
    }
  }

  lemma {:induction false} LeftMarkedGrows(t: Tree, i: Interval, hi: int, x: int)
    ensures Stab(t, x) <= Stab(LeftMarked(t, i, hi), x)
    ensures EqualAt(t, x) <= EqualAt(LeftMarked(t, i, hi), x)
    ensures HasKey(t, x) ==> HasKey(LeftMarked(t, i, hi), x)
  {
    if t.Node? {
      if t.val < i.low { LeftMarkedGrows(t.right, i, hi, x); }
      else if i.low < t.val { LeftMarkedGrows(t.left, i, t.val, x); }
    }
  }

  // When the range ends within the interval, addLeft marks all of it.
  lemma {:induction false} LeftMarkedFull(t: Tree, i: Interval, lo: int, hi: int, x: int)
    requires Ordered(t, lo, hi) && lo < i.low <= x < hi <= i.high
    ensures i in Stab(LeftMarked(t, i, hi), x)
  {
    if t.Node? {
      if t.val < i.low { LeftMarkedFull(t.right, i, t.val, hi, x); }
      else if i.low < t.val && x < t.val { LeftMarkedFull(t.left, i, lo, t.val, x); }
    }
  }

  // Otherwise it leaves exactly the points beyond the first node inside the interval.
  lemma {:induction false} LeftMarkedHalf(t: Tree, i: Interval, lo: int, hi: int, x: int)
    requires Ordered(t, lo, hi) && lo < i.low < hi && i.high < hi && Covers(i, x)
    ensures var t' := LeftMarked(t, i, hi);
      i in Stab(t', x) || NeedRight(t', i.low, i.high, x)
  {
    if t.Node? {
      if t.val < i.low { LeftMarkedHalf(t.right, i, t.val, hi, x); }
      else if i.high < t.val { LeftMarkedHalf(t.left, i, lo, t.val, x); }
      else if i.low < t.val && x < t.val { LeftMarkedFull(t.left, i, lo, t.val, x); }
    }
  }

  // ---------------------------------------------------------- marks of addRight

  lemma {:induction false} RightMarkedOk(t: Tree, i: Interval, lo: int, hi: int)
    requires Ordered(t, lo, hi) && Sound(t, lo, hi) && lo < i.high < hi && i.low <= i.high
    ensures Ordered(RightMarked(t, i, lo), lo, hi) && Sound(RightMarked(t, i, lo), lo, hi)
    ensures Marks(RightMarked(t, i, lo)) <= Marks(t) + {i}
  {
    if t.Node? {
      if t.val < i.high { RightMarkedOk(t.right, i, t.val, hi); }
      else if i.high < t.val { RightMarkedOk(t.left, i, lo, t.val); }
    }
  }

  lemma {:induction false} RightMarkedGrows(t: Tree, i: Interval, lo: int, x: int)
    ensures Stab(t, x) <= Stab(RightMarked(t, i, lo), x)
    ensures EqualAt(t, x) <= EqualAt(RightMarked(t, i, lo), x)
    ensures HasKey(t, x) ==> HasKey(RightMarked(t, i, lo), x)
  {
    if t.Node? {
      if t.val < i.high { RightMarkedGrows(t.right, i, t.val, x); }
      else if i.high < t.val { RightMarkedGrows(t.left, i, lo, x); }
    }
  }

  lemma {:induction false} RightMarkedFull(t: Tree, i: Interval, lo: int, hi: int, x: int)
    requires Ordered(t, lo, hi) && i.low <= lo < x < i.high < hi
    ensures i in Stab(RightMarked(t, i, lo), x)
  {
    if t.Node? {
      if i.high < t.val { RightMarkedFull(t.left, i, lo, t.val, x); }
      else if t.val < x { RightMarkedFull(t.right, i, t.val, hi, x); }
    }
  }

  // addRight marks everything that was left to it.
  lemma {:induction false} RightMarkedRest(t: Tree, i: Interval, lo: int, hi: int, x: int)
    requires Ordered(t, lo, hi) && lo < i.low && i.high < hi && i.low <= x < i.high
    requires NeedRight(t, i.low, i.high, x)
    ensures i in Stab(RightMarked(t, i, lo), x)
  {
    if t.val < i.low { RightMarkedRest(t.right, i, t.val, hi, x); }
    else if i.high < t.val { RightMarkedRest(t.left, i, lo, t.val, x); }
    else { RightMarkedFull(t.right, i, t.val, hi, x); }
  }

  // ------------------------------------------------------------- the invariant

  ghost predicate Complete(t: Tree, i: Interval) {
    && (forall x | Covers(i, x) :: i in Stab(t, x))
    && i in EqualAt(t, i.low)
  }

  /** The tree is ordered, and its marks are sound and complete for exactly the live intervals. */
  ghost predicate Faithful(t: Tree, live: set<Interval>) {
    && Ordered(t, MIN, MAX) && Sound(t, MIN, MAX)
    && Marks(t) <= live
    && (forall i | i in live :: Proper(i) && Complete(t, i))
  }

  lemma EmptyFaithful()
    ensures Faithful(Nil, {})
  {
  }

  // What keeps a tree faithful to intervals that were complete before.
  lemma KeepsComplete(t: Tree, t': Tree, key: int, i: Interval)
    requires Keeps(t, t', MIN, MAX, key) && Complete(t, i)
    ensures Complete(t', i)
  {
    forall x | Covers(i, x)
      ensures i in Stab(t', x)
    {
      assert Stab(t, x) <= Stab(t', x);
    }
  }

  lemma PlacedKeeps(s: Spot, key: int)
    requires s.tree.Node? && LoOf(s.path) < key < HiOf(s.path)
    requires Ordered(Zip(s.tree, s.path), MIN, MAX) && Sound(Zip(s.tree, s.path), MIN, MAX)
    ensures Keeps(Zip(s.tree, s.path), Placed(s), MIN, MAX, key)
  {
    ZipOrdered(s.tree, s.path);
    ZipSound(s.tree, s.path);
    if s.created {
      FixupKeeps(s.tree, s.path, key);
    }
  }

  // Between addLeft and addRight: the old intervals are complete, the new one half.
  ghost predicate HalfInserted(t: Tree, live: set<Interval>, i: Interval) {
    && Ordered(t, MIN, MAX) && Sound(t, MIN, MAX)
    && Marks(t) <= live + {i}
    && (forall j | j in live :: Complete(t, j))
    && (forall x | Covers(i, x) :: i in Stab(t, x) || NeedRight(t, i.low, i.high, x))
    && i in EqualAt(t, i.low)
  }

  lemma AddLeftHalf(t: Tree, live: set<Interval>, i: Interval)
    requires Faithful(t, live) && Proper(i)
    ensures HalfInserted(LeftMarked(t, i, MAX), live, i)
  {
    var t' := LeftMarked(t, i, MAX);
    LeftMarkedOk(t, i, MIN, MAX);
    forall j | j in live
      ensures Complete(t', j)
    {
      LeftMarkedGrows(t, i, MAX, j.low);
      forall x | Covers(j, x)
        ensures j in Stab(t', x)
      {
        LeftMarkedGrows(t, i, MAX, x);
      }
    }
    forall x | Covers(i, x)
      ensures i in Stab(t', x) || NeedRight(t', i.low, i.high, x)
    {
      LeftMarkedHalf(t, i, MIN, MAX, x);
    }
  }

  // Rebalancing between the two halves leaves the half-inserted interval completable.
  lemma RebalanceHalf(t: Tree, t': Tree, live: set<Interval>, i: Interval)
    requires HalfInserted(t, live, i) && Keeps(t, t', MIN, MAX, i.low)
    ensures HalfInserted(t', live, i)
  {
    forall j | j in live
      ensures Complete(t', j)
    {
      KeepsComplete(t, t', i.low, j);
    }
    forall x | Covers(i, x)
      ensures i in Stab(t', x) || NeedRight(t', i.low, i.high, x)
    {
      assert Stab(t, x) <= Stab(t', x);
    }
  }

  lemma AddRightFaithful(t: Tree, live: set<Interval>, i: Interval)
    requires HalfInserted(t, live, i) && Proper(i) && forall j | j in live :: Proper(j)
    ensures Faithful(RightMarked(t, i, MIN), live + {i})
  {
    var t' := RightMarked(t, i, MIN);
    RightMarkedOk(t, i, MIN, MAX);
    forall j | j in live + {i}
      ensures Complete(t', j)
    {
      RightMarkedGrows(t, i, MIN, j.low);
      forall x | Covers(j, x)
        ensures j in Stab(t', x)
      {
        RightMarkedGrows(t, i, MIN, x);
        if j == i && i !in Stab(t, x) {
          NeedRightInside(t, i.low, i.high, x);
          RightMarkedRest(t, i, MIN, MAX, x);
        }
      }
    }
  }

  lemma {:induction false} NeedRightInside(t: Tree, low: int, high: int, x: int)
    requires NeedRight(t, low, high, x)
    ensures low < x
  {
    if t.val < low { NeedRightInside(t.right, low, high, x); }
    else if t.val > high { NeedRightInside(t.left, low, high, x); }
  }

  /** Insertion: both half-insertions and both rebalancings together add exactly the new interval. */
  lemma InsertFaithful(t: Tree, live: set<Interval>, i: Interval)
    requires Faithful(t, live) && Proper(i)
    ensures Faithful(Insert(t, i), live + {i})
  {
    var s := AddLeft(i, t, Top);
    AddLeftSpot(i, t, Top);
    AddLeftZips(i, t, Top);
    AddLeftRange(i, t, Top);
    AddLeftHalf(t, live, i);
    PlacedKeeps(s, i.low);
    var t1 := Placed(s);
    RebalanceHalf(LeftMarked(t, i, MAX), t1, live, i);

    var u := AddRight(i, t1, Top);
    AddRightSpot(i, t1, Top);
    AddRightZips(i, t1, Top);
    AddRightRange(i, t1, Top);
    AddRightFaithful(t1, live, i);
    PlacedKeeps(u, i.high);
    var t2 := RightMarked(t1, i, MIN);
    forall j | j in live + {i}
      ensures Complete(Placed(u), j)
    {
      KeepsComplete(t2, Placed(u), i.high, j);
    }
  }

  // ------------------------------------------------------------------- removal

  lemma {:induction false} RemoveErases(t: Tree, i: Interval, lo: int, hi: int)
    requires Ordered(t, lo, hi) && Sound(t, lo, hi) && i.low <= i.high
    ensures i !in Marks(Remove(t, i)) && Marks(Remove(t, i)) <= Marks(t)
    ensures Ordered(Remove(t, i), lo, hi) && Sound(Remove(t, i), lo, hi)
  {
    if t.Node? {
      RemoveErases(t.left, i, lo, t.val);
      RemoveErases(t.right, i, t.val, hi);
      if !(i.low < t.val) { NoMarksBelow(t.left, i, lo, t.val); }
      if !(i.low > t.val || i.high > t.val) { NoMarksAbove(t.right, i, t.val, hi); }
    }
  }

  // The parts of the tree that removeInterval skips hold no mark of the interval.
  lemma {:induction false} NoMarksBelow(t: Tree, i: Interval, lo: int, hi: int)
    requires Ordered(t, lo, hi) && Sound(t, lo, hi) && hi <= i.low <= i.high
    ensures i !in Marks(t)
  {
    if t.Node? {
      NoMarksBelow(t.left, i, lo, t.val);
      NoMarksBelow(t.right, i, t.val, hi);
    }
  }

  lemma {:induction false} NoMarksAbove(t: Tree, i: Interval, lo: int, hi: int)
    requires Ordered(t, lo, hi) && Sound(t, lo, hi) && i.low <= i.high <= lo
    ensures i !in Marks(t)
  {
    if t.Node? {
      NoMarksAbove(t.left, i, lo, t.val);
      NoMarksAbove(t.right, i, t.val, hi);
    }
  }

  lemma {:induction false} RemoveSpares(t: Tree, i: Interval, j: Interval, x: int)
    requires j != i
    ensures j in Stab(t, x) <==> j in Stab(Remove(t, i), x)
    ensures j in EqualAt(t, x) <==> j in EqualAt(Remove(t, i), x)
  {
    if t.Node? {
      RemoveSpares(t.left, i, j, x);
      RemoveSpares(t.right, i, j, x);
    }
  }

  /** Removal takes away exactly the given interval, although it visits only part of the tree. */
  lemma RemoveFaithful(t: Tree, live: set<Interval>, i: Interval)
    requires Faithful(t, live) && i.low <= i.high
    ensures Faithful(Remove(t, i), live - {i})
  {
    var t' := Remove(t, i);
    RemoveErases(t, i, MIN, MAX);
    forall j | j in live - {i}
      ensures Complete(t', j)
    {
      RemoveSpares(t, i, j, j.low);
      forall x | Covers(j, x)
        ensures j in Stab(t', x)
      {
        RemoveSpares(t, i, j, x);
      }
    }
  }

  // ------------------------------------------------------------------- queries

  lemma {:induction false} StabSound(t: Tree, lo: int, hi: int, x: int, i: Interval)
    requires Ordered(t, lo, hi) && Sound(t, lo, hi) && Proper(i)
    requires (lo < x || lo == MIN) && (x < hi || hi == MAX)
    requires i in Stab(t, x)
    ensures Covers(i, x)
  {
    if x < t.val {
      if i !in t.less { StabSound(t.left, lo, t.val, x, i); }
    } else if t.val < x {
      if i !in t.greater { StabSound(t.right, t.val, hi, x, i); }
    }
  }

  lemma {:induction false} StabMarks(t: Tree, x: int)
    ensures Stab(t, x) <= Marks(t)
  {
    if t.Node? {
      StabMarks(t.left, x);
      StabMarks(t.right, x);
    }
  }

  /** The stabbing query returns exactly the live intervals that cover the point. */
  lemma StabExact(t: Tree, live: set<Interval>, x: int)
    requires Faithful(t, live)
    ensures Stab(t, x) == set i | i in live && Covers(i, x)
  {
    StabMarks(t, x);
    forall i | i in Stab(t, x)
      ensures Covers(i, x)
    {
      StabSound(t, MIN, MAX, x, i);
    }
  }

  lemma {:induction false} OverlappingSound(t: Tree, lo: int, hi: int, q: Interval, i: Interval) returns (x: int)
    requires Ordered(t, lo, hi) && Sound(t, lo, hi) && Proper(i) && q.low <= q.high
    requires (lo < q.low || lo < q.high || lo == MIN) && (q.low < hi || hi == MAX)
    requires i in Overlapping(t, q)
    ensures Covers(i, x) && Covers(q, x)
  {
    if q.low < t.val && i in t.less {
      x := if i.low <= q.low then q.low else i.low;
    } else if (q.low > t.val || q.high > t.val) && i in t.greater {
      x := if i.low <= q.low then q.low else i.low;
    } else if q.low < t.val && i in Overlapping(t.left, q) {
      x := OverlappingSound(t.left, lo, t.val, q, i);
    } else if (q.low > t.val || q.high > t.val) && i in Overlapping(t.right, q) {
      x := OverlappingSound(t.right, t.val, hi, q, i);
    } else {
      x := t.val;
    }
  }

  lemma {:induction false} OverlappingStabs(t: Tree, q: Interval, x: int)
    requires Covers(q, x)
    ensures Stab(t, x) <= Overlapping(t, q)
  {
    if t.Node? {
      OverlappingStabs(t.left, q, x);
      OverlappingStabs(t.right, q, x);
    }
  }

  lemma {:induction false} OverlappingMarks(t: Tree, q: Interval)
    ensures Overlapping(t, q) <= Marks(t)
  {
    if t.Node? {
      OverlappingMarks(t.left, q);
      OverlappingMarks(t.right, q);
    }
  }

  ghost predicate Overlap(a: Interval, b: Interval) {
    exists x :: Covers(a, x) && Covers(b, x)
  }

  /** The interval query returns exactly the live intervals that share a point with the given one. */
  lemma OverlappingExact(t: Tree, live: set<Interval>, q: Interval)
    requires Faithful(t, live) && q.low <= q.high
    ensures Overlapping(t, q) == set i | i in live && Overlap(i, q)
  {
    OverlappingMarks(t, q);
    forall i | i in live
      ensures i in Overlapping(t, q) <==> Overlap(i, q)
    {
      if i in Overlapping(t, q) {
        var x := OverlappingSound(t, MIN, MAX, q, i);
      }
      if Overlap(i, q) {
        var x :| Covers(i, x) && Covers(q, x);
        OverlappingStabs(t, q, x);
      }
    }
  }

  // ----------------------------------------------------------------- rotations

  lemma KeepsFaithful(t: Tree, t': Tree, key: int, live: set<Interval>)
    requires Keeps(t, t', MIN, MAX, key) && Faithful(t, live)
    ensures Faithful(t', live)
  {
    forall i | i in live
      ensures Complete(t', i)
    {
      KeepsComplete(t, t', key, i);
    }
  }

  /** A rotation anywhere in the tree changes no answer: the tree stays faithful to the same intervals. */
  lemma RotationKeepsAnswers(t: Tree, p: Path, live: set<Interval>, x: int)
    requires Faithful(Zip(t, p), live) && t.Node?
    ensures t.left.Node? ==>
      Faithful(Zip(RightRotate(t), p), live) && Stab(Zip(RightRotate(t), p), x) == Stab(Zip(t, p), x)
    ensures t.right.Node? ==>
      Faithful(Zip(LeftRotate(t), p), live) && Stab(Zip(LeftRotate(t), p), x) == Stab(Zip(t, p), x)
  {
    ZipOrdered(t, p);
    ZipSound(t, p);
    StabExact(Zip(t, p), live, x);
    if t.left.Node? {
      RightRotateKeeps(t, LoOf(p), HiOf(p), t.left.val);
      KeepsZip(t, RightRotate(t), p, t.left.val);
      KeepsFaithful(Zip(t, p), Zip(RightRotate(t), p), t.left.val, live);
      StabExact(Zip(RightRotate(t), p), live, x);
    }
    if t.right.Node? {
      LeftRotateKeeps(t, LoOf(p), HiOf(p), t.right.val);
      KeepsZip(t, LeftRotate(t), p, t.right.val);
      KeepsFaithful(Zip(t, p), Zip(LeftRotate(t), p), t.right.val, live);
      StabExact(Zip(LeftRotate(t), p), live, x);
    }
  }
}
