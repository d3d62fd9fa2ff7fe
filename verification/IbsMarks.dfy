/**
 Search order and mark soundness of the interval tree, and how rotations, recolouring
 and insertion keep them.
 */
module IbsMarks {
  import opened IbsTree

  // --------------------------------------------------------------- definitions

  predicate Ordered(t: Tree, lo: int, hi: int) {
    t.Node? ==> lo < t.val < hi && Ordered(t.left, lo, t.val) && Ordered(t.right, t.val, hi)
  }

  // A mark in a slot means that the interval covers the gap or the value the slot stands for.
  ghost predicate NodeSound(less: set<Interval>, equal: set<Interval>, greater: set<Interval>,
                            lo: int, val: int, hi: int) {
    && (forall i | i in less :: i.low <= lo && val <= i.high)
    && (forall i | i in equal :: Covers(i, val))
    && (forall i | i in greater :: i.low <= val && hi <= i.high)
  }

  ghost predicate Sound(t: Tree, lo: int, hi: int) {
    t.Node? ==>
      && NodeSound(t.less, t.equal, t.greater, lo, t.val, hi)
      && Sound(t.left, lo, t.val) && Sound(t.right, t.val, hi)
  }

  ghost function Marks(t: Tree): set<Interval> {
    if t == Nil then {} else t.less + t.equal + t.greater + Marks(t.left) + Marks(t.right)
  }

  // The equality marks of the node that holds the value x.
  function EqualAt(t: Tree, x: int): set<Interval> {
    if t == Nil then {}
    else if x == t.val then t.equal
    else if x < t.val then EqualAt(t.left, x)
    else EqualAt(t.right, x)
  }

  predicate HasKey(t: Tree, x: int) {
    t.Node? && (x == t.val || (x < t.val && HasKey(t.left, x)) || (x > t.val && HasKey(t.right, x)))
  }

  /* Whether x is one of the points of [low, high) that addLeft leaves to addRight: x lies beyond the
     first node on the way to low that falls into [low, high), and high does not end that node's range. */
  predicate NeedRight(t: Tree, low: int, high: int, x: int) {
    if t == Nil then false
    else if t.val < low then NeedRight(t.right, low, high, x)
    else if t.val > high then NeedRight(t.left, low, high, x)
    else t.val != high && x > t.val
  }

  // The properties of a path around the subtree it leads to.
  predicate OrderedPath(p: Path) {
    p.Up? ==>
      && OrderedPath(p.rest)
      && LoOf(p.rest) < p.val < HiOf(p.rest)
      && (if p.goesLeft then Ordered(p.sibling, p.val, HiOf(p.rest)) else Ordered(p.sibling, LoOf(p.rest), p.val))
  }

  ghost predicate SoundPath(p: Path) {
    p.Up? ==>
      && SoundPath(p.rest)
      && NodeSound(p.less, p.equal, p.greater, LoOf(p.rest), p.val, HiOf(p.rest))
      && (if p.goesLeft then Sound(p.sibling, p.val, HiOf(p.rest)) else Sound(p.sibling, LoOf(p.rest), p.val))
  }

  lemma {:induction false} ZipOrdered(t: Tree, p: Path)
    ensures Ordered(Zip(t, p), MIN, MAX) <==> Ordered(t, LoOf(p), HiOf(p)) && OrderedPath(p)
    decreases p
  {
    if p.Up? { ZipOrdered(Parent(p, t), p.rest); }
  }

  lemma {:induction false} ZipSound(t: Tree, p: Path)
    ensures Sound(Zip(t, p), MIN, MAX) <==> Sound(t, LoOf(p), HiOf(p)) && SoundPath(p)
    decreases p
  {
    if p.Up? { ZipSound(Parent(p, t), p.rest); }
  }

  // ---------------------------------------------------------- a change that keeps

  /** t' may stand in the place of t, between lo and hi: order and soundness hold, no mark appears, no
      query loses an answer, an interval keeps its mark at its own low end, and what addRight still has
      to mark for an interval starting at `key` is still marked by addRight. */
  ghost predicate Keeps(t: Tree, t': Tree, lo: int, hi: int, key: int) {
    && Ordered(t', lo, hi) && Sound(t', lo, hi)
    && Marks(t') <= Marks(t)
    && (forall x :: Stab(t, x) <= Stab(t', x))
    && (forall i: Interval :: i in EqualAt(t, i.low) ==> i in EqualAt(t', i.low))
    && (forall high, x :: NeedRight(t, key, high, x) ==> NeedRight(t', key, high, x))
    && (forall x :: HasKey(t', x) <==> HasKey(t, x))
  }

  lemma KeepsTrans(t: Tree, u: Tree, v: Tree, lo: int, hi: int, key: int)
    requires Keeps(t, u, lo, hi, key) && Keeps(u, v, lo, hi, key)
    ensures Keeps(t, v, lo, hi, key)
  {
    forall x
      ensures Stab(t, x) <= Stab(v, x)
    {
      assert Stab(t, x) <= Stab(u, x) <= Stab(v, x);
    }
  }

  lemma ParentStab(p: Path, t: Tree, t': Tree, x: int)
    requires p.Up? && Stab(t, x) <= Stab(t', x)
    ensures Stab(Parent(p, t), x) <= Stab(Parent(p, t'), x)
  {
  }

  lemma ParentEqualAt(p: Path, t: Tree, t': Tree, i: Interval)
    requires p.Up? && (i in EqualAt(t, i.low) ==> i in EqualAt(t', i.low))
    ensures i in EqualAt(Parent(p, t), i.low) ==> i in EqualAt(Parent(p, t'), i.low)
  {
  }

  lemma ParentNeedRight(p: Path, t: Tree, t': Tree, key: int, high: int, x: int)
    requires p.Up? && OrderedPath(p) && LoOf(p) < key < HiOf(p)
    requires NeedRight(t, key, high, x) ==> NeedRight(t', key, high, x)
    ensures NeedRight(Parent(p, t), key, high, x) ==> NeedRight(Parent(p, t'), key, high, x)
  {
  }

  lemma ParentHasKey(p: Path, t: Tree, t': Tree, x: int)
    requires p.Up? && (HasKey(t', x) <==> HasKey(t, x))
    ensures HasKey(Parent(p, t'), x) <==> HasKey(Parent(p, t), x)
  {
  }

  // A change of the subtree on the side of key is a change of the tree.
  lemma KeepsParent(p: Path, t: Tree, t': Tree, key: int)
    requires p.Up? && OrderedPath(p) && SoundPath(p)
    requires LoOf(p) < key < HiOf(p)
    requires Keeps(t, t', LoOf(p), HiOf(p), key)
    ensures Keeps(Parent(p, t), Parent(p, t'), LoOf(p.rest), HiOf(p.rest), key)
  {
    var u, u' := Parent(p, t), Parent(p, t');
    forall x
      ensures Stab(u, x) <= Stab(u', x)
    { ParentStab(p, t, t', x); }
    forall i: Interval
      ensures i in EqualAt(u, i.low) ==> i in EqualAt(u', i.low)
    { ParentEqualAt(p, t, t', i); }
    forall high, x
      ensures NeedRight(u, key, high, x) ==> NeedRight(u', key, high, x)
    { ParentNeedRight(p, t, t', key, high, x); }
    forall x
      ensures HasKey(u', x) <==> HasKey(u, x)
    { ParentHasKey(p, t, t', x); }
    assert Ordered(u', LoOf(p.rest), HiOf(p.rest)) && Sound(u', LoOf(p.rest), HiOf(p.rest));
    assert Marks(u') <= Marks(u);
  }

  lemma {:induction false} KeepsZip(t: Tree, t': Tree, p: Path, key: int)
    requires OrderedPath(p) && SoundPath(p) && LoOf(p) < key < HiOf(p)
    requires Keeps(t, t', LoOf(p), HiOf(p), key)
    ensures Keeps(Zip(t, p), Zip(t', p), MIN, MAX, key)
    decreases p
  {
    if p.Up? {
      KeepsParent(p, t, t', key);
      KeyInParent(p, key);
      KeepsZip(Parent(p, t), Parent(p, t'), p.rest, key);
    }
  }

  lemma KeyInParent(p: Path, key: int)
    requires p.Up? && OrderedPath(p) && LoOf(p) < key < HiOf(p)
    ensures LoOf(p.rest) < key < HiOf(p.rest)
  {
  }

  lemma RightRotateShape(t: Tree, lo: int, hi: int)
    requires t.Node? && t.left.Node? && Ordered(t, lo, hi)
    ensures Ordered(RightRotate(t), lo, hi)
    ensures Marks(RightRotate(t)) <= Marks(t)
  {
  }

  lemma RightRotateSound(t: Tree, lo: int, hi: int)
    requires t.Node? && t.left.Node? && Ordered(t, lo, hi) && Sound(t, lo, hi)
    ensures Sound(RightRotate(t), lo, hi)
  {
  }

  lemma RightRotateStab(t: Tree, lo: int, hi: int, x: int)
    requires t.Node? && t.left.Node? && Ordered(t, lo, hi)
    ensures Stab(t, x) <= Stab(RightRotate(t), x)
  {
  }

  lemma RightRotateEqualAt(t: Tree, lo: int, hi: int, i: Interval)
    requires t.Node? && t.left.Node? && Ordered(t, lo, hi) && Sound(t, lo, hi)
    requires i in EqualAt(t, i.low)
    ensures i in EqualAt(RightRotate(t), i.low)
  {
  }

  lemma RightRotateNeedRight(t: Tree, lo: int, hi: int, key: int, high: int, x: int)
    requires t.Node? && t.left.Node? && Ordered(t, lo, hi) && key < t.val
    requires NeedRight(t, key, high, x)
    ensures NeedRight(RightRotate(t), key, high, x)
  {
  }

  lemma RightRotateHasKey(t: Tree, lo: int, hi: int, x: int)
    requires t.Node? && t.left.Node? && Ordered(t, lo, hi)
    ensures HasKey(RightRotate(t), x) <==> HasKey(t, x)
  {
  }

  /** A right rotation keeps everything, for keys in the subtree that moves up. */
  lemma RightRotateKeeps(t: Tree, lo: int, hi: int, key: int)
    requires t.Node? && t.left.Node? && Ordered(t, lo, hi) && Sound(t, lo, hi) && key < t.val
    ensures Keeps(t, RightRotate(t), lo, hi, key)
  {
    var t' := RightRotate(t);
    RightRotateShape(t, lo, hi);
    RightRotateSound(t, lo, hi);
    forall x
      ensures Stab(t, x) <= Stab(t', x)
    { RightRotateStab(t, lo, hi, x); }
    forall i: Interval | i in EqualAt(t, i.low)
      ensures i in EqualAt(t', i.low)
    { RightRotateEqualAt(t, lo, hi, i); }
    forall high, x | NeedRight(t, key, high, x)
      ensures NeedRight(t', key, high, x)
    { RightRotateNeedRight(t, lo, hi, key, high, x); }
    forall x
      ensures HasKey(t', x) <==> HasKey(t, x)
    { RightRotateHasKey(t, lo, hi, x); }
  }

  lemma LeftRotateShape(t: Tree, lo: int, hi: int)
    requires t.Node? && t.right.Node? && Ordered(t, lo, hi)
    ensures Ordered(LeftRotate(t), lo, hi)
    ensures Marks(LeftRotate(t)) <= Marks(t)
  {
  }

  lemma LeftRotateSound(t: Tree, lo: int, hi: int)
    requires t.Node? && t.right.Node? && Ordered(t, lo, hi) && Sound(t, lo, hi)
    ensures Sound(LeftRotate(t), lo, hi)
  {
  }

  lemma LeftRotateStab(t: Tree, lo: int, hi: int, x: int)
    requires t.Node? && t.right.Node? && Ordered(t, lo, hi)
    ensures Stab(t, x) <= Stab(LeftRotate(t), x)
  {
  }

  lemma LeftRotateEqualAt(t: Tree, lo: int, hi: int, i: Interval)
    requires t.Node? && t.right.Node? && Ordered(t, lo, hi) && Sound(t, lo, hi)
    requires i in EqualAt(t, i.low)
    ensures i in EqualAt(LeftRotate(t), i.low)
  {
  }

  lemma LeftRotateNeedRight(t: Tree, lo: int, hi: int, key: int, high: int, x: int)
    requires t.Node? && t.right.Node? && Ordered(t, lo, hi) && t.val < key
    requires NeedRight(t, key, high, x)
    ensures NeedRight(LeftRotate(t), key, high, x)
  {
  }

  lemma LeftRotateHasKey(t: Tree, lo: int, hi: int, x: int)
    requires t.Node? && t.right.Node? && Ordered(t, lo, hi)
    ensures HasKey(LeftRotate(t), x) <==> HasKey(t, x)
  {
  }

  /** A left rotation keeps everything, for keys in the subtree that moves up. */
  lemma LeftRotateKeeps(t: Tree, lo: int, hi: int, key: int)
    requires t.Node? && t.right.Node? && Ordered(t, lo, hi) && Sound(t, lo, hi) && t.val < key
    ensures Keeps(t, LeftRotate(t), lo, hi, key)
  {
    var t' := LeftRotate(t);
    LeftRotateShape(t, lo, hi);
    LeftRotateSound(t, lo, hi);
    forall x
      ensures Stab(t, x) <= Stab(t', x)
    { LeftRotateStab(t, lo, hi, x); }
    forall i: Interval | i in EqualAt(t, i.low)
      ensures i in EqualAt(t', i.low)
    { LeftRotateEqualAt(t, lo, hi, i); }
    forall high, x | NeedRight(t, key, high, x)
      ensures NeedRight(t', key, high, x)
    { LeftRotateNeedRight(t, lo, hi, key, high, x); }
    forall x
      ensures HasKey(t', x) <==> HasKey(t, x)
    { LeftRotateHasKey(t, lo, hi, x); }
  }

  // ------------------------------------------------------------------- fixup

  lemma PaintKeeps(t: Tree, c: Color, lo: int, hi: int, key: int)
    requires Ordered(t, lo, hi) && Sound(t, lo, hi)
    ensures Keeps(t, Paint(t, c), lo, hi, key)
  {
    var t' := Paint(t, c);
    forall x
      ensures Stab(t', x) == Stab(t, x)
      ensures HasKey(t', x) <==> HasKey(t, x)
      ensures EqualAt(t', x) == EqualAt(t, x)
    {
    }
    forall high, x
      ensures NeedRight(t', key, high, x) <==> NeedRight(t, key, high, x)
    {
    }
    assert Marks(t') == Marks(t);
    assert Ordered(t', lo, hi) && Sound(t', lo, hi);
  }

  lemma RecoloredKeeps(x: Tree, p: Path, key: int)
    requires p.Up? && p.rest.Up? && OrderedPath(p) && SoundPath(p) && LoOf(p) < key < HiOf(p)
    requires Ordered(x, LoOf(p), HiOf(p)) && Sound(x, LoOf(p), HiOf(p))
    ensures var g := p.rest;
      Keeps(Parent(g, Parent(p, x)), Recolored(x, p), LoOf(g.rest), HiOf(g.rest), key)
  {
    var g := p.rest;
    var lo, hi := LoOf(g.rest), HiOf(g.rest);
    KeyInParent(p, key);
    var t0 := Parent(g, Parent(p, x));
    var t1 := Parent(g, Paint(Parent(p, x), Black));
    PaintKeeps(Parent(p, x), Black, LoOf(g), HiOf(g), key);
    KeepsParent(g, Parent(p, x), Paint(Parent(p, x), Black), key);
    var t2 := Parent(g.(sibling := Paint(g.sibling, Black)), Paint(Parent(p, x), Black));
    SiblingKeeps(g, Paint(Parent(p, x), Black), Black, key);
    KeepsTrans(t0, t1, t2, lo, hi, key);
    PaintKeeps(t2, Red, lo, hi, key);
    KeepsTrans(t0, t2, Paint(t2, Red), lo, hi, key);
  }

  lemma SiblingKeeps(g: Path, t: Tree, c: Color, key: int)
    requires g.Up? && OrderedPath(g) && SoundPath(g)
    requires Ordered(t, LoOf(g), HiOf(g)) && Sound(t, LoOf(g), HiOf(g))
    ensures Keeps(Parent(g, t), Parent(g.(sibling := Paint(g.sibling, c)), t), LoOf(g.rest), HiOf(g.rest), key)
  {
    var u, u' := Parent(g, t), Parent(g.(sibling := Paint(g.sibling, c)), t);
    forall x
      ensures Stab(u', x) == Stab(u, x)
      ensures HasKey(u', x) <==> HasKey(u, x)
      ensures EqualAt(u', x) == EqualAt(u, x)
    {
    }
    assert Marks(u') == Marks(u);
    assert Ordered(u', LoOf(g.rest), HiOf(g.rest)) && Sound(u', LoOf(g.rest), HiOf(g.rest));
  }

  // The subtree that moves up next to the grandparent, after the inner rotation if there is one.
  function Inner(x: Tree, p: Path): Tree
    requires x.Node? && p.Up? && p.rest.Up?
  {
    if p.goesLeft == p.rest.goesLeft then Parent(p, x)
    else if p.goesLeft then RightRotate(Parent(p, x))
    else LeftRotate(Parent(p, x))
  }

  lemma InnerKeeps(x: Tree, p: Path, key: int)
    requires x.Node? && p.Up? && p.rest.Up? && OrderedPath(p) && SoundPath(p) && LoOf(p) < key < HiOf(p)
    requires Ordered(x, LoOf(p), HiOf(p)) && Sound(x, LoOf(p), HiOf(p))
    ensures Keeps(Parent(p, x), Inner(x, p), LoOf(p.rest), HiOf(p.rest), key)
    ensures Inner(x, p).Node?
  {
    var g := p.rest;
    var t := Parent(p, x);
    if p.goesLeft == g.goesLeft {
      PaintKeeps(t, p.color, LoOf(g), HiOf(g), key);
      assert Paint(t, p.color) == t;
    } else if p.goesLeft {
      RightRotateKeeps(t, LoOf(g), HiOf(g), key);
    } else {
      LeftRotateKeeps(t, LoOf(g), HiOf(g), key);
    }
  }

  lemma RotatedKeeps(x: Tree, p: Path, key: int)
    requires x.Node? && p.Up? && p.rest.Up? && OrderedPath(p) && SoundPath(p) && LoOf(p) < key < HiOf(p)
    requires Ordered(x, LoOf(p), HiOf(p)) && Sound(x, LoOf(p), HiOf(p))
    ensures var g := p.rest;
      Keeps(Parent(g, Parent(p, x)), Rotated(x, p), LoOf(g.rest), HiOf(g.rest), key)
  {
    var g := p.rest;
    var lo, hi := LoOf(g.rest), HiOf(g.rest);
    var t0 := Parent(g, Parent(p, x));
    var top := Inner(x, p);
    InnerKeeps(x, p, key);
    KeyInParent(p, key);
    PaintKeeps(top, Black, LoOf(g), HiOf(g), key);
    KeepsTrans(Parent(p, x), top, Paint(top, Black), LoOf(g), HiOf(g), key);
    var t1 := Parent(g, Paint(top, Black));
    KeepsParent(g, Parent(p, x), Paint(top, Black), key);
    PaintKeeps(t1, Red, lo, hi, key);
    var t2 := Paint(t1, Red);
    KeepsTrans(t0, t1, t2, lo, hi, key);
    if g.goesLeft {
      RightRotateKeeps(t2, lo, hi, key);
    } else {
      LeftRotateKeeps(t2, lo, hi, key);
    }
    KeepsTrans(t0, t2, Rotated(x, p), lo, hi, key);
  }

  /** insertFixup keeps everything for the key it was called on. */
  lemma {:induction false} FixupKeeps(x: Tree, p: Path, key: int)
    requires x.Node? && OrderedPath(p) && SoundPath(p) && LoOf(p) < key < HiOf(p)
    requires Ordered(x, LoOf(p), HiOf(p)) && Sound(x, LoOf(p), HiOf(p))
    ensures Keeps(Zip(x, p), Fixup(x, p), MIN, MAX, key)
    decreases p
  {
    if p == Top || p.color == Black || p.rest == Top {
      ZipOrdered(x, p);
      ZipSound(x, p);
      PaintKeeps(Zip(x, p), Black, MIN, MAX, key);
    } else {
      var g := p.rest;
      KeyInParent(p, key);
      KeyInParent(g, key);
      var t0 := Parent(g, Parent(p, x));
      assert Zip(x, p) == Zip(t0, g.rest);
      if IsRed(g.sibling) {
        var t1 := Recolored(x, p);
        RecoloredKeeps(x, p, key);
        KeepsZip(t0, t1, g.rest, key);
        FixupKeeps(t1, g.rest, key);
        KeepsTrans(Zip(x, p), Zip(t1, g.rest), Fixup(x, p), MIN, MAX, key);
      } else {
        var t1 := Rotated(x, p);
        RotatedKeeps(x, p, key);
        KeepsZip(t0, t1, g.rest, key);
        PaintKeeps(Zip(t1, g.rest), Black, MIN, MAX, key);
        KeepsTrans(Zip(x, p), Zip(t1, g.rest), Fixup(x, p), MIN, MAX, key);
      }
    }
  }
}
