/**
 The red-black side of the interval tree: insertFixup restores the balance invariant,
 so the height stays logarithmic, over every history of insertions and removals.
 */
module IbsBalance {
  import opened Basics
  import opened IbsTree
  import opened IbsMarks
  import opened IbsInsert

  function Bh(t: Tree): nat {
    if t == Nil then 0 else Bh(t.left) + if t.color == Black then 1 else 0
  }

  predicate Rb(t: Tree) {
    t.Node? ==>
      && (t.color == Red ==> !IsRed(t.left) && !IsRed(t.right))
      && Bh(t.left) == Bh(t.right)
      && Rb(t.left) && Rb(t.right)
  }

  // The path is balanced around a subtree of black height h.
  predicate RbPath(p: Path, h: nat) {
    p.Up? ==>
      && Rb(p.sibling) && Bh(p.sibling) == h
      && (p.color == Red ==> !IsRed(p.sibling) && p.rest.Up? && p.rest.color == Black)
      && RbPath(p.rest, h + if p.color == Black then 1 else 0)
  }

  lemma {:induction false} ZipRb(t: Tree, p: Path)
    requires Rb(t) && RbPath(p, Bh(t)) && (IsRed(t) ==> p == Top || p.color == Black)
    ensures Rb(Zip(t, p))
    ensures p.Up? ==> !IsRed(Zip(t, p))
    decreases p
  {
    if p.Up? {
      ZipRb(Parent(p, t), p.rest);
      if p.rest == Top { assert Zip(t, p) == Parent(p, t); }
    }
  }

  lemma RecoloredRb(x: Tree, p: Path)
    requires IsRed(x) && Rb(x) && RbPath(p, Bh(x)) && p.Up? && p.color == Red && p.rest.Up? && IsRed(p.rest.sibling)
    ensures var t := Recolored(x, p); IsRed(t) && Rb(t) && RbPath(p.rest.rest, Bh(t))
  {
  }

  lemma RotatedRb(x: Tree, p: Path)
    requires IsRed(x) && Rb(x) && RbPath(p, Bh(x)) && p.Up? && p.color == Red && p.rest.Up? && !IsRed(p.rest.sibling)
    ensures var t := Rotated(x, p); t.Node? && t.color == Black && Rb(t) && RbPath(p.rest.rest, Bh(t))
  {
  }

  /** insertFixup turns a tree whose only flaw is a red node below a red parent into a red-black tree. */
  lemma {:induction false} FixupRb(x: Tree, p: Path)
    requires IsRed(x) && Rb(x) && RbPath(p, Bh(x))
    ensures Rb(Fixup(x, p)) && !IsRed(Fixup(x, p))
    decreases p
  {
    if p == Top || p.color == Black {
      ZipRb(x, p);
    } else if IsRed(p.rest.sibling) {
      RecoloredRb(x, p);
      FixupRb(Recolored(x, p), p.rest.rest);
    } else {
      RotatedRb(x, p);
      ZipRb(Rotated(x, p), p.rest.rest);
    }
  }

  lemma {:induction false} AddLeftRb(i: Interval, r: Tree, p: Path)
    requires Rb(r) && RbPath(p, Bh(r)) && (IsRed(r) ==> p.Up? && p.color == Black)
    ensures var s := AddLeft(i, r, p);
      && Rb(s.tree) && RbPath(s.path, Bh(s.tree))
      && (s.created ==> IsRed(s.tree))
      && (!s.created ==> (IsRed(s.tree) ==> s.path.Up? && s.path.color == Black))
    decreases r
  {
    if r.Node? && r.val != i.low {
      var m := MarkLeft(r, i, HiOf(p));
      AddLeftRb(i, if r.val < i.low then r.right else r.left, Down(m, i.low < r.val, p));
    }
  }

  lemma {:induction false} AddRightRb(i: Interval, r: Tree, p: Path)
    requires Rb(r) && RbPath(p, Bh(r)) && (IsRed(r) ==> p.Up? && p.color == Black)
    ensures var s := AddRight(i, r, p);
      && Rb(s.tree) && RbPath(s.path, Bh(s.tree))
      && (s.created ==> IsRed(s.tree))
      && (!s.created ==> (IsRed(s.tree) ==> s.path.Up? && s.path.color == Black))
    decreases r
  {
    if r.Node? && r.val != i.high {
      var m := MarkRight(r, i, LoOf(p));
      AddRightRb(i, if r.val < i.high then r.right else r.left, Down(m, i.high < r.val, p));
    }
  }

  lemma PlacedRb(s: Spot)
    requires s.tree.Node? && Rb(s.tree) && RbPath(s.path, Bh(s.tree))
    requires s.created ==> IsRed(s.tree)
    requires !s.created ==> (IsRed(s.tree) ==> s.path.Up? && s.path.color == Black)
    ensures Rb(Placed(s)) && !IsRed(Placed(s))
  {
    if s.created {
      FixupRb(s.tree, s.path);
    } else {
      ZipRb(s.tree, s.path);
    }
  }

  /** Insertion keeps the red-black invariant and a black root. */
  lemma InsertRb(t: Tree, i: Interval)
    requires Rb(t) && !IsRed(t)
    ensures Rb(Insert(t, i)) && !IsRed(Insert(t, i))
  {
    AddLeftSpot(i, t, Top);
    AddLeftRb(i, t, Top);
    PlacedRb(AddLeft(i, t, Top));
    var t1 := Placed(AddLeft(i, t, Top));
    AddRightSpot(i, t1, Top);
    AddRightRb(i, t1, Top);
    PlacedRb(AddRight(i, t1, Top));
  }

  lemma {:induction false} RemoveRb(t: Tree, i: Interval)
    ensures Bh(Remove(t, i)) == Bh(t) && IsRed(Remove(t, i)) == IsRed(t)
    ensures Rb(t) ==> Rb(Remove(t, i))
  {
    if t.Node? {
      RemoveRb(t.left, i);
      RemoveRb(t.right, i);
    }
  }

  // -------------------------------------------------------------------- height

  function Size(t: Tree): nat { if t == Nil then 0 else 1 + Size(t.left) + Size(t.right) }

  function Max(a: nat, b: nat): nat { if a < b then b else a }

  function Height(t: Tree): nat { if t == Nil then 0 else 1 + Max(Height(t.left), Height(t.right)) }

  lemma {:induction false} HeightByBlackHeight(t: Tree)
    requires Rb(t)
    ensures Height(t) <= 2 * Bh(t) + if IsRed(t) then 1 else 0
    ensures Pow2(Bh(t)) <= Size(t) + 1
  {
    if t.Node? {
      HeightByBlackHeight(t.left);
      HeightByBlackHeight(t.right);
    }
  }

  lemma {:induction false} Pow2Monotone(a: nat, b: nat)
    requires a <= b
    ensures Pow2(a) <= Pow2(b)
  {
    if a < b { Pow2Monotone(a, b - 1); }
  }

  lemma {:induction false} Pow2Double(n: nat)
    ensures Pow2(2 * n) == Square(Pow2(n))
  {
    if n > 0 {
      Pow2Double(n - 1);
      assert Pow2(2 * n) == 2 * Pow2(2 * n - 1) == 4 * Pow2(2 * (n - 1));
    }
  }

  function Square(n: nat): nat { n * n }

  lemma SquareMonotone(a: nat, b: nat)
    requires a <= b
    ensures Square(a) <= Square(b)
  {
    assert a * a <= a * b <= b * b;
  }

  // The height is at most 2 * log2(n + 1) for n stored endpoints.
  predicate Shallow(t: Tree) { Pow2(Height(t)) <= Square(Size(t) + 1) }

  /** A red-black tree is shallow. */
  lemma HeightBound(t: Tree)
    requires Rb(t) && !IsRed(t)
    ensures Shallow(t)
  {
    HeightByBlackHeight(t);
    Pow2Monotone(Height(t), 2 * Bh(t));
    Pow2Double(Bh(t));
    SquareMonotone(Pow2(Bh(t)), Size(t) + 1);
  }

  function SizePath(p: Path): nat { if p == Top then 0 else 1 + Size(p.sibling) + SizePath(p.rest) }

  lemma {:induction false} ZipSize(t: Tree, p: Path)
    ensures Size(Zip(t, p)) == Size(t) + SizePath(p)
    decreases p
  {
    if p.Up? { ZipSize(Parent(p, t), p.rest); }
  }

  lemma TurnSize(t: Tree)
    ensures t.Node? && t.left.Node? ==> Size(RightRotate(t)) == Size(t)
    ensures t.Node? && t.right.Node? ==> Size(LeftRotate(t)) == Size(t)
    ensures Size(Paint(t, Red)) == Size(Paint(t, Black)) == Size(t)
  {
  }

  lemma ParentSize(p: Path, t: Tree)
    requires p.Up?
    ensures Size(Parent(p, t)) == 1 + Size(t) + Size(p.sibling)
  {
  }

  lemma RotatedSize(x: Tree, p: Path)
    requires x.Node? && p.Up? && p.rest.Up?
    ensures Size(Rotated(x, p)) == Size(Parent(p.rest, Parent(p, x)))
  {
    var g, top := p.rest, Inner(x, p);
    var t := Parent(g, Paint(top, Black));
    TurnSize(Parent(p, x));
    TurnSize(top);
    TurnSize(t);
    TurnSize(Paint(t, Red));
    ParentSize(g, Paint(top, Black));
    ParentSize(g, Parent(p, x));
    assert Rotated(x, p) == if g.goesLeft then RightRotate(Paint(t, Red)) else LeftRotate(Paint(t, Red));
  }

  lemma RecoloredSize(x: Tree, p: Path)
    requires x.Node? && p.Up? && p.rest.Up?
    ensures Size(Recolored(x, p)) == Size(Parent(p.rest, Parent(p, x)))
  {
    var g, top := p.rest, Parent(p, x);
    TurnSize(top);
    TurnSize(g.sibling);
    var h := g.(sibling := Paint(g.sibling, Black));
    ParentSize(h, Paint(top, Black));
    ParentSize(g, top);
    TurnSize(Parent(h, Paint(top, Black)));
  }

  lemma {:induction false} FixupSize(x: Tree, p: Path)
    requires x.Node?
    ensures Size(Fixup(x, p)) == Size(x) + SizePath(p)
    decreases p
  {
    ZipSize(x, p);
    if p.Up? && p.color == Red && p.rest.Up? {
      if IsRed(p.rest.sibling) {
        RecoloredSize(x, p);
        FixupSize(Recolored(x, p), p.rest.rest);
      } else {
        RotatedSize(x, p);
        ZipSize(Rotated(x, p), p.rest.rest);
      }
    }
  }

  lemma {:induction false} AddLeftSize(i: Interval, r: Tree, p: Path)
    ensures var s := AddLeft(i, r, p);
      Size(s.tree) + SizePath(s.path) == Size(r) + SizePath(p) + if s.created then 1 else 0
    decreases r
  {
    if r.Node? && r.val != i.low {
      var m := MarkLeft(r, i, HiOf(p));
      AddLeftSize(i, if r.val < i.low then r.right else r.left, Down(m, i.low < r.val, p));
    }
  }

  lemma {:induction false} AddRightSize(i: Interval, r: Tree, p: Path)
    ensures var s := AddRight(i, r, p);
      Size(s.tree) + SizePath(s.path) == Size(r) + SizePath(p) + if s.created then 1 else 0
    decreases r
  {
    if r.Node? && r.val != i.high {
      var m := MarkRight(r, i, LoOf(p));
      AddRightSize(i, if r.val < i.high then r.right else r.left, Down(m, i.high < r.val, p));
    }
  }

  lemma PlacedSize(s: Spot)
    requires s.tree.Node?
    ensures Size(Placed(s)) == Size(s.tree) + SizePath(s.path)
  {
    ZipSize(s.tree, s.path);
    if s.created { FixupSize(s.tree, s.path); }
  }

  lemma {:induction false} RemoveSize(t: Tree, i: Interval)
    ensures Size(Remove(t, i)) == Size(t)
  {
    if t.Node? {
      RemoveSize(t.left, i);
      RemoveSize(t.right, i);
    }
  }

  // ---------------------------------------------------------------- stored keys

  lemma {:induction false} LeftMarkedKeys(t: Tree, i: Interval, hi: int, x: int)
    ensures HasKey(LeftMarked(t, i, hi), x) <==> HasKey(t, x) || x == i.low
  {
    if t.Node? {
      if t.val < i.low { LeftMarkedKeys(t.right, i, hi, x); }
      else if i.low < t.val { LeftMarkedKeys(t.left, i, t.val, x); }
    }
  }

  lemma {:induction false} RightMarkedKeys(t: Tree, i: Interval, lo: int, x: int)
    ensures HasKey(RightMarked(t, i, lo), x) <==> HasKey(t, x) || x == i.high
  {
    if t.Node? {
      if t.val < i.high { RightMarkedKeys(t.right, i, t.val, x); }
      else if i.high < t.val { RightMarkedKeys(t.left, i, lo, x); }
    }
  }

  lemma {:induction false} RemoveKeys(t: Tree, i: Interval, x: int)
    ensures HasKey(Remove(t, i), x) <==> HasKey(t, x)
  {
    if t.Node? {
      RemoveKeys(t.left, i, x);
      RemoveKeys(t.right, i, x);
    }
  }

  /** Insertion stores the two endpoints and no other value, and loses none. */
  lemma InsertKeys(t: Tree, live: set<Interval>, i: Interval, x: int)
    requires Faithful(t, live) && Proper(i)
    ensures HasKey(Insert(t, i), x) <==> HasKey(t, x) || x == i.low || x == i.high
  {
    var s := AddLeft(i, t, Top);
    AddLeftSpot(i, t, Top);
    AddLeftZips(i, t, Top);
    AddLeftRange(i, t, Top);
    AddLeftHalf(t, live, i);
    PlacedKeeps(s, i.low);
    var t1 := Placed(s);
    RebalanceHalf(LeftMarked(t, i, MAX), t1, live, i);
    LeftMarkedKeys(t, i, MAX, x);

    var u := AddRight(i, t1, Top);
    AddRightSpot(i, t1, Top);
    AddRightZips(i, t1, Top);
    AddRightRange(i, t1, Top);
    AddRightFaithful(t1, live, i);
    PlacedKeeps(u, i.high);
    RightMarkedKeys(t1, i, MIN, x);
  }

  // ------------------------------------------------------------------ histories

  datatype Change = Add(i: Interval) | Drop(i: Interval)

  ghost predicate ProperChanges(cs: seq<Change>) {
    forall k | 0 <= k < |cs| :: Proper(cs[k].i)
  }

  function After(cs: seq<Change>): Tree {
    if cs == [] then Nil
    else
      var t, c := After(cs[..|cs| - 1]), cs[|cs| - 1];
      if c.Add? then Insert(t, c.i) else Remove(t, c.i)
  }

  function Live(cs: seq<Change>): set<Interval> {
    if cs == [] then {}
    else
      var l, c := Live(cs[..|cs| - 1]), cs[|cs| - 1];
      if c.Add? then l + {c.i} else l - {c.i}
  }

  lemma {:induction false} HistoryOk(cs: seq<Change>)
    requires ProperChanges(cs)
    ensures Faithful(After(cs), Live(cs)) && Rb(After(cs)) && !IsRed(After(cs))
  {
    if cs == [] {
      EmptyFaithful();
    } else {
      var cs0, c := cs[..|cs| - 1], cs[|cs| - 1];
      HistoryOk(cs0);
      if c.Add? {
        InsertFaithful(After(cs0), Live(cs0), c.i);
        InsertRb(After(cs0), c.i);
      } else {
        RemoveFaithful(After(cs0), Live(cs0), c.i);
        RemoveRb(After(cs0), c.i);
      }
    }
  }

  /** After any sequence of insertions and removals: the stabbing query and the interval query answer
      as a filter over the live intervals does, and the tree is balanced. */
  lemma HistoryAnswers(cs: seq<Change>, x: int, q: Interval)
    requires ProperChanges(cs) && q.low <= q.high
    ensures Stab(After(cs), x) == set i | i in Live(cs) && Covers(i, x)
    ensures Overlapping(After(cs), q) == set i | i in Live(cs) && Overlap(i, q)
    ensures Shallow(After(cs))
  {
    HistoryOk(cs);
    StabExact(After(cs), Live(cs), x);
    OverlappingExact(After(cs), Live(cs), q);
    HeightBound(After(cs));
  }

  /** The stored endpoints are those of the intervals that were ever inserted: removal leaves them. */
  lemma {:induction false} HistoryKeys(cs: seq<Change>, x: int)
    requires ProperChanges(cs)
    ensures HasKey(After(cs), x) <==>
      exists k :: 0 <= k < |cs| && cs[k].Add? && (x == cs[k].i.low || x == cs[k].i.high)
  {
    if cs != [] {
      var n := |cs| - 1;
      var cs0, c := cs[..n], cs[n];
      HistoryKeys(cs0, x);
      HistoryOk(cs0);
      assert forall k | 0 <= k < n :: cs0[k] == cs[k];
      if c.Add? {
        InsertKeys(After(cs0), Live(cs0), c.i, x);
      } else {
        RemoveKeys(After(cs0), c.i, x);
      }
    }
  }
}
