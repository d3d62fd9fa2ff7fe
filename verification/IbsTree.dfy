/**
 The interval binary search tree of dyninstT/common/IBSTree.h on values: a red-black
 tree over interval endpoints whose nodes carry three mark sets.

 A path is the way from a node up to the root, so `rightUp` and `leftUp` of the
 source are the bounds that a path puts on the subtree below it. Intervals are
 [low, high), and a zero-length interval covers the point low = high.
 */
module IbsTree {

  // numeric_limits of the address type
  const MIN: int := 0
  const MAX: int := 0xFFFF_FFFF_FFFF_FFFF

  datatype Interval = Interval(low: int, high: int, id: nat)

  predicate Proper(i: Interval) { MIN < i.low <= i.high < MAX }

  predicate Covers(i: Interval, x: int) {
    i.low <= x < i.high || (x == i.low && x == i.high)
  }

  datatype Color = Red | Black

  datatype Tree =
    | Nil
    | Node(color: Color, left: Tree, val: int,
           less: set<Interval>, equal: set<Interval>, greater: set<Interval>, right: Tree)

  datatype Path =
    | Top
    | Up(goesLeft: bool, color: Color, val: int,
         less: set<Interval>, equal: set<Interval>, greater: set<Interval>, sibling: Tree, rest: Path)

  function Parent(p: Path, t: Tree): Tree
    requires p.Up?
  {
    if p.goesLeft then Node(p.color, t, p.val, p.less, p.equal, p.greater, p.sibling)
    else Node(p.color, p.sibling, p.val, p.less, p.equal, p.greater, t)
  }

  function Zip(t: Tree, p: Path): Tree
    decreases p
  {
    if p == Top then t else Zip(Parent(p, t), p.rest)
  }

  // rightUp: the nearest ancestor that has the subtree on its left.
  function HiOf(p: Path): int {
    if p == Top then MAX else if p.goesLeft then p.val else HiOf(p.rest)
  }

  // leftUp: the nearest ancestor that has the subtree on its right.
  function LoOf(p: Path): int {
    if p == Top then MIN else if p.goesLeft then LoOf(p.rest) else p.val
  }

  // ---------------------------------------------------------------- operations

  // The right rotation of lines 320-384, marks included.
  function RightRotate(x: Tree): Tree
    requires x.Node? && x.left.Node?
  {
    var y := x.left;
    var low := x.(left := y.right,
                  less := x.less + (y.greater - x.greater),
                  greater := x.greater - y.greater,
                  equal := x.equal - (y.greater * x.greater));
    y.(right := low, less := y.less + x.less, equal := y.equal + x.less, greater := y.greater * x.greater)
  }

  // The left rotation of lines 387-442.
  function LeftRotate(x: Tree): Tree
    requires x.Node? && x.right.Node?
  {
    var y := x.right;
    var low := x.(right := y.left,
                  greater := x.greater + (y.less - x.less),
                  less := x.less - y.less,
                  equal := x.equal - (y.less * x.less));
    y.(left := low, greater := y.greater + x.greater, equal := y.equal + x.greater, less := y.less * x.less)
  }

  function If(b: bool, i: Interval): set<Interval> { if b then {i} else {} }

  function Leaf(val: int): Tree { Node(Red, Nil, val, {}, {}, {}, Nil) }

  // Marks that addLeft and addRight put on a node (lines 479-502 and 548-572).
  function MarkLeft(t: Tree, i: Interval, hi: int): Tree
    requires t.Node?
  {
    if t.val == i.low then t.(equal := t.equal + {i}, greater := t.greater + If(hi <= i.high, i))
    else if t.val < i.low then t
    else t.(equal := t.equal + If(t.val < i.high, i), greater := t.greater + If(hi <= i.high, i))
  }

  function MarkRight(t: Tree, i: Interval, lo: int): Tree
    requires t.Node?
  {
    if t.val == i.high then t.(less := t.less + If(i.low <= lo, i))
    else if t.val > i.high then t
    else t.(equal := t.equal + If(i.low < t.val, i), less := t.less + If(i.low <= lo, i))
  }

  datatype Spot = Spot(tree: Tree, path: Path, created: bool)

  // Step down from a node to one of its children.
  function Down(t: Tree, goLeft: bool, p: Path): Path
    requires t.Node?
  {
    Up(goLeft, t.color, t.val, t.less, t.equal, t.greater, if goLeft then t.right else t.left, p)
  }

  function AddLeft(i: Interval, r: Tree, p: Path): Spot
    decreases r
  {
    if r == Nil then Spot(MarkLeft(Leaf(i.low), i, HiOf(p)), p, true)
    else
      var m := MarkLeft(r, i, HiOf(p));
      if r.val == i.low then Spot(m, p, false)
      else AddLeft(i, if r.val < i.low then r.right else r.left, Down(m, i.low < r.val, p))
  }

  function AddRight(i: Interval, r: Tree, p: Path): Spot
    decreases r
  {
    if r == Nil then Spot(MarkRight(Leaf(i.high), i, LoOf(p)), p, true)
    else
      var m := MarkRight(r, i, LoOf(p));
      if r.val == i.high then Spot(m, p, false)
      else AddRight(i, if r.val < i.high then r.right else r.left, Down(m, i.high < r.val, p))
  }

  function Paint(t: Tree, c: Color): Tree { if t == Nil then Nil else t.(color := c) }

  predicate IsRed(t: Tree) { t.Node? && t.color == Red }

  // One pass of the loop in insertFixup when the parent and the uncle are red (lines 633-637).
  function Recolored(x: Tree, p: Path): Tree
    requires p.Up? && p.rest.Up?
  {
    var g := p.rest;
    Paint(Parent(g.(sibling := Paint(g.sibling, Black)), Paint(Parent(p, x), Black)), Red)
  }

  // The rotations of lines 640-646 and 658-664: the new subtree in the grandparent's place.
  function Rotated(x: Tree, p: Path): Tree
    requires x.Node? && p.Up? && p.rest.Up?
  {
    var g := p.rest;
    if g.goesLeft then
      var top := if p.goesLeft then Parent(p, x) else LeftRotate(Parent(p, x));
      RightRotate(Paint(Parent(g, Paint(top, Black)), Red))
    else
      var top := if p.goesLeft then RightRotate(Parent(p, x)) else Parent(p, x);
      LeftRotate(Paint(Parent(g, Paint(top, Black)), Red))
  }

  // insertFixup (lines 627-669): x is red and has just been put below p.
  function Fixup(x: Tree, p: Path): Tree
    requires x.Node?
    decreases p
  {
    if p == Top || p.color == Black || p.rest == Top then Paint(Zip(x, p), Black)
    else if IsRed(p.rest.sibling) then Fixup(Recolored(x, p), p.rest.rest)
    else Paint(Zip(Rotated(x, p), p.rest.rest), Black)
  }

  function Placed(s: Spot): Tree
    requires s.tree.Node?
  {
    if s.created then Fixup(s.tree, s.path) else Zip(s.tree, s.path)
  }

  function Insert(t: Tree, i: Interval): Tree {
    AddLeftSpot(i, t, Top);
    var t1 := Placed(AddLeft(i, t, Top));
    AddRightSpot(i, t1, Top);
    Placed(AddRight(i, t1, Top))
  }

  lemma {:induction false} AddLeftSpot(i: Interval, r: Tree, p: Path)
    ensures AddLeft(i, r, p).tree.Node?
    decreases r
  {
    if r.Node? && r.val != i.low {
      var m := MarkLeft(r, i, HiOf(p));
      AddLeftSpot(i, if r.val < i.low then r.right else r.left, Down(m, i.low < r.val, p));
    }
  }

  lemma {:induction false} AddRightSpot(i: Interval, r: Tree, p: Path)
    ensures AddRight(i, r, p).tree.Node?
    decreases r
  {
    if r.Node? && r.val != i.high {
      var m := MarkRight(r, i, LoOf(p));
      AddRightSpot(i, if r.val < i.high then r.right else r.left, Down(m, i.high < r.val, p));
    }
  }

  // removeInterval (lines 745-770)
  function Remove(t: Tree, i: Interval): Tree {
    if t == Nil then Nil
    else
      var goLeft := i.low < t.val;
      var goRight := i.low > t.val || i.high > t.val;
      var here := (i.low <= t.val && i.high > t.val) || (i.low == t.val && i.high == t.val);
      t.(less := if goLeft then t.less - {i} else t.less,
         left := if goLeft then Remove(t.left, i) else t.left,
         greater := if goRight then t.greater - {i} else t.greater,
         right := if goRight then Remove(t.right, i) else t.right,
         equal := if here then t.equal - {i} else t.equal)
  }

  // The stabbing query (lines 691-706)
  function Stab(t: Tree, x: int): set<Interval> {
    if t == Nil then {}
    else if x == t.val then t.equal
    else if x < t.val then t.less + Stab(t.left, x)
    else t.greater + Stab(t.right, x)
  }

  // The interval query (lines 719-742)
  function Overlapping(t: Tree, q: Interval): set<Interval> {
    if t == Nil then {}
    else
      (if q.low < t.val then t.less + Overlapping(t.left, q) else {}) +
      (if q.low > t.val || q.high > t.val then t.greater + Overlapping(t.right, q) else {}) +
      (if (q.low <= t.val && q.high > t.val) || (q.low == t.val && q.high == t.val) then t.equal else {})
  }
}
