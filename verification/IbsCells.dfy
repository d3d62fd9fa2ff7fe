/**
 The linked representation of the interval tree: cells with left, right and parent
 links, changed in place. A link is an index into the store of cells; index 0 is the
 black sentinel `nil` of the source, and -1 is the null parent of the root.

 A shape says which cells form a subtree, and a context which cells lie above it, so
 that a pair of them is a position in the tree. The lemmas relate a position to the
 tree and path of module IbsTree that it stands for.
 */
module IbsCells {
  import opened IbsTree

  const NIL: int := 0
  const NULL: int := -1

  datatype Cell = Cell(
    val: int, color: Color, less: set<Interval>, equal: set<Interval>, greater: set<Interval>,
    left: int, right: int, parent: int)

  datatype Shape = Empty | Branch(at: int, left: Shape, right: Shape)

  datatype Context = Root | Above(goesLeft: bool, at: int, sibling: Shape, rest: Context)

  function Ptr(s: Shape): int { if s == Empty then NIL else s.at }

  function UpPtr(c: Context): int { if c == Root then NULL else c.at }

  // The cell at the top when the focus is at `focus`.
  function TopPtr(focus: int, c: Context): int
    decreases c
  {
    if c == Root then focus else TopPtr(c.at, c.rest)
  }

  ghost function Cells(s: Shape): set<int> {
    if s == Empty then {} else {s.at} + Cells(s.left) + Cells(s.right)
  }

  ghost predicate Distinct(s: Shape) {
    s.Branch? ==>
      && s.at !in Cells(s.left) && s.at !in Cells(s.right) && Cells(s.left) !! Cells(s.right)
      && Distinct(s.left) && Distinct(s.right)
  }

  ghost function ContextCells(c: Context): set<int> {
    if c == Root then {} else {c.at} + Cells(c.sibling) + ContextCells(c.rest)
  }

  ghost predicate ContextDistinct(c: Context) {
    c.Above? ==>
      && c.at !in Cells(c.sibling) && c.at !in ContextCells(c.rest) && Cells(c.sibling) !! ContextCells(c.rest)
      && Distinct(c.sibling) && ContextDistinct(c.rest)
  }

  predicate InStore(ns: seq<Cell>, k: int) { 0 < k < |ns| }

  // Child and parent links of the subtree are those of the shape.
  ghost predicate Linked(ns: seq<Cell>, s: Shape, up: int) {
    s.Branch? ==>
      && InStore(ns, s.at)
      && ns[s.at].left == Ptr(s.left) && ns[s.at].right == Ptr(s.right) && ns[s.at].parent == up
      && Linked(ns, s.left, s.at) && Linked(ns, s.right, s.at)
  }

  ghost predicate ContextLinked(ns: seq<Cell>, c: Context, focus: int) {
    c.Above? ==>
      && InStore(ns, c.at)
      && ns[c.at].left == (if c.goesLeft then focus else Ptr(c.sibling))
      && ns[c.at].right == (if c.goesLeft then Ptr(c.sibling) else focus)
      && ns[c.at].parent == UpPtr(c.rest)
      && Linked(ns, c.sibling, c.at)
      && ContextLinked(ns, c.rest, c.at)
  }

  ghost function Abs(ns: seq<Cell>, s: Shape): Tree {
    if s == Empty || !InStore(ns, s.at) then Nil
    else
      var n := ns[s.at];
      Node(n.color, Abs(ns, s.left), n.val, n.less, n.equal, n.greater, Abs(ns, s.right))
  }

  ghost function AbsPath(ns: seq<Cell>, c: Context): Path {
    if c == Root || !InStore(ns, c.at) then Top
    else
      var n := ns[c.at];
      Up(c.goesLeft, n.color, n.val, n.less, n.equal, n.greater, Abs(ns, c.sibling), AbsPath(ns, c.rest))
  }

  // The store holds a tree with this subtree in this context.
  ghost predicate At(ns: seq<Cell>, s: Shape, c: Context) {
    && ns != [] && ns[NIL].color == Black
    && Linked(ns, s, UpPtr(c)) && ContextLinked(ns, c, Ptr(s))
    && Distinct(s) && ContextDistinct(c) && Cells(s) !! ContextCells(c)
  }

  // ------------------------------------------------------------------- framing

  lemma {:induction false} SameSubtree(ns: seq<Cell>, ns': seq<Cell>, s: Shape, up: int)
    requires Linked(ns, s, up) && |ns| <= |ns'|
    requires forall k | k in Cells(s) && InStore(ns, k) :: ns'[k] == ns[k]
    ensures Linked(ns', s, up) && Abs(ns', s) == Abs(ns, s)
  {
    if s.Branch? {
      SameSubtree(ns, ns', s.left, s.at);
      SameSubtree(ns, ns', s.right, s.at);
    }
  }

  lemma {:induction false} SameContext(ns: seq<Cell>, ns': seq<Cell>, c: Context, focus: int)
    requires ContextLinked(ns, c, focus) && |ns| <= |ns'|
    requires forall k | k in ContextCells(c) && InStore(ns, k) :: ns'[k] == ns[k]
    ensures ContextLinked(ns', c, focus) && AbsPath(ns', c) == AbsPath(ns, c)
  {
    if c.Above? {
      SameSubtree(ns, ns', c.sibling, c.at);
      SameContext(ns, ns', c.rest, c.at);
    }
  }

  // -------------------------------------------------------------- moving around

  function DownShape(s: Shape, goLeft: bool): Shape
    requires s.Branch?
  {
    if goLeft then s.left else s.right
  }

  function DownContext(s: Shape, goLeft: bool, c: Context): Context
    requires s.Branch?
  {
    Above(goLeft, s.at, if goLeft then s.right else s.left, c)
  }

  function UpShape(s: Shape, c: Context): Shape
    requires c.Above?
  {
    if c.goesLeft then Branch(c.at, s, c.sibling) else Branch(c.at, c.sibling, s)
  }

  lemma GoDown(ns: seq<Cell>, s: Shape, c: Context, goLeft: bool)
    requires At(ns, s, c) && s.Branch?
    ensures At(ns, DownShape(s, goLeft), DownContext(s, goLeft, c))
    ensures AbsPath(ns, DownContext(s, goLeft, c)) == Down(Abs(ns, s), goLeft, AbsPath(ns, c))
    ensures TopPtr(Ptr(DownShape(s, goLeft)), DownContext(s, goLeft, c)) == TopPtr(Ptr(s), c)
  {
  }

  lemma GoUp(ns: seq<Cell>, s: Shape, c: Context)
    requires At(ns, s, c) && c.Above?
    ensures At(ns, UpShape(s, c), c.rest)
    ensures Abs(ns, UpShape(s, c)) == Parent(AbsPath(ns, c), Abs(ns, s))
    ensures AbsPath(ns, c).rest == AbsPath(ns, c.rest)
    ensures TopPtr(Ptr(UpShape(s, c)), c.rest) == TopPtr(Ptr(s), c)
  {
  }

  // The shape of the whole tree.
  function Whole(s: Shape, c: Context): Shape
    decreases c
  {
    if c == Root then s else Whole(UpShape(s, c), c.rest)
  }

  lemma {:induction false} GoToTop(ns: seq<Cell>, s: Shape, c: Context)
    requires At(ns, s, c)
    ensures At(ns, Whole(s, c), Root)
    ensures Abs(ns, Whole(s, c)) == Zip(Abs(ns, s), AbsPath(ns, c))
    ensures Ptr(Whole(s, c)) == TopPtr(Ptr(s), c)
    decreases c
  {
    if c.Above? {
      GoUp(ns, s, c);
      GoToTop(ns, UpShape(s, c), c.rest);
    }
  }

  // ------------------------------------------------------------------- updates

  predicate SameLinks(a: Cell, b: Cell) { a.left == b.left && a.right == b.right && a.parent == b.parent }

  function Payload(n: Cell, l: Tree, r: Tree): Tree {
    Node(n.color, l, n.val, n.less, n.equal, n.greater, r)
  }

  // Changing colour or marks of the cell in focus.
  lemma UpdateFocus(ns: seq<Cell>, s: Shape, c: Context, n: Cell)
    requires At(ns, s, c) && s.Branch? && SameLinks(n, ns[s.at])
    ensures var ns' := ns[s.at := n];
      && At(ns', s, c) && AbsPath(ns', c) == AbsPath(ns, c)
      && Abs(ns', s) == Payload(n, Abs(ns, s).left, Abs(ns, s).right)
  {
    var ns' := ns[s.at := n];
    SameSubtree(ns, ns', s.left, s.at);
    SameSubtree(ns, ns', s.right, s.at);
    SameContext(ns, ns', c, s.at);
  }

  // Giving a subtree another parent cell.
  lemma Reparent(ns: seq<Cell>, ns': seq<Cell>, s: Shape, up: int, up': int)
    requires Linked(ns, s, up) && Distinct(s) && |ns| <= |ns'|
    requires forall k | k in Cells(s) && InStore(ns, k) && k != Ptr(s) :: ns'[k] == ns[k]
    requires s.Branch? ==> ns'[s.at] == ns[s.at].(parent := up')
    ensures Linked(ns', s, up') && Abs(ns', s) == Abs(ns, s)
  {
    if s.Branch? {
      SameSubtree(ns, ns', s.left, s.at);
      SameSubtree(ns, ns', s.right, s.at);
    }
  }

  // Putting another cell into the focus of a context.
  function Refocused(n: Cell, goesLeft: bool, focus: int): Cell {
    if goesLeft then n.(left := focus) else n.(right := focus)
  }

  lemma Refocus(ns: seq<Cell>, ns': seq<Cell>, c: Context, focus: int, focus': int)
    requires ContextLinked(ns, c, focus) && ContextDistinct(c) && |ns| <= |ns'|
    requires forall k | k in ContextCells(c) && InStore(ns, k) && k != UpPtr(c) :: ns'[k] == ns[k]
    requires c.Above? ==> ns'[c.at] == Refocused(ns[c.at], c.goesLeft, focus')
    ensures ContextLinked(ns', c, focus') && AbsPath(ns', c) == AbsPath(ns, c)
  {
    if c.Above? {
      SameSubtree(ns, ns', c.sibling, c.at);
      SameContext(ns, ns', c.rest, c.at);
    }
  }

  // Hanging a new cell into an empty place.
  lemma AppendLeaf(ns: seq<Cell>, c: Context, val: int)
    requires At(ns, Empty, c)
    ensures
      var k := |ns|;
      var grown := ns + [Cell(val, Red, {}, {}, {}, NIL, NIL, UpPtr(c))];
      var ns' := if c.Above? then grown[c.at := Refocused(ns[c.at], c.goesLeft, k)] else grown;
      && At(ns', Branch(k, Empty, Empty), c)
      && Abs(ns', Branch(k, Empty, Empty)) == Leaf(val) && AbsPath(ns', c) == AbsPath(ns, c)
  {
    var k := |ns|;
    var grown := ns + [Cell(val, Red, {}, {}, {}, NIL, NIL, UpPtr(c))];
    var ns' := if c.Above? then grown[c.at := Refocused(ns[c.at], c.goesLeft, k)] else grown;
    CellsInStore(ns, c, NIL);
    Refocus(ns, ns', c, NIL, k);
  }

  lemma {:induction false} SubtreeInStore(ns: seq<Cell>, s: Shape, up: int)
    requires Linked(ns, s, up)
    ensures forall k | k in Cells(s) :: InStore(ns, k)
  {
    if s.Branch? {
      SubtreeInStore(ns, s.left, s.at);
      SubtreeInStore(ns, s.right, s.at);
    }
  }

  lemma {:induction false} CellsInStore(ns: seq<Cell>, c: Context, focus: int)
    requires ContextLinked(ns, c, focus)
    ensures forall k | k in ContextCells(c) :: InStore(ns, k)
  {
    if c.Above? {
      SubtreeInStore(ns, c.sibling, c.at);
      CellsInStore(ns, c.rest, c.at);
    }
  }

  // ----------------------------------------------------------- right rotation

  function RightTurned(s: Shape): Shape
    requires s.Branch? && s.left.Branch?
  {
    Branch(s.left.at, s.left.left, Branch(s.at, s.left.right, s.right))
  }

  // The links after the rotation, cell by cell.
  ghost predicate RightRelinked(ns: seq<Cell>, ns': seq<Cell>, s: Shape, c: Context)
    requires At(ns, s, c) && s.Branch? && s.left.Branch?
  {
    var x, y, b := s.at, s.left.at, s.left.right;
    && |ns'| == |ns| && InStore(ns, y) && (b.Branch? ==> InStore(ns, b.at))
    && ns'[x] == ns[x].(left := Ptr(b), parent := y)
    && ns'[y] == ns[y].(right := x, parent := UpPtr(c))
    && (b.Branch? ==> ns'[b.at] == ns[b.at].(parent := x))
    && (c.Above? ==> ns'[c.at] == Refocused(ns[c.at], c.goesLeft, y))
    && ns'[NIL] == ns[NIL]
    && forall k | 0 <= k < |ns| && k != x && k != y && k != Ptr(b) && k != UpPtr(c) :: ns'[k] == ns[k]
  }

  lemma RightParts(s: Shape)
    requires s.Branch? && s.left.Branch? && Distinct(s)
    ensures var x, y, a, b, d := s.at, s.left.at, Cells(s.left.left), Cells(s.left.right), Cells(s.right);
      && x != y && x !in a + b + d && y !in a + b + d && a !! b && a !! d && b !! d
      && Cells(s) == {x, y} + a + b + d
      && Distinct(s.left.left) && Distinct(s.left.right) && Distinct(s.right)
      && Distinct(RightTurned(s)) && Cells(RightTurned(s)) == Cells(s)
  {
    assert Distinct(s.left);
  }

  lemma RightRelinkedTree(ns: seq<Cell>, ns': seq<Cell>, s: Shape, c: Context)
    requires At(ns, s, c) && s.Branch? && s.left.Branch? && RightRelinked(ns, ns', s, c)
    ensures At(ns', RightTurned(s), c) && AbsPath(ns', c) == AbsPath(ns, c)
    ensures var x := Abs(ns, s);
      x.Node? && x.left.Node? && Abs(ns', RightTurned(s)) == x.left.(right := x.(left := x.left.right))
  {
    assert Linked(ns, s.left, s.at);
    RightParts(s);
    var x, y := s.at, s.left.at;
    SubtreeInStore(ns, s, UpPtr(c));
    CellsInStore(ns, c, x);
    SameSubtree(ns, ns', s.left.left, y);
    Reparent(ns, ns', s.left.right, y, x);
    SameSubtree(ns, ns', s.right, x);
    Refocus(ns, ns', c, x, y);
  }

  // ----------------------------------------------------------- left rotation

  function LeftTurned(s: Shape): Shape
    requires s.Branch? && s.right.Branch?
  {
    Branch(s.right.at, Branch(s.at, s.left, s.right.left), s.right.right)
  }

  // The links after the rotation, cell by cell.
  ghost predicate LeftRelinked(ns: seq<Cell>, ns': seq<Cell>, s: Shape, c: Context)
    requires At(ns, s, c) && s.Branch? && s.right.Branch?
  {
    var x, y, b := s.at, s.right.at, s.right.left;
    && |ns'| == |ns| && InStore(ns, y) && (b.Branch? ==> InStore(ns, b.at))
    && ns'[x] == ns[x].(right := Ptr(b), parent := y)
    && ns'[y] == ns[y].(left := x, parent := UpPtr(c))
    && (b.Branch? ==> ns'[b.at] == ns[b.at].(parent := x))
    && (c.Above? ==> ns'[c.at] == Refocused(ns[c.at], c.goesLeft, y))
    && ns'[NIL] == ns[NIL]
    && forall k | 0 <= k < |ns| && k != x && k != y && k != Ptr(b) && k != UpPtr(c) :: ns'[k] == ns[k]
  }

  lemma LeftParts(s: Shape)
    requires s.Branch? && s.right.Branch? && Distinct(s)
    ensures var x, y, a, b, d := s.at, s.right.at, Cells(s.right.right), Cells(s.right.left), Cells(s.left);
      && x != y && x !in a + b + d && y !in a + b + d && a !! b && a !! d && b !! d
      && Cells(s) == {x, y} + a + b + d
      && Distinct(s.right.right) && Distinct(s.right.left) && Distinct(s.left)
      && Distinct(LeftTurned(s)) && Cells(LeftTurned(s)) == Cells(s)
  {
    assert Distinct(s.right);
  }

  lemma LeftRelinkedTree(ns: seq<Cell>, ns': seq<Cell>, s: Shape, c: Context)
    requires At(ns, s, c) && s.Branch? && s.right.Branch? && LeftRelinked(ns, ns', s, c)
    ensures At(ns', LeftTurned(s), c) && AbsPath(ns', c) == AbsPath(ns, c)
    ensures var x := Abs(ns, s);
      x.Node? && x.right.Node? && Abs(ns', LeftTurned(s)) == x.right.(left := x.(right := x.right.left))
  {
    assert Linked(ns, s.right, s.at);
    LeftParts(s);
    var x, y := s.at, s.right.at;
    SubtreeInStore(ns, s, UpPtr(c));
    CellsInStore(ns, c, x);
    SameSubtree(ns, ns', s.right.right, y);
    Reparent(ns, ns', s.right.left, y, x);
    SameSubtree(ns, ns', s.left, x);
    Refocus(ns, ns', c, x, y);
  }

  // The stores of lines 325-340, in order: x is the pivot, y its left child, b the subtree that changes sides.
  function RightStores(ns: seq<Cell>, x: int, y: int, b: int, up: int): seq<Cell>
    requires 0 <= x < |ns| && 0 <= y < |ns| && 0 <= b < |ns| && NULL <= up < |ns|
  {
    var ns1 := ns[x := ns[x].(left := b)];
    var ns2 := if b != NIL then ns1[b := ns1[b].(parent := x)] else ns1;
    var ns3 := ns2[y := ns2[y].(parent := up)];
    var ns4 := if up == NULL then ns3
               else if x == ns3[up].left then ns3[up := ns3[up].(left := y)]
               else ns3[up := ns3[up].(right := y)];
    var ns5 := ns4[y := ns4[y].(right := x)];
    ns5[x := ns5[x].(parent := y)]
  }

  lemma RightStoresCells(ns: seq<Cell>, x: int, y: int, b: int, up: int)
    requires 0 < x < |ns| && 0 < y < |ns| && 0 <= b < |ns| && NULL <= up < |ns|
    requires x != y && b != x && b != y && up != x && up != y && up != NIL && up != b
    ensures var ns' := RightStores(ns, x, y, b, up);
      && |ns'| == |ns|
      && ns'[x] == ns[x].(left := b, parent := y) && ns'[y] == ns[y].(right := x, parent := up)
      && (b != NIL ==> ns'[b] == ns[b].(parent := x))
      && (up != NULL ==> ns'[up] == if ns[up].left == x then ns[up].(left := y) else ns[up].(right := y))
      && forall k | 0 <= k < |ns| && k != x && k != y && (k != b || k == NIL) && k != up :: ns'[k] == ns[k]
  {
  }

  // Where the cells involved in the rotation are.
  lemma RightStoresPlaces(ns: seq<Cell>, s: Shape, c: Context)
    requires At(ns, s, c) && s.Branch? && s.left.Branch?
    ensures var x, y, b, up := s.at, s.left.at, Ptr(s.left.right), UpPtr(c);
      && InStore(ns, x) && InStore(ns, y) && 0 <= b < |ns| && NULL <= up < |ns|
      && ns[x].left == y && ns[y].right == b && ns[x].parent == up
      && x != y && b != x && b != y && up != x && up != y && up != NIL && up != b
      && (s.left.right.Branch? ==> b != NIL)
      && (c.Above? ==> InStore(ns, up) && (ns[up].left == x <==> c.goesLeft))
  {
    RightParts(s);
    SubtreeInStore(ns, s, UpPtr(c));
    CellsInStore(ns, c, s.at);
    assert Linked(ns, s.left, s.at);
    var x, y, b, up := s.at, s.left.at, Ptr(s.left.right), UpPtr(c);
    assert x in Cells(s) && y in Cells(s) && (b != NIL ==> b in Cells(s)) && (up != NULL ==> up in ContextCells(c));
    if c.Above? && !c.goesLeft {
      assert Ptr(c.sibling) != NIL ==> Ptr(c.sibling) in ContextCells(c);
    }
  }

  lemma RightStoresRelink(ns: seq<Cell>, s: Shape, c: Context)
    requires At(ns, s, c) && s.Branch? && s.left.Branch?
    ensures var x, y, b, up := s.at, s.left.at, Ptr(s.left.right), UpPtr(c);
      && InStore(ns, x) && InStore(ns, y) && 0 <= b < |ns| && NULL <= up < |ns|
      && ns[x].left == y && ns[y].right == b && ns[x].parent == up && x != y && b != x && b != y
      && RightRelinked(ns, RightStores(ns, x, y, b, up), s, c)
  {
    RightStoresPlaces(ns, s, c);
    RightStoresCells(ns, s.at, s.left.at, Ptr(s.left.right), UpPtr(c));
  }

  // The stores of lines 392-409, in order: x is the pivot, y its right child, b the subtree that changes sides.
  function LeftStores(ns: seq<Cell>, x: int, y: int, b: int, up: int): seq<Cell>
    requires 0 <= x < |ns| && 0 <= y < |ns| && 0 <= b < |ns| && NULL <= up < |ns|
  {
    var ns1 := ns[x := ns[x].(right := b)];
    var ns2 := if b != NIL then ns1[b := ns1[b].(parent := x)] else ns1;
    var ns3 := ns2[y := ns2[y].(parent := up)];
    var ns4 := if up == NULL then ns3
               else if x == ns3[up].left then ns3[up := ns3[up].(left := y)]
               else ns3[up := ns3[up].(right := y)];
    var ns5 := ns4[y := ns4[y].(left := x)];
    ns5[x := ns5[x].(parent := y)]
  }

  lemma LeftStoresCells(ns: seq<Cell>, x: int, y: int, b: int, up: int)
    requires 0 < x < |ns| && 0 < y < |ns| && 0 <= b < |ns| && NULL <= up < |ns|
    requires x != y && b != x && b != y && up != x && up != y && up != NIL && up != b
    ensures var ns' := LeftStores(ns, x, y, b, up);
      && |ns'| == |ns|
      && ns'[x] == ns[x].(right := b, parent := y) && ns'[y] == ns[y].(left := x, parent := up)
      && (b != NIL ==> ns'[b] == ns[b].(parent := x))
      && (up != NULL ==> ns'[up] == if ns[up].left == x then ns[up].(left := y) else ns[up].(right := y))
      && forall k | 0 <= k < |ns| && k != x && k != y && (k != b || k == NIL) && k != up :: ns'[k] == ns[k]
  {
  }

  // Where the cells involved in the rotation are.
  lemma LeftStoresPlaces(ns: seq<Cell>, s: Shape, c: Context)
    requires At(ns, s, c) && s.Branch? && s.right.Branch?
    ensures var x, y, b, up := s.at, s.right.at, Ptr(s.right.left), UpPtr(c);
      && InStore(ns, x) && InStore(ns, y) && 0 <= b < |ns| && NULL <= up < |ns|
      && ns[x].right == y && ns[y].left == b && ns[x].parent == up
      && x != y && b != x && b != y && up != x && up != y && up != NIL && up != b
      && (s.right.left.Branch? ==> b != NIL)
      && (c.Above? ==> InStore(ns, up) && (ns[up].left == x <==> c.goesLeft))
  {
    LeftParts(s);
    SubtreeInStore(ns, s, UpPtr(c));
    CellsInStore(ns, c, s.at);
    assert Linked(ns, s.right, s.at);
    var x, y, b, up := s.at, s.right.at, Ptr(s.right.left), UpPtr(c);
    assert x in Cells(s) && y in Cells(s) && (b != NIL ==> b in Cells(s)) && (up != NULL ==> up in ContextCells(c));
    if c.Above? && !c.goesLeft {
      assert Ptr(c.sibling) != NIL ==> Ptr(c.sibling) in ContextCells(c);
    }
  }

  lemma LeftStoresRelink(ns: seq<Cell>, s: Shape, c: Context)
    requires At(ns, s, c) && s.Branch? && s.right.Branch?
    ensures var x, y, b, up := s.at, s.right.at, Ptr(s.right.left), UpPtr(c);
      && InStore(ns, x) && InStore(ns, y) && 0 <= b < |ns| && NULL <= up < |ns|
      && ns[x].right == y && ns[y].left == b && ns[x].parent == up && x != y && b != x && b != y
      && LeftRelinked(ns, LeftStores(ns, x, y, b, up), s, c)
  {
    LeftStoresPlaces(ns, s, c);
    LeftStoresCells(ns, s.at, s.right.at, Ptr(s.right.left), UpPtr(c));
  }
}
