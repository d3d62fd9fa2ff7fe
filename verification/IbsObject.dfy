/**
 The interval tree as the source works on it: cells, child and parent links, colours and
 mark sets are changed in place, step by step. Every method is proved against the
 function on trees that it computes, and the public methods against the set of live
 intervals.
 */
module IbsObject {
  import opened IbsTree
  import opened IbsMarks
  import opened IbsInsert
  import opened IbsBalance
  import opened IbsSuccessor
  import opened IbsCells

  class IntervalTree {
    var nodes: seq<Cell>
    var root: int
    var size: nat
    ghost var shape: Shape
    ghost var live: set<Interval>

    // The cells form a tree with this position in it.
    ghost predicate Here(s: Shape, c: Context)
      reads this
    {
      At(nodes, s, c) && root == TopPtr(Ptr(s), c)
    }

    ghost function Model(): Tree
      reads this
    {
      Abs(nodes, shape)
    }

    /** Links, search order, marks, colours and size are all as they should be. */
    ghost predicate Valid()
      reads this
    {
      && Here(shape, Root)
      && Faithful(Model(), live)
      && Rb(Model()) && !IsRed(Model())
      && size == Size(Model())
    }

    constructor ()
      ensures Valid() && live == {}
    {
      nodes := [Cell(0, Black, {}, {}, {}, NULL, NULL, NULL)];
      root := NIL;
      size := 0;
      shape := Empty;
      live := {};
      new;
      EmptyFaithful();
    }

    // ------------------------------------------------------------------ rotations

    method RelinkRight(pivot: int, ghost s: Shape, ghost c: Context)
      requires Here(s, c) && s.Branch? && s.left.Branch? && pivot == s.at
      modifies `nodes, `root
      ensures Here(RightTurned(s), c) && AbsPath(nodes, c) == old(AbsPath(nodes, c))
      ensures var x := old(Abs(nodes, s));
        x.Node? && x.left.Node? && Abs(nodes, RightTurned(s)) == x.left.(right := x.(left := x.left.right))
    {
      ghost var ns := nodes;
      RightStoresRelink(ns, s, c);
      var y := nodes[pivot].left;
      var b := nodes[y].right;
      nodes := nodes[pivot := nodes[pivot].(left := b)];
      if b != NIL {
        nodes := nodes[b := nodes[b].(parent := pivot)];
      }
      var up := nodes[pivot].parent;
      nodes := nodes[y := nodes[y].(parent := up)];
      if up == NULL {
        root := y;
      } else if pivot == nodes[up].left {
        nodes := nodes[up := nodes[up].(left := y)];
      } else {
        nodes := nodes[up := nodes[up].(right := y)];
      }
      nodes := nodes[y := nodes[y].(right := pivot)];
      nodes := nodes[pivot := nodes[pivot].(parent := y)];
      assert nodes == RightStores(ns, pivot, y, b, up);
      RightRelinkedTree(ns, nodes, s, c);
    }

    method RelinkLeft(pivot: int, ghost s: Shape, ghost c: Context)
      requires Here(s, c) && s.Branch? && s.right.Branch? && pivot == s.at
      modifies `nodes, `root
      ensures Here(LeftTurned(s), c) && AbsPath(nodes, c) == old(AbsPath(nodes, c))
      ensures var x := old(Abs(nodes, s));
        x.Node? && x.right.Node? && Abs(nodes, LeftTurned(s)) == x.right.(left := x.(right := x.right.left))
    {
      ghost var ns := nodes;
      LeftStoresRelink(ns, s, c);
      var y := nodes[pivot].right;
      var b := nodes[y].left;
      nodes := nodes[pivot := nodes[pivot].(right := b)];
      if b != NIL {
        nodes := nodes[b := nodes[b].(parent := pivot)];
      }
      var up := nodes[pivot].parent;
      nodes := nodes[y := nodes[y].(parent := up)];
      if up == NULL {
        root := y;
      } else if pivot == nodes[up].left {
        nodes := nodes[up := nodes[up].(left := y)];
      } else {
        nodes := nodes[up := nodes[up].(right := y)];
      }
      nodes := nodes[y := nodes[y].(left := pivot)];
      nodes := nodes[pivot := nodes[pivot].(parent := y)];
      assert nodes == LeftStores(ns, pivot, y, b, up);
      LeftRelinkedTree(ns, nodes, s, c);
    }

    // The mark repair of lines 342-383; x is the pivot, y the node that moved up.
    method MoveMarksRight(x: int, y: int)
      requires InStore(nodes, x) && InStore(nodes, y) && x != y
      modifies `nodes
      ensures var p, q := old(nodes[x]), old(nodes[y]);
        nodes == old(nodes)[x := RightPivot(p, q.greater)][y := RightRiser(p, q, q.greater)]
    {
      ghost var p, q := nodes[x], nodes[y];
      var pivot, riser := nodes[x], nodes[y];
      riser := riser.(less := riser.less + pivot.less);
      riser := riser.(equal := riser.equal + pivot.less);
      var rest := riser.greater;
      RightMarksStart(p, q);
      while rest != {}
        invariant rest <= q.greater && nodes == old(nodes)
        invariant pivot == RightPivot(p, q.greater - rest) && riser == RightRiser(p, q, q.greater - rest)
        decreases |rest|
      {
        var tmp :| tmp in rest;
        RightMarksStep(p, q, rest, tmp);
        if tmp !in pivot.greater {
          pivot := pivot.(less := pivot.less + {tmp});
          riser := riser.(greater := riser.greater - {tmp});
        } else {
          pivot := pivot.(greater := pivot.greater - {tmp});
          pivot := pivot.(equal := pivot.equal - {tmp});
        }
        rest := rest - {tmp};
      }
      assert q.greater - rest == q.greater;
      nodes := nodes[x := pivot][y := riser];
    }

    /** rightRotate: the linked cells change as the right rotation of the tree does, parent links included. */
    method RightRotate(pivot: int, ghost s: Shape, ghost c: Context) returns (ghost s': Shape)
      requires Here(s, c) && pivot == Ptr(s)
      modifies `nodes, `root
      ensures Here(s', c) && AbsPath(nodes, c) == old(AbsPath(nodes, c))
      ensures s.Branch? && s.left.Branch? ==>
        && s' == RightTurned(s) && old(Abs(nodes, s)).Node? && old(Abs(nodes, s)).left.Node?
        && Abs(nodes, s') == IbsTree.RightRotate(old(Abs(nodes, s)))
      ensures !(s.Branch? && s.left.Branch?) ==> s' == s && nodes == old(nodes) && root == old(root)
    {
      s' := s;
      if pivot == NULL || pivot == NIL { return; }
      var y := nodes[pivot].left;
      assert Linked(nodes, s.left, s.at);
      if y == NIL { return; }
      s' := RightTurned(s);
      RelinkRight(pivot, s, c);
      RightMarksTree(nodes, s', c);
      MoveMarksRight(pivot, y);
    }

    // The mark repair of lines 411-441; x is the pivot, y the node that moved up.
    method MoveMarksLeft(x: int, y: int)
      requires InStore(nodes, x) && InStore(nodes, y) && x != y
      modifies `nodes
      ensures var p, q := old(nodes[x]), old(nodes[y]);
        nodes == old(nodes)[x := LeftPivot(p, q.less)][y := LeftRiser(p, q, q.less)]
    {
      ghost var p, q := nodes[x], nodes[y];
      var pivot, riser := nodes[x], nodes[y];
      riser := riser.(greater := riser.greater + pivot.greater);
      riser := riser.(equal := riser.equal + pivot.greater);
      var rest := riser.less;
      LeftMarksStart(p, q);
      while rest != {}
        invariant rest <= q.less && nodes == old(nodes)
        invariant pivot == LeftPivot(p, q.less - rest) && riser == LeftRiser(p, q, q.less - rest)
        decreases |rest|
      {
        var tmp :| tmp in rest;
        LeftMarksStep(p, q, rest, tmp);
        if tmp !in pivot.less {
          pivot := pivot.(greater := pivot.greater + {tmp});
          riser := riser.(less := riser.less - {tmp});
        } else {
          pivot := pivot.(less := pivot.less - {tmp});
          pivot := pivot.(equal := pivot.equal - {tmp});
        }
        rest := rest - {tmp};
      }
      assert q.less - rest == q.less;
      nodes := nodes[x := pivot][y := riser];
    }

    /** leftRotate: the linked cells change as the left rotation of the tree does, parent links included. */
    method LeftRotate(pivot: int, ghost s: Shape, ghost c: Context) returns (ghost s': Shape)
      requires Here(s, c) && pivot == Ptr(s)
      modifies `nodes, `root
      ensures Here(s', c) && AbsPath(nodes, c) == old(AbsPath(nodes, c))
      ensures s.Branch? && s.right.Branch? ==>
        && s' == LeftTurned(s) && old(Abs(nodes, s)).Node? && old(Abs(nodes, s)).right.Node?
        && Abs(nodes, s') == IbsTree.LeftRotate(old(Abs(nodes, s)))
      ensures !(s.Branch? && s.right.Branch?) ==> s' == s && nodes == old(nodes) && root == old(root)
    {
      s' := s;
      if pivot == NULL || pivot == NIL { return; }
      var y := nodes[pivot].right;
      assert Linked(nodes, s.right, s.at);
      if y == NIL { return; }
      s' := LeftTurned(s);
      RelinkLeft(pivot, s, c);
      LeftMarksTree(nodes, s', c);
      MoveMarksLeft(pivot, y);
    }

    // ------------------------------------------------------------- bounds (598-623)

    method RightUp(at: int, ghost s: Shape, ghost c: Context) returns (bound: int)
      requires Here(s, c) && s.Branch? && at == Ptr(s)
      ensures bound == HiOf(AbsPath(nodes, c))
    {
      var r := at;
      ghost var t, d := s, c;
      while nodes[r].parent != NULL
        invariant At(nodes, t, d) && t.Branch? && r == Ptr(t)
        invariant HiOf(AbsPath(nodes, d)) == HiOf(AbsPath(nodes, c))
        decreases d
      {
        var up := nodes[r].parent;
        SideOfParent(nodes, t, d);
        if nodes[up].left == r { return nodes[up].val; }
        GoUp(nodes, t, d);
        t, d := UpShape(t, d), d.rest;
        r := up;
      }
      RootHasNoParent(nodes, t, d);
      return MAX;
    }

    method LeftUp(at: int, ghost s: Shape, ghost c: Context) returns (bound: int)
      requires Here(s, c) && s.Branch? && at == Ptr(s)
      ensures bound == LoOf(AbsPath(nodes, c))
    {
      var r := at;
      ghost var t, d := s, c;
      while nodes[r].parent != NULL
        invariant At(nodes, t, d) && t.Branch? && r == Ptr(t)
        invariant LoOf(AbsPath(nodes, d)) == LoOf(AbsPath(nodes, c))
        decreases d
      {
        var up := nodes[r].parent;
        SideOfParent(nodes, t, d);
        if nodes[up].right == r { return nodes[up].val; }
        GoUp(nodes, t, d);
        t, d := UpShape(t, d), d.rest;
        r := up;
      }
      RootHasNoParent(nodes, t, d);
      return MIN;
    }

    // ---------------------------------------------------------- insertion (445-592)

    // A new red cell in the empty place below `parent`; `val` decides the side.
    method CreateLeaf(val: int, parent: int, ghost c: Context) returns (tmp: int)
      requires Here(Empty, c) && parent == UpPtr(c)
      requires OnTheWay(nodes, c, val)
      modifies `nodes, `root, `size
      ensures Here(Branch(tmp, Empty, Empty), c) && AbsPath(nodes, c) == old(AbsPath(nodes, c))
      ensures Abs(nodes, Branch(tmp, Empty, Empty)) == Leaf(val) && size == old(size) + 1
    {
      AppendLeaf(nodes, c, val);
      CellsInStore(nodes, c, NIL);
      TopOfContext(NIL, |nodes|, c);
      tmp := |nodes|;
      size := size + 1;
      nodes := nodes + [Cell(val, Red, {}, {}, {}, NIL, NIL, parent)];
      if parent == NULL {
        root := tmp;
      } else if nodes[tmp].val < nodes[parent].val {
        nodes := nodes[parent := nodes[parent].(left := tmp)];
      } else {
        nodes := nodes[parent := nodes[parent].(right := tmp)];
      }
    }

    // The marks that addLeft puts on a cell at or above the low endpoint (lines 479-483 and 495-501).
    method MarkLeftCell(r: int, i: Interval, ghost s: Shape, ghost c: Context)
      requires Here(s, c) && s.Branch? && r == Ptr(s) && Abs(nodes, s).Node? && i.low <= Abs(nodes, s).val
      modifies `nodes
      ensures Here(s, c) && AbsPath(nodes, c) == old(AbsPath(nodes, c))
      ensures Abs(nodes, s) == MarkLeft(old(Abs(nodes, s)), i, HiOf(old(AbsPath(nodes, c))))
    {
      var bound := RightUp(r, s, c);
      var n := nodes[r];
      if n.val == i.low {
        if bound <= i.high { n := n.(greater := n.greater + {i}); }
        n := n.(equal := n.equal + {i});
      } else {
        if n.val < i.high { n := n.(equal := n.equal + {i}); }
        if bound <= i.high { n := n.(greater := n.greater + {i}); }
      }
      UpdateFocus(nodes, s, c, n);
      nodes := nodes[r := n];
    }

    // The marks that addRight puts on a cell at or below the high endpoint (lines 548-572).
    method MarkRightCell(r: int, i: Interval, ghost s: Shape, ghost c: Context)
      requires Here(s, c) && s.Branch? && r == Ptr(s) && Abs(nodes, s).Node? && Abs(nodes, s).val <= i.high
      modifies `nodes
      ensures Here(s, c) && AbsPath(nodes, c) == old(AbsPath(nodes, c))
      ensures Abs(nodes, s) == MarkRight(old(Abs(nodes, s)), i, LoOf(old(AbsPath(nodes, c))))
    {
      var bound := LeftUp(r, s, c);
      var n := nodes[r];
      if n.val == i.high {
        if bound >= i.low { n := n.(less := n.less + {i}); }
      } else {
        if n.val > i.low { n := n.(equal := n.equal + {i}); }
        if bound >= i.low { n := n.(less := n.less + {i}); }
      }
      UpdateFocus(nodes, s, c, n);
      nodes := nodes[r := n];
    }

    /** addLeft: walks down to the low endpoint and marks on the way; returns the new cell, or NULL. */
    method AddLeft(i: Interval) returns (x: int, ghost s: Shape, ghost c: Context)
      requires Here(shape, Root)
      modifies `nodes, `root, `size
      ensures Here(s, c) && s.Branch?
      ensures var goal := IbsTree.AddLeft(i, old(Model()), Top);
        && Abs(nodes, s) == goal.tree && AbsPath(nodes, c) == goal.path
        && (x != NULL <==> goal.created) && (x != NULL ==> x == Ptr(s))
        && size == old(size) + if goal.created then 1 else 0
    {
      ghost var goal := IbsTree.AddLeft(i, Model(), Top);
      s, c := shape, Root;
      var r, parent := root, NULL;
      while r != NIL
        invariant Here(s, c) && r == Ptr(s) && parent == UpPtr(c) && size == old(size)
        invariant IbsTree.AddLeft(i, Abs(nodes, s), AbsPath(nodes, c)) == goal
        invariant OnTheWay(nodes, c, i.low)
        decreases s
      {
        AddLeftMoves(i, Abs(nodes, s), AbsPath(nodes, c));
        var rval := nodes[r].val;
        parent := r;
        if rval < i.low {
          GoDown(nodes, s, c, false);
          r := nodes[r].right;
          s, c := DownShape(s, false), DownContext(s, false, c);
        } else {
          MarkLeftCell(r, i, s, c);
          if rval == i.low { return NULL, s, c; }
          GoDown(nodes, s, c, true);
          r := nodes[r].left;
          s, c := DownShape(s, true), DownContext(s, true, c);
        }
      }
      NilIsEmpty(nodes, s, c);
      x := CreateLeaf(i.low, parent, c);
      s := Branch(x, Empty, Empty);
      MarkLeftCell(x, i, s, c);
    }

    /** addRight: walks down to the high endpoint and marks on the way; returns the new cell, or NULL. */
    method AddRight(i: Interval) returns (x: int, ghost s: Shape, ghost c: Context)
      requires Here(shape, Root)
      modifies `nodes, `root, `size
      ensures Here(s, c) && s.Branch?
      ensures var goal := IbsTree.AddRight(i, old(Model()), Top);
        && Abs(nodes, s) == goal.tree && AbsPath(nodes, c) == goal.path
        && (x != NULL <==> goal.created) && (x != NULL ==> x == Ptr(s))
        && size == old(size) + if goal.created then 1 else 0
    {
      ghost var goal := IbsTree.AddRight(i, Model(), Top);
      s, c := shape, Root;
      var r, parent := root, NULL;
      while r != NIL
        invariant Here(s, c) && r == Ptr(s) && parent == UpPtr(c) && size == old(size)
        invariant IbsTree.AddRight(i, Abs(nodes, s), AbsPath(nodes, c)) == goal
        invariant OnTheWay(nodes, c, i.high)
        decreases s
      {
        AddRightMoves(i, Abs(nodes, s), AbsPath(nodes, c));
        var rval := nodes[r].val;
        parent := r;
        if rval > i.high {
          GoDown(nodes, s, c, true);
          r := nodes[r].left;
          s, c := DownShape(s, true), DownContext(s, true, c);
        } else {
          MarkRightCell(r, i, s, c);
          if rval == i.high { return NULL, s, c; }
          GoDown(nodes, s, c, false);
          r := nodes[r].right;
          s, c := DownShape(s, false), DownContext(s, false, c);
        }
      }
      NilIsEmpty(nodes, s, c);
      x := CreateLeaf(i.high, parent, c);
      s := Branch(x, Empty, Empty);
      MarkRightCell(x, i, s, c);
    }

    // -------------------------------------------------------- rebalancing (626-669)

    // Parent and uncle red: recolour (lines 634-636).
    method Recolor(p: int, y: int, g: int, ghost s: Shape, ghost c: Context)
      requires Here(s, c) && s.Branch? && c.Above? && c.rest.Above? && c.rest.sibling.Branch?
      requires p == c.at && g == c.rest.at && y == c.rest.sibling.at
      modifies `nodes
      ensures var up, path := UpShape(UpShape(s, c), c.rest), old(AbsPath(nodes, c));
        && Here(up, c.rest.rest) && path.Up? && path.rest.Up?
        && Abs(nodes, up) == Recolored(old(Abs(nodes, s)), path)
        && AbsPath(nodes, c.rest.rest) == path.rest.rest
    {
      RecolorStores(nodes, s, c);
      assert TopPtr(Ptr(s), c) == TopPtr(c.at, c.rest) == TopPtr(c.rest.at, c.rest.rest);
      nodes := nodes[p := nodes[p].(color := Black)];
      nodes := nodes[y := nodes[y].(color := Black)];
      nodes := nodes[g := nodes[g].(color := Red)];
    }

    // A red parent that is a left child: turn it if x is its right child (lines 640-643).
    method LeftCaseInner(x: int, p: int, ghost s: Shape, ghost c: Context) returns (x': int, ghost top: Shape)
      requires Here(s, c) && s.Branch? && c.Above? && x == s.at && p == c.at
      modifies `nodes, `root
      ensures Here(top, c.rest) && top.Branch? && top.left.Branch? && x' == top.left.at
      ensures InStore(nodes, x') && nodes[x'].parent == top.at
      ensures var t, path := old(Abs(nodes, s)), old(AbsPath(nodes, c));
        && t.Node? && path.Up? && AbsPath(nodes, c.rest) == path.rest
        && Abs(nodes, top) == if path.goesLeft == true then Parent(path, t) else IbsTree.LeftRotate(Parent(path, t))
    {
      x', top := x, UpShape(s, c);
      SideOfParent(nodes, s, c);
      GoUp(nodes, s, c);
      if x == nodes[p].right {
        x' := p;
        top := LeftRotate(x', top, c.rest);
      }
      assert Linked(nodes, top.left, top.at);
    }

    // Then recolour and turn the grandparent (lines 644-646).
    method LeftCaseOuter(x: int, ghost top: Shape, ghost c: Context) returns (ghost s: Shape, ghost d: Context)
      requires Here(top, c) && top.Branch? && top.left.Branch? && x == top.left.at && c.Above? && c.goesLeft
      requires InStore(nodes, x) && nodes[x].parent == top.at
      modifies `nodes, `root
      ensures Here(s, d) && s.Branch? && x == Ptr(s) && d.Above? && d.rest == c.rest
      ensures AbsPath(nodes, d).Up? && AbsPath(nodes, d).color == Black
      ensures var t, path := old(Abs(nodes, top)), old(AbsPath(nodes, c));
        && t.Node? && path.Up?
        && Zip(Abs(nodes, s), AbsPath(nodes, d)) ==
             Zip(IbsTree.RightRotate(Paint(Parent(path, Paint(t, Black)), Red)), path.rest)
    {
      PaintTwo(nodes, top, c);
      assert x != top.at && x != c.at by {
        assert x in Cells(top) && c.at in ContextCells(c);
      }
      assert TopPtr(Ptr(top), c) == TopPtr(c.at, c.rest);
      var p := nodes[x].parent;
      nodes := nodes[p := nodes[p].(color := Black)];
      var g := nodes[p].parent;
      nodes := nodes[g := nodes[g].(color := Red)];
      s := RightRotate(g, UpShape(top, c), c.rest);
      GoDown(nodes, s, c.rest, true);
      s, d := DownShape(s, true), DownContext(s, true, c.rest);
    }

    // A red parent that is a right child: turn it if x is its left child (lines 658-661).
    method RightCaseInner(x: int, p: int, ghost s: Shape, ghost c: Context) returns (x': int, ghost top: Shape)
      requires Here(s, c) && s.Branch? && c.Above? && x == s.at && p == c.at
      modifies `nodes, `root
      ensures Here(top, c.rest) && top.Branch? && top.right.Branch? && x' == top.right.at
      ensures InStore(nodes, x') && nodes[x'].parent == top.at
      ensures var t, path := old(Abs(nodes, s)), old(AbsPath(nodes, c));
        && t.Node? && path.Up? && AbsPath(nodes, c.rest) == path.rest
        && Abs(nodes, top) == if path.goesLeft == false then Parent(path, t) else IbsTree.RightRotate(Parent(path, t))
    {
      x', top := x, UpShape(s, c);
      SideOfParent(nodes, s, c);
      GoUp(nodes, s, c);
      if x == nodes[p].left {
        x' := p;
        top := RightRotate(x', top, c.rest);
      }
      assert Linked(nodes, top.right, top.at);
    }

    // Then recolour and turn the grandparent (lines 662-664).
    method RightCaseOuter(x: int, ghost top: Shape, ghost c: Context) returns (ghost s: Shape, ghost d: Context)
      requires Here(top, c) && top.Branch? && top.right.Branch? && x == top.right.at && c.Above? && !c.goesLeft
      requires InStore(nodes, x) && nodes[x].parent == top.at
      modifies `nodes, `root
      ensures Here(s, d) && s.Branch? && x == Ptr(s) && d.Above? && d.rest == c.rest
      ensures AbsPath(nodes, d).Up? && AbsPath(nodes, d).color == Black
      ensures var t, path := old(Abs(nodes, top)), old(AbsPath(nodes, c));
        && t.Node? && path.Up?
        && Zip(Abs(nodes, s), AbsPath(nodes, d)) ==
             Zip(IbsTree.LeftRotate(Paint(Parent(path, Paint(t, Black)), Red)), path.rest)
    {
      PaintTwo(nodes, top, c);
      assert x != top.at && x != c.at by {
        assert x in Cells(top) && c.at in ContextCells(c);
      }
      assert TopPtr(Ptr(top), c) == TopPtr(c.at, c.rest);
      var p := nodes[x].parent;
      nodes := nodes[p := nodes[p].(color := Black)];
      var g := nodes[p].parent;
      nodes := nodes[g := nodes[g].(color := Red)];
      s := LeftRotate(g, UpShape(top, c), c.rest);
      GoDown(nodes, s, c.rest, false);
      s, d := DownShape(s, false), DownContext(s, false, c.rest);
    }

    // One pass of the loop when the uncle is black: the tree is fixed up to the colour of its root.
    method ClimbByRotation(x: int, p: int, g: int, ghost s: Shape, ghost c: Context)
      returns (x': int, ghost s': Shape, ghost c': Context)
      requires Here(s, c) && s.Branch? && c.Above? && c.rest.Above? && x == s.at && p == c.at && g == c.rest.at
      requires InStore(nodes, g) && (nodes[g].left == p <==> c.rest.goesLeft)
      modifies `nodes, `root
      ensures Here(s', c') && s'.Branch? && x' == Ptr(s') && Depth(c') < Depth(c) && Abs(nodes, s').Node?
      ensures c'.Above? && InStore(nodes, c'.at) && nodes[c'.at].color == Black
      ensures var t, path := old(Abs(nodes, s)), old(AbsPath(nodes, c));
        && t.Node? && path.Up? && path.rest.Up?
        && Fixup(Abs(nodes, s'), AbsPath(nodes, c')) == Paint(Zip(Rotated(t, path), path.rest.rest), Black)
    {
      ghost var top;
      if p == nodes[g].left {
        x', top := LeftCaseInner(x, p, s, c);
        s', c' := LeftCaseOuter(x', top, c.rest);
      } else {
        x', top := RightCaseInner(x, p, s, c);
        s', c' := RightCaseOuter(x', top, c.rest);
      }
    }

    // One pass of the loop.
    method Climb(x: int, ghost s: Shape, ghost c: Context) returns (x': int, ghost s': Shape, ghost c': Context)
      requires Here(s, c) && s.Branch? && x == Ptr(s) && x != root && RedBelowRed(nodes, c)
      requires ReadyToClimb(Abs(nodes, s), AbsPath(nodes, c))
      modifies `nodes, `root
      ensures Here(s', c') && s'.Branch? && x' == Ptr(s') && Depth(c') < Depth(c) && Abs(nodes, s').Node?
      ensures RedBelowRed(nodes, c') ==> ReadyToClimb(Abs(nodes, s'), AbsPath(nodes, c'))
      ensures old(Abs(nodes, s)).Node?
      ensures Fixup(Abs(nodes, s'), AbsPath(nodes, c')) == Fixup(old(Abs(nodes, s)), old(AbsPath(nodes, c)))
    {
      ClimbPlaces(nodes, s, c);
      ghost var t, path := Abs(nodes, s), AbsPath(nodes, c);
      var p := nodes[x].parent;
      var g := nodes[p].parent;
      var y := if p == nodes[g].left then nodes[g].right else nodes[g].left;
      if nodes[y].color == Red {
        assert path.rest == AbsPath(nodes, c.rest);
        RecoloredRb(t, path);
        Recolor(p, y, g, s, c);
        x', s', c' := g, UpShape(UpShape(s, c), c.rest), c.rest.rest;
      } else {
        x', s', c' := ClimbByRotation(x, p, g, s, c);
      }
    }

    /** insertFixup: climbs with recolouring and ends with at most two rotations. */
    method InsertFixup(x0: int, ghost s0: Shape, ghost c0: Context)
      requires Here(s0, c0) && s0.Branch? && x0 == Ptr(s0) && ReadyToClimb(Abs(nodes, s0), AbsPath(nodes, c0))
      modifies `nodes, `root, `shape
      ensures Here(shape, Root)
      ensures old(Abs(nodes, s0)).Node? && Model() == Fixup(old(Abs(nodes, s0)), old(AbsPath(nodes, c0)))
    {
      var x := x0;
      assert nodes[x := nodes[x].(color := Red)] == nodes;
      nodes := nodes[x := nodes[x].(color := Red)];
      ghost var s, c := s0, c0;
      ghost var goal := Fixup(Abs(nodes, s), AbsPath(nodes, c));
      ClimbPlaces(nodes, s, c);
      while x != root && nodes[nodes[x].parent].color == Red
        invariant Here(s, c) && s.Branch? && x == Ptr(s) && Abs(nodes, s).Node?
        invariant x != root ==> c.Above? && InStore(nodes, c.at) && nodes[x].parent == c.at
        invariant Fixup(Abs(nodes, s), AbsPath(nodes, c)) == goal
        invariant RedBelowRed(nodes, c) ==> ReadyToClimb(Abs(nodes, s), AbsPath(nodes, c))
        decreases Depth(c)
      {
        x, s, c := Climb(x, s, c);
        ClimbPlaces(nodes, s, c);
      }
      ClimbDone(nodes, s, c, root);
      GoToTop(nodes, s, c);
      shape := Whole(s, c);
      UpdateFocus(nodes, shape, Root, nodes[root].(color := Black));
      nodes := nodes[root := nodes[root].(color := Black)];
    }

    // ------------------------------------------------------------ public operations

    // Rebalance if a cell was created, and make the position's tree the whole tree.
    method Settle(x: int, ghost s: Shape, ghost c: Context, ghost spot: Spot)
      requires Here(s, c) && s.Branch? && Abs(nodes, s) == spot.tree && AbsPath(nodes, c) == spot.path
      requires spot.tree.Node? && (x != NULL <==> spot.created) && (x != NULL ==> x == Ptr(s))
      requires spot.created ==> ReadyToClimb(spot.tree, spot.path)
      modifies `nodes, `root, `shape
      ensures Here(shape, Root) && Model() == Placed(spot)
    {
      if x != NULL {
        InsertFixup(x, s, c);
      } else {
        GoToTop(nodes, s, c);
        shape := Whole(s, c);
      }
    }

    // One endpoint: mark, and rebalance if a cell was created (lines 793-796 and 797-800).
    method InsertLow(i: Interval)
      requires Here(shape, Root) && Rb(Model()) && !IsRed(Model()) && size == Size(Model())
      modifies `nodes, `root, `size, `shape
      ensures Here(shape, Root) && Rb(Model()) && !IsRed(Model()) && size == Size(Model())
      ensures IbsTree.AddLeft(i, old(Model()), Top).tree.Node?
      ensures Model() == Placed(IbsTree.AddLeft(i, old(Model()), Top))
    {
      ghost var spot := IbsTree.AddLeft(i, Model(), Top);
      AddLeftSpot(i, Model(), Top);
      AddLeftRb(i, Model(), Top);
      AddLeftSize(i, Model(), Top);
      PlacedSize(spot);
      PlacedRb(spot);
      ghost var s, c;
      var x;
      x, s, c := AddLeft(i);
      Settle(x, s, c, spot);
    }

    method InsertHigh(i: Interval)
      requires Here(shape, Root) && Rb(Model()) && !IsRed(Model()) && size == Size(Model())
      modifies `nodes, `root, `size, `shape
      ensures Here(shape, Root) && Rb(Model()) && !IsRed(Model()) && size == Size(Model())
      ensures IbsTree.AddRight(i, old(Model()), Top).tree.Node?
      ensures Model() == Placed(IbsTree.AddRight(i, old(Model()), Top))
    {
      ghost var spot := IbsTree.AddRight(i, Model(), Top);
      AddRightSpot(i, Model(), Top);
      AddRightRb(i, Model(), Top);
      AddRightSize(i, Model(), Top);
      PlacedSize(spot);
      PlacedRb(spot);
      ghost var s, c;
      var x;
      x, s, c := AddRight(i);
      Settle(x, s, c, spot);
    }

    /** insert: afterwards exactly the old intervals and the new one are live. */
    method Insert(i: Interval)
      requires Valid() && Proper(i)
      modifies this
      ensures Valid() && live == old(live) + {i} && Model() == IbsTree.Insert(old(Model()), i)
    {
      InsertFaithful(Model(), live, i);
      InsertLow(i);
      InsertHigh(i);
      live := live + {i};
    }

    // removeInterval on the cells of a subtree (lines 745-770)
    method RemoveInterval(r: int, i: Interval, ghost s: Shape, ghost c: Context)
      requires Here(s, c) && r == Ptr(s)
      modifies `nodes
      ensures Here(s, c) && AbsPath(nodes, c) == old(AbsPath(nodes, c))
      ensures Abs(nodes, s) == IbsTree.Remove(old(Abs(nodes, s)), i)
      decreases s
    {
      if r == NIL {
        NilIsEmpty(nodes, s, c);
        return;
      }
      ghost var t := Abs(nodes, s);
      var val := nodes[r].val;
      if i.low < val {
        UpdateFocus(nodes, s, c, nodes[r].(less := nodes[r].less - {i}));
        nodes := nodes[r := nodes[r].(less := nodes[r].less - {i})];
        GoDown(nodes, s, c, true);
        RemoveInterval(nodes[r].left, i, DownShape(s, true), DownContext(s, true, c));
        GoUp(nodes, DownShape(s, true), DownContext(s, true, c));
      }
      if i.low > val || i.high > val {
        UpdateFocus(nodes, s, c, nodes[r].(greater := nodes[r].greater - {i}));
        nodes := nodes[r := nodes[r].(greater := nodes[r].greater - {i})];
        GoDown(nodes, s, c, false);
        RemoveInterval(nodes[r].right, i, DownShape(s, false), DownContext(s, false, c));
        GoUp(nodes, DownShape(s, false), DownContext(s, false, c));
      }
      if (i.low <= val && i.high > val) || (i.low == val && i.high == val) {
        UpdateFocus(nodes, s, c, nodes[r].(equal := nodes[r].equal - {i}));
        nodes := nodes[r := nodes[r].(equal := nodes[r].equal - {i})];
      }
    }

    /** remove: afterwards exactly the other intervals are live. */
    method Remove(i: Interval)
      requires Valid() && i.low <= i.high
      modifies this
      ensures Valid() && live == old(live) - {i} && Model() == IbsTree.Remove(old(Model()), i)
    {
      RemoveFaithful(Model(), live, i);
      RemoveRb(Model(), i);
      RemoveSize(Model(), i);
      RemoveInterval(root, i, shape, Root);
      live := live - {i};
    }

    method FindStabbed(x: int, out0: set<Interval>) returns (out: set<Interval>)
      requires Here(shape, Root)
      ensures out == out0 + Stab(Model(), x)
    {
      out := out0;
      var r := root;
      ghost var s, c := shape, Root;
      while r != NIL
        invariant At(nodes, s, c) && r == Ptr(s)
        invariant out + Stab(Abs(nodes, s), x) == out0 + Stab(Model(), x)
        decreases s
      {
        if x == nodes[r].val {
          out := out + nodes[r].equal;
          return;
        } else if x < nodes[r].val {
          out := out + nodes[r].less;
          GoDown(nodes, s, c, true);
          r := nodes[r].left;
          s, c := DownShape(s, true), DownContext(s, true, c);
        } else {
          out := out + nodes[r].greater;
          GoDown(nodes, s, c, false);
          r := nodes[r].right;
          s, c := DownShape(s, false), DownContext(s, false, c);
        }
      }
      NilIsEmpty(nodes, s, c);
    }

    /** find(X): adds exactly the live intervals that cover the point. */
    method Find(x: int, out0: set<Interval>) returns (out: set<Interval>, count: int)
      requires Valid()
      ensures out == out0 + set i | i in live && Covers(i, x)
      ensures count == |out| - |out0|
    {
      out := FindStabbed(x, out0);
      StabExact(Model(), live, x);
      count := |out| - |out0|;
    }

    method FindOverlaps(q: Interval, r: int, out0: set<Interval>, ghost s: Shape, ghost c: Context)
      returns (out: set<Interval>)
      requires At(nodes, s, c) && r == Ptr(s)
      ensures out == out0 + Overlapping(Abs(nodes, s), q)
      decreases s
    {
      out := out0;
      if r == NIL {
        NilIsEmpty(nodes, s, c);
        return;
      }
      var val := nodes[r].val;
      if q.low < val {
        out := out + nodes[r].less;
        GoDown(nodes, s, c, true);
        out := FindOverlaps(q, nodes[r].left, out, DownShape(s, true), DownContext(s, true, c));
      }
      if q.low > val || q.high > val {
        out := out + nodes[r].greater;
        GoDown(nodes, s, c, false);
        out := FindOverlaps(q, nodes[r].right, out, DownShape(s, false), DownContext(s, false, c));
      }
      if (q.low <= val && q.high > val) || (q.low == val && q.high == val) {
        out := out + nodes[r].equal;
      }
    }

    /** find(I): adds exactly the live intervals that share a point with the given one. */
    method FindOverlapping(q: Interval, out0: set<Interval>) returns (out: set<Interval>, count: int)
      requires Valid() && q.low <= q.high
      ensures out == out0 + set i | i in live && Overlap(i, q)
      ensures count == |out| - |out0|
    {
      out := FindOverlaps(q, root, out0, shape, Root);
      OverlappingExact(Model(), live, q);
      count := |out| - |out0|;
    }

    /** successor: with an empty set to start from, adds exactly the live intervals whose low end is the
        least live low end beyond x; with any other set, those whose low end is the least stored value. */
    method Successor(x: int, out0: set<Interval>) returns (out: set<Interval>)
      requires Valid()
      ensures out0 == {} ==>
        out == set i | i in live && x < i.low && forall j | j in live && x < j.low :: i.low <= j.low
      ensures out0 != {} ==>
        out == out0 + set i | i in live && StartsFirst(Model(), x, i)
    {
      NextExact(Model(), live, x);
      FirstExact(Model(), live, x);
      out := WalkSuccessor(x, out0);
    }

    method WalkSuccessor(x: int, out0: set<Interval>) returns (out: set<Interval>)
      requires Here(shape, Root)
      ensures out0 == {} ==> out == Next(Model(), x)
      ensures out0 != {} ==> out == out0 + FirstStarts(FirstNode(Model(), x))
    {
      out := out0;
      var n, last := root, NIL;
      var stack: seq<int> := [];
      ghost var w := Walk(Place(shape, Root), Place(Empty, Root), []);
      WalkStart(nodes, shape, x);
      while true
        invariant WalkOk(nodes, w, n, last, stack) && out == out0
        invariant WalkFinds(nodes, w, x) == Next(Model(), x)
        invariant out0 != {} ==> WalkFirst(nodes, w, x) == FirstNode(Model(), x)
        decreases WalkAhead(nodes, w), Size(Abs(nodes, w.n.shape))
      {
        if n == NIL {
          WalkAtNil(nodes, w, last, stack, x);
          if last == NIL { return; }
          out := out + set i | i in nodes[last].equal && i.low == nodes[last].val;
          if out != {} { return; }
          WalkPop(nodes, w, last, stack, x);
          n := nodes[last].right;
          if stack != [] {
            last, stack := stack[|stack| - 1], stack[..|stack| - 1];
          } else {
            last := NIL;
          }
          w := PopWalk(w);
        } else if x >= nodes[n].val {
          WalkRight(nodes, w, n, last, stack, x);
          n := nodes[n].right;
          w := w.(n := Beneath(w.n, false));
        } else {
          WalkPush(nodes, w, n, last, stack, x);
          if last != NIL {
            stack := stack + [last];
          }
          last := n;
          n := nodes[n].left;
          w := PushWalk(w);
        }
      }
    }
  }

  // ------------------------------------------------------- the walk of successor

  // A position in the tree.
  datatype Place = Place(shape: Shape, context: Context)

  // The positions of n, of last and of the cells on the stack.
  datatype Walk = Walk(n: Place, last: Place, stack: seq<Place>)

  ghost predicate Stands(ns: seq<Cell>, k: int, p: Place) {
    At(ns, p.shape, p.context) && k == Ptr(p.shape)
  }

  ghost predicate WalkOk(ns: seq<Cell>, w: Walk, n: int, last: int, stack: seq<int>) {
    && Stands(ns, n, w.n) && Stands(ns, last, w.last)
    && |stack| == |w.stack| && (forall k | 0 <= k < |stack| :: Stands(ns, stack[k], w.stack[k]) && stack[k] != NIL)
    && (last == NIL ==> stack == [])
  }

  ghost function Trees(ns: seq<Cell>, ps: seq<Place>): seq<Tree> {
    seq(|ps|, k requires 0 <= k < |ps| => Abs(ns, ps[k].shape))
  }

  ghost function WalkFinds(ns: seq<Cell>, w: Walk, x: int): set<Interval> {
    Pending(Abs(ns, w.n.shape), Abs(ns, w.last.shape), Trees(ns, w.stack), x)
  }

  // The first node beyond x, for a walk that has not turned back.
  ghost function WalkFirst(ns: seq<Cell>, w: Walk, x: int): Tree {
    FirstFrom(Abs(ns, w.n.shape), Abs(ns, w.last.shape), x)
  }

  ghost function WalkAhead(ns: seq<Cell>, w: Walk): nat {
    Size(Abs(ns, w.n.shape)) + Ahead(Abs(ns, w.last.shape)) + AheadAll(Trees(ns, w.stack))
  }

  function Beneath(p: Place, goLeft: bool): Place {
    if p.shape == Empty then p
    else Place(DownShape(p.shape, goLeft), DownContext(p.shape, goLeft, p.context))
  }

  function PopWalk(w: Walk): Walk {
    if w.stack == [] then Walk(Beneath(w.last, false), Place(Empty, Root), [])
    else Walk(Beneath(w.last, false), w.stack[|w.stack| - 1], w.stack[..|w.stack| - 1])
  }

  function PushWalk(w: Walk): Walk {
    Walk(Beneath(w.n, true), w.n, if w.last.shape == Empty then w.stack else w.stack + [w.last])
  }

  lemma WalkStart(ns: seq<Cell>, s: Shape, x: int)
    requires At(ns, s, Root)
    ensures var w := Walk(Place(s, Root), Place(Empty, Root), []);
      && WalkOk(ns, w, Ptr(s), NIL, []) && WalkFinds(ns, w, x) == Next(Abs(ns, s), x)
      && WalkFirst(ns, w, x) == FirstNode(Abs(ns, s), x)
  {
  }

  lemma WalkAtNil(ns: seq<Cell>, w: Walk, last: int, stack: seq<int>, x: int)
    requires WalkOk(ns, w, NIL, last, stack)
    ensures last == NIL ==> WalkFinds(ns, w, x) == {}
    ensures WalkFirst(ns, w, x) == Abs(ns, w.last.shape) && (last == NIL ==> Abs(ns, w.last.shape) == Nil)
    ensures last != NIL ==>
      && InStore(ns, last)
      && var starts := set i | i in ns[last].equal && i.low == ns[last].val;
      && Abs(ns, w.last.shape).Node? && starts == Starts(Abs(ns, w.last.shape))
      && (starts != {} ==> WalkFinds(ns, w, x) == starts)
  {
    NilIsEmpty(ns, w.n.shape, w.n.context);
    if last == NIL { NilIsEmpty(ns, w.last.shape, w.last.context); }
  }

  lemma WalkPop(ns: seq<Cell>, w: Walk, last: int, stack: seq<int>, x: int)
    requires WalkOk(ns, w, NIL, last, stack) && last != NIL
    requires Abs(ns, w.last.shape).Node? && Starts(Abs(ns, w.last.shape)) == {}
    ensures InStore(ns, last)
    ensures
      var last' := if stack == [] then NIL else stack[|stack| - 1];
      var stack' := if stack == [] then stack else stack[..|stack| - 1];
      var w' := PopWalk(w);
      && WalkOk(ns, w', ns[last].right, last', stack')
      && WalkFinds(ns, w', x) == WalkFinds(ns, w, x) && WalkAhead(ns, w') < WalkAhead(ns, w)
  {
    NilIsEmpty(ns, w.n.shape, w.n.context);
    EmptyStands(ns, w.last);
    GoDown(ns, w.last.shape, w.last.context, false);
    PopKeeps(Abs(ns, w.last.shape), Trees(ns, w.stack), x);
    if stack != [] {
      assert Trees(ns, w.stack)[..|w.stack| - 1] == Trees(ns, w.stack[..|w.stack| - 1]);
    }
  }

  lemma WalkRight(ns: seq<Cell>, w: Walk, n: int, last: int, stack: seq<int>, x: int)
    requires WalkOk(ns, w, n, last, stack) && n != NIL && InStore(ns, n) && x >= ns[n].val
    ensures var w' := w.(n := Beneath(w.n, false));
      && WalkOk(ns, w', ns[n].right, last, stack) && WalkFirst(ns, w', x) == WalkFirst(ns, w, x)
      && WalkFinds(ns, w', x) == WalkFinds(ns, w, x) && WalkAhead(ns, w') < WalkAhead(ns, w)
  {
    GoDown(ns, w.n.shape, w.n.context, false);
  }

  lemma WalkPush(ns: seq<Cell>, w: Walk, n: int, last: int, stack: seq<int>, x: int)
    requires WalkOk(ns, w, n, last, stack) && n != NIL && InStore(ns, n) && x < ns[n].val
    ensures
      var stack' := if last == NIL then stack else stack + [last];
      var w' := PushWalk(w);
      && WalkOk(ns, w', ns[n].left, n, stack') && WalkFirst(ns, w', x) == WalkFirst(ns, w, x)
      && WalkFinds(ns, w', x) == WalkFinds(ns, w, x) && WalkAhead(ns, w') == WalkAhead(ns, w)
      && Size(Abs(ns, w'.n.shape)) < Size(Abs(ns, w.n.shape))
  {
    GoDown(ns, w.n.shape, w.n.context, true);
    if last == NIL { NilIsEmpty(ns, w.last.shape, w.last.context); }
    PushKeeps(Abs(ns, w.n.shape), Abs(ns, w.last.shape), Trees(ns, w.stack), x);
    if last != NIL {
      assert Trees(ns, w.stack + [w.last]) == Trees(ns, w.stack) + [Abs(ns, w.last.shape)];
    }
  }

  lemma EmptyStands(ns: seq<Cell>, p: Place)
    requires At(ns, p.shape, p.context)
    ensures Stands(ns, NIL, Place(Empty, Root))
  {
  }

  // The pivot cell and the risen cell after the marks in `done` have been handled.
  function RightPivot(p: Cell, done: set<Interval>): Cell {
    p.(less := p.less + (done - p.greater), greater := p.greater - done, equal := p.equal - (done * p.greater))
  }

  function RightRiser(p: Cell, q: Cell, done: set<Interval>): Cell {
    q.(less := q.less + p.less, equal := q.equal + p.less, greater := q.greater - (done - p.greater))
  }

  lemma RightMarksStart(p: Cell, q: Cell)
    ensures q.greater - q.greater == {}
    ensures RightPivot(p, {}) == p && RightRiser(p, q, {}) == q.(less := q.less + p.less, equal := q.equal + p.less)
  {
  }

  lemma RightMarksStep(p: Cell, q: Cell, rest: set<Interval>, tmp: Interval)
    requires tmp in rest && rest <= q.greater
    ensures
      var done, done' := q.greater - rest, q.greater - (rest - {tmp});
      var x, y := RightPivot(p, done), RightRiser(p, q, done);
      var x', y' := RightPivot(p, done'), RightRiser(p, q, done');
      if tmp !in x.greater then x' == x.(less := x.less + {tmp}) && y' == y.(greater := y.greater - {tmp})
      else x' == x.(greater := x.greater - {tmp}, equal := x.equal - {tmp}) && y' == y
  {
    var done, done' := q.greater - rest, q.greater - (rest - {tmp});
    assert done' == done + {tmp};
    var x, y := RightPivot(p, done), RightRiser(p, q, done);
    var x', y' := RightPivot(p, done'), RightRiser(p, q, done');
    if tmp !in x.greater {
      assert x'.less == x.less + {tmp} && x'.greater == x.greater && x'.equal == x.equal;
      assert y'.greater == y.greater - {tmp};
    } else {
      assert x'.less == x.less && x'.greater == x.greater - {tmp} && x'.equal == x.equal - {tmp};
      assert y'.greater == y.greater;
    }
  }

  // The marks of the two cells, once moved, make the relinked tree the rotated one.
  lemma RightMarksTree(ns: seq<Cell>, s: Shape, c: Context)
    requires At(ns, s, c) && s.Branch? && s.right.Branch?
    ensures InStore(ns, s.at) && InStore(ns, s.right.at) && s.at != s.right.at
    ensures
      var p, q := ns[s.right.at], ns[s.at];
      var ns' := ns[s.right.at := RightPivot(p, q.greater)][s.at := RightRiser(p, q, q.greater)];
      var y := Abs(ns, s);
      && At(ns', s, c) && AbsPath(ns', c) == AbsPath(ns, c)
      && y.Node? && y.right.Node?
      && Abs(ns', s) == IbsTree.RightRotate(y.right.(left := y.(right := y.right.left)))
  {
    assert Linked(ns, s.right, s.at);
    var p, q := ns[s.right.at], ns[s.at];
    var p', q' := RightPivot(p, q.greater), RightRiser(p, q, q.greater);
    assert q'.greater == q.greater * p.greater;
    var low, ctx := DownShape(s, false), DownContext(s, false, c);
    GoDown(ns, s, c, false);
    UpdateFocus(ns, low, ctx, p');
    var ns1 := ns[s.right.at := p'];
    GoUp(ns1, low, ctx);
    assert UpShape(low, ctx) == s;
    UpdateFocus(ns1, s, c, q');
  }

  // The pivot cell and the risen cell after the marks in `done` have been handled.
  function LeftPivot(p: Cell, done: set<Interval>): Cell {
    p.(greater := p.greater + (done - p.less), less := p.less - done, equal := p.equal - (done * p.less))
  }

  function LeftRiser(p: Cell, q: Cell, done: set<Interval>): Cell {
    q.(greater := q.greater + p.greater, equal := q.equal + p.greater, less := q.less - (done - p.less))
  }

  lemma LeftMarksStart(p: Cell, q: Cell)
    ensures q.less - q.less == {}
    ensures LeftPivot(p, {}) == p
    ensures LeftRiser(p, q, {}) == q.(greater := q.greater + p.greater, equal := q.equal + p.greater)
  {
  }

  lemma LeftMarksStep(p: Cell, q: Cell, rest: set<Interval>, tmp: Interval)
    requires tmp in rest && rest <= q.less
    ensures
      var done, done' := q.less - rest, q.less - (rest - {tmp});
      var x, y := LeftPivot(p, done), LeftRiser(p, q, done);
      var x', y' := LeftPivot(p, done'), LeftRiser(p, q, done');
      if tmp !in x.less then x' == x.(greater := x.greater + {tmp}) && y' == y.(less := y.less - {tmp})
      else x' == x.(less := x.less - {tmp}, equal := x.equal - {tmp}) && y' == y
  {
    var done, done' := q.less - rest, q.less - (rest - {tmp});
    assert done' == done + {tmp};
    var x, y := LeftPivot(p, done), LeftRiser(p, q, done);
    var x', y' := LeftPivot(p, done'), LeftRiser(p, q, done');
    if tmp !in x.less {
      assert x'.greater == x.greater + {tmp} && x'.less == x.less && x'.equal == x.equal;
      assert y'.less == y.less - {tmp};
    } else {
      assert x'.greater == x.greater && x'.less == x.less - {tmp} && x'.equal == x.equal - {tmp};
      assert y'.less == y.less;
    }
  }

  // The marks of the two cells, once moved, make the relinked tree the rotated one.
  lemma LeftMarksTree(ns: seq<Cell>, s: Shape, c: Context)
    requires At(ns, s, c) && s.Branch? && s.left.Branch?
    ensures InStore(ns, s.at) && InStore(ns, s.left.at) && s.at != s.left.at
    ensures
      var p, q := ns[s.left.at], ns[s.at];
      var ns' := ns[s.left.at := LeftPivot(p, q.less)][s.at := LeftRiser(p, q, q.less)];
      var y := Abs(ns, s);
      && At(ns', s, c) && AbsPath(ns', c) == AbsPath(ns, c)
      && y.Node? && y.left.Node?
      && Abs(ns', s) == IbsTree.LeftRotate(y.left.(right := y.(left := y.left.right)))
  {
    assert Linked(ns, s.left, s.at);
    var p, q := ns[s.left.at], ns[s.at];
    var p', q' := LeftPivot(p, q.less), LeftRiser(p, q, q.less);
    assert q'.less == q.less * p.less;
    var low, ctx := DownShape(s, true), DownContext(s, true, c);
    GoDown(ns, s, c, true);
    UpdateFocus(ns, low, ctx, p');
    var ns1 := ns[s.left.at := p'];
    GoUp(ns1, low, ctx);
    assert UpShape(low, ctx) == s;
    UpdateFocus(ns1, s, c, q');
  }

  lemma RootHasNoParent(ns: seq<Cell>, s: Shape, c: Context)
    requires At(ns, s, c) && s.Branch? && ns[s.at].parent == NULL
    ensures c == Root
  {
  }

  lemma NilIsEmpty(ns: seq<Cell>, s: Shape, c: Context)
    requires At(ns, s, c) && Ptr(s) == NIL
    ensures s == Empty
  {
  }

  // Which child a cell is can be told from its parent's links.
  lemma SideOfParent(ns: seq<Cell>, s: Shape, c: Context)
    requires At(ns, s, c) && s.Branch? && ns[s.at].parent != NULL
    ensures c.Above? && InStore(ns, c.at) && ns[s.at].parent == c.at
    ensures ns[c.at].left == s.at <==> c.goesLeft
    ensures ns[c.at].right == s.at <==> !c.goesLeft
  {
    assert s.at in Cells(s);
    assert Ptr(c.sibling) != NIL ==> Ptr(c.sibling) in ContextCells(c);
  }

  lemma {:induction false} TopOfContext(focus: int, focus': int, c: Context)
    ensures c.Above? ==> TopPtr(focus, c) == TopPtr(focus', c)
  {
  }

  // The last turn of the way down was the one the value asks for.
  ghost predicate OnTheWay(ns: seq<Cell>, c: Context, val: int) {
    c.Above? ==>
      InStore(ns, c.at) && if c.goesLeft then val < ns[c.at].val else ns[c.at].val < val
  }

  lemma AddLeftMoves(i: Interval, t: Tree, p: Path)
    requires t.Node?
    ensures var m := MarkLeft(t, i, HiOf(p));
      IbsTree.AddLeft(i, t, p) ==
        if t.val == i.low then Spot(m, p, false)
        else if t.val < i.low then IbsTree.AddLeft(i, t.right, Down(t, false, p))
        else IbsTree.AddLeft(i, m.left, Down(m, true, p))
  {
  }

  lemma AddRightMoves(i: Interval, t: Tree, p: Path)
    requires t.Node?
    ensures var m := MarkRight(t, i, LoOf(p));
      IbsTree.AddRight(i, t, p) ==
        if t.val == i.high then Spot(m, p, false)
        else if t.val < i.high then IbsTree.AddRight(i, m.right, Down(m, false, p))
        else IbsTree.AddRight(i, t.left, Down(t, true, p))
  {
  }

  // The focus two levels up, with both cells repainted.
  lemma PaintTwo(ns: seq<Cell>, s: Shape, c: Context)
    requires At(ns, s, c) && s.Branch? && c.Above?
    ensures InStore(ns, s.at) && InStore(ns, c.at) && s.at != c.at && ns[s.at].parent == c.at
    ensures
      var ns1 := ns[s.at := ns[s.at].(color := Black)];
      var ns2 := ns1[c.at := ns1[c.at].(color := Red)];
      && At(ns2, UpShape(s, c), c.rest) && AbsPath(ns2, c.rest) == AbsPath(ns, c.rest) == AbsPath(ns, c).rest
      && AbsPath(ns, c).Up?
      && Abs(ns2, UpShape(s, c)) == Paint(Parent(AbsPath(ns, c), Paint(Abs(ns, s), Black)), Red)
  {
    assert s.at in Cells(s) && c.at in ContextCells(c);
    var ns1 := ns[s.at := ns[s.at].(color := Black)];
    UpdateFocus(ns, s, c, ns[s.at].(color := Black));
    GoUp(ns1, s, c);
    UpdateFocus(ns1, UpShape(s, c), c.rest, ns1[c.at].(color := Red));
  }

  lemma RecolorSibling(ns: seq<Cell>, s: Shape, c: Context)
    requires At(ns, s, c) && c.Above? && c.sibling.Branch?
    ensures InStore(ns, c.sibling.at)
    ensures var ns1 := ns[c.sibling.at := ns[c.sibling.at].(color := Black)];
      && At(ns1, s, c) && Abs(ns1, s) == Abs(ns, s)
      && AbsPath(ns, c).Up? && AbsPath(ns1, c) == AbsPath(ns, c).(sibling := Paint(AbsPath(ns, c).sibling, Black))
  {
    var up := UpShape(s, c);
    GoUp(ns, s, c);
    GoDown(ns, up, c.rest, !c.goesLeft);
    UpdateFocus(ns, c.sibling, DownContext(up, !c.goesLeft, c.rest), ns[c.sibling.at].(color := Black));
    var ns1 := ns[c.sibling.at := ns[c.sibling.at].(color := Black)];
    GoUp(ns1, c.sibling, DownContext(up, !c.goesLeft, c.rest));
    GoDown(ns1, up, c.rest, c.goesLeft);
  }

  lemma RecolorStores(ns: seq<Cell>, s: Shape, c: Context)
    requires At(ns, s, c) && s.Branch? && c.Above? && c.rest.Above? && c.rest.sibling.Branch?
    ensures InStore(ns, c.at) && InStore(ns, c.rest.at) && InStore(ns, c.rest.sibling.at)
    ensures
      var g := c.rest;
      var ns1 := ns[c.at := ns[c.at].(color := Black)];
      var ns2 := ns1[g.sibling.at := ns1[g.sibling.at].(color := Black)];
      var ns3 := ns2[g.at := ns2[g.at].(color := Red)];
      var up, path := UpShape(UpShape(s, c), g), AbsPath(ns, c);
      && At(ns3, up, g.rest) && path.Up? && path.rest.Up?
      && Abs(ns3, up) == Recolored(Abs(ns, s), path) && AbsPath(ns3, g.rest) == path.rest.rest
  {
    var g := c.rest;
    var p := UpShape(s, c);
    GoUp(ns, s, c);
    UpdateFocus(ns, p, g, ns[c.at].(color := Black));
    var ns1 := ns[c.at := ns[c.at].(color := Black)];
    RecolorSibling(ns1, p, g);
    var ns2 := ns1[g.sibling.at := ns1[g.sibling.at].(color := Black)];
    GoUp(ns2, p, g);
    UpdateFocus(ns2, UpShape(p, g), g.rest, ns2[g.at].(color := Red));
  }

  function Depth(c: Context): nat { if c == Root then 0 else 1 + Depth(c.rest) }

  ghost predicate RedBelowRed(ns: seq<Cell>, c: Context) {
    c.Above? && InStore(ns, c.at) && ns[c.at].color == Red
  }

  // The only flaw of the tree may be that the focus and its parent are both red.
  ghost predicate ReadyToClimb(t: Tree, p: Path) { IsRed(t) && Rb(t) && RbPath(p, Bh(t)) }

  // Below a red parent there are a grandparent and an uncle, possibly nil, to look at.
  lemma ClimbPlaces(ns: seq<Cell>, s: Shape, c: Context)
    requires At(ns, s, c) && s.Branch?
    requires RedBelowRed(ns, c) ==> ReadyToClimb(Abs(ns, s), AbsPath(ns, c))
    ensures InStore(ns, s.at)
    ensures c.Above? ==> InStore(ns, c.at) && ns[s.at].parent == c.at
    ensures c == Root ==> TopPtr(Ptr(s), c) == Ptr(s)
    ensures RedBelowRed(ns, c) ==>
      && c.rest.Above? && InStore(ns, c.rest.at) && ns[c.at].parent == c.rest.at
      && (ns[c.rest.at].left == c.at <==> c.rest.goesLeft)
      && var y := if c.rest.goesLeft then ns[c.rest.at].right else ns[c.rest.at].left;
      && y == Ptr(c.rest.sibling) && 0 <= y < |ns|
      && (ns[y].color == Red <==> IsRed(Abs(ns, c.rest.sibling)))
  {
    if RedBelowRed(ns, c) {
      GoUp(ns, s, c);
      SideOfParent(ns, UpShape(s, c), c.rest);
      assert Linked(ns, c.rest.sibling, c.rest.at);
    }
  }

  lemma {:induction false} TopInContext(focus: int, c: Context)
    requires c.Above?
    ensures TopPtr(focus, c) in ContextCells(c)
    decreases c
  {
    if c.rest.Above? { TopInContext(c.at, c.rest); }
  }

  // When the climb stops, the rest of insertFixup is to paint the root black.
  lemma ClimbDone(ns: seq<Cell>, s: Shape, c: Context, root: int)
    requires At(ns, s, c) && s.Branch? && root == TopPtr(Ptr(s), c) && Abs(ns, s).Node?
    requires root == Ptr(s) || !RedBelowRed(ns, c)
    ensures Fixup(Abs(ns, s), AbsPath(ns, c)) == Paint(Zip(Abs(ns, s), AbsPath(ns, c)), Black)
    ensures Whole(s, c).Branch?
  {
    if c.Above? {
      TopInContext(s.at, c);
      assert s.at in Cells(s);
    }
    WholeIsBranch(s, c);
  }

  lemma {:induction false} WholeIsBranch(s: Shape, c: Context)
    requires s.Branch?
    ensures Whole(s, c).Branch?
    decreases c
  {
    if c.Above? { WholeIsBranch(UpShape(s, c), c.rest); }
  }
}
