/**
 The successor query of the interval tree (lines 864-911 of IBSTree.h): the walk with an
 explicit stack, and what it finds.
 */
module IbsSuccessor {
  import opened IbsTree
  import opened IbsMarks
  import opened IbsInsert
  import opened IbsBalance

  // The marks at a node that start there.
  function Starts(t: Tree): set<Interval>
    requires t.Node?
  {
    set i | i in t.equal && i.low == t.val
  }

  // In order, the first node beyond x at which some interval starts.
  function Next(t: Tree, x: int): set<Interval> {
    if t == Nil then {}
    else if x >= t.val then Next(t.right, x)
    else if Next(t.left, x) != {} then Next(t.left, x)
    else if Starts(t) != {} then Starts(t)
    else Next(t.right, x)
  }

  // What the walk finds once the subtree in hand is exhausted.
  function Rest(last: Tree, stack: seq<Tree>, x: int): set<Interval>
    decreases |stack|
  {
    if last == Nil then {}
    else if Starts(last) != {} then Starts(last)
    else if Next(last.right, x) != {} then Next(last.right, x)
    else if stack == [] then {}
    else Rest(stack[|stack| - 1], stack[..|stack| - 1], x)
  }

  function Pending(n: Tree, last: Tree, stack: seq<Tree>, x: int): set<Interval> {
    if Next(n, x) != {} then Next(n, x) else Rest(last, stack, x)
  }

  // Nodes the walk has not looked at.
  function Ahead(t: Tree): nat { if t == Nil then 0 else 1 + Size(t.right) }

  function AheadAll(stack: seq<Tree>): nat {
    if stack == [] then 0 else AheadAll(stack[..|stack| - 1]) + Ahead(stack[|stack| - 1])
  }

  lemma PushKeeps(n: Tree, last: Tree, stack: seq<Tree>, x: int)
    requires n.Node? && x < n.val && (last == Nil ==> stack == [])
    ensures var stack' := if last == Nil then stack else stack + [last];
      && Pending(n.left, n, stack', x) == Pending(n, last, stack, x)
      && Size(n.left) + Ahead(n) + AheadAll(stack') == Size(n) + Ahead(last) + AheadAll(stack)
  {
    if last != Nil {
      var stack' := stack + [last];
      assert stack'[..|stack'| - 1] == stack;
    }
  }

  lemma PopKeeps(last: Tree, stack: seq<Tree>, x: int)
    requires last.Node? && Starts(last) == {}
    ensures var last' := if stack == [] then Nil else stack[|stack| - 1];
      var stack' := if stack == [] then stack else stack[..|stack| - 1];
      && Pending(last.right, last', stack', x) == Pending(Nil, last, stack, x)
      && Size(last.right) + Ahead(last') + AheadAll(stack') < Ahead(last) + AheadAll(stack)
  {
  }

  // ----------------------------------------------------------- what Next returns

  lemma {:induction false} EqualAtRange(t: Tree, lo: int, hi: int, v: int)
    requires Ordered(t, lo, hi) && EqualAt(t, v) != {}
    ensures lo < v < hi
  {
    if v < t.val { EqualAtRange(t.left, lo, t.val, v); }
    else if t.val < v { EqualAtRange(t.right, t.val, hi, v); }
  }

  lemma {:induction false} NextStarts(t: Tree, lo: int, hi: int, x: int, i: Interval)
    requires Ordered(t, lo, hi) && i in Next(t, x)
    ensures x < i.low && lo < i.low < hi && i in EqualAt(t, i.low)
  {
    if x >= t.val { NextStarts(t.right, t.val, hi, x, i); }
    else if Next(t.left, x) != {} { NextStarts(t.left, lo, t.val, x, i); }
    else if Starts(t) == {} { NextStarts(t.right, t.val, hi, x, i); }
  }

  lemma {:induction false} NextFinds(t: Tree, lo: int, hi: int, x: int, j: Interval)
    requires Ordered(t, lo, hi) && x < j.low && j in EqualAt(t, j.low)
    ensures Next(t, x) != {}
  {
    if x >= t.val {
      NextFinds(t.right, t.val, hi, x, j);
    } else if j.low < t.val {
      NextFinds(t.left, lo, t.val, x, j);
    } else if j.low == t.val {
      assert j in Starts(t);
    } else {
      NextFinds(t.right, t.val, hi, x, j);
    }
  }

  lemma NoStart(t: Tree, j: Interval)
    requires t.Node? && Starts(t) == {}
    ensures !(j in t.equal && j.low == t.val)
  {
    assert j !in Starts(t);
  }

  lemma {:induction false} NextLeast(t: Tree, lo: int, hi: int, x: int, i: Interval, j: Interval)
    requires Ordered(t, lo, hi) && i in Next(t, x)
    requires x < j.low && j in EqualAt(t, j.low)
    ensures i.low <= j.low
    ensures i.low == j.low ==> j in Next(t, x)
  {
    EqualAtRange(t, lo, hi, j.low);
    NextStarts(t, lo, hi, x, i);
    if x >= t.val {
      NextLeast(t.right, t.val, hi, x, i, j);
    } else if Next(t.left, x) != {} {
      NextStarts(t.left, lo, t.val, x, i);
      if j.low < t.val { NextLeast(t.left, lo, t.val, x, i, j); }
    } else {
      if j.low < t.val { NextFinds(t.left, lo, t.val, x, j); }
      if Starts(t) == {} {
        NoStart(t, j);
        NextLeast(t.right, t.val, hi, x, i, j);
      }
    }
  }

  lemma {:induction false} EqualAtMarks(t: Tree, v: int)
    ensures EqualAt(t, v) <= Marks(t)
  {
    if t.Node? {
      EqualAtMarks(t.left, v);
      EqualAtMarks(t.right, v);
    }
  }

  /** The walk finds exactly the live intervals whose low end is the least live one beyond x. */
  lemma NextExact(t: Tree, live: set<Interval>, x: int)
    requires Faithful(t, live)
    ensures Next(t, x) ==
      set i | i in live && x < i.low && forall j | j in live && x < j.low :: i.low <= j.low
  {
    forall i | i in Next(t, x)
      ensures i in live && x < i.low && forall j | j in live && x < j.low :: i.low <= j.low
    {
      NextStarts(t, MIN, MAX, x, i);
      EqualAtMarks(t, i.low);
      forall j | j in live && x < j.low
        ensures i.low <= j.low
      {
        NextLeast(t, MIN, MAX, x, i, j);
      }
    }
    forall i | i in live && x < i.low && forall j | j in live && x < j.low :: i.low <= j.low
      ensures i in Next(t, x)
    {
      NextFinds(t, MIN, MAX, x, i);
      var k :| k in Next(t, x);
      NextStarts(t, MIN, MAX, x, k);
      EqualAtMarks(t, k.low);
      NextLeast(t, MIN, MAX, x, k, i);
    }
  }

  // ------------------------------------- the walk that starts with results already

  // In order, the first node beyond x.
  function FirstNode(t: Tree, x: int): Tree {
    if t == Nil then Nil
    else if x >= t.val then FirstNode(t.right, x)
    else if FirstNode(t.left, x) != Nil then FirstNode(t.left, x)
    else t
  }

  // The same, when the walk is in n and last went left at `last`.
  function FirstFrom(n: Tree, last: Tree, x: int): Tree {
    if FirstNode(n, x) != Nil then FirstNode(n, x) else last
  }

  function FirstStarts(f: Tree): set<Interval> { if f == Nil then {} else Starts(f) }

  lemma {:induction false} FirstNodeIs(t: Tree, lo: int, hi: int, x: int)
    requires Ordered(t, lo, hi)
    ensures var f := FirstNode(t, x);
      && (forall y | HasKey(t, y) && x < y :: f != Nil && f.val <= y)
      && (f != Nil ==> x < f.val && lo < f.val < hi && HasKey(t, f.val) && f.equal == EqualAt(t, f.val))
  {
    if t != Nil {
      FirstNodeIs(t.left, lo, t.val, x);
      FirstNodeIs(t.right, t.val, hi, x);
    }
  }

  lemma {:induction false} EqualAtKey(t: Tree, v: int)
    ensures EqualAt(t, v) != {} ==> HasKey(t, v)
  {
    if t != Nil {
      EqualAtKey(t.left, v);
      EqualAtKey(t.right, v);
    }
  }

  // The low end of i is the least value stored beyond x.
  ghost predicate StartsFirst(t: Tree, x: int, i: Interval) {
    x < i.low && forall y | HasKey(t, y) && x < y :: i.low <= y
  }

  lemma StartsFirstIff(t: Tree, live: set<Interval>, x: int, i: Interval)
    requires Faithful(t, live)
    ensures i in FirstStarts(FirstNode(t, x)) <==> i in live && StartsFirst(t, x, i)
  {
    var f := FirstNode(t, x);
    FirstNodeIs(t, MIN, MAX, x);
    if f != Nil { EqualAtMarks(t, f.val); }
    if i in live && StartsFirst(t, x, i) {
      assert i in EqualAt(t, i.low);
      EqualAtKey(t, i.low);
    }
  }

  /** The first node beyond x holds exactly the live intervals whose low end is the least stored value beyond x. */
  lemma FirstExact(t: Tree, live: set<Interval>, x: int)
    requires Faithful(t, live)
    ensures FirstStarts(FirstNode(t, x)) == set i | i in live && StartsFirst(t, x, i)
  {
    forall i
      ensures i in FirstStarts(FirstNode(t, x)) <==> i in live && StartsFirst(t, x, i)
    {
      StartsFirstIff(t, live, x, i);
    }
  }
}
