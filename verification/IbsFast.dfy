/**
 The two-part index of dyninstT/common/IBSTree-fast.h: intervals that were disjoint when
 they came are kept in a list ordered by their high ends, all others in an interval tree.
 */
module IbsFast {
  import opened IbsTree
  import opened IbsInsert
  import opened IbsObject
  import B = IbsBalance

  // ------------------------------------------------------- specification on values

  datatype Index = Index(over: set<Interval>, unique: seq<Interval>)

  function SetOf(u: seq<Interval>): set<Interval> { set i | i in u }

  function Live(ix: Index): set<Interval> { ix.over + SetOf(ix.unique) }

  // upper_bound of the container ordered by high: the first entry whose high exceeds x.
  function UpperBound(u: seq<Interval>, x: int): (k: nat)
    ensures k <= |u|
    ensures forall m | 0 <= m < k :: u[m].high <= x
    ensures k < |u| ==> u[k].high > x
  {
    if u == [] || u[0].high > x then 0 else 1 + UpperBound(u[1..], x)
  }

  // The end of the run of entries, from k on, that start at or before x.
  function RunEnd(u: seq<Interval>, k: nat, x: int): (e: nat)
    requires k <= |u|
    ensures k <= e <= |u|
    ensures forall m | k <= m < e :: u[m].low <= x
    ensures e < |u| ==> u[e].low > x
    decreases |u| - k
  {
    if k < |u| && u[k].low <= x then RunEnd(u, k + 1, x) else k
  }

  // Insertion into the container with unique keys: an entry whose high is taken is dropped.
  function Listed(u: seq<Interval>, e: Interval): seq<Interval> {
    if u == [] || e.high < u[0].high then [e] + u
    else if u[0].high == e.high then u
    else [u[0]] + Listed(u[1..], e)
  }

  ghost predicate Hits(over: set<Interval>, e: Interval) {
    exists i | i in over :: Overlap(i, e)
  }

  ghost function Inserted(ix: Index, e: Interval): Index {
    if Hits(ix.over, e) then ix.(over := ix.over + {e})
    else
      var lower := UpperBound(ix.unique, e.low);
      if lower < |ix.unique| && ix.unique[lower] == e then ix
      else
        var upper := RunEnd(ix.unique, lower, e.high);
        if upper != lower then
          Index(ix.over + SetOf(ix.unique[lower..upper]) + {e}, ix.unique[..lower] + ix.unique[upper..])
        else ix.(unique := Listed(ix.unique, e))
  }

  function Without(u: seq<Interval>, e: Interval): seq<Interval> {
    if u == [] then []
    else if u[0].high == e.high then (if u[0] == e then u[1..] else u)
    else [u[0]] + Without(u[1..], e)
  }

  function Removed(ix: Index, e: Interval): Index {
    Index(ix.over - {e}, Without(ix.unique, e))
  }

  // ------------------------------------------------------------------- invariant

  // Pairwise disjoint, in the order of both ends, and no high end taken twice.
  ghost predicate Apart(u: seq<Interval>) {
    && (forall k | 0 <= k < |u| :: Proper(u[k]))
    && (forall k, m | 0 <= k < m < |u| :: u[k].high <= u[m].low && u[k].high < u[m].high)
  }

  ghost predicate Inv(ix: Index) {
    && (forall i | i in ix.over :: Proper(i))
    && Apart(ix.unique)
  }

  lemma InOrder(u: seq<Interval>, k: nat, m: nat)
    requires Apart(u) && k < m < |u|
    ensures u[k].high <= u[m].low && u[k].high < u[m].high
  {
  }

  lemma {:induction false} ListedAt(u: seq<Interval>, e: Interval, k: nat)
    requires k <= |u| && (forall m | 0 <= m < k :: u[m].high < e.high) && (k < |u| ==> e.high < u[k].high)
    ensures Listed(u, e) == u[..k] + [e] + u[k..]
  {
    if k > 0 {
      ListedAt(u[1..], e, k - 1);
      FrontThenPlace(u, [e], k, k);
    }
  }

  // A piece put in place of u[k..m], seen from the first element and from the rest.
  lemma FrontThenPlace(u: seq<Interval>, piece: seq<Interval>, k: nat, m: nat)
    requires 0 < k <= m <= |u|
    ensures [u[0]] + (u[1..][..k - 1] + piece + u[1..][m - 1..]) == u[..k] + piece + u[m..]
  {
    assert [u[0]] + u[1..][..k - 1] == u[..k] && u[1..][m - 1..] == u[m..];
  }

  lemma {:induction false} ListedTaken(u: seq<Interval>, e: Interval, k: nat)
    requires k < |u| && u[k].high == e.high && forall m | 0 <= m < k :: u[m].high < e.high
    ensures Listed(u, e) == u
  {
    if k > 0 { ListedTaken(u[1..], e, k - 1); }
  }

  lemma InsertApart(u: seq<Interval>, e: Interval, k: nat)
    requires Apart(u) && Proper(e) && k <= |u|
    requires forall m | 0 <= m < k :: u[m].high <= e.low && u[m].high < e.high
    requires forall m | k <= m < |u| :: e.high < u[m].low
    ensures Apart(u[..k] + [e] + u[k..])
  {
  }

  lemma DeleteApart(u: seq<Interval>, a: nat, b: nat)
    requires Apart(u) && a <= b <= |u|
    ensures Apart(u[..a] + u[b..])
  {
  }

  // The high end is that of the entry just before the place of e, which happens for a zero-length e only.
  ghost predicate Taken(u: seq<Interval>, e: Interval) {
    var k := UpperBound(u, e.low);
    k > 0 && u[k - 1].high == e.high
  }

  // Where an interval that overlaps nothing goes.
  lemma ListedApart(u: seq<Interval>, e: Interval)
    requires Apart(u) && Proper(e) && RunEnd(u, UpperBound(u, e.low), e.high) == UpperBound(u, e.low)
    ensures Apart(Listed(u, e))
    ensures if Taken(u, e) then Listed(u, e) == u else SetOf(Listed(u, e)) == SetOf(u) + {e}
  {
    var k := UpperBound(u, e.low);
    forall m | k <= m < |u|
      ensures e.high < u[m].low
    {
      if k < m { assert u[k].high <= u[m].low; }
    }
    forall m | 0 <= m < k - 1
      ensures u[m].high < e.high
    {
      assert u[m].high < u[k - 1].high;
    }
    if Taken(u, e) {
      ListedTaken(u, e, k - 1);
    } else {
      ListedAt(u, e, k);
      InsertApart(u, e, k);
      GrowSet(u, e, k);
    }
  }

  lemma {:induction false} WithoutAt(u: seq<Interval>, e: Interval, k: nat)
    requires k < |u| && u[k] == e && forall m | 0 <= m < k :: u[m].high != e.high
    ensures Without(u, e) == u[..k] + u[k + 1..]
  {
    if k > 0 {
      WithoutAt(u[1..], e, k - 1);
      FrontThenPlace(u, [], k, k + 1);
      assert u[..k] + [] == u[..k] && u[1..][..k - 1] + [] == u[1..][..k - 1];
    }
  }

  lemma {:induction false} WithoutNone(u: seq<Interval>, e: Interval)
    requires e !in u
    ensures Without(u, e) == u
  {
    if u != [] { WithoutNone(u[1..], e); }
  }

  lemma WithoutFound(u: seq<Interval>, e: Interval, k: nat)
    requires Apart(u) && k < |u| && u[k] == e
    ensures Without(u, e) == u[..k] + u[k + 1..]
  {
    forall m | 0 <= m < k
      ensures u[m].high != e.high
    {
      assert u[m].high < u[k].high;
    }
    WithoutAt(u, e, k);
  }

  lemma WithoutSpec(u: seq<Interval>, e: Interval)
    requires Apart(u)
    ensures Apart(Without(u, e)) && SetOf(Without(u, e)) == SetOf(u) - {e}
  {
    if k :| 0 <= k < |u| && u[k] == e {
      WithoutFound(u, e, k);
      DeleteApart(u, k, k + 1);
      SplitSet(u, k, k + 1);
      ApartDistinct(u, k, k + 1);
      SingletonSet(u[k..k + 1], e);
    } else {
      WithoutNone(u, e);
    }
  }

  lemma SingletonSet(u: seq<Interval>, e: Interval)
    requires u == [e]
    ensures SetOf(u) == {e}
  {
  }

  /** Insertion of any interval keeps the listed part disjoint and ordered by both ends. */
  lemma InsertedInv(ix: Index, e: Interval)
    requires Inv(ix) && Proper(e)
    ensures Inv(Inserted(ix, e))
  {
    if !Hits(ix.over, e) {
      var u := ix.unique;
      var lower := UpperBound(u, e.low);
      var upper := RunEnd(u, lower, e.high);
      if upper == lower { ListedApart(u, e); }
      DeleteApart(u, lower, upper);
    }
  }

  lemma SplitSet(u: seq<Interval>, a: nat, b: nat)
    requires a <= b <= |u|
    ensures SetOf(u) == SetOf(u[..a] + u[b..]) + SetOf(u[a..b])
  {
    forall i
      ensures i in u <==> i in u[..a] + u[b..] || i in u[a..b]
    {
      assert u == u[..a] + u[a..b] + u[b..];
    }
  }

  lemma GrowSet(u: seq<Interval>, e: Interval, k: nat)
    requires k <= |u|
    ensures SetOf(u[..k] + [e] + u[k..]) == SetOf(u) + {e}
  {
    forall i
      ensures i in u[..k] + [e] + u[k..] <==> i in u || i == e
    {
      assert u == u[..k] + u[k..];
    }
  }

  lemma ApartDistinct(u: seq<Interval>, a: nat, b: nat)
    requires Apart(u) && a <= b <= |u|
    ensures SetOf(u[a..b]) !! SetOf(u[..a] + u[b..])
  {
    forall i | i in u[a..b]
      ensures i !in u[..a] + u[b..]
    {
      var m :| 0 <= m < b - a && u[a..b][m] == i;
      assert i == u[a + m];
      forall k | 0 <= k < |u| && k != a + m
        ensures u[k] != i
      {
        if k < a + m { assert u[k].high < u[a + m].high; } else { assert u[a + m].high < u[k].high; }
      }
    }
  }

  // ---------------------------------------------------------- what insertion does

  // The run of listed entries that start at or before the high end and end beyond the low end.
  ghost function Run(u: seq<Interval>, e: Interval): set<Interval> {
    var lower := UpperBound(u, e.low);
    SetOf(u[lower..RunEnd(u, lower, e.high)])
  }

  // The four outcomes of an insertion that hits nothing in the tree.
  ghost predicate Unchanged(ix: Index, ix': Index, e: Interval) { ix' == ix && e in SetOf(ix.unique) }

  ghost predicate Refused(ix: Index, ix': Index, e: Interval) { ix' == ix && Taken(ix.unique, e) }

  ghost predicate JustListed(ix: Index, ix': Index, e: Interval) {
    ix'.over == ix.over && SetOf(ix'.unique) == SetOf(ix.unique) + {e}
  }

  ghost predicate RunMoved(ix: Index, ix': Index, e: Interval) {
    && Run(ix.unique, e) !! SetOf(ix'.unique) && SetOf(ix.unique) == Run(ix.unique, e) + SetOf(ix'.unique)
    && ix'.over == ix.over + Run(ix.unique, e) + {e}
  }

  lemma InsertedCases(ix: Index, e: Interval)
    requires Inv(ix) && Proper(e) && !Hits(ix.over, e)
    ensures var u, ix' := ix.unique, Inserted(ix, e);
      var k := UpperBound(u, e.low);
      if k < |u| && u[k] == e then Unchanged(ix, ix', e)
      else if Run(u, e) != {} then RunMoved(ix, ix', e)
      else if Taken(u, e) then Refused(ix, ix', e)
      else JustListed(ix, ix', e)
  {
    var u := ix.unique;
    var lower := UpperBound(u, e.low);
    var upper := RunEnd(u, lower, e.high);
    RunEmptyIff(u, lower, upper);
    if upper != lower {
      SplitSet(u, lower, upper);
      ApartDistinct(u, lower, upper);
    } else {
      ListedApart(u, e);
    }
  }

  lemma RunEmptyIff(u: seq<Interval>, a: nat, b: nat)
    requires a <= b <= |u|
    ensures SetOf(u[a..b]) == {} <==> a == b
  {
    if a < b { assert u[a..b][0] in SetOf(u[a..b]); }
  }

  // The run is not empty exactly when a listed entry starts by the high end of e and ends beyond its low end.
  lemma RunIff(u: seq<Interval>, e: Interval)
    requires Apart(u)
    ensures Run(u, e) != {} <==> exists k | 0 <= k < |u| :: u[k].low <= e.high && e.low < u[k].high
  {
    var lower := UpperBound(u, e.low);
    var upper := RunEnd(u, lower, e.high);
    RunEmptyIff(u, lower, upper);
    if k :| 0 <= k < |u| && u[k].low <= e.high && e.low < u[k].high {
      if lower < k { assert u[lower].high <= u[k].low; }
    }
    if lower < upper { assert u[lower].low <= e.high; }
  }

  lemma TakenIff(u: seq<Interval>, e: Interval)
    requires Apart(u) && Proper(e)
    ensures Taken(u, e) <==> e.low == e.high && exists k | 0 <= k < |u| :: u[k].high == e.high
  {
    var lower := UpperBound(u, e.low);
    if k :| 0 <= k < |u| && u[k].high == e.high {
      if k < lower - 1 { InOrder(u, k, lower - 1); }
      if lower < k { InOrder(u, lower, k); }
    }
  }

  /** A zero-length interval is dropped when its point is the high end of another listed entry, nothing in the
      tree covers it, and no listed entry goes on beyond it. */
  ghost predicate DropsSilently(ix: Index, e: Interval) {
    && e.low == e.high && !Hits(ix.over, e) && e !in SetOf(ix.unique)
    && (exists k | 0 <= k < |ix.unique| :: ix.unique[k].high == e.high)
    && (forall k | 0 <= k < |ix.unique| :: !(ix.unique[k].low <= e.low < ix.unique[k].high))
  }

  lemma NotHitNotLive(ix: Index, e: Interval)
    requires e.low <= e.high && !Hits(ix.over, e)
    ensures e !in ix.over
  {
    if e in ix.over { assert Covers(e, e.low) && Overlap(e, e); }
  }

  /** Insertion of any interval makes exactly it live, unless it is dropped, and then nothing changes. */
  lemma InsertedLive(ix: Index, e: Interval)
    requires Inv(ix) && Proper(e)
    ensures Live(Inserted(ix, e)) == Live(ix) + if DropsSilently(ix, e) then {} else {e}
    ensures DropsSilently(ix, e) ==> Inserted(ix, e) == ix
  {
    if !Hits(ix.over, e) {
      InsertedCases(ix, e);
      DropsIff(ix, e);
      OutcomesLive(ix, Inserted(ix, e), e);
    }
  }

  lemma OutcomesLive(ix: Index, ix': Index, e: Interval)
    ensures Unchanged(ix, ix', e) || RunMoved(ix, ix', e) || JustListed(ix, ix', e) ==> Live(ix') == Live(ix) + {e}
    ensures Refused(ix, ix', e) && e in SetOf(ix.unique) ==> Live(ix') == Live(ix) + {e}
  {
  }

  // The drop, by the outcome of the insertion.
  lemma DropsIff(ix: Index, e: Interval)
    requires Inv(ix) && Proper(e) && !Hits(ix.over, e)
    ensures DropsSilently(ix, e) <==> Run(ix.unique, e) == {} && Taken(ix.unique, e) && e !in SetOf(ix.unique)
  {
    RunIff(ix.unique, e);
    TakenIff(ix.unique, e);
  }

  /** Insertion of any interval makes it live, except in exactly one case. */
  lemma InsertLosesIff(ix: Index, e: Interval)
    requires Inv(ix) && Proper(e)
    ensures e in Live(Inserted(ix, e)) <==> !DropsSilently(ix, e)
  {
    InsertedLive(ix, e);
    if DropsSilently(ix, e) { NotHitNotLive(ix, e); }
  }

  /** The case happens: after [10, 20), the point interval at 20 is dropped. */
  lemma PointAtEndIsLost()
    ensures var ix, e := Index({}, [Interval(10, 20, 0)]), Interval(20, 20, 1);
      Inv(ix) && Proper(e) && DropsSilently(ix, e) && Inserted(ix, e) == ix
  {
    var ix, e := Index({}, [Interval(10, 20, 0)]), Interval(20, 20, 1);
    assert ix.unique[0].high == e.high;
    InsertedLive(ix, e);
  }

  // ------------------------------------------------------------- where entries go

  // The listed interval starts by the high end of e and ends beyond its low end.
  predicate Touches(i: Interval, e: Interval) { i.low <= e.high && e.low < i.high }

  lemma RunMembers(u: seq<Interval>, e: Interval, i: Interval)
    requires Apart(u)
    ensures i in Run(u, e) <==> i in SetOf(u) && Touches(i, e)
  {
    var lower := UpperBound(u, e.low);
    var upper := RunEnd(u, lower, e.high);
    if i in SetOf(u) {
      var m :| 0 <= m < |u| && u[m] == i;
      if lower < m { InOrder(u, lower, m); }
      if upper < m { InOrder(u, upper, m); }
      if lower <= m < upper { assert u[lower..upper][m - lower] == i; }
    }
    if i in Run(u, e) {
      var m := RunMember(u, lower, upper, i);
      if lower < m { InOrder(u, lower, m); }
    }
  }

  /** The listed entries that e touches move to the tree, and e with them: e meets nothing in the tree, and is not
      listed already unless it has length zero. */
  ghost predicate Moves(ix: Index, e: Interval) {
    && !Hits(ix.over, e) && !(e in SetOf(ix.unique) && e.low < e.high)
    && exists i | i in SetOf(ix.unique) :: Touches(i, e)
  }

  lemma MovesIff(ix: Index, e: Interval)
    requires Inv(ix) && Proper(e) && !Hits(ix.over, e)
    ensures var k := UpperBound(ix.unique, e.low);
      Moves(ix, e) <==> !(k < |ix.unique| && ix.unique[k] == e) && Run(ix.unique, e) != {}
  {
    if e in SetOf(ix.unique) { ListedPlace(ix.unique, e); }
    if Run(ix.unique, e) != {} {
      var i :| i in Run(ix.unique, e);
      RunMembers(ix.unique, e, i);
    }
    if i :| i in SetOf(ix.unique) && Touches(i, e) { RunMembers(ix.unique, e, i); }
  }

  /** Insertion, part by part: the tree gains e when e meets something in it or entries move, and all the entries that
      move; the list loses those, and gains e when nothing is met, nothing moves and e is not dropped. */
  lemma InsertedExact(ix: Index, e: Interval, i: Interval)
    requires Inv(ix) && Proper(e)
    ensures i in Inserted(ix, e).over <==>
      || i in ix.over || (i == e && (Hits(ix.over, e) || Moves(ix, e)))
      || (Moves(ix, e) && i in SetOf(ix.unique) && Touches(i, e))
    ensures i in SetOf(Inserted(ix, e).unique) <==>
      || (i in SetOf(ix.unique) && !(Moves(ix, e) && Touches(i, e)))
      || (i == e && !Hits(ix.over, e) && !Moves(ix, e) && !DropsSilently(ix, e))
  {
    if !Hits(ix.over, e) {
      InsertedCases(ix, e);
      MovesIff(ix, e);
      DropsIff(ix, e);
      RunMembers(ix.unique, e, i);
    }
  }

  /** A disjoint ordered list is determined by its entries. */
  lemma {:induction false} ApartDetermined(u: seq<Interval>, v: seq<Interval>)
    requires Apart(u) && Apart(v) && SetOf(u) == SetOf(v)
    ensures u == v
  {
    EmptyIff(u);
    EmptyIff(v);
    if u != [] {
      assert u[0] in SetOf(u) && u[0] in v;
      assert v[0] in SetOf(v) && v[0] in u;
      FirstIsLeast(u, v[0]);
      FirstIsLeast(v, u[0]);
      RestSame(u, v);
      ApartDetermined(u[1..], v[1..]);
      assert u == [u[0]] + u[1..] && v == [v[0]] + v[1..];
    }
  }

  lemma EmptyIff(u: seq<Interval>)
    ensures u == [] <==> SetOf(u) == {}
  {
    if u != [] { assert u[0] in SetOf(u); }
  }

  lemma FirstIsLeast(u: seq<Interval>, i: Interval)
    requires Apart(u) && i in u
    ensures i == u[0] || u[0].high < i.high
  {
    var m :| 0 <= m < |u| && u[m] == i;
    if 0 < m { InOrder(u, 0, m); }
  }

  lemma RestSame(u: seq<Interval>, v: seq<Interval>)
    requires Apart(u) && Apart(v) && SetOf(u) == SetOf(v) && u != [] && v != [] && u[0] == v[0]
    ensures Apart(u[1..]) && Apart(v[1..]) && SetOf(u[1..]) == SetOf(v[1..])
  {
    RestIs(u);
    RestIs(v);
  }

  lemma RestIs(u: seq<Interval>)
    requires Apart(u) && u != []
    ensures Apart(u[1..]) && SetOf(u[1..]) == SetOf(u) - {u[0]}
  {
    forall i
      ensures i in u[1..] <==> i in u && i != u[0]
    {
      if i in u[1..] {
        var m :| 0 <= m < |u| - 1 && u[1..][m] == i;
        InOrder(u, 0, m + 1);
      }
      if i in u && i != u[0] {
        var m :| 0 <= m < |u| && u[m] == i;
        assert u[1..][m - 1] == i;
      }
    }
  }

  /** The whole run moves: with [10, 20) and [30, 40) listed, inserting [5, 35) leaves nothing listed, and find(32)
      then returns both that cover 32. */
  lemma WholeRunMoves()
    ensures var i, j, e := Interval(10, 20, 0), Interval(30, 40, 1), Interval(5, 35, 2);
      var ix := Inserted(Index({}, [i, j]), e);
      ix == Index({i, j, e}, []) && FoundAt(ix, 32) == {j, e}
  {
    var i, j, e := Interval(10, 20, 0), Interval(30, 40, 1), Interval(5, 35, 2);
    var u := [i, j];
    assert UpperBound(u, 5) == 0;
    assert u[1..] == [j] && u[2..] == [];
    assert RunEnd(u, 2, 35) == 2 && RunEnd(u, 1, 35) == 2 && RunEnd(u, 0, 35) == 2;
    assert u[0..2] == u && u[0] in u && u[1] in u && SetOf(u) == {i, j};
    assert u[..0] + u[2..] == [];
    assert Stabbed({i, j, e}, 32) == {j, e};
  }

  // ----------------------------------------------------------------- one part each

  // Each live interval sits in one part only.
  ghost predicate OnePart(ix: Index) { ix.over !! SetOf(ix.unique) }

  /** A listed interval is put into the tree as well when it is inserted again and meets something in the tree,
      or has length zero at the start of another listed entry. */
  ghost predicate Doubles(ix: Index, e: Interval) {
    && e in SetOf(ix.unique)
    && (|| Hits(ix.over, e)
        || exists k | 0 <= k < |ix.unique| :: ix.unique[k] != e && ix.unique[k].low == e.low < ix.unique[k].high)
  }

  // A listed interval that is not the first to end beyond its own low end has length zero.
  lemma ListedPlace(u: seq<Interval>, e: Interval)
    requires Apart(u) && e in SetOf(u)
    ensures var k := UpperBound(u, e.low); e.low < e.high ==> k < |u| && u[k] == e
    ensures e.low == e.high ==>
      (Run(u, e) != {} <==> exists k | 0 <= k < |u| :: u[k] != e && u[k].low == e.low < u[k].high)
    ensures e.low == e.high ==> Taken(u, e) && e !in Run(u, e)
  {
    var m :| 0 <= m < |u| && u[m] == e;
    RunIff(u, e);
    TakenIff(u, e);
    if e.low == e.high {
      forall k | 0 <= k < |u| && u[k].low <= e.high && e.low < u[k].high
        ensures u[k].low == e.low && u[k] != e
      {
        if m < k { InOrder(u, m, k); }
      }
      NotInRun(u, e);
    } else {
      FirstBeyond(u, e, m);
    }
  }

  lemma FirstBeyond(u: seq<Interval>, e: Interval, m: nat)
    requires Apart(u) && m < |u| && u[m] == e && e.low < e.high
    ensures UpperBound(u, e.low) == m
  {
    var k := UpperBound(u, e.low);
    if k < m { InOrder(u, k, m); }
  }

  lemma NotInRun(u: seq<Interval>, e: Interval)
    requires e.low == e.high && Apart(u)
    ensures e !in Run(u, e)
  {
    var lower := UpperBound(u, e.low);
    var upper := RunEnd(u, lower, e.high);
    if e in SetOf(u[lower..upper]) {
      var m := RunMember(u, lower, upper, e);
      if lower < m { InOrder(u, lower, m); }
    }
  }

  /** Insertion keeps every live interval in exactly one part, except in exactly that case. */
  lemma InsertedOnePart(ix: Index, e: Interval)
    requires Inv(ix) && Proper(e) && OnePart(ix)
    ensures OnePart(Inserted(ix, e)) <==> !Doubles(ix, e)
  {
    if Hits(ix.over, e) {
      assert Inserted(ix, e).over == ix.over + {e} && Inserted(ix, e).unique == ix.unique;
    } else {
      InsertedCases(ix, e);
      NotHitNotLive(ix, e);
      if e in SetOf(ix.unique) { ListedPlace(ix.unique, e); }
    }
  }

  /** The case happens: a listed interval, inserted again beside a tree interval that meets it, is in both parts. */
  lemma ReinsertionDoubles()
    ensures var ix, e := Index({Interval(15, 36, 9)}, [Interval(10, 20, 0)]), Interval(10, 20, 0);
      Inv(ix) && OnePart(ix) && Doubles(ix, e) && !OnePart(Inserted(ix, e))
  {
    var ix, e := Index({Interval(15, 36, 9)}, [Interval(10, 20, 0)]), Interval(10, 20, 0);
    assert Covers(Interval(15, 36, 9), 15) && Covers(e, 15);
    assert Overlap(Interval(15, 36, 9), e) && ix.unique[0] == e;
    InsertedOnePart(ix, e);
  }

  /** Removal takes exactly the given interval out of the index. */
  lemma RemovedLive(ix: Index, e: Interval)
    requires Inv(ix)
    ensures Inv(Removed(ix, e)) && Live(Removed(ix, e)) == Live(ix) - {e}
    ensures OnePart(ix) ==> OnePart(Removed(ix, e))
  {
    WithoutSpec(ix.unique, e);
  }

  // --------------------------------------------------------------------- queries

  ghost function Stabbed(over: set<Interval>, x: int): set<Interval> { set i | i in over && Covers(i, x) }

  ghost function Overlapped(over: set<Interval>, q: Interval): set<Interval> { set i | i in over && Overlap(i, q) }

  // The listed entry that find(X) adds.
  ghost function ListedAround(u: seq<Interval>, x: int): set<Interval> {
    var k := UpperBound(u, x);
    if k < |u| && u[k].low <= x then {u[k]} else {}
  }

  // What find(X) makes of a result set: the listed part is asked only when the tree adds nothing.
  ghost function FoundAtFrom(ix: Index, x: int, results: set<Interval>): set<Interval> {
    if Stabbed(ix.over, x) <= results then results + ListedAround(ix.unique, x) else results + Stabbed(ix.over, x)
  }

  ghost function FoundAt(ix: Index, x: int): set<Interval> { FoundAtFrom(ix, x, {}) }

  lemma AroundCovers(u: seq<Interval>, x: int, i: Interval)
    requires Apart(u)
    ensures i in ListedAround(u, x) <==> i in SetOf(u) && i.low <= x < i.high
  {
    var k := UpperBound(u, x);
    if i in SetOf(u) && i.low <= x < i.high {
      var m :| 0 <= m < |u| && u[m] == i;
      assert k == m;
    }
  }

  /** find(X) returns live intervals that cover the point, and returns some exactly when one is in the tree or
      has points of its own: a listed zero-length interval is never found. */
  lemma FoundAtSound(ix: Index, x: int)
    requires Inv(ix)
    ensures forall i | i in FoundAt(ix, x) :: i in Live(ix) && Covers(i, x)
    ensures FoundAt(ix, x) != {} <==> exists i | i in Live(ix) :: Covers(i, x) && (i in ix.over || i.low < i.high)
  {
    forall i
      ensures i in ListedAround(ix.unique, x) <==> i in SetOf(ix.unique) && i.low <= x < i.high
    {
      AroundCovers(ix.unique, x, i);
    }
    if i :| i in Live(ix) && Covers(i, x) && (i in ix.over || i.low < i.high) {
      assert i in ix.over ==> i in Stabbed(ix.over, x);
      assert i !in ix.over ==> i in ListedAround(ix.unique, x);
    }
    if FoundAt(ix, x) != {} {
      var i :| i in FoundAt(ix, x);
      assert i in Live(ix) && Covers(i, x);
    }
  }

  // find(X) sees this listed interval: it has points of its own, and nothing in the tree covers x.
  ghost predicate SeenAt(ix: Index, x: int, i: Interval) { i.low < i.high && Stabbed(ix.over, x) == {} }

  /** find(X) returns all live intervals that cover the point exactly when each that is only listed has points of its
      own and nothing in the tree covers the point. */
  lemma FoundAtExact(ix: Index, x: int)
    requires Inv(ix)
    ensures FoundAt(ix, x) == Stabbed(Live(ix), x) <==>
              forall i | i in SetOf(ix.unique) - ix.over && Covers(i, x) :: SeenAt(ix, x, i)
  {
    FoundAtSound(ix, x);
    assert FoundAt(ix, x) <= Stabbed(Live(ix), x);
    forall i
      ensures i in ListedAround(ix.unique, x) <==> i in SetOf(ix.unique) && i.low <= x < i.high
    {
      AroundCovers(ix.unique, x, i);
    }
    if FoundAt(ix, x) == Stabbed(Live(ix), x) {
      forall i | i in SetOf(ix.unique) - ix.over && Covers(i, x)
        ensures SeenAt(ix, x, i)
      {
        assert i in Stabbed(Live(ix), x) && i !in Stabbed(ix.over, x);
      }
    } else {
      var i :| i in Stabbed(Live(ix), x) && i !in FoundAt(ix, x);
      assert i !in Stabbed(ix.over, x);
      assert i in SetOf(ix.unique) - ix.over && !SeenAt(ix, x, i);
    }
  }

  /** The case happens: inserting [18, 35) beside [15, 20) in the tree leaves [30, 40) listed, and find(32) misses
      it. */
  lemma ListedIsMissed()
    ensures var e, i := Interval(18, 35, 2), Interval(30, 40, 1);
      var ix := Inserted(Index({Interval(15, 20, 0)}, [i]), e);
      Inv(ix) && i in Live(ix) && Covers(i, 32) && FoundAt(ix, 32) == {e}
  {
    var t, e, i := Interval(15, 20, 0), Interval(18, 35, 2), Interval(30, 40, 1);
    var ix := Inserted(Index({t}, [i]), e);
    assert Covers(t, 18) && Covers(e, 18) && Overlap(t, e);
    assert ix == Index({t, e}, [i]) && [i][0] == i;
    assert Stabbed(ix.over, 32) == {e};
  }

  /** find(X) on any result set: it adds what in the tree covers the point, and what is listed there and goes on beyond
      it exactly when the tree added nothing. */
  lemma FoundAtFromExact(ix: Index, x: int, results: set<Interval>, i: Interval)
    requires Inv(ix)
    ensures i in FoundAtFrom(ix, x, results) <==>
      || i in results || (i in ix.over && Covers(i, x))
      || (i in SetOf(ix.unique) && i.low <= x < i.high && forall j | j in ix.over && Covers(j, x) :: j in results)
  {
    AroundCovers(ix.unique, x, i);
    if Stabbed(ix.over, x) <= results {
      assert forall j | j in ix.over && Covers(j, x) :: j in Stabbed(ix.over, x);
    } else {
      var j :| j in Stabbed(ix.over, x) && j !in results;
    }
  }

  /** The case happens: [5, 5] is listed in an empty index, and find(5) returns nothing. */
  lemma ListedPointIsNotFound()
    ensures var e := Interval(5, 5, 0);
      var ix := Inserted(Index({}, []), e);
      Inv(ix) && e in Live(ix) && Covers(e, 5) && FoundAt(ix, 5) == {}
  {
    var e := Interval(5, 5, 0);
    InsertedInv(Index({}, []), e);
    assert Inserted(Index({}, []), e) == Index({}, [e]);
    assert [e][0] == e;
  }

  // The end of the run of entries, from k on, that start strictly before x (line 190).
  function RunEndBefore(u: seq<Interval>, k: nat, x: int): (e: nat)
    requires k <= |u|
    ensures k <= e <= |u|
    ensures forall m | k <= m < e :: u[m].low < x
    ensures e < |u| ==> u[e].low >= x
    decreases |u| - k
  {
    if k < |u| && u[k].low < x then RunEndBefore(u, k + 1, x) else k
  }

  // The listed entries that find(I) adds.
  ghost function ListedAcross(u: seq<Interval>, q: Interval): set<Interval> {
    var k := UpperBound(u, q.low);
    SetOf(u[k..RunEndBefore(u, k, q.high)])
  }

  // What find(I) makes of a result set.
  ghost function FoundInFrom(ix: Index, q: Interval, results: set<Interval>): set<Interval> {
    if Overlapped(ix.over, q) <= results then results + ListedAcross(ix.unique, q)
    else results + Overlapped(ix.over, q)
  }

  ghost function FoundIn(ix: Index, q: Interval): set<Interval> { FoundInFrom(ix, q, {}) }

  // In a disjoint ordered list the entries that start before q ends and end after q starts are a run.
  lemma RunOf(u: seq<Interval>, q: Interval, k: nat, e: nat, m: nat)
    requires Apart(u) && k <= e <= |u| && m < |u|
    requires (forall j | 0 <= j < k :: u[j].high <= q.low) && (k < |u| ==> u[k].high > q.low)
    requires (forall j | k <= j < e :: u[j].low < q.high) && (e < |u| ==> u[e].low >= q.high)
    ensures u[m].low < q.high && q.low < u[m].high <==> k <= m < e
  {
    if k < m { assert u[k].high < u[m].high; }
    if e < m { assert u[e].high <= u[m].low && Proper(u[e]); }
  }

  lemma RunMember(u: seq<Interval>, k: nat, e: nat, i: Interval) returns (m: nat)
    requires k <= e <= |u| && i in SetOf(u[k..e])
    ensures k <= m < e && u[m] == i
  {
    var j :| 0 <= j < e - k && u[k..e][j] == i;
    m := k + j;
  }

  lemma AcrossIff(u: seq<Interval>, q: Interval, i: Interval)
    requires Apart(u)
    ensures i in ListedAcross(u, q) <==> i in SetOf(u) && i.low < q.high && q.low < i.high
  {
    var k := UpperBound(u, q.low);
    var e := RunEndBefore(u, k, q.high);
    if i in SetOf(u) {
      var m :| 0 <= m < |u| && u[m] == i;
      RunOf(u, q, k, e, m);
      if k <= m < e { assert u[k..e][m - k] == i; }
    }
    if i in SetOf(u[k..e]) {
      var m := RunMember(u, k, e, i);
      RunOf(u, q, k, e, m);
    }
  }

  // Of the listed intervals that overlap q, find(I) sees those that do not merely share its start.
  predicate Seen(i: Interval, q: Interval) { i.low != q.low || (i.low < i.high && q.low < q.high) }

  lemma StrictOverlap(i: Interval, q: Interval)
    requires i.low <= i.high && q.low <= q.high
    ensures i.low < q.high && q.low < i.high <==> Overlap(i, q) && Seen(i, q)
  {
    if i.low < q.high && q.low < i.high {
      var x := if i.low <= q.low then q.low else i.low;
      assert Covers(i, x) && Covers(q, x);
    }
  }

  /** find(I), for every I, returns live intervals that overlap it, and returns some exactly when one is in the
      tree, or has points of its own as I has, or starts elsewhere than I. */
  lemma FoundInSound(ix: Index, q: Interval)
    requires Inv(ix) && q.low <= q.high
    ensures forall i | i in FoundIn(ix, q) :: i in Live(ix) && Overlap(i, q)
    ensures FoundIn(ix, q) != {} <==> exists i | i in Live(ix) :: Overlap(i, q) && (i in ix.over || Seen(i, q))
  {
    forall i
      ensures i in ListedAcross(ix.unique, q) <==> i in SetOf(ix.unique) && Overlap(i, q) && Seen(i, q)
    {
      AcrossIff(ix.unique, q, i);
      if i in SetOf(ix.unique) { StrictOverlap(i, q); }
    }
    if i :| i in Live(ix) && Overlap(i, q) && (i in ix.over || Seen(i, q)) {
      assert i in ix.over ==> i in Overlapped(ix.over, q);
      assert i !in ix.over ==> i in ListedAcross(ix.unique, q);
    }
    if FoundIn(ix, q) != {} {
      var i :| i in FoundIn(ix, q);
      assert i in Live(ix) && Overlap(i, q);
    }
  }

  /** find(I) returns all live intervals that overlap I exactly when each that is only listed does not merely share
      its start, and nothing in the tree overlaps I. */
  lemma FoundInExact(ix: Index, q: Interval)
    requires Inv(ix) && q.low <= q.high
    ensures FoundIn(ix, q) == Overlapped(Live(ix), q) <==>
              forall i | i in SetOf(ix.unique) - ix.over && Overlap(i, q) :: SeenIn(ix, q, i)
  {
    FoundInSound(ix, q);
    assert FoundIn(ix, q) <= Overlapped(Live(ix), q);
    forall i
      ensures i in ListedAcross(ix.unique, q) <==> i in SetOf(ix.unique) && Overlap(i, q) && Seen(i, q)
    {
      AcrossIff(ix.unique, q, i);
      if i in SetOf(ix.unique) { StrictOverlap(i, q); }
    }
    if FoundIn(ix, q) == Overlapped(Live(ix), q) {
      forall i | i in SetOf(ix.unique) - ix.over && Overlap(i, q)
        ensures SeenIn(ix, q, i)
      {
        assert i in Overlapped(Live(ix), q) && i !in Overlapped(ix.over, q);
      }
    } else {
      var i :| i in Overlapped(Live(ix), q) && i !in FoundIn(ix, q);
      assert i !in Overlapped(ix.over, q);
      assert i in SetOf(ix.unique) - ix.over && !SeenIn(ix, q, i);
    }
  }

  /** find(I) on any result set, in the same way. */
  lemma FoundInFromExact(ix: Index, q: Interval, results: set<Interval>, i: Interval)
    requires Inv(ix) && q.low <= q.high
    ensures i in FoundInFrom(ix, q, results) <==>
      || i in results || (i in ix.over && Overlap(i, q))
      || (i in SetOf(ix.unique) && i.low < q.high && q.low < i.high
          && forall j | j in ix.over && Overlap(j, q) :: j in results)
  {
    AcrossIff(ix.unique, q, i);
    if Overlapped(ix.over, q) <= results {
      assert forall j | j in ix.over && Overlap(j, q) :: j in Overlapped(ix.over, q);
    } else {
      var j :| j in Overlapped(ix.over, q) && j !in results;
    }
  }

  ghost predicate SeenIn(ix: Index, q: Interval, i: Interval) { Seen(i, q) && Overlapped(ix.over, q) == {} }

  /** The case happens: with [10, 20) listed, find of the point interval at 10 returns nothing. */
  lemma PointAtStartIsNotFound()
    ensures var i, q := Interval(10, 20, 0), Interval(10, 10, 1);
      var ix := Index({}, [i]);
      Inv(ix) && i in Live(ix) && Overlap(i, q) && FoundIn(ix, q) == {}
  {
    var i, q := Interval(10, 20, 0), Interval(10, 10, 1);
    assert Covers(i, 10) && Covers(q, 10) && [i][0] == i;
    assert UpperBound([i], 10) == 0 && RunEndBefore([i], 0, 10) == 0;
  }

  // ------------------------------------------------------------------- histories

  ghost function IndexAfter(cs: seq<B.Change>): Index {
    if cs == [] then Index({}, [])
    else
      var ix, c := IndexAfter(cs[..|cs| - 1]), cs[|cs| - 1];
      if c.Add? then Inserted(ix, c.i) else Removed(ix, c.i)
  }

  // The last change that concerns x inserts it and is dropped.
  ghost predicate LastAddDropped(cs: seq<B.Change>, x: Interval) {
    cs != [] &&
    var cs0, c := cs[..|cs| - 1], cs[|cs| - 1];
    if c.i == x then c.Add? && DropsSilently(IndexAfter(cs0), x) else LastAddDropped(cs0, x)
  }

  lemma AfterStep(ix: Index, c: B.Change)
    requires Inv(ix) && Proper(c.i)
    ensures var ix' := if c.Add? then Inserted(ix, c.i) else Removed(ix, c.i);
      && Inv(ix')
      && Live(ix') ==
           if c.Drop? then Live(ix) - {c.i} else if DropsSilently(ix, c.i) then Live(ix) else Live(ix) + {c.i}
  {
    if c.Add? {
      InsertedInv(ix, c.i);
      InsertedLive(ix, c.i);
    } else {
      RemovedLive(ix, c.i);
    }
  }

  /** After any insertions and removals the listed part is disjoint and ordered, and the live intervals are those
      a plain set would hold, less exactly those whose last insertion was dropped. */
  lemma {:induction false} IndexHistory(cs: seq<B.Change>)
    requires B.ProperChanges(cs)
    ensures Inv(IndexAfter(cs))
    ensures forall x :: x in Live(IndexAfter(cs)) <==> x in B.Live(cs) && !LastAddDropped(cs, x)
  {
    if cs != [] {
      var cs0, c := cs[..|cs| - 1], cs[|cs| - 1];
      IndexHistory(cs0);
      AfterStep(IndexAfter(cs0), c);
      if c.Add? { InsertLosesIff(IndexAfter(cs0), c.i); }
    }
  }

  // No change inserts an interval that a plain set would hold already.
  ghost predicate NoReinsertion(cs: seq<B.Change>) {
    forall k | 0 <= k < |cs| :: cs[k].Add? ==> cs[k].i !in B.Live(cs[..k])
  }

  /** After any history that inserts no interval twice, every live interval is in exactly one part. */
  lemma {:induction false} HistoryOnePart(cs: seq<B.Change>)
    requires B.ProperChanges(cs) && NoReinsertion(cs)
    ensures OnePart(IndexAfter(cs))
  {
    if cs != [] {
      var cs0, c := cs[..|cs| - 1], cs[|cs| - 1];
      assert forall k | 0 <= k < |cs0| :: cs0[k] == cs[k] && cs0[..k] == cs[..k];
      HistoryOnePart(cs0);
      IndexHistory(cs0);
      if c.Add? {
        assert c.i !in Live(IndexAfter(cs0));
        InsertedOnePart(IndexAfter(cs0), c.i);
      } else {
        RemovedLive(IndexAfter(cs0), c.i);
      }
    }
  }

  // --------------------------------------------------------------------- the object

  class FastIndex {
    const overlapping: IntervalTree
    var unique: seq<Interval>

    ghost function Value(): Index
      reads this, overlapping
    {
      Index(overlapping.live, unique)
    }

    // Enough for every operation to run.
    ghost predicate Usable()
      reads this, overlapping
    {
      overlapping.Valid() && forall k | 0 <= k < |unique| :: Proper(unique[k])
    }

    ghost predicate Valid()
      reads this, overlapping
    {
      Usable() && Inv(Value())
    }

    constructor ()
      ensures Valid() && Value() == Index({}, []) && fresh(overlapping)
    {
      overlapping := new IntervalTree();
      unique := [];
    }

    method HitsTree(e: Interval) returns (hit: bool)
      requires overlapping.Valid() && e.low <= e.high
      ensures hit <==> Hits(overlapping.live, e)
    {
      var dummy, found := overlapping.FindOverlapping(e, {});
      assert dummy == Overlapped(overlapping.live, e);
      HitsIffOverlapped(overlapping.live, e);
      hit := found != 0;
    }

    // Copy the run of listed entries from `lower` on into the tree (lines 127-133).
    method CopyRun(lower: nat, high: int) returns (upper: nat)
      requires Usable() && lower <= |unique|
      modifies overlapping
      ensures overlapping.Valid() && upper == RunEnd(unique, lower, high)
      ensures overlapping.live == old(overlapping.live) + SetOf(unique[lower..upper])
    {
      upper := lower;
      while upper < |unique| && unique[upper].low <= high
        invariant lower <= upper <= |unique| && overlapping.Valid()
        invariant overlapping.live == old(overlapping.live) + SetOf(unique[lower..upper])
        invariant RunEnd(unique, upper, high) == RunEnd(unique, lower, high)
      {
        CopyOne(lower, upper, old(overlapping.live));
        upper := upper + 1;
      }
    }

    method CopyOne(ghost lower: nat, upper: nat, ghost live0: set<Interval>)
      requires overlapping.Valid() && lower <= upper < |unique| && Proper(unique[upper])
      requires overlapping.live == live0 + SetOf(unique[lower..upper])
      modifies overlapping
      ensures overlapping.Valid() && overlapping.live == live0 + SetOf(unique[lower..upper + 1])
    {
      GrowRun(unique, lower, upper);
      overlapping.Insert(unique[upper]);
    }

    /** insert (lines 111-147) */
    method Insert(e: Interval)
      requires Usable() && Proper(e)
      modifies this, overlapping
      ensures Usable() && Value() == Inserted(old(Value()), e)
    {
      var hit := HitsTree(e);
      if hit {
        overlapping.Insert(e);
      } else {
        InsertMissed(e);
      }
    }

    // The interval meets nothing in the tree (lines 119-146).
    method InsertMissed(e: Interval)
      requires Usable() && Proper(e) && !Hits(overlapping.live, e)
      modifies this, overlapping
      ensures Usable() && Value() == Inserted(old(Value()), e)
    {
      var lower := UpperBound(unique, e.low);
      if lower < |unique| && unique[lower] == e { return; }
      var upper := CopyRun(lower, e.high);
      if upper != lower {
        unique := unique[..lower] + unique[upper..];
        overlapping.Insert(e);
      } else {
        assert unique[lower..upper] == [];
        ListedMembers(unique, e);
        unique := Listed(unique, e);
      }
    }

    /** insert keeps the invariant, and makes exactly the interval live unless it is dropped. */
    method InsertProper(e: Interval)
      requires Valid() && Proper(e)
      modifies this, overlapping
      ensures Valid() && Value() == Inserted(old(Value()), e)
      ensures Live(Value()) == old(Live(Value())) + if old(DropsSilently(Value(), e)) then {} else {e}
      ensures old(OnePart(Value())) ==> (OnePart(Value()) <==> !old(Doubles(Value(), e)))
      ensures forall i | i in old(SetOf(unique)) :: i in SetOf(unique) <==> !(old(Moves(Value(), e)) && Touches(i, e))
    {
      forall i
        ensures i in SetOf(unique) && i !in SetOf(Inserted(Value(), e).unique) <==>
                i in SetOf(unique) && Moves(Value(), e) && Touches(i, e)
      {
        InsertedExact(Value(), e, i);
      }
      InsertedInv(Value(), e);
      InsertedLive(Value(), e);
      if OnePart(Value()) { InsertedOnePart(Value(), e); }
      Insert(e);
    }

    /** remove (lines 149-158) */
    method Remove(e: Interval)
      requires Usable() && e.low <= e.high
      modifies this, overlapping
      ensures Usable() && Value() == Removed(old(Value()), e)
      ensures old(Inv(Value())) ==> Inv(Value()) && Live(Value()) == old(Live(Value())) - {e}
    {
      if Inv(Value()) { RemovedLive(Value(), e); }
      WithoutMembers(unique, e);
      overlapping.Remove(e);
      unique := Without(unique, e);
    }

    /** find of a point (lines 160-180) */
    method Find(x: int, results0: set<Interval>) returns (results: set<Interval>, count: int)
      requires Usable()
      ensures results == FoundAtFrom(Value(), x, results0)
      ensures results0 <= results && forall i | i in results - results0 :: i in Live(Value()) && Covers(i, x)
      ensures count == |results| - |results0|
    {
      var hits, added := overlapping.Find(x, results0);
      results := hits;
      assert hits == results0 + Stabbed(overlapping.live, x);
      AddsIff(results0, Stabbed(overlapping.live, x), hits);
      if added > 0 {
        count := added;
        return;
      }
      var k := UpperBound(unique, x);
      if k < |unique| {
        if unique[k].low > x { return hits, 0; }
        results := results + {unique[k]};
      }
      count := |results| - |results0|;
    }

    // The run of listed entries from lb on that start before high (lines 189-194).
    method CollectRun(lb: nat, high: int, hits: set<Interval>) returns (results: set<Interval>)
      requires lb <= |unique|
      ensures results == hits + SetOf(unique[lb..RunEndBefore(unique, lb, high)])
    {
      results := hits;
      var ub := lb;
      while ub < |unique| && unique[ub].low < high
        invariant lb <= ub <= |unique| && results == hits + SetOf(unique[lb..ub])
        invariant RunEndBefore(unique, ub, high) == RunEndBefore(unique, lb, high)
      {
        GrowRun(unique, lb, ub);
        results := results + {unique[ub]};
        ub := ub + 1;
      }
    }

    /** find of an interval (lines 182-198) */
    method FindOverlapping(q: Interval, results0: set<Interval>) returns (results: set<Interval>, count: int)
      requires Usable() && q.low <= q.high
      ensures results == FoundInFrom(Value(), q, results0) && count == |results| - |results0|
    {
      var hits, added := overlapping.FindOverlapping(q, results0);
      assert hits == results0 + Overlapped(overlapping.live, q);
      AddsIff(results0, Overlapped(overlapping.live, q), hits);
      if added != 0 {
        return hits, added;
      }
      results := CollectRun(UpperBound(unique, q.low), q.high, hits);
      count := |results| - |results0|;
    }
  }

  lemma HitsIffOverlapped(over: set<Interval>, e: Interval)
    ensures Overlapped(over, e) != {} <==> Hits(over, e)
  {
    if i :| i in over && Overlap(i, e) {
      assert i in Overlapped(over, e);
    }
  }

  // Adding a set makes a set larger unless it was there already.
  lemma AddsIff(a: set<Interval>, s: set<Interval>, b: set<Interval>)
    requires b == a + s
    ensures |a| <= |b| && (|a| == |b| <==> s <= a) && (s <= a ==> b == a)
  {
    assert b == a + (b - a);
    if !(s <= a) {
      var i :| i in s && i !in a;
      assert i in b - a;
    }
  }

  lemma {:induction false} ListedMembers(u: seq<Interval>, e: Interval)
    ensures forall k | 0 <= k < |Listed(u, e)| :: Listed(u, e)[k] in u || Listed(u, e)[k] == e
  {
    if !(u == [] || e.high < u[0].high || u[0].high == e.high) {
      ListedMembers(u[1..], e);
      var w := Listed(u[1..], e);
      forall k | 0 <= k < |w|
        ensures w[k] in u || w[k] == e
      {
        assert w[k] in u[1..] || w[k] == e;
      }
    }
  }

  lemma GrowRun(u: seq<Interval>, a: nat, b: nat)
    requires a <= b < |u|
    ensures SetOf(u[a..b + 1]) == SetOf(u[a..b]) + {u[b]}
  {
    assert u[a..b + 1] == u[a..b] + [u[b]];
  }

  lemma {:induction false} WithoutMembers(u: seq<Interval>, e: Interval)
    ensures forall k | 0 <= k < |Without(u, e)| :: Without(u, e)[k] in u
  {
    if u != [] && u[0].high != e.high {
      WithoutMembers(u[1..], e);
      var w := Without(u[1..], e);
      forall k | 0 <= k < |w|
        ensures w[k] in u
      {
        assert w[k] in u[1..];
      }
    }
  }
}
