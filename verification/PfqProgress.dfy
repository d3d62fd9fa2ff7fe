/**
 Progress in the phase-fair lock: a thread is held up exactly when it spins, every call
 and critical section ends after a bounded number of the thread's own steps, and a lock
 that nobody enters any more empties.
 */
module PfqProgress {
  import opened Basics
  import M = McsLock
  import opened PfqLock
  import opened PfqTheorems

  // ------------------------------------------------------------ who can move

  // The next step of a thread that is inside.
  function NextOp(pc: Pc, m: M.Pc): Op {
    match pc
    case Out => Arrive
    case ReadSpin(_) => LeaveSpin
    case Reading => Depart
    case Compare(_) => DoCompare
    case LoadHead(_) => DoLoadHead
    case Wake(_, _) => DoWake
    case Acquire => if m == M.Holding then EnterBody else Mutex(NextMutexOp(m))
    case Writer(_, _, _, _) => Advance
    case Release => Mutex(NextMutexOp(m))
  }

  function NextMutexOp(m: M.Pc): M.Op {
    match m
    case Exchange => M.DoExchange
    case SetBlocked => M.DoSetBlocked
    case Link => M.DoLink
    case Spin => M.LeaveSpin
    case Holding => M.LoadNext
    case CasTail => M.DoCas
    case AwaitLink => M.SeeLink
    case _ => M.DoSignal
  }

  // What the queue promises a thread that is about to use a link.
  lemma MutexReady(s: M.Lock, t: Tid)
    requires M.Inv(s) && t < |s.threads|
    ensures s.threads[t].pc == M.Link ==> M.Can(s, t, M.DoLink)
    ensures s.threads[t].pc == M.Signal ==> M.Can(s, t, M.DoSignal)
  {
    if M.Queued(s.threads[t].pc) {
      var i := M.IndexOf(s, t);
    }
  }

  lemma NextOpReady(s: State, t: Tid)
    requires Inv(s) && t < |s.threads| && !HeldUp(s, t)
    ensures Can(s, t, NextOp(s.threads[t], s.mcs.threads[t].pc))
  {
    assert MutexLink(s.threads[t], s.mcs.threads[t].pc);
    MutexReady(s.mcs, t);
    WakeNeverHeldUp(s, t);
  }

  lemma HeldUpStays(s: State, t: Tid, op: Op)
    requires LinksOk(s) && t < |s.threads| && HeldUp(s, t)
    ensures !Can(s, t, op)
  {}

  /** A thread has a step to take exactly when it does not spin on a flag that is up, a blocked flag or a missing
      link. In particular a thread outside can always arrive as a reader and as a writer. */
  lemma HeldUpIff(s: State, t: Tid)
    requires Inv(s) && t < |s.threads|
    ensures (exists op :: Can(s, t, op)) <==> !HeldUp(s, t)
    ensures s.threads[t] == Out ==> Can(s, t, Arrive) && Can(s, t, Request)
  {
    assert MutexLink(s.threads[t], s.mcs.threads[t].pc);
    if HeldUp(s, t) {
      forall op
        ensures !Can(s, t, op)
      {
        HeldUpStays(s, t, op);
      }
    } else {
      NextOpReady(s, t);
    }
  }

  // --------------------------------------------------------- own steps to go

  // Steps of its own after which a thread that is inside is out again.
  function ToGo(pc: Pc, m: M.Pc): nat {
    match pc
    case Out => 0
    case ReadSpin(_) => 5
    case Reading => 4
    case Compare(_) => 3
    case LoadHead(_) => 2
    case Wake(_, _) => 1
    case Acquire => 17 + AcquireToGo(m)
    case Writer(st, _, _, _) => 18 - Ord(st)
    case Release => ReleaseToGo(m)
  }

  function AcquireToGo(m: M.Pc): nat {
    match m
    case Exchange => 5
    case SetBlocked => 4
    case Link => 3
    case Spin => 2
    case _ => 1
  }

  function ReleaseToGo(m: M.Pc): nat {
    match m
    case Holding => 4
    case CasTail => 3
    case AwaitLink => 2
    case _ => 1
  }

  function Left(s: State, t: Tid): nat
    requires t < |s.threads| == |s.mcs.threads|
  {
    ToGo(s.threads[t], s.mcs.threads[t].pc)
  }

  // The first step of a call: the caller was outside.
  predicate Begins(op: Op) { op == Arrive || op == Request }

  lemma OthersStayPut(s: State, t: Tid, op: Op, u: Tid)
    requires LinksOk(s) && Can(s, t, op) && u < |s.threads| && u != t
    ensures var s' := Do(s, t, op);
      |s'.threads| == |s.threads| == |s'.mcs.threads| && s'.threads[u] == s.threads[u]
      && s'.mcs.threads[u].pc == s.mcs.threads[u].pc
  {
    match op
    case Mutex(m) => M.OthersKeepPc(s.mcs, t, m);
    case Request => M.OthersKeepPc(s.mcs, t, M.BeginLock);
    case EnterBody => M.OthersKeepPc(s.mcs, t, M.Scribble(true));
    case _ =>
  }

  // The writer's access moves it on, by one stage or two, or out of the body.
  lemma AdvanceMoves(s: State, t: Tid, pc: Pc)
    requires t < |s.threads| && pc == s.threads[t] && pc.Writer?
    ensures |DoAdvance(s, t, pc).threads| == |s.threads|
    ensures var next := DoAdvance(s, t, pc).threads[t];
      if pc.stage == LowerFlag then next == Release else next.Writer? && Ord(pc.stage) < Ord(next.stage)
  {
    if Ord(pc.stage) <= 4 {
      assert pc.stage in {Announce, LoadPhase, RaiseFlag, MarkRin};
    } else if Ord(pc.stage) <= 8 {
      assert pc.stage in {StoreLast, MarkRout, Drain, Writing};
    }
  }

  lemma WriterCountsDown(s: State, t: Tid)
    requires LinksOk(s) && Can(s, t, Advance)
    ensures var s' := DoAdvance(s, t, s.threads[t]);
      |s'.threads| == |s.threads| == |s'.mcs.threads| && 0 < Left(s', t) < Left(s, t) && s'.threads[t] != Out
  {
    assert MutexLink(s.threads[t], s.mcs.threads[t].pc);
    AdvanceKeepsMcs(s, t);
    AdvanceMoves(s, t, s.threads[t]);
  }

  lemma MutexCountsDown(s: State, t: Tid, m: M.Op)
    requires LinksOk(s) && Can(s, t, Mutex(m))
    ensures var s' := DoMutex(s, t, m);
      |s'.threads| == |s.threads| == |s'.mcs.threads| && Left(s', t) < Left(s, t)
      && (Left(s', t) == 0 <==> s'.threads[t] == Out)
  {
    M.OthersKeepPc(s.mcs, t, m);
    assert MutexLink(s.threads[t], s.mcs.threads[t].pc);
  }

  lemma OwnStepCountsDown(s: State, t: Tid, op: Op)
    requires LinksOk(s) && Can(s, t, op) && !Begins(op)
    ensures var s' := Do(s, t, op);
      |s'.threads| == |s.threads| == |s'.mcs.threads| && Left(s', t) < Left(s, t)
      && (Left(s', t) == 0 <==> s'.threads[t] == Out)
  {
    match op
    case Advance => WriterCountsDown(s, t);
    case Mutex(m) => MutexCountsDown(s, t, m);
    case EnterBody => M.OthersKeepPc(s.mcs, t, M.Scribble(true));
    case _ =>
  }

  /** Every step that a thread takes inside brings it nearer to the outside, and no step of another thread takes it
      further away. */
  lemma StepCountsDown(s: State, t: Tid, op: Op, u: Tid)
    requires Inv(s) && Can(s, t, op) && u < |s.threads| && !(u == t && Begins(op))
    ensures var s' := Do(s, t, op);
      && |s'.threads| == |s.threads| == |s'.mcs.threads|
      && (if u == t then Left(s', u) < Left(s, u) else Left(s', u) == Left(s, u))
  {
    if u == t { OwnStepCountsDown(s, t, op); } else { OthersStayPut(s, t, op, u); }
  }

  // Thread t's own steps from state a to state b.
  ghost function OwnSteps(es: seq<Event>, a: nat, b: nat, t: Tid): nat
    requires a <= b <= |es|
    decreases b - a
  {
    if a == b then 0 else (if es[a].t == t then 1 else 0) + OwnSteps(es, a + 1, b, t)
  }

  lemma CountsDownAt(ss: seq<State>, es: seq<Event>, i: nat, t: Tid)
    requires |ss| == |es| + 1 && i < |es| && StepAt(ss, es, i) && TimelyAt(ss, es, i) && Inv(ss[i])
    requires t < |ss[i].threads| && (ss[i].threads[t] != Out || es[i].t != t)
    ensures Inv(ss[i + 1]) && t < |ss[i + 1].threads|
    ensures Left(ss[i + 1], t) + (if es[i].t == t then 1 else 0) <= Left(ss[i], t)
  {
    StepCountsDown(ss[i], es[i].t, es[i].op, t);
    EventInv(ss, es, i);
  }

  // What thread t still has to do in state i, with the invariant.
  ghost predicate Goes(ss: seq<State>, i: nat, t: Tid, n: nat) {
    i < |ss| && Inv(ss[i]) && t < |ss[i].threads| && Left(ss[i], t) == n
  }

  ghost predicate Stays(ss: seq<State>, i: nat, t: Tid) {
    i < |ss| && t < |ss[i].threads| && ss[i].threads[t] != Out
  }

  lemma GoesOn(ss: seq<State>, es: seq<Event>, i: nat, t: Tid, n: nat) returns (n': nat)
    requires TimelySteps(ss, es) && i < |es| && Goes(ss, i, t, n) && Stays(ss, i, t)
    ensures Goes(ss, i + 1, t, n') && n' + (if es[i].t == t then 1 else 0) <= n
  {
    assert StepAt(ss, es, i) && TimelyAt(ss, es, i);
    CountsDownAt(ss, es, i, t);
    n' := Left(ss[i + 1], t);
  }

  /** Over a run: while a thread stays inside, its own steps are no more than it had to go at the start. */
  lemma {:induction false} OwnStepsBounded(ss: seq<State>, es: seq<Event>, a: nat, b: nat, t: Tid, n: nat)
    requires TimelySteps(ss, es) && a <= b <= |es| && Goes(ss, a, t, n)
    requires forall i | a <= i < b :: Stays(ss, i, t)
    ensures OwnSteps(es, a, b, t) <= n
    decreases b - a
  {
    if a < b {
      assert Stays(ss, a, t);
      var n' := GoesOn(ss, es, a, t, n);
      OwnStepsBounded(ss, es, a + 1, b, t, n');
    }
  }

  /** A reader that has its exit ticket takes at most three more steps inside, a reader five and a writer 22; and
      nothing is left to do exactly outside. */
  lemma LeftAtMost(s: State, t: Tid)
    requires Inv(s) && t < |s.threads|
    ensures Left(s, t) <= 22 && (Left(s, t) == 0 <==> s.threads[t] == Out)
    ensures HasTicket(s.threads[t]) ==> Left(s, t) <= 3
    ensures s.threads[t] == Reading || s.threads[t].ReadSpin? ==> Left(s, t) <= 5
  {
    assert MutexLink(s.threads[t], s.mcs.threads[t].pc);
  }

  /** No deadlock: whenever some thread is held up, some thread that is inside a call or inside the critical section
      has a step to take, and the step brings it nearer to the outside. */
  lemma NoDeadlock(ss: seq<State>, es: seq<Event>, i: nat, t: Tid) returns (u: Tid, op: Op)
    requires TimelyRun(ss, es) && i < |ss| && t < |ss[i].threads| == |ss[i].mcs.threads|
    requires HeldUp(ss[i], t)
    ensures Can(ss[i], u, op) && ss[i].threads[u] != Out
    ensures var s' := Do(ss[i], u, op); u < |s'.threads| == |s'.mcs.threads| && Left(s', u) < Left(ss[i], u)
  {
    RunInv(ss, es, i);
    u, op := HeldUpLetsSomeoneMove(ss[i], t);
    StepCountsDown(ss[i], u, op, u);
  }

  // -------------------------------------------------------------- emptying

  function Sum(a: seq<nat>): nat { if a == [] then 0 else Sum(a[..|a| - 1]) + a[|a| - 1] }

  lemma {:induction false} SumFalls(a: seq<nat>, b: seq<nat>, t: nat)
    requires |a| == |b| && t < |a| && b[t] < a[t] && forall u | 0 <= u < |a| && u != t :: b[u] == a[u]
    ensures Sum(b) < Sum(a)
  {
    var n := |a| - 1;
    if t == n {
      assert a[..n] == b[..n];
    } else {
      SumFalls(a[..n], b[..n], t);
    }
  }

  lemma {:induction false} SumAtMost(a: seq<nat>, m: nat)
    requires forall u | 0 <= u < |a| :: a[u] <= m
    ensures Sum(a) <= m * |a|
  {
    if a != [] {
      SumAtMost(a[..|a| - 1], m);
      assert m * |a| == m * (|a| - 1) + m;
    }
  }

  // What each thread has to do, and all of them together.
  ghost function Lefts(s: State): seq<nat>
    requires |s.threads| == |s.mcs.threads|
  {
    seq(|s.threads|, t requires 0 <= t < |s.threads| => Left(s, t))
  }

  ghost function Total(s: State): nat
    requires |s.threads| == |s.mcs.threads|
  {
    Sum(Lefts(s))
  }

  lemma TotalFalls(s: State, t: Tid, op: Op)
    requires Inv(s) && Can(s, t, op) && !Begins(op)
    ensures var s' := Do(s, t, op); |s'.threads| == |s.threads| == |s'.mcs.threads| && Total(s') < Total(s)
  {
    StepCountsDown(s, t, op, t);
    var s' := Do(s, t, op);
    var a, b := Lefts(s), Lefts(s');
    forall u | 0 <= u < |a| && u != t
      ensures b[u] == a[u]
    {
      StepCountsDown(s, t, op, u);
    }
    SumFalls(a, b, t);
  }

  lemma TotalAtMost(s: State)
    requires Inv(s)
    ensures Total(s) <= 22 * |s.threads|
  {
    var a := Lefts(s);
    forall u | 0 <= u < |a|
      ensures a[u] <= 22
    {
      LeftAtMost(s, u);
    }
    SumAtMost(a, 22);
  }

  ghost predicate Empty(s: State) { forall t | 0 <= t < |s.threads| :: s.threads[t] == Out }

  /** As long as a thread is inside, some thread inside has a step to take that meets the timing premise. */
  lemma SomeoneMovesOn(s: State) returns (t: Tid, op: Op)
    requires Inv(s) && !Empty(s)
    ensures Can(s, t, op) && Timely(s, t, op) && !Begins(op)
  {
    t :| 0 <= t < |s.threads| && s.threads[t] != Out;
    if HeldUp(s, t) {
      t, op := HeldUpLetsSomeoneMove(s, t);
    } else {
      NextOpReady(s, t);
      op := NextOp(s.threads[t], s.mcs.threads[t].pc);
    }
    if !Timely(s, t, op) {
      var r :| 0 <= r < |s.threads| && s.threads[r].Compare?;
      t, op := r, DoCompare;
    }
  }

  ghost predicate NoCalls(es: seq<Event>, a: nat) { forall i | a <= i < |es| :: !Begins(es[i].op) }

  // The work left in state i, with the invariant.
  ghost predicate TotalAt(ss: seq<State>, i: nat, n: nat) { i < |ss| && Inv(ss[i]) && Total(ss[i]) == n }

  lemma TotalFallsAt(ss: seq<State>, es: seq<Event>, i: nat, n: nat) returns (n': nat)
    requires TimelySteps(ss, es) && i < |es| && TotalAt(ss, i, n) && !Begins(es[i].op)
    ensures TotalAt(ss, i + 1, n') && n' < n
  {
    assert StepAt(ss, es, i) && TimelyAt(ss, es, i);
    EventInv(ss, es, i);
    TotalFalls(ss[i], es[i].t, es[i].op);
    n' := Total(ss[i + 1]);
  }

  lemma {:induction false} StepsWithoutCalls(ss: seq<State>, es: seq<Event>, a: nat, n: nat)
    requires TimelySteps(ss, es) && a <= |es| && TotalAt(ss, a, n) && NoCalls(es, a)
    ensures |es| - a <= n
    decreases |es| - a
  {
    if a < |es| {
      var n' := TotalFallsAt(ss, es, a, n);
      StepsWithoutCalls(ss, es, a + 1, n');
    }
  }

  // Some thread has a timely step to take that begins no call.
  ghost predicate MovesOn(s: State) { exists t, op :: Can(s, t, op) && Timely(s, t, op) && !Begins(op) }

  /** The lock is empty exactly when no thread has such a step. */
  lemma EmptyIffNoMove(s: State)
    requires Inv(s)
    ensures Empty(s) <==> !MovesOn(s)
  {
    if !Empty(s) {
      var t, op := SomeoneMovesOn(s);
    }
  }

  /** Once no thread calls any more, at most 22 steps for each thread are left, whatever their order; and a next step
      exists exactly until the lock is empty. */
  lemma LockEmpties(ss: seq<State>, es: seq<Event>)
    requires TimelySteps(ss, es) && Inv(ss[0]) && NoCalls(es, 0)
    ensures |es| <= 22 * |ss[0].threads|
    ensures Empty(ss[|es|]) <==> !MovesOn(ss[|es|])
  {
    StepsWithoutCalls(ss, es, 0, Total(ss[0]));
    TotalAtMost(ss[0]);
    TimelyStepsKeepInv(ss, es, |es|);
    EmptyIffNoMove(ss[|es|]);
  }
}
