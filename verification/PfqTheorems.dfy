/**
 What every run of the phase-fair lock guarantees: mutual exclusion, no lost and no
 stray wake-up, phase fairness, and freedom from deadlock.
 */
module PfqTheorems {
  import opened Basics
  import M = McsLock
  import opened PfqLock

  datatype Event = Event(t: Tid, op: Op)

  // Step i can be taken and leads to the next state.
  ghost predicate StepAt(ss: seq<State>, es: seq<Event>, i: nat)
    requires |ss| == |es| + 1 && i < |es|
  {
    Can(ss[i], es[i].t, es[i].op) && ss[i + 1] == Do(ss[i], es[i].t, es[i].op)
  }

  // Step i meets the timing premise.
  ghost predicate TimelyAt(ss: seq<State>, es: seq<Event>, i: nat)
    requires |ss| == |es| + 1 && i < |es|
  {
    Can(ss[i], es[i].t, es[i].op) && Timely(ss[i], es[i].t, es[i].op)
  }

  ghost predicate RunFrom(ss: seq<State>, es: seq<Event>) {
    |ss| == |es| + 1 && forall i | 0 <= i < |es| :: StepAt(ss, es, i)
  }

  ghost predicate TimelySteps(ss: seq<State>, es: seq<Event>) {
    RunFrom(ss, es) && forall i | 0 <= i < |es| :: TimelyAt(ss, es, i)
  }

  // A run from an initial state in which every step meets the timing premise.
  ghost predicate TimelyRun(ss: seq<State>, es: seq<Event>) { TimelySteps(ss, es) && Init(ss[0]) }

  lemma {:induction false} TimelyStepsKeepInv(ss: seq<State>, es: seq<Event>, i: nat)
    requires TimelySteps(ss, es) && Inv(ss[0]) && i < |ss|
    ensures Inv(ss[i])
  {
    if i > 0 {
      TimelyStepsKeepInv(ss, es, i - 1);
      EventInv(ss, es, i - 1);
    }
  }

  lemma EventInv(ss: seq<State>, es: seq<Event>, i: nat)
    requires |ss| == |es| + 1 && i < |es| && StepAt(ss, es, i) && TimelyAt(ss, es, i) && Inv(ss[i])
    ensures Inv(ss[i + 1])
  {
    StepInv(ss[i], es[i].t, es[i].op);
  }

  lemma RunInv(ss: seq<State>, es: seq<Event>, i: nat)
    requires TimelyRun(ss, es) && i < |ss|
    ensures Inv(ss[i])
  {
    InitInv(ss[0]);
    TimelyStepsKeepInv(ss, es, i);
  }

  lemma RunStep(ss: seq<State>, es: seq<Event>, i: nat)
    requires TimelyRun(ss, es) && i < |es|
    ensures Inv(ss[i]) && Can(ss[i], es[i].t, es[i].op) && Timely(ss[i], es[i].t, es[i].op)
    ensures ss[i + 1] == Do(ss[i], es[i].t, es[i].op)
  {
    RunInv(ss, es, i);
    assert StepAt(ss, es, i) && TimelyAt(ss, es, i);
  }

  // ----------------------------------------------------------- mutual exclusion

  // From entering the critical section until the release has toggled rin.
  predicate Writes(pc: Pc) { pc.Writer? && 8 <= Ord(pc.stage) <= 10 }

  lemma InvExcludes(s: State, w: Tid, u: Tid)
    requires Core(s) && w < |s.threads| && u < |s.threads| && w != u
    requires Writes(s.threads[w])
    ensures s.threads[u] != Reading && !s.threads[u].Writer?
  {
    if s.threads[u] == Reading {
      CountUpdate(s.threads, u, Out, Reader);
    }
  }

  /** In every reachable state, a thread in the writer's critical section is alone in the lock. */
  lemma MutualExclusion(ss: seq<State>, es: seq<Event>, i: nat, w: Tid, u: Tid)
    requires TimelyRun(ss, es) && i < |ss|
    requires w < |ss[i].threads| && u < |ss[i].threads| && w != u
    requires Writes(ss[i].threads[w])
    ensures ss[i].threads[u] != Reading && !ss[i].threads[u].Writer?
  {
    RunInv(ss, es, i);
    InvExcludes(ss[i], w, u);
  }

  // ------------------------------------------------------------------- wake-ups

  lemma {:induction false} CountPositive(ts: seq<Pc>, k: Kind) returns (t: nat)
    requires Count(ts, k) > 0
    ensures t < |ts| && Is(ts[t], k) == 1
  {
    var n := |ts| - 1;
    if Is(ts[n], k) == 1 {
      t := n;
    } else {
      t := CountPositive(ts[..n], k);
    }
  }

  // A reader that the waiting writer counted and that is free to move on.
  predicate CountedAndFree(s: State, r: Tid, w: Tid)
    requires w < |s.threads| && s.threads[w].Writer?
  {
    r < |s.threads| &&
    (s.threads[r] == Reading || (s.threads[r] == ReadSpin(!s.threads[w].phase) && !Flag(s, !s.threads[w].phase)))
  }

  /** No lost wake-up: while a writer waits with its flag set, some reader it counted is still inside
      and not held up, or exactly the reader with the last ticket is about to clear the flag. */
  lemma NoLostWakeUp(s: State, w: Tid) returns (r: Tid)
    requires Inv(s) && w < |s.threads| && s.threads[w].Writer? && s.threads[w].stage == Drain
    requires s.mcs.threads[w].blocked
    ensures CountedAndFree(s, r, w) || Signaller(s, r)
    ensures Signaller(s, r) <==> s.rout.count == s.threads[w].arrived.count
  {
    if s.rout.count == s.threads[w].arrived.count {
      r := s.lastOut;
    } else if Count(s.threads, Reader) > 0 {
      r := CountPositive(s.threads, Reader);
    } else {
      r := CountPositive(s.threads, Spinner(!s.threads[w].phase));
    }
  }

  /** A departing reader draws the ticket the writer stored exactly when it is the last one counted. */
  lemma LastTicketIffLastReader(s: State, t: Tid, w: Tid)
    requires Core(s) && t < |s.threads| && s.threads[t] == Reading
    requires w < |s.threads| && s.threads[w].Writer? && 7 <= Ord(s.threads[w].stage) <= 12
    ensures s.rout.present
    ensures s.rout == s.last <==> s.rout.count + 1 == s.threads[w].arrived.count
    ensures s.rout == s.last ==> s.threads[w].stage == Drain && s.mcs.threads[w].blocked
  {
    CountUpdate(s.threads, t, Out, Reader);
  }

  /** At most one thread holds the ticket the waiting writer stored. */
  lemma OneSignaller(s: State, q: Tid, r: Tid)
    requires Core(s) && Signaller(s, q) && Signaller(s, r)
    ensures q == r
  {
  }

  /** No stray wake-up: a reader clears a flag only when the writer that waits on it has been counted out. */
  lemma NoStrayWakeUp(s: State, t: Tid)
    requires Inv(s) && Can(s, t, DoWake)
    ensures var w := s.threads[t].head;
      && w < |s.threads| && s.threads[w].Writer? && s.threads[w].stage == Drain
      && s.mcs.threads[w].blocked && s.rout.count == s.threads[w].arrived.count
      && Count(s.threads, Reader) == 0
  {
    assert TicketOk(s, t);
  }

  /** A reader that gets to line 103 finds whead set, and the thread it stores to holds the MCS lock. */
  lemma WakeNeverHeldUp(s: State, t: Tid)
    requires Inv(s) && t < |s.threads|
    ensures s.threads[t].LoadHead? ==> Can(s, t, DoLoadHead)
    ensures s.threads[t].Wake? ==> Can(s, t, DoWake) && s.mcs.threads[s.threads[t].head].pc == M.Holding
  {
    assert TicketOk(s, t);
  }

  // The thread would signal, but no writer waits for it.
  predicate StaleSignaller(s: State, r: Tid) { Signaller(s, r) && !AwaitsWake(s) }

  /** A step leaves behind a reader whose signal nobody waits for if and only if it breaks the timing premise. */
  lemma StaleSignalIffUntimely(s: State, t: Tid, op: Op)
    requires Inv(s) && Can(s, t, op)
    ensures (exists r: Tid :: StaleSignaller(Do(s, t, op), r)) <==> !Timely(s, t, op)
  {
    if Timely(s, t, op) {
      StepInv(s, t, op);
      forall r: Tid
        ensures !StaleSignaller(Do(s, t, op), r)
      {
        assert r < |Do(s, t, op).threads| ==> TicketOk(Do(s, t, op), r);
      }
    } else {
      var r :| 0 <= r < |s.threads| && s.threads[r].Compare?
               && s.threads[r].ticket == LastTicket(s.threads[t].arrived);
      assert StaleSignaller(Do(s, t, op), r);
    }
  }

  // ------------------------------------------------------------ phase fairness

  // Step i is a writer's entry into its critical section.
  ghost predicate Enters(ss: seq<State>, es: seq<Event>, i: nat)
    requires RunFrom(ss, es) && i < |es|
  {
    var t := es[i].t;
    t < |ss[i + 1].threads| && t < |ss[i].threads| && es[i].op == Advance &&
    ss[i + 1].threads[t].Writer? && ss[i + 1].threads[t].stage == Writing
  }

  ghost function Entries(ss: seq<State>, es: seq<Event>, a: nat, b: nat): nat
    requires RunFrom(ss, es) && a <= b <= |es|
    decreases b - a
  {
    if a == b then 0 else (if Enters(ss, es, a) then 1 else 0) + Entries(ss, es, a + 1, b)
  }

  // Writers that may still enter while a reader waits on the flag of this phase.
  function MayEnter(s: State, phase: bool): nat {
    if s.owner.Some? && s.owner.value < |s.threads| && s.threads[s.owner.value].Writer?
       && Flag(s, phase) && Ord(s.threads[s.owner.value].stage) < 8 then 1 else 0
  }

  lemma SpinnerCounts(s: State, r: Tid, p: bool)
    requires r < |s.threads| && s.threads[r] == ReadSpin(p)
    ensures Count(s.threads, Spinner(p)) >= 1
  {
    CountUpdate(s.threads, r, Out, Spinner(p));
  }

  lemma EntryUsesAllowance(s: State, t: Tid, r: Tid, p: bool)
    requires Core(s) && Can(s, t, Advance) && r < |s.threads| && s.threads[r] == ReadSpin(p)
    ensures var s' := DoAdvance(s, t, s.threads[t]);
      var enters := s'.threads[t].Writer? && s'.threads[t].stage == Writing;
      MayEnter(s', p) + (if enters then 1 else 0) <= MayEnter(s, p)
  {
    SpinnerCounts(s, r, p);
    if s.threads[t].Writer? { WriterUsesAllowance(s, t, r, p); }
  }

  lemma WriterUsesAllowance(s: State, t: Tid, r: Tid, p: bool)
    requires Core(s) && Can(s, t, Advance) && r < |s.threads| && s.threads[r] == ReadSpin(p)
    requires s.threads[t].Writer? && Count(s.threads, Spinner(p)) >= 1
    ensures var s' := DoAdvance(s, t, s.threads[t]);
      var enters := s'.threads[t].Writer? && s'.threads[t].stage == Writing;
      MayEnter(s', p) + (if enters then 1 else 0) <= MayEnter(s, p)
  {
  }

  lemma OthersUseNoAllowance(s: State, t: Tid, op: Op, r: Tid, p: bool)
    requires Core(s) && Can(s, t, op) && op != Advance && r < |s.threads| && s.threads[r] == ReadSpin(p)
    requires Core(Do(s, t, op))
    ensures MayEnter(Do(s, t, op), p) <= MayEnter(s, p)
  {
  }

  lemma EntryAt(ss: seq<State>, es: seq<Event>, i: nat, r: Tid, p: bool)
    requires TimelyRun(ss, es) && i < |es| && r < |ss[i].threads| && ss[i].threads[r] == ReadSpin(p)
    ensures MayEnter(ss[i + 1], p) + (if Enters(ss, es, i) then 1 else 0) <= MayEnter(ss[i], p)
  {
    RunStep(ss, es, i);
    RunInv(ss, es, i + 1);
    if es[i].op == Advance {
      EntryUsesAllowance(ss[i], es[i].t, r, p);
    } else {
      OthersUseNoAllowance(ss[i], es[i].t, es[i].op, r, p);
    }
  }

  lemma {:induction false} EntriesBounded(ss: seq<State>, es: seq<Event>, a: nat, b: nat, r: Tid, p: bool)
    requires TimelyRun(ss, es) && a <= b <= |es|
    requires forall i | a <= i <= b :: r < |ss[i].threads| && ss[i].threads[r] == ReadSpin(p)
    ensures Entries(ss, es, a, b) <= MayEnter(ss[a], p)
    decreases b - a
  {
    if a < b {
      assert ss[a].threads[r] == ReadSpin(p);
      EntryAt(ss, es, a, r, p);
      EntriesBounded(ss, es, a + 1, b, r, p);
    }
  }

  /** Phase fairness: however long a reader waits, at most one writer enters meanwhile. */
  lemma ReaderWaitsForAtMostOneWriter(ss: seq<State>, es: seq<Event>, a: nat, b: nat, r: Tid, p: bool)
    requires TimelyRun(ss, es) && a <= b <= |es|
    requires forall i | a <= i <= b :: r < |ss[i].threads| && ss[i].threads[r] == ReadSpin(p)
    ensures Entries(ss, es, a, b) <= 1
  {
    EntriesBounded(ss, es, a, b, r, p);
  }

  /** Once the flag a reader waits on has dropped, no writer raises it again while the reader is there. */
  lemma FlagStaysDown(s: State, t: Tid, op: Op, r: Tid, p: bool)
    requires Core(s) && Can(s, t, op) && r < |s.threads| && s.threads[r] == ReadSpin(p) && !Flag(s, p)
    ensures !Flag(Do(s, t, op), p)
  {
    SpinnerCounts(s, r, p);
  }

  // The reader is inside: it waits on the flag of phase p, or reads.
  predicate Inside(s: State, r: Tid, p: bool) {
    r < |s.threads| && (s.threads[r] == ReadSpin(p) || s.threads[r] == Reading)
  }

  // The phase has moved on past p, and no writer has got past the readers inside.
  predicate PhasePassed(s: State, p: bool) {
    s.rin.phase == !p &&
    (s.owner.Some? ==>
       s.owner.value < |s.threads| && s.threads[s.owner.value].Writer? && Ord(s.threads[s.owner.value].stage) <= 7)
  }

  lemma InsideCounts(s: State, r: Tid, p: bool)
    requires Inside(s, r, p)
    ensures Count(s.threads, Reader) + Count(s.threads, Spinner(p)) >= 1
  {
    CountUpdate(s.threads, r, Out, Reader);
    CountUpdate(s.threads, r, Out, Spinner(p));
  }

  lemma DroppedMeansPassed(s: State, r: Tid, p: bool)
    requires Core(s) && r < |s.threads| && s.threads[r] == ReadSpin(p) && !Flag(s, p)
    ensures PhasePassed(s, p)
  {
    SpinnerCounts(s, r, p);
  }

  lemma PassedMeansDropped(s: State, p: bool)
    requires Core(s) && PhasePassed(s, p)
    ensures !Flag(s, p)
  {
  }

  // A writer does not get past a reader that was inside before it.
  lemma NotPastReaders(s: State, r: Tid, p: bool)
    requires Core(s) && Inside(s, r, p) && s.rin.phase == !p && s.owner.Some?
    ensures Ord(s.threads[s.owner.value].stage) <= 7 || Ord(s.threads[s.owner.value].stage) >= 11
  {
    InsideCounts(s, r, p);
  }

  // One step leaves the phase alone and takes the owner one stage further at most.
  lemma PassedMoves(s: State, t: Tid, op: Op, p: bool)
    requires OwnerOk(s) && Can(s, t, op) && PhasePassed(s, p)
    ensures var s' := Do(s, t, op);
      s'.rin.phase == !p &&
      (s'.owner.Some? ==>
         s'.owner.value < |s'.threads| && s'.threads[s'.owner.value].Writer?
         && Ord(s'.threads[s'.owner.value].stage) <= 8)
  {
  }

  lemma PassedStep(s: State, t: Tid, op: Op, r: Tid, p: bool)
    requires Inv(s) && Can(s, t, op) && Timely(s, t, op) && PhasePassed(s, p) && Inside(Do(s, t, op), r, p)
    ensures PhasePassed(Do(s, t, op), p) && !Flag(Do(s, t, op), p)
  {
    var s' := Do(s, t, op);
    PassedMoves(s, t, op, p);
    StepInv(s, t, op);
    if s'.owner.Some? { NotPastReaders(s', r, p); }
    PassedMeansDropped(s', p);
  }

  lemma {:induction false} PassedRun(ss: seq<State>, es: seq<Event>, a: nat, b: nat, r: Tid, p: bool)
    requires TimelyRun(ss, es) && a <= b <= |es| && PhasePassed(ss[a], p) && !Flag(ss[a], p)
    requires forall i | a <= i <= b :: Inside(ss[i], r, p)
    ensures !Flag(ss[b], p)
    decreases b - a
  {
    if a < b {
      RunStep(ss, es, a);
      assert Inside(ss[a + 1], r, p);
      PassedStep(ss[a], es[a].t, es[a].op, r, p);
      PassedRun(ss, es, a + 1, b, r, p);
    }
  }

  /** The flag a reader waited on, once dropped, stays down until that reader has left the lock. */
  lemma FlagStaysDownUntilGone(ss: seq<State>, es: seq<Event>, a: nat, b: nat, r: Tid, p: bool)
    requires TimelyRun(ss, es) && a <= b <= |es|
    requires r < |ss[a].threads| && ss[a].threads[r] == ReadSpin(p) && !Flag(ss[a], p)
    requires forall i | a <= i <= b :: Inside(ss[i], r, p)
    ensures !Flag(ss[b], p)
  {
    RunInv(ss, es, a);
    DroppedMeansPassed(ss[a], r, p);
    PassedRun(ss, es, a, b, r, p);
  }

  /** A reader that arrives while a writer is announced in rin has to wait for that writer's flag. */
  lemma LateReaderSpins(s: State, t: Tid, w: Tid)
    requires Core(s) && Can(s, t, Arrive)
    requires w < |s.threads| && s.threads[w].Writer? && 5 <= Ord(s.threads[w].stage) <= 10
    ensures DoArrive(s, t).threads[t] == ReadSpin(s.threads[w].phase)
  {
  }

  // The writer has announced itself in rin, has not entered yet, and the reader waits for it.
  predicate Behind(s: State, r: Tid, w: Tid) {
    && r < |s.threads| && w < |s.threads| && s.threads[w].Writer?
    && 5 <= Ord(s.threads[w].stage) <= 7 && s.threads[r] == ReadSpin(s.threads[w].phase)
  }

  lemma BehindStep(s: State, t: Tid, op: Op, r: Tid, w: Tid)
    requires Core(s) && Can(s, t, op) && Behind(s, r, w)
    ensures var s' := Do(s, t, op);
      Behind(s', r, w) ||
      (&& w < |s'.threads| && s'.threads[w].Writer? && s'.threads[w].stage == Writing
       && r < |s'.threads| && s'.threads[r].ReadSpin?)
  {
  }

  lemma BehindAt(ss: seq<State>, es: seq<Event>, i: nat, r: Tid, w: Tid)
    requires TimelyRun(ss, es) && i < |es| && Behind(ss[i], r, w)
    ensures Behind(ss[i + 1], r, w) ||
      (w < |ss[i + 1].threads| && ss[i + 1].threads[w].Writer? && ss[i + 1].threads[w].stage == Writing)
  {
    RunStep(ss, es, i);
    BehindStep(ss[i], es[i].t, es[i].op, r, w);
  }

  lemma {:induction false} BehindUntilWritten(ss: seq<State>, es: seq<Event>, a: nat, b: nat, r: Tid, w: Tid)
    returns (c: nat)
    requires TimelyRun(ss, es) && a <= b <= |es| && Behind(ss[a], r, w)
    ensures a <= c <= b && (Behind(ss[b], r, w) ||
      (w < |ss[c].threads| && ss[c].threads[w].Writer? && ss[c].threads[w].stage == Writing))
    decreases b - a
  {
    c := a;
    if a < b {
      BehindAt(ss, es, a, r, w);
      if Behind(ss[a + 1], r, w) {
        c := BehindUntilWritten(ss, es, a + 1, b, r, w);
      } else {
        c := a + 1;
      }
    }
  }

  /** A reader that arrives after a writer's announcement never reads before that writer has written. */
  lemma LateReaderReadsAfterWriter(ss: seq<State>, es: seq<Event>, a: nat, b: nat, r: Tid, w: Tid) returns (c: nat)
    requires TimelyRun(ss, es) && a < b <= |es|
    requires es[a] == Event(r, Arrive)
    requires w < |ss[a].threads| && ss[a].threads[w].Writer? && 5 <= Ord(ss[a].threads[w].stage) <= 7
    requires r < |ss[b].threads| && ss[b].threads[r] == Reading
    ensures a < c <= b && w < |ss[c].threads| && ss[c].threads[w].Writer? && ss[c].threads[w].stage == Writing
  {
    RunStep(ss, es, a);
    LateReaderSpins(ss[a], r, w);
    c := BehindUntilWritten(ss, es, a + 1, b, r, w);
  }

  // ------------------------------------------------------------ deadlock freedom

  // The thread spins, or would spin, on something another thread has to change.
  predicate HeldUp(s: State, t: Tid)
    requires t < |s.threads| == |s.mcs.threads|
  {
    var pc, m := s.threads[t], s.mcs.threads[t];
    || (pc.ReadSpin? && Flag(s, pc.spinPhase))
    || (pc.Writer? && pc.stage == Drain && m.blocked)
    || (pc == Acquire && m.pc == M.Spin && m.blocked)
    || (pc == Release && m.pc == M.AwaitLink && m.next.None?)
  }

  lemma OwnerLetsSomeoneMove(s: State) returns (u: Tid, op: Op)
    requires Inv(s) && s.owner.Some?
    ensures Can(s, u, op) && s.threads[u] != Out
  {
    var w := s.owner.value;
    u, op := w, Advance;
    if s.threads[w].stage == Drain && s.mcs.threads[w].blocked {
      var r := NoLostWakeUp(s, w);
      u := r;
      assert TicketOk(s, r);
      op := match s.threads[r]
        case Reading => Depart
        case ReadSpin(_) => LeaveSpin
        case Compare(_) => DoCompare
        case LoadHead(_) => DoLoadHead
        case _ => DoWake;
    }
  }

  lemma QueueLetsSomeoneMove(s: State) returns (u: Tid, op: Op)
    requires Inv(s) && s.owner.None? && 2 <= |s.mcs.queue|
    ensures Can(s, u, op) && s.threads[u] != Out
  {
    var k, m := M.SomeoneCanStep(s.mcs, 1);
    u := s.mcs.queue[k];
    assert MutexLink(s.threads[u], s.mcs.threads[u].pc);
    op := if s.threads[u] == Acquire && m == M.LoadNext then EnterBody else Mutex(m);
  }

  lemma HeldUpLetsSomeoneMove(s: State, t: Tid) returns (u: Tid, op: Op)
    requires Inv(s) && t < |s.threads| && HeldUp(s, t)
    ensures Can(s, u, op) && s.threads[u] != Out
  {
    if s.owner.Some? {
      u, op := OwnerLetsSomeoneMove(s);
    } else {
      assert MutexLink(s.threads[t], s.mcs.threads[t].pc);
      var k := M.IndexOf(s.mcs, t);
      u, op := QueueLetsSomeoneMove(s);
    }
  }
}
