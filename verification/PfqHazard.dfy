/**
 Why the timing premise is needed. A reader that leaves between the two toggles of
 write_unlock (lines 180 and 188) draws an exit ticket that carries the old phase. If
 it stalls before line 102 until the next writer of the same phase has stored `last`,
 its comparison succeeds, and its store at line 103 wakes whichever writer is at
 `whead` by then. The run below ends with a reader and a writer in the lock together.

 Thread 0 is the reader that stalls and reads again at the end, and thread 1 writes four
 times.
 */
module PfqHazard {
  import opened Basics
  import M = McsLock
  import opened PfqLock
  import opened PfqTheorems
  import opened PfqExact

  ghost predicate Reach(a: State, b: State) {
    exists ss, es :: RunFrom(ss, es) && ss[0] == a && ss[|es|] == b
  }

  lemma ReachSelf(a: State)
    ensures Reach(a, a)
  {
    assert RunFrom([a], []);
  }

  lemma ReachStep(a: State, b: State, t: Tid, op: Op)
    requires Reach(a, b) && Can(b, t, op)
    ensures Reach(a, Do(b, t, op))
  {
    var ss, es :| RunFrom(ss, es) && ss[0] == a && ss[|es|] == b;
    var ss', es' := ss + [Do(b, t, op)], es + [Event(t, op)];
    forall i | 0 <= i < |es'|
      ensures StepAt(ss', es', i)
    {
      if i < |es| { assert StepAt(ss, es, i); }
    }
    assert ss'[0] == a && ss'[|es'|] == Do(b, t, op);
  }

  // Nobody writes; thread 0 is at a0, and `into` and `outof` readers were counted.
  ghost predicate Quiet(s: State, into: int, outof: int, phase: bool, last: Word, a0: Pc) {
    && s.rin == Word(into, false, phase) && s.rout == Word(outof, false, phase) && s.last == last
    && !s.flag0 && !s.flag1
    && s.threads == [a0, Out]
    && |s.mcs.threads| == 2 && s.mcs.tail == None && s.mcs.threads[1].pc == M.Idle
  }

  ghost predicate HoldsMcs(s: State) {
    |s.mcs.threads| == 2 && s.mcs.tail == Some(1) && s.mcs.threads[1].pc == M.Holding
    && s.mcs.threads[1].next == None
  }

  // Thread 1 is about to mark rout (line 154).
  ghost predicate BeforeMark(s: State, into: int, outof: int, phase: bool, a0: Pc) {
    && HoldsMcs(s) && s.mcs.threads[1].blocked && s.whead == Some(1)
    && s.rin == Word(into, true, phase) && s.rout == Word(outof, false, phase)
    && s.last == Word(into - 1, true, phase)
    && Flag(s, phase) && !Flag(s, !phase)
    && |s.threads| == 2 && s.threads[0] == a0
    && s.threads[1].Writer? && s.threads[1].stage == MarkRout && s.threads[1].phase == phase
    && s.threads[1].arrived == Word(into, false, phase)
  }

  // Thread 1 has toggled rin (line 180) but not rout (line 188).
  ghost predicate HalfReleased(s: State, into: int, outof: int, phase: bool, last: Word, a0: Pc) {
    && HoldsMcs(s)
    && s.rin == Word(into, false, !phase) && s.rout == Word(outof, true, phase) && s.last == last
    && Flag(s, phase) && !Flag(s, !phase)
    && |s.threads| == 2 && s.threads[0] == a0
    && s.threads[1].Writer? && s.threads[1].stage == LoadRout && s.threads[1].phase == phase
  }

  lemma TakeMcs(a: State, s: State, into: int, outof: int, phase: bool, last: Word, a0: Pc)
    returns (s': State)
    requires Reach(a, s) && Quiet(s, into, outof, phase, last, a0)
    ensures Reach(a, s') && HoldsMcs(s') && s'.mcs.threads[1].blocked
    ensures s'.threads == [a0, Writer(Announce, false, Word(0, false, false), (false, false))]
    ensures s'.rin == s.rin && s'.rout == s.rout && s'.last == s.last && !s'.flag0 && !s'.flag1
  {
    var s1 := QueueUp(a, s, into, outof, phase, last, a0);
    s' := Do(s1, 1, EnterBody);
    ReachStep(a, s1, 1, EnterBody);
  }

  lemma QueueUp(a: State, s: State, into: int, outof: int, phase: bool, last: Word, a0: Pc)
    returns (s': State)
    requires Reach(a, s) && Quiet(s, into, outof, phase, last, a0)
    ensures Reach(a, s') && HoldsMcs(s') && s'.threads == [a0, Acquire]
    ensures s'.rin == s.rin && s'.rout == s.rout && s'.last == s.last && !s'.flag0 && !s'.flag1
  {
    var s1 := Do(s, 1, Request);
    ReachStep(a, s, 1, Request);
    s' := Do(s1, 1, Mutex(M.DoExchange));
    ReachStep(a, s1, 1, Mutex(M.DoExchange));
  }

  lemma Announced(a: State, s: State, into: int, outof: int, phase: bool, last: Word, a0: Pc)
    returns (s': State)
    requires Reach(a, s) && Quiet(s, into, outof, phase, last, a0)
    ensures Reach(a, s') && BeforeMark(s', into, outof, phase, a0)
  {
    var s0 := TakeMcs(a, s, into, outof, phase, last, a0);
    var s1 := RaisesFlag(a, s0, phase, a0);
    var s2 := Do(s1, 1, Advance);
    ReachStep(a, s1, 1, Advance);
    s' := Do(s2, 1, Advance);
    ReachStep(a, s2, 1, Advance);
  }

  lemma RaisesFlag(a: State, s: State, phase: bool, a0: Pc) returns (s': State)
    requires Reach(a, s) && HoldsMcs(s) && |s.threads| == 2 && s.threads[1].Writer? && s.threads[1].stage == Announce
    requires s.threads[0] == a0 && s.rin.phase == phase && !s.flag0 && !s.flag1
    ensures Reach(a, s') && s'.mcs == s.mcs && s'.whead == Some(1) && Flag(s', phase) && !Flag(s', !phase)
    ensures s'.rin == s.rin && s'.rout == s.rout
    ensures |s'.threads| == 2 && s'.threads[0] == a0
    ensures s'.threads[1].Writer? && s'.threads[1].stage == MarkRin && s'.threads[1].phase == phase
  {
    var s1 := Do(s, 1, Advance);
    ReachStep(a, s, 1, Advance);
    var s2 := Do(s1, 1, Advance);
    ReachStep(a, s1, 1, Advance);
    s' := Do(s2, 1, Advance);
    ReachStep(a, s2, 1, Advance);
  }

  lemma WrittenHalf(a: State, s: State, into: int, phase: bool, last: Word, a0: Pc)
    returns (s': State)
    requires Reach(a, s) && Quiet(s, into, into, phase, last, a0)
    ensures Reach(a, s') && HalfReleased(s', into, into, phase, Word(into - 1, true, phase), a0)
  {
    var s0 := Announced(a, s, into, into, phase, last, a0);
    var s1 := Do(s0, 1, Advance);
    ReachStep(a, s0, 1, Advance);
    var s2 := Do(s1, 1, Advance);
    ReachStep(a, s1, 1, Advance);
    var s3 := Do(s2, 1, Advance);
    ReachStep(a, s2, 1, Advance);
    s' := Do(s3, 1, Advance);
    ReachStep(a, s3, 1, Advance);
  }

  lemma LeaveMcs(a: State, s: State, count: int, phase: bool, last: Word, a0: Pc) returns (s': State)
    requires Reach(a, s) && HoldsMcs(s) && s.threads == [a0, Release]
    requires s.rin == s.rout == Word(count, false, phase) && s.last == last && !s.flag0 && !s.flag1
    ensures Reach(a, s') && Quiet(s', count, count, phase, last, a0)
  {
    var s1 := FindsNoNext(a, s, a0);
    s' := Do(s1, 1, Mutex(M.DoCas));
    ReachStep(a, s1, 1, Mutex(M.DoCas));
    assert s'.threads == [a0, Out];
  }

  lemma FindsNoNext(a: State, s: State, a0: Pc) returns (s': State)
    requires Reach(a, s) && HoldsMcs(s) && s.threads == [a0, Release]
    ensures Reach(a, s') && s' == s.(mcs := s'.mcs) && |s'.mcs.threads| == 2
    ensures s'.mcs.threads[1].pc == M.CasTail && s'.mcs.tail == Some(1)
  {
    s' := Do(s, 1, Mutex(M.LoadNext));
    ReachStep(a, s, 1, Mutex(M.LoadNext));
  }

  lemma Released(a: State, s: State, count: int, phase: bool, last: Word, a0: Pc) returns (s': State)
    requires Reach(a, s) && HalfReleased(s, count, count, phase, last, a0)
    ensures Reach(a, s') && Quiet(s', count, count, !phase, last, a0)
  {
    var s1 := Do(s, 1, Advance);
    ReachStep(a, s, 1, Advance);
    var s2 := Do(s1, 1, Advance);
    ReachStep(a, s1, 1, Advance);
    var s3 := Do(s2, 1, Advance);
    ReachStep(a, s2, 1, Advance);
    assert s3.threads == [a0, Release];
    s' := LeaveMcs(a, s3, count, !phase, last, a0);
  }

  lemma WriteOnce(a: State, s: State, count: int, phase: bool, last: Word, a0: Pc) returns (s': State)
    requires Reach(a, s) && Quiet(s, count, count, phase, last, a0)
    ensures Reach(a, s') && Quiet(s', count, count, !phase, Word(count - 1, true, phase), a0)
  {
    var s1 := WrittenHalf(a, s, count, phase, last, a0);
    s' := Released(a, s1, count, phase, Word(count - 1, true, phase), a0);
  }

  // The first write, with thread 0 slipping in and out between the two toggles.
  lemma StallReader(a: State) returns (s': State)
    requires Init(a) && |a.threads| == 2
    ensures Reach(a, s')
    ensures Quiet(s', 1, 1, true, Word(-1, true, false), Compare(Word(0, true, false)))
  {
    ReachSelf(a);
    assert a.threads == [Out, Out];
    var s1 := WrittenHalf(a, a, 0, false, Word(0, false, false), Out);
    var s2 := Do(s1, 0, Arrive);
    ReachStep(a, s1, 0, Arrive);
    var s3 := Do(s2, 0, Depart);
    ReachStep(a, s2, 0, Depart);
    s' := Released(a, s3, 1, false, Word(-1, true, false), Compare(Word(0, true, false)));
  }

  // Two writes later the stalled comparison succeeds, although every reader has long left.
  lemma StaleMatch(a: State) returns (s': State)
    requires Init(a) && |a.threads| == 2
    ensures Reach(a, s')
    ensures Quiet(s', 1, 1, true, Word(0, true, false), LoadHead(Word(0, true, false)))
  {
    var k := Word(0, true, false);
    var s1 := StallReader(a);
    var s2 := WriteOnce(a, s1, 1, true, Word(-1, true, false), Compare(k));
    var s3 := WriteOnce(a, s2, 1, false, Word(0, true, true), Compare(k));
    s' := Do(s3, 0, DoCompare);
    ReachStep(a, s3, 0, DoCompare);
  }

  lemma {:induction false} ReachAlong(a: State, ss: seq<State>, es: seq<Event>, i: nat)
    requires RunFrom(ss, es) && i < |ss| && Reach(a, ss[0])
    ensures Reach(a, ss[i])
  {
    if i > 0 {
      ReachAlong(a, ss, es, i - 1);
      assert StepAt(ss, es, i - 1);
      ReachStep(a, ss[i - 1], es[i - 1].t, es[i - 1].op);
    }
  }

  lemma ReachOn(a: State, b: State, c: State)
    requires Reach(a, b) && TimelyReach(b, c)
    ensures Reach(a, c)
  {
    var ss, es :| TimelySteps(ss, es) && ss[0] == b && ss[|es|] == c;
    ReachAlong(a, ss, es, |es|);
  }

  /** Without the timing premise, a run of two threads puts a writer and a reader in the lock together. */
  lemma ExclusionFailsWithoutPremise(a: State) returns (s': State)
    requires Init(a) && |a.threads| == 2
    ensures Reach(a, s') && Broken(s')
  {
    var k := Word(0, true, false);
    var s1 := StaleMatch(a);
    var s2 := QueueUp(a, s1, 1, 1, true, k, LoadHead(k));
    AheadSelf(s2);
    s' := WokenTooEarly(s2, s2, 1, 0);
    ReachOn(a, s2, s');
  }
}
