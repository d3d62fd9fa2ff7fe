/**
 The timing premise is exact for mutual exclusion. PfqTheorems shows that timely steps
 keep it. Here: after any untimely step some run puts a writer and a reader in the lock
 together.

 The writer of the untimely step has nobody to wait for, so it writes and releases. The
 stalled reader's comparison succeeds meanwhile. The next writer, which may be the same
 thread again, sets its flag and announces itself at whead; the stalled reader clears the
 flag at once, and comes back to read before that writer marks rin. The writer then has a
 reader to wait for and no flag to wait on.
 */
module PfqExact {
  import opened Basics
  import M = McsLock
  import opened PfqLock
  import opened PfqTheorems

  // A writer and a reader are in the lock together.
  ghost predicate Broken(s: State) {
    exists w: Tid, r: Tid :: w < |s.threads| && r < |s.threads| && Writes(s.threads[w]) && s.threads[r] == Reading
  }

  // ------------------------------------------------------------- timely runs

  // Every ticket still to be compared was drawn before the newest one.
  ghost predicate TicketsBelow(s: State) {
    forall r | 0 <= r < |s.threads| :: s.threads[r].Compare? ==> s.threads[r].ticket.count < s.rout.count
  }

  // A run of timely steps leads from a to b.
  ghost predicate TimelyReach(a: State, b: State) {
    exists ss, es :: TimelySteps(ss, es) && ss[0] == a && ss[|es|] == b
  }

  // The same, with all tickets drawn before.
  ghost predicate Ahead(a: State, b: State) { TimelyReach(a, b) && TicketsBelow(b) }

  lemma AheadSelf(a: State)
    requires TicketsBelow(a)
    ensures Ahead(a, a)
  {
    assert TimelySteps([a], []);
  }

  lemma NoNewTickets(s: State, t: Tid, op: Op)
    requires TicketsBelow(s) && Can(s, t, op) && op != Depart
    ensures TicketsBelow(Do(s, t, op))
  {
  }

  lemma CoreTicketsBelow(s: State)
    requires Core(s)
    ensures TicketsBelow(s)
  {
    forall r | 0 <= r < |s.threads| && s.threads[r].Compare?
      ensures s.threads[r].ticket.count < s.rout.count
    {
      assert TicketOk(s, r);
    }
  }

  lemma TimelyReachStep(a: State, b: State, t: Tid, op: Op)
    requires TimelyReach(a, b) && Can(b, t, op) && Timely(b, t, op)
    ensures TimelyReach(a, Do(b, t, op))
  {
    var ss, es :| TimelySteps(ss, es) && ss[0] == a && ss[|es|] == b;
    var ss', es' := ss + [Do(b, t, op)], es + [Event(t, op)];
    forall i | 0 <= i < |es'|
      ensures StepAt(ss', es', i) && TimelyAt(ss', es', i)
    {
      if i < |es| { assert StepAt(ss, es, i) && TimelyAt(ss, es, i); }
    }
    assert ss'[0] == a && ss'[|es'|] == Do(b, t, op);
  }

  lemma AheadStep(a: State, b: State, t: Tid, op: Op)
    requires Ahead(a, b) && Can(b, t, op) && op != Depart && Timely(b, t, op)
    ensures Ahead(a, Do(b, t, op))
  {
    NoNewTickets(b, t, op);
    TimelyReachStep(a, b, t, op);
  }

  // ------------------------------------------------------- the untimely state

  // Thread t is about to store `last` while thread q is stalled with the ticket it stores.
  ghost predicate Stalled(s: State, t: Tid, q: Tid) {
    && t < |s.threads| && q < |s.threads| && s.threads[t].Writer? && s.threads[t].stage == StoreLast
    && s.threads[q] == Compare(LastTicket(s.threads[t].arrived))
  }

  lemma UntimelyIsStalled(s: State, t: Tid, op: Op) returns (q: Tid)
    requires Can(s, t, op) && !Timely(s, t, op)
    ensures op == Advance && Stalled(s, t, q)
  {
    q :| 0 <= q < |s.threads| && s.threads[q].Compare? && s.threads[q].ticket == LastTicket(s.threads[t].arrived);
  }

  // Every reader has left, so the writer waits for nobody.
  lemma NobodyInside(s: State, t: Tid, q: Tid)
    requires Core(s) && Stalled(s, t, q)
    ensures s.rout == s.threads[t].arrived && s.rin.present && s.rin.phase == s.threads[t].phase == s.rout.phase
    ensures Count(s.threads, Reader) == 0 && Count(s.threads, Spinner(!s.rin.phase)) == 0
    ensures s.rout.count <= s.rin.count && s.owner == Some(t) && q != t && s.mcs.threads[t].pc == M.Holding
    ensures !Flag(s, !s.rin.phase)
  {
    assert TicketOk(s, q);
  }

  // ------------------------------------------------------- the writer releases

  lemma ThroughRin(a: State, s: State, t: Tid, p: bool, cin: int, cout: int) returns (s': State)
    requires Ahead(a, s) && t < |s.threads| == |s.mcs.threads| && s.threads[t].Writer? && s.threads[t].stage == Writing
    requires s.rin == Word(cin, true, p) && s.rout == Word(cout, true, p) && !Flag(s, !p)
    ensures Ahead(a, s') && |s'.threads| == |s.threads| && s'.threads[t].Writer? && s'.threads[t].stage == LoadRout
    ensures s'.threads[t].phase == p && s'.threads == s.threads[t := s'.threads[t]]
    ensures s'.rin == Word(cin, false, !p) && s'.rout == s.rout && !Flag(s', !p)
    ensures s'.mcs == s.mcs && s'.last == s.last && s'.whead == s.whead
  {
    var s1 := Do(s, t, Advance);
    AheadStep(a, s, t, Advance);
    var s2 := Do(s1, t, Advance);
    AheadStep(a, s1, t, Advance);
    s' := Do(s2, t, Advance);
    AheadStep(a, s2, t, Advance);
  }

  lemma ThroughRout(a: State, s: State, t: Tid, p: bool, cout: int) returns (s': State)
    requires Ahead(a, s) && t < |s.threads| == |s.mcs.threads| && s.threads[t].Writer? && s.threads[t].stage == LoadRout
    requires s.threads[t].phase == p && s.rout == Word(cout, true, p) && !Flag(s, !p)
    ensures Ahead(a, s') && s'.threads == s.threads[t := Release]
    ensures s'.rin == s.rin && s'.rout == Word(cout, false, !p) && !s'.flag0 && !s'.flag1
    ensures s'.mcs == s.mcs && s'.last == s.last && s'.whead == s.whead
  {
    var s1 := Do(s, t, Advance);
    AheadStep(a, s, t, Advance);
    var s2 := Do(s1, t, Advance);
    AheadStep(a, s1, t, Advance);
    s' := Do(s2, t, Advance);
    AheadStep(a, s2, t, Advance);
  }

  // The writer has left its section, and the stalled reader has passed its comparison.
  ghost predicate Left(s: State, s': State, t: Tid, q: Tid) {
    && t < |s.threads| && q < |s.threads| && t != q && s.threads[t].Writer?
    && var k, ph := LastTicket(s.threads[t].arrived), !s.rin.phase;
    && s'.threads == s.threads[q := LoadHead(k)][t := Release] && s'.mcs == s.mcs && s'.last == k
    && s'.rin == Word(s.rin.count, false, ph) && s'.rout == Word(s.rout.count, false, ph)
    && !s'.flag0 && !s'.flag1
  }

  lemma EntersAtOnce(a: State, s: State, t: Tid, q: Tid) returns (s': State)
    requires Stalled(s, t, q) && Can(s, t, Advance) && a == Do(s, t, Advance) && q != t
    requires s.rout == s.threads[t].arrived && !Flag(s, !s.rin.phase) && TicketsBelow(a)
    ensures Ahead(a, s') && |s'.threads| == |s.threads| && s'.threads[t].Writer? && s'.threads[t].stage == Writing
    ensures s'.threads == s.threads[q := LoadHead(LastTicket(s.threads[t].arrived))][t := s'.threads[t]]
    ensures s'.mcs == s.mcs && s'.last == LastTicket(s.threads[t].arrived)
    ensures s'.rin == s.rin && s'.rout == s.rout.(present := true) && !Flag(s', !s.rin.phase)
  {
    AheadSelf(a);
    var s1 := Do(a, t, Advance);
    AheadStep(a, a, t, Advance);
    s' := Do(s1, q, DoCompare);
    AheadStep(a, s1, q, DoCompare);
  }

  lemma Leaves(a: State, s: State, t: Tid, q: Tid) returns (s': State)
    requires Inv(s) && Stalled(s, t, q) && Can(s, t, Advance) && a == Do(s, t, Advance)
    ensures Ahead(a, s') && Left(s, s', t, q)
  {
    NobodyInside(s, t, q);
    CoreTicketsBelow(s);
    NoNewTickets(s, t, Advance);
    var p := s.rin.phase;
    var s1 := EntersAtOnce(a, s, t, q);
    var s2 := ThroughRin(a, s1, t, p, s.rin.count, s.rout.count);
    s' := ThroughRout(a, s2, t, p, s.rout.count);
  }

  // ------------------------------------------- the next writer is woken too early

  // Nobody is announced in rin or rout.
  predicate Open(s: State) {
    !s.rin.present && !s.rout.present && s.rin.phase == s.rout.phase && s.rout.count <= s.rin.count
  }

  // Thread w has the MCS lock, and q will wake whoever is at whead.
  ghost predicate Poised(s: State, w: Tid, q: Tid) {
    && w < |s.threads| == |s.mcs.threads| && q < |s.threads| && w != q && Open(s)
    && s.threads[w] == Acquire && s.mcs.threads[w].pc == M.Holding && s.threads[q].LoadHead?
  }

  lemma Becomes(a: State, s: State, w: Tid) returns (s': State)
    requires Ahead(a, s) && w < |s.threads| == |s.mcs.threads| && s.threads[w] == Acquire
    requires s.mcs.threads[w].pc == M.Holding
    ensures Ahead(a, s') && |s'.threads| == |s.threads| == |s'.mcs.threads|
    ensures s'.threads[w].Writer? && s'.threads[w].stage == Announce && s'.threads == s.threads[w := s'.threads[w]]
    ensures s'.rin == s.rin && s'.rout == s.rout
  {
    s' := Do(s, w, EnterBody);
    AheadStep(a, s, w, EnterBody);
  }

  // Thread w is a writer at the stage, and q is another thread.
  ghost predicate Apart(s: State, w: Tid, q: Tid, stage: Stage) {
    && w < |s.threads| == |s.mcs.threads| && q < |s.threads| && w != q
    && s.threads[w].Writer? && s.threads[w].stage == stage
  }

  lemma Announces(a: State, s: State, w: Tid, q: Tid) returns (s': State)
    requires Ahead(a, s) && Poised(s, w, q)
    ensures Ahead(a, s') && Apart(s', w, q, LoadPhase) && s'.threads[q].LoadHead? && s'.whead == Some(w) && Open(s')
  {
    var s1 := Becomes(a, s, w);
    s' := Do(s1, w, Advance);
    AheadStep(a, s1, w, Advance);
  }

  lemma LoadsHead(a: State, s: State, w: Tid, q: Tid) returns (s': State)
    requires Ahead(a, s) && Apart(s, w, q, LoadPhase) && s.threads[q].LoadHead? && s.whead == Some(w) && Open(s)
    ensures Ahead(a, s') && Apart(s', w, q, LoadPhase) && Open(s')
    ensures s'.threads[q].Wake? && s'.threads[q].head == w
  {
    s' := Do(s, q, DoLoadHead);
    AheadStep(a, s, q, DoLoadHead);
  }

  lemma Wakes(a: State, s: State, w: Tid, q: Tid) returns (s': State)
    requires Ahead(a, s) && Apart(s, w, q, LoadPhase) && s.threads[q].Wake? && s.threads[q].head == w && Open(s)
    ensures Ahead(a, s') && Apart(s', w, q, LoadPhase) && Open(s')
    ensures s'.threads[q] == Out && !s'.mcs.threads[w].blocked
  {
    s' := Do(s, q, DoWake);
    AheadStep(a, s, q, DoWake);
  }

  // Thread w, at the stage, has lost its flag while q reads.
  ghost predicate Exposed(s: State, w: Tid, q: Tid, stage: Stage) {
    && Apart(s, w, q, stage) && s.threads[q] == Reading && !s.mcs.threads[w].blocked
    && s.rout.count < s.rin.count
  }

  lemma Slips(a: State, s: State, w: Tid, q: Tid) returns (s': State)
    requires Ahead(a, s) && Apart(s, w, q, LoadPhase) && Open(s)
    requires s.threads[q] == Out && !s.mcs.threads[w].blocked
    ensures Ahead(a, s') && Exposed(s', w, q, LoadPhase)
  {
    s' := Do(s, q, Arrive);
    AheadStep(a, s, q, Arrive);
  }

  lemma UpToRin(a: State, s: State, w: Tid, q: Tid) returns (s': State)
    requires Ahead(a, s) && Exposed(s, w, q, LoadPhase)
    ensures Ahead(a, s') && Exposed(s', w, q, MarkRin)
  {
    var s1 := Do(s, w, Advance);
    AheadStep(a, s, w, Advance);
    s' := Do(s1, w, Advance);
    AheadStep(a, s1, w, Advance);
  }

  lemma MarksRin(a: State, s: State, w: Tid, q: Tid) returns (s': State)
    requires Ahead(a, s) && Exposed(s, w, q, MarkRin)
    ensures Ahead(a, s') && Exposed(s', w, q, StoreLast) && s'.threads[w].arrived.count == s'.rin.count
  {
    s' := Do(s, w, Advance);
    AheadStep(a, s, w, Advance);
  }

  // The ticket stored now is none that anybody holds, so the step is timely.
  lemma IntoDrain(a: State, s: State, w: Tid, q: Tid) returns (s': State)
    requires Ahead(a, s) && Exposed(s, w, q, StoreLast) && s.threads[w].arrived.count == s.rin.count
    ensures Ahead(a, s') && Exposed(s', w, q, Drain)
  {
    var s1 := Do(s, w, Advance);
    AheadStep(a, s, w, Advance);
    s' := Do(s1, w, Advance);
    AheadStep(a, s1, w, Advance);
  }

  lemma EntersBeside(a: State, s: State, w: Tid, q: Tid) returns (s': State)
    requires Ahead(a, s) && Exposed(s, w, q, Drain)
    ensures Ahead(a, s') && Broken(s')
  {
    s' := Do(s, w, Advance);
    AheadStep(a, s, w, Advance);
    assert Writes(s'.threads[w]) && s'.threads[q] == Reading;
  }

  lemma WokenTooEarly(a: State, s: State, w: Tid, q: Tid) returns (s': State)
    requires Ahead(a, s) && Poised(s, w, q)
    ensures Ahead(a, s') && Broken(s')
  {
    var s1 := Announces(a, s, w, q);
    var s2 := LoadsHead(a, s1, w, q);
    var s3 := Wakes(a, s2, w, q);
    var s4 := Slips(a, s3, w, q);
    var s5 := UpToRin(a, s4, w, q);
    var s6 := MarksRin(a, s5, w, q);
    var s7 := IntoDrain(a, s6, w, q);
    s' := EntersBeside(a, s7, w, q);
  }

  // -------------------------------------- somebody waits behind the first writer

  // Thread t is leaving the MCS lock with w behind it, and q has passed its comparison.
  ghost predicate Followed(s: State, t: Tid, w: Tid, q: Tid) {
    && t < |s.threads| == |s.mcs.threads| && w < |s.threads| && q < |s.threads| && t != w && t != q && w != q
    && s.threads[t] == Release && s.mcs.threads[t].pc == M.Holding
    && s.threads[w] == Acquire && s.threads[q].LoadHead? && Open(s)
  }

  lemma FollowerBlocks(a: State, s: State, t: Tid, w: Tid, q: Tid) returns (s': State)
    requires Ahead(a, s) && Followed(s, t, w, q)
    requires s.mcs.threads[w].pc == M.SetBlocked && s.mcs.threads[w].pred == Some(t)
    ensures Ahead(a, s') && Followed(s', t, w, q)
    ensures s'.mcs.threads[w].pc == M.Link && s'.mcs.threads[w].pred == Some(t)
  {
    s' := Do(s, w, Mutex(M.DoSetBlocked));
    AheadStep(a, s, w, Mutex(M.DoSetBlocked));
  }

  lemma FollowerLinks(a: State, s: State, t: Tid, w: Tid, q: Tid) returns (s': State)
    requires Ahead(a, s) && Followed(s, t, w, q)
    requires s.mcs.threads[w].pc == M.Link && s.mcs.threads[w].pred == Some(t)
    ensures Ahead(a, s') && Followed(s', t, w, q)
    ensures s'.mcs.threads[w].pc == M.Spin && s'.mcs.threads[t].next == Some(w)
  {
    s' := Do(s, w, Mutex(M.DoLink));
    AheadStep(a, s, w, Mutex(M.DoLink));
  }

  // What the queue says of the thread behind the front.
  lemma FollowerState(m: M.Lock, t: Tid, w: Tid)
    requires M.Inv(m) && 2 <= |m.queue| && m.queue[0] == t && m.queue[1] == w
    ensures w < |m.threads| && t < |m.threads| && w != t
    ensures M.Waiting(m.threads[w].pc) && m.threads[w].pred == Some(t)
    ensures m.threads[w].pc == M.Spin ==> m.threads[t].next == Some(w)
  {
    assert M.Slot(m, 0) && M.Slot(m, 1);
  }

  // The thread behind the first writer becomes the writer to be woken too early.
  lemma FollowerCase(a: State, s: State, t: Tid, w: Tid, q: Tid) returns (s': State)
    requires Ahead(a, s) && Followed(s, t, w, q) && M.Inv(s.mcs)
    requires 2 <= |s.mcs.queue| && s.mcs.queue[0] == t && s.mcs.queue[1] == w
    ensures Ahead(a, s') && Broken(s')
  {
    FollowerState(s.mcs, t, w);
    var s1 := s;
    if s1.mcs.threads[w].pc == M.SetBlocked { s1 := FollowerBlocks(a, s1, t, w, q); }
    if s1.mcs.threads[w].pc == M.Link { s1 := FollowerLinks(a, s1, t, w, q); }
    var s2 := FollowerIsPoised(a, s1, t, w, q);
    s' := WokenTooEarly(a, s2, w, q);
  }

  lemma HandsOver(a: State, s: State, t: Tid, w: Tid, q: Tid) returns (s': State)
    requires Ahead(a, s) && Followed(s, t, w, q)
    requires s.mcs.threads[w].pc == M.Spin && s.mcs.threads[t].next == Some(w)
    ensures Ahead(a, s') && |s'.threads| == |s'.mcs.threads| == |s.threads|
    ensures s'.threads[t] == Out && s'.threads[w] == Acquire && s'.threads[q].LoadHead?
    ensures s'.mcs.threads[w].pc == M.Spin && !s'.mcs.threads[w].blocked && s'.rin == s.rin && s'.rout == s.rout
  {
    var s1 := LoadsNext(a, s, t, w, q);
    s' := Do(s1, t, Mutex(M.DoSignal));
    AheadStep(a, s1, t, Mutex(M.DoSignal));
  }

  lemma LoadsNext(a: State, s: State, t: Tid, w: Tid, q: Tid) returns (s': State)
    requires Ahead(a, s) && Followed(s, t, w, q)
    requires s.mcs.threads[w].pc == M.Spin && s.mcs.threads[t].next == Some(w)
    ensures Ahead(a, s') && s'.threads == s.threads && |s'.mcs.threads| == |s.threads|
    ensures s'.mcs.threads[t].pc == M.Signal && s'.mcs.threads[t].succ == Some(w)
    ensures s'.mcs.threads[w].pc == M.Spin && s'.rin == s.rin && s'.rout == s.rout
  {
    s' := Do(s, t, Mutex(M.LoadNext));
    AheadStep(a, s, t, Mutex(M.LoadNext));
  }

  lemma FollowerIsPoised(a: State, s: State, t: Tid, w: Tid, q: Tid) returns (s': State)
    requires Ahead(a, s) && Followed(s, t, w, q)
    requires s.mcs.threads[w].pc == M.Spin && s.mcs.threads[t].next == Some(w)
    ensures Ahead(a, s') && Poised(s', w, q)
  {
    var s1 := HandsOver(a, s, t, w, q);
    s' := Do(s1, w, Mutex(M.LeaveSpin));
    AheadStep(a, s1, w, Mutex(M.LeaveSpin));
  }

  // --------------------------------------------- nobody waits behind the writer

  // Thread t is out of the lock, which is free, and q has passed its comparison.
  ghost predicate Alone(s: State, t: Tid, q: Tid) {
    && t < |s.threads| == |s.mcs.threads| && q < |s.threads| && t != q && Open(s)
    && s.threads[t] == Out && s.mcs.threads[t].pc == M.Idle && s.threads[q].LoadHead? && s.mcs.tail == None
  }

  lemma LeavesAlone(a: State, s: State, t: Tid, q: Tid) returns (s': State)
    requires Ahead(a, s) && t < |s.threads| == |s.mcs.threads| && q < |s.threads|
    requires t != q && s.threads[t] == Release && s.threads[q].LoadHead? && Open(s)
    requires M.Inv(s.mcs) && s.mcs.queue == [t] && s.mcs.threads[t].pc == M.Holding
    ensures Ahead(a, s') && Alone(s', t, q)
  {
    assert M.Slot(s.mcs, 0);
    var s1 := FindsNobody(a, s, t);
    s' := Do(s1, t, Mutex(M.DoCas));
    AheadStep(a, s1, t, Mutex(M.DoCas));
  }

  lemma FindsNobody(a: State, s: State, t: Tid) returns (s': State)
    requires Ahead(a, s) && t < |s.threads| == |s.mcs.threads| && s.threads[t] == Release
    requires s.mcs.threads[t].pc == M.Holding && s.mcs.threads[t].next == None
    ensures Ahead(a, s') && s' == s.(mcs := s'.mcs) && |s'.mcs.threads| == |s.threads|
    ensures s'.mcs.threads == s.mcs.threads[t := s'.mcs.threads[t]] && s'.mcs.threads[t].pc == M.CasTail
    ensures s'.mcs.tail == s.mcs.tail
  {
    s' := Do(s, t, Mutex(M.LoadNext));
    AheadStep(a, s, t, Mutex(M.LoadNext));
  }

  // The first writer comes back and becomes the writer to be woken too early.
  lemma WriterReturns(a: State, s: State, t: Tid, q: Tid) returns (s': State)
    requires Ahead(a, s) && Alone(s, t, q)
    ensures Ahead(a, s') && Poised(s', t, q)
  {
    var s1 := Do(s, t, Request);
    AheadStep(a, s, t, Request);
    s' := Do(s1, t, Mutex(M.DoExchange));
    AheadStep(a, s1, t, Mutex(M.DoExchange));
  }

  // ----------------------------------------------------------------- the theorem

  // The front of the queue is the writer; whoever is behind it is waiting in mcs_lock.
  lemma QueueFront(s: State, t: Tid, q: Tid)
    requires Inv(s) && Stalled(s, t, q)
    ensures s.mcs.queue != [] && s.mcs.queue[0] == t
    ensures 2 <= |s.mcs.queue| ==>
      var w := s.mcs.queue[1]; w < |s.threads| && w != t && w != q && s.threads[w] == Acquire
  {
    NobodyInside(s, t, q);
    var i := M.IndexOf(s.mcs, t);
    if 2 <= |s.mcs.queue| {
      var w := s.mcs.queue[1];
      FollowerState(s.mcs, t, w);
      assert MutexLink(s.threads[w], s.mcs.threads[w].pc) && MutexLink(s.threads[q], s.mcs.threads[q].pc);
    }
  }

  lemma FollowerBreaks(a: State, s: State, s1: State, t: Tid, q: Tid) returns (s': State)
    requires Inv(s) && Stalled(s, t, q) && Ahead(a, s1) && Left(s, s1, t, q) && 2 <= |s.mcs.queue|
    ensures Ahead(a, s') && Broken(s')
  {
    NobodyInside(s, t, q);
    QueueFront(s, t, q);
    s' := FollowerCase(a, s1, t, s.mcs.queue[1], q);
  }

  lemma AloneBreaks(a: State, s: State, s1: State, t: Tid, q: Tid) returns (s': State)
    requires Inv(s) && Stalled(s, t, q) && Ahead(a, s1) && Left(s, s1, t, q) && |s.mcs.queue| <= 1
    ensures Ahead(a, s') && Broken(s')
  {
    NobodyInside(s, t, q);
    QueueFront(s, t, q);
    assert s.mcs.queue == [t];
    var s2 := LeavesAlone(a, s1, t, q);
    var s3 := WriterReturns(a, s2, t, q);
    s' := WokenTooEarly(a, s3, t, q);
  }

  lemma StalledBreaks(a: State, s: State, t: Tid, q: Tid) returns (s': State)
    requires Inv(s) && Can(s, t, Advance) && Stalled(s, t, q) && a == Do(s, t, Advance)
    ensures Ahead(a, s') && Broken(s')
  {
    var s1 := Leaves(a, s, t, q);
    if 2 <= |s.mcs.queue| {
      s' := FollowerBreaks(a, s, s1, t, q);
    } else {
      s' := AloneBreaks(a, s, s1, t, q);
    }
  }

  lemma InvNotBroken(s: State)
    requires Inv(s)
    ensures !Broken(s)
  {
    forall w: Tid, r: Tid | w < |s.threads| && r < |s.threads| && Writes(s.threads[w])
      ensures s.threads[r] != Reading
    {
      if r != w { InvExcludes(s, w, r); }
    }
  }

  /** The timing premise is exact for mutual exclusion: for any number of threads, a step breaks the premise if and
      only if some run of timely steps from there puts a writer and a reader in the lock together. */
  lemma UntimelyIffExclusionBreaks(s: State, t: Tid, op: Op)
    requires Inv(s) && Can(s, t, op)
    ensures !Timely(s, t, op) <==> exists s' :: TimelyReach(Do(s, t, op), s') && Broken(s')
  {
    var a := Do(s, t, op);
    if Timely(s, t, op) {
      StepInv(s, t, op);
      forall s' | TimelyReach(a, s')
        ensures !Broken(s')
      {
        var ss, es :| TimelySteps(ss, es) && ss[0] == a && ss[|es|] == s';
        TimelyStepsKeepInv(ss, es, |es|);
        InvNotBroken(s');
      }
    } else {
      var q := UntimelyIsStalled(s, t, op);
      var s' := StalledBreaks(a, s, t, q);
      assert TimelyReach(a, s') && Broken(s');
    }
  }

  /** Over runs: as long as every step is timely nobody is in the lock with a writer, and at the first untimely
      step a run on from there breaks that. */
  lemma FirstUntimelyStepBreaks(ss: seq<State>, es: seq<Event>, i: nat)
    requires RunFrom(ss, es) && Init(ss[0]) && i < |es|
    requires forall j | 0 <= j < i :: TimelyAt(ss, es, j)
    ensures !Broken(ss[i])
    ensures !TimelyAt(ss, es, i) <==> exists s' :: TimelyReach(ss[i + 1], s') && Broken(s')
  {
    var ss0, es0 := ss[..i + 1], es[..i];
    forall j | 0 <= j < i
      ensures StepAt(ss0, es0, j) && TimelyAt(ss0, es0, j)
    {
      assert StepAt(ss, es, j) && TimelyAt(ss, es, j);
    }
    assert StepAt(ss, es, i);
    RunInv(ss0, es0, i);
    InvNotBroken(ss[i]);
    UntimelyIffExclusionBreaks(ss[i], es[i].t, es[i].op);
  }
}
