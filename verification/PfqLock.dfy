/**
 The phase-fair reader-writer lock of dyninstT/common/pfq-rwlock.C, on top of the
 MCS lock, as a state machine over any number of threads.

 Every atomic access is one step. In particular the exit ticket of a reader (line
 96), its comparison with `last` (line 102), the load of `whead` and the store into
 `blocked` (line 103) are four steps, and the low-byte toggles of lines 180 and 188
 are a load and a store. The blocked flag that a departing reader clears is the flag
 of the writer's MCS queue node, as in the source.

 `owner` (the writer between lines 120 and 198) and `lastOut` (the thread that drew
 the newest exit ticket) are auxiliary fields that influence no step.
 */
module PfqLock {
  import opened Basics
  import M = McsLock

  type Tid = M.Tid

  // A reader register: the reader count in units of READER_INCREMENT, and the two writer bits.
  datatype Word = Word(count: int, present: bool, phase: bool)

  // The 32-bit register a word stands for, with READER_INCREMENT 0x100, WRITER_PRESENT 2 and
  // PHASE_BIT 1, for counts that do not wrap.
  function Pack(w: Word): int {
    w.count * 0x100 + (if w.present then 2 else 0) + (if w.phase then 1 else 0)
  }

  /** Two registers are equal exactly when count, presence bit and phase bit agree, so comparing tickets
      as integers (lines 102 and 159) is comparing words; line 146 computes the word of LastTicket. */
  lemma PackFaithful(a: Word, b: Word)
    ensures Pack(a) == Pack(b) <==> a == b
    ensures !a.present ==> Pack(a) - 0x100 + 2 == Pack(LastTicket(a))
  {
  }

  // Writer stages, named by what happens next; lines of pfq-rwlock.C in comments.
  datatype Stage =
    | Announce   // 125: whead = &me
    | LoadPhase  // 130
    | RaiseFlag  // 131
    | MarkRin    // 141
    | StoreLast  // 146
    | MarkRout   // 154
    | Drain      // 160: wait for the last reader
    | Writing    // the critical section
    | LoadRin    // 180: load of the low byte
    | StoreRin   // 180: store of the low byte
    | LoadRout   // 188: load of the low byte
    | StoreRout  // 188: store of the low byte
    | LowerFlag  // 198

  function Ord(st: Stage): nat {
    match st
    case Announce => 1
    case LoadPhase => 2
    case RaiseFlag => 3
    case MarkRin => 4
    case StoreLast => 5
    case MarkRout => 6
    case Drain => 7
    case Writing => 8
    case LoadRin => 9
    case StoreRin => 10
    case LoadRout => 11
    case StoreRout => 12
    case LowerFlag => 13
  }

  datatype Pc =
    | Out
    | ReadSpin(spinPhase: bool)         // 88: wait for the phase flag to drop
    | Reading                           // the critical section
    | Compare(ticket: Word)             // 102
    | LoadHead(ticket: Word)            // 103: load of whead
    | Wake(ticket: Word, head: Tid)     // 103: store into its blocked flag
    | Acquire                           // 115: inside mcs_lock
    | Writer(stage: Stage, phase: bool, arrived: Word, low: (bool, bool))
    | Release                           // 203: inside mcs_unlock

  datatype State = State(
    mcs: M.Lock, rin: Word, rout: Word, last: Word, flag0: bool, flag1: bool, whead: Option<Tid>,
    threads: seq<Pc>, owner: Option<Tid>, lastOut: Tid)

  function Flag(s: State, phase: bool): bool { if phase then s.flag1 else s.flag0 }

  function SetFlag(s: State, phase: bool, value: bool): State {
    if phase then s.(flag1 := value) else s.(flag0 := value)
  }

  datatype Op =
    | Arrive        // 84
    | LeaveSpin     // 88
    | Depart        // 96
    | DoCompare
    | DoLoadHead
    | DoWake
    | Request       // 115
    | Mutex(op: M.Op)
    | EnterBody     // 120
    | Advance       // the next access of the writer that owns the MCS lock

  predicate LockOp(op: M.Op) {
    op == M.DoExchange || op == M.DoSetBlocked || op == M.DoLink || op == M.LeaveSpin
  }

  predicate UnlockOp(op: M.Op) {
    op == M.LoadNext || op == M.DoCas || op == M.SeeLink || op == M.DoSignal
  }

  // A reader that gets to line 103 finds whead set (PfqTheorems.WakeNeverHeldUp); its store into the flag is
  // unconditional, whatever the thread named there is doing.
  predicate Can(s: State, t: Tid, op: Op) {
    t < |s.threads| == |s.mcs.threads| &&
    var pc := s.threads[t];
    match op
    case Arrive => pc == Out
    case LeaveSpin => pc.ReadSpin? && !Flag(s, pc.spinPhase)
    case Depart => pc == Reading
    case DoCompare => pc.Compare?
    case DoLoadHead => pc.LoadHead? && s.whead.Some?
    case DoWake => pc.Wake? && pc.head < |s.threads|
    case Request => pc == Out && M.Can(s.mcs, t, M.BeginLock)
    case Mutex(m) => ((pc == Acquire && LockOp(m)) || (pc == Release && UnlockOp(m))) && M.Can(s.mcs, t, m)
    case EnterBody => pc == Acquire && M.Can(s.mcs, t, M.Scribble(true))
    case Advance =>
      pc.Writer? && (pc.stage == Drain ==> !s.mcs.threads[t].blocked)
  }

  function Toggle(low: (bool, bool)): (bool, bool) { (!low.0, !low.1) }

  function LastTicket(arrived: Word): Word {
    arrived.(count := arrived.count - 1, present := true)
  }

  function DoAdvance(s: State, t: Tid, pc: Pc): State
    requires t < |s.threads| && pc == s.threads[t] && pc.Writer?
  {
    match pc.stage
    case Announce => s.(whead := Some(t), threads := s.threads[t := pc.(stage := LoadPhase)])
    case LoadPhase => s.(threads := s.threads[t := pc.(phase := s.rin.phase, stage := RaiseFlag)])
    case RaiseFlag => SetFlag(s, pc.phase, true).(threads := s.threads[t := pc.(stage := MarkRin)])
    case MarkRin =>
      s.(rin := s.rin.(present := true), threads := s.threads[t := pc.(arrived := s.rin, stage := StoreLast)])
    case StoreLast => s.(last := LastTicket(pc.arrived), threads := s.threads[t := pc.(stage := MarkRout)])
    case MarkRout =>
      s.(rout := s.rout.(present := true),
         threads := s.threads[t := pc.(stage := if pc.arrived == s.rout then Writing else Drain)])
    case Drain => s.(threads := s.threads[t := pc.(stage := Writing)])
    case Writing => s.(threads := s.threads[t := pc.(phase := s.rin.phase, stage := LoadRin)])
    case LoadRin =>
      s.(threads := s.threads[t := pc.(low := (s.rin.present, s.rin.phase), stage := StoreRin)])
    case StoreRin =>
      var low := Toggle(pc.low);
      s.(rin := Word(s.rin.count, low.0, low.1), threads := s.threads[t := pc.(stage := LoadRout)])
    case LoadRout =>
      s.(threads := s.threads[t := pc.(low := (s.rout.present, s.rout.phase), stage := StoreRout)])
    case StoreRout =>
      var low := Toggle(pc.low);
      s.(rout := Word(s.rout.count, low.0, low.1), threads := s.threads[t := pc.(stage := LowerFlag)])
    case LowerFlag => SetFlag(s, pc.phase, false).(threads := s.threads[t := Release], owner := None)
  }

  function DoArrive(s: State, t: Tid): State
    requires t < |s.threads|
  {
    s.(rin := s.rin.(count := s.rin.count + 1),
       threads := s.threads[t := if s.rin.present then ReadSpin(s.rin.phase) else Reading])
  }

  function DoLeaveSpin(s: State, t: Tid): State
    requires t < |s.threads|
  {
    s.(threads := s.threads[t := Reading])
  }

  function DoDepart(s: State, t: Tid): State
    requires t < |s.threads|
  {
    s.(rout := s.rout.(count := s.rout.count + 1), lastOut := t,
       threads := s.threads[t := if s.rout.present then Compare(s.rout) else Out])
  }

  function CompareLast(s: State, t: Tid): State
    requires t < |s.threads| && s.threads[t].Compare?
  {
    var k := s.threads[t].ticket;
    s.(threads := s.threads[t := if k == s.last then LoadHead(k) else Out])
  }

  function ReadHead(s: State, t: Tid): State
    requires t < |s.threads| && s.threads[t].LoadHead? && s.whead.Some?
  {
    s.(threads := s.threads[t := Wake(s.threads[t].ticket, s.whead.value)])
  }

  function ClearBlocked(m: M.Lock, h: Tid): M.Lock
    requires h < |m.threads|
  {
    m.(threads := m.threads[h := m.threads[h].(blocked := false)])
  }

  function WakeHead(s: State, t: Tid): State
    requires t < |s.threads| == |s.mcs.threads| && s.threads[t].Wake? && s.threads[t].head < |s.threads|
  {
    s.(mcs := ClearBlocked(s.mcs, s.threads[t].head), threads := s.threads[t := Out])
  }

  function DoRequest(s: State, t: Tid): State
    requires t < |s.threads| && M.Can(s.mcs, t, M.BeginLock)
  {
    s.(mcs := M.Do(s.mcs, t, M.BeginLock), threads := s.threads[t := Acquire])
  }

  function DoMutex(s: State, t: Tid, m: M.Op): State
    requires t < |s.threads| && M.Can(s.mcs, t, m)
  {
    var mcs := M.Do(s.mcs, t, m);
    s.(mcs := mcs,
       threads := if t < |mcs.threads| && mcs.threads[t].pc == M.Idle then s.threads[t := Out] else s.threads)
  }

  function DoEnterBody(s: State, t: Tid): State
    requires t < |s.threads| && M.Can(s.mcs, t, M.Scribble(true))
  {
    s.(mcs := M.Do(s.mcs, t, M.Scribble(true)), owner := Some(t),
       threads := s.threads[t := Writer(Announce, false, Word(0, false, false), (false, false))])
  }

  function Do(s: State, t: Tid, op: Op): State
    requires Can(s, t, op)
  {
    match op
    case Arrive => DoArrive(s, t)
    case LeaveSpin => DoLeaveSpin(s, t)
    case Depart => DoDepart(s, t)
    case DoCompare => CompareLast(s, t)
    case DoLoadHead => ReadHead(s, t)
    case DoWake => WakeHead(s, t)
    case Request => DoRequest(s, t)
    case Mutex(m) => DoMutex(s, t, m)
    case EnterBody => DoEnterBody(s, t)
    case Advance => DoAdvance(s, t, s.threads[t])
  }

  ghost predicate Init(s: State) {
    && M.Init(s.mcs) && |s.mcs.threads| == |s.threads|
    && s.rin == s.rout == s.last == Word(0, false, false)
    && !s.flag0 && !s.flag1 && s.whead == None && s.owner == None
    && forall t | 0 <= t < |s.threads| :: s.threads[t] == Out
  }

  /**
   The timing premise. When a writer stores `last` (line 146), no reader is stalled
   between its exit ticket and its comparison with a ticket that equals the new value.
   */
  ghost predicate Timely(s: State, t: Tid, op: Op)
    requires Can(s, t, op)
  {
    op == Advance && s.threads[t].stage == StoreLast ==>
      forall r | 0 <= r < |s.threads| ::
        s.threads[r].Compare? ==> s.threads[r].ticket != LastTicket(s.threads[t].arrived)
  }

  // ------------------------------------------------------------------- counting

  datatype Kind = Reader | Spinner(phase: bool)

  function Is(pc: Pc, k: Kind): nat {
    match k
    case Reader => if pc == Reading then 1 else 0
    case Spinner(p) => if pc == ReadSpin(p) then 1 else 0
  }

  function Count(ts: seq<Pc>, k: Kind): nat {
    if ts == [] then 0 else Count(ts[..|ts| - 1], k) + Is(ts[|ts| - 1], k)
  }

  lemma {:induction false} CountUpdate(ts: seq<Pc>, t: nat, pc: Pc, k: Kind)
    requires t < |ts|
    ensures Count(ts[t := pc], k) == Count(ts, k) - Is(ts[t], k) + Is(pc, k)
    ensures Is(ts[t], k) <= Count(ts, k)
  {
    var n := |ts| - 1;
    if t == n {
      assert ts[t := pc][..n] == ts[..n];
    } else {
      assert ts[t := pc][..n] == ts[..n][t := pc];
      CountUpdate(ts[..n], t, pc, k);
    }
  }

  // One thread's change, seen by all three counters.
  lemma CountsUpdate(ts: seq<Pc>, t: nat, pc: Pc)
    requires t < |ts|
    ensures forall k: Kind :: Count(ts[t := pc], k) == Count(ts, k) - Is(ts[t], k) + Is(pc, k)
    ensures forall k: Kind :: Is(ts[t], k) <= Count(ts, k)
  {
    forall k: Kind
      ensures Count(ts[t := pc], k) == Count(ts, k) - Is(ts[t], k) + Is(pc, k)
      ensures Is(ts[t], k) <= Count(ts, k)
    {
      CountUpdate(ts, t, pc, k);
    }
  }

  lemma {:induction false} CountZero(ts: seq<Pc>, k: Kind)
    requires forall t | 0 <= t < |ts| :: Is(ts[t], k) == 0
    ensures Count(ts, k) == 0
  {
    if ts != [] { CountZero(ts[..|ts| - 1], k); }
  }

  // ------------------------------------------------------------------ invariant

  // Which MCS steps a thread may be in the middle of.
  ghost predicate MutexLink(pc: Pc, m: M.Pc) {
    match pc
    case Acquire => m == M.Exchange || m == M.SetBlocked || m == M.Link || m == M.Spin || m == M.Holding
    case Writer(_, _, _, _) => m == M.Holding
    case Release => M.Owns(m)
    case _ => m == M.Idle
  }

  ghost predicate LinksOk(s: State) {
    && |s.mcs.threads| == |s.threads|
    && forall t | 0 <= t < |s.threads| :: MutexLink(s.threads[t], s.mcs.threads[t].pc)
  }

  ghost predicate OwnerOk(s: State) {
    && (s.owner.Some? ==> s.owner.value < |s.threads|)
    && forall t | 0 <= t < |s.threads| :: s.threads[t].Writer? <==> s.owner == Some(t)
  }

  ghost predicate CountsOk(s: State) {
    && s.rin.count - s.rout.count ==
         Count(s.threads, Reader) + Count(s.threads, Spinner(false)) + Count(s.threads, Spinner(true))
    && (!s.rin.present ==> Count(s.threads, Spinner(s.rin.phase)) == 0)
  }

  predicate HasTicket(pc: Pc) { pc.Compare? || pc.LoadHead? || pc.Wake? }

  // The thread holds the ticket that the waiting writer stored, and will wake it.
  predicate Signaller(s: State, r: Tid) {
    r < |s.threads| && HasTicket(s.threads[r]) && s.threads[r].ticket == s.last
  }

  predicate NoOwnerOk(s: State) {
    !s.rin.present && !s.rout.present && s.rin.phase == s.rout.phase && !s.flag0 && !s.flag1
  }

  // The registers and flags as seen from the owner's stage.
  predicate RegistersOk(s: State, st: nat, phase: bool) {
    && (s.rin.present <==> 5 <= st <= 10)
    && (s.rout.present <==> 7 <= st <= 12)
    && (s.rin.phase == s.rout.phase <==> !(11 <= st <= 12))
    && (3 <= st <= 10 ==> phase == s.rin.phase)
    && (11 <= st ==> phase == !s.rin.phase)
    && (s.flag0 <==> 4 <= st && !phase)
    && (s.flag1 <==> 4 <= st && phase)
  }

  // How many readers the owner still waits for.
  predicate DrainOk(s: State, st: nat, w: Pc)
    requires w.Writer?
  {
    && (5 <= st <= 12 ==> !w.arrived.present && w.arrived.phase == w.phase)
    && (5 <= st <= 10 ==> s.rin.count - w.arrived.count == Count(s.threads, Spinner(w.phase)))
    && (6 <= st <= 12 ==> s.last == LastTicket(w.arrived))
    && (8 <= st <= 10 ==> s.rout.count == w.arrived.count)
    && (11 <= st <= 12 ==> w.arrived.count <= s.rout.count)
    && (st == 10 ==> w.low == (s.rin.present, s.rin.phase))
    && (st == 12 ==> w.low == (s.rout.present, s.rout.phase))
  }

  // Who wakes the owner.
  predicate WakeOk(s: State, st: nat, t: Tid)
    requires t < |s.threads| && s.threads[t].Writer? && t < |s.mcs.threads|
  {
    && (2 <= st ==> s.whead == Some(t))
    && (st <= 6 ==> s.mcs.threads[t].blocked)
    && (st == 7 && !s.mcs.threads[t].blocked ==> s.rout.count == s.threads[t].arrived.count)
    && (st == 7 && s.mcs.threads[t].blocked && s.rout.count == s.threads[t].arrived.count ==>
          Signaller(s, s.lastOut))
  }

  ghost predicate BodyOk(s: State)
    requires OwnerOk(s) && LinksOk(s)
  {
    match s.owner
    case None => NoOwnerOk(s)
    case Some(t) =>
      var w := s.threads[t];
      var st := Ord(w.stage);
      RegistersOk(s, st, w.phase) && DrainOk(s, st, w) && WakeOk(s, st, t)
  }

  // The owner waits, every reader it counted has drawn its exit ticket, and it has not been woken yet.
  predicate AwaitsWake(s: State) {
    s.owner.Some? && var t := s.owner.value;
    t < |s.threads| == |s.mcs.threads| && s.threads[t].Writer? &&
    s.threads[t].stage == Drain && s.mcs.threads[t].blocked && s.rout.count == s.threads[t].arrived.count
  }

  predicate TicketOk(s: State, r: Tid)
    requires r < |s.threads|
  {
    var pc := s.threads[r];
    HasTicket(pc) ==>
      && pc.ticket.present && pc.ticket.count < s.rout.count
      && (pc.ticket == s.last ==> AwaitsWake(s))
      && (!pc.Compare? ==> pc.ticket == s.last)
      && (pc.Wake? ==> s.owner == Some(pc.head))
  }

  ghost predicate TicketsOk(s: State) {
    && (forall r | 0 <= r < |s.threads| :: TicketOk(s, r))
    && (forall q, r | 0 <= q < r < |s.threads| && HasTicket(s.threads[q]) && HasTicket(s.threads[r]) ::
          s.threads[q].ticket.count != s.threads[r].ticket.count)
  }

  ghost predicate Core(s: State) {
    LinksOk(s) && OwnerOk(s) && CountsOk(s) && BodyOk(s) && TicketsOk(s)
  }

  ghost predicate Inv(s: State) { M.Inv(s.mcs) && Core(s) }

  lemma InitInv(s: State)
    requires Init(s)
    ensures Inv(s)
  {
    M.InitInv(s.mcs);
    CountZero(s.threads, Reader);
    CountZero(s.threads, Spinner(false));
    CountZero(s.threads, Spinner(true));
  }

  // ------------------------------------------------------------- reader steps

  // Links and ownership carry over when a reader changes its place.
  lemma ReaderKeepsLinks(s: State, s': State, t: Tid)
    requires LinksOk(s) && OwnerOk(s) && t < |s.threads|
    requires s'.mcs == s.mcs && s'.owner == s.owner && |s'.threads| == |s.threads|
    requires s'.threads == s.threads[t := s'.threads[t]]
    requires MutexLink(s.threads[t], M.Idle) && MutexLink(s'.threads[t], M.Idle)
    ensures LinksOk(s') && OwnerOk(s')
  {
  }

  // Tickets carry over when a thread without a ticket changes its place and no ticket register moves.
  lemma KeepTickets(s: State, s': State, t: Tid)
    requires TicketsOk(s) && t < |s.threads| == |s'.threads|
    requires s'.threads == s.threads[t := s'.threads[t]] && !HasTicket(s'.threads[t])
    requires s'.last == s.last && s'.owner == s.owner && s.rout.count <= s'.rout.count
    requires AwaitsWake(s) ==> AwaitsWake(s')
    ensures TicketsOk(s')
  {
    forall r | 0 <= r < |s'.threads|
      ensures TicketOk(s', r)
    {
      assert TicketOk(s, r);
    }
  }

  lemma StepArrive(s: State, t: Tid)
    requires Core(s) && t < |s.threads| && s.threads[t] == Out
    ensures Core(DoArrive(s, t))
  {
    var s' := DoArrive(s, t);
    CountsUpdate(s.threads, t, s'.threads[t]);
    ReaderKeepsLinks(s, s', t);
    KeepTickets(s, s', t);
  }

  lemma StepLeaveSpin(s: State, t: Tid)
    requires Core(s) && t < |s.threads| && s.threads[t].ReadSpin? && !Flag(s, s.threads[t].spinPhase)
    ensures Core(DoLeaveSpin(s, t))
  {
    var s' := DoLeaveSpin(s, t);
    CountsUpdate(s.threads, t, s'.threads[t]);
    ReaderKeepsLinks(s, s', t);
    KeepTickets(s, s', t);
  }

  lemma DepartBody(s: State, t: Tid)
    requires Core(s) && t < |s.threads| && s.threads[t] == Reading
    ensures LinksOk(DoDepart(s, t)) && OwnerOk(DoDepart(s, t))
    ensures CountsOk(DoDepart(s, t)) && BodyOk(DoDepart(s, t))
    ensures !AwaitsWake(s)
  {
    var s' := DoDepart(s, t);
    CountsUpdate(s.threads, t, s'.threads[t]);
    ReaderKeepsLinks(s, s', t);
  }

  lemma DepartTickets(s: State, t: Tid)
    requires Core(s) && t < |s.threads| && s.threads[t] == Reading && !AwaitsWake(s)
    ensures TicketsOk(DoDepart(s, t))
  {
    var s' := DoDepart(s, t);
    CountUpdate(s.threads, t, Out, Reader);
    forall r | 0 <= r < |s'.threads|
      ensures TicketOk(s', r)
    {
      assert TicketOk(s, r);
    }
    forall q, r | 0 <= q < r < |s'.threads| && HasTicket(s'.threads[q]) && HasTicket(s'.threads[r])
      ensures s'.threads[q].ticket.count != s'.threads[r].ticket.count
    {
      assert TicketOk(s, q) && TicketOk(s, r);
    }
  }

  lemma StepDepart(s: State, t: Tid)
    requires Core(s) && t < |s.threads| && s.threads[t] == Reading
    ensures Core(DoDepart(s, t))
  {
    DepartBody(s, t);
    DepartTickets(s, t);
  }

  // A thread that neither was nor becomes a reader inside leaves the counts alone.
  lemma KeepCounts(s: State, s': State, t: Tid)
    requires t < |s.threads| == |s'.threads| && s'.threads == s.threads[t := s'.threads[t]]
    requires forall k: Kind :: Is(s.threads[t], k) == 0 && Is(s'.threads[t], k) == 0
    ensures forall k: Kind :: Count(s'.threads, k) == Count(s.threads, k)
  {
    CountsUpdate(s.threads, t, s'.threads[t]);
  }

  lemma StepCompare(s: State, t: Tid)
    requires Core(s) && t < |s.threads| && s.threads[t].Compare?
    ensures Core(CompareLast(s, t))
  {
    var s' := CompareLast(s, t);
    KeepCounts(s, s', t);
    ReaderKeepsLinks(s, s', t);
    assert TicketOk(s, t);
    assert TicketsOk(s') by {
      forall r | 0 <= r < |s'.threads|
        ensures TicketOk(s', r)
      {
        assert TicketOk(s, r);
      }
    }
  }

  lemma StepLoadHead(s: State, t: Tid)
    requires Core(s) && t < |s.threads| && s.threads[t].LoadHead? && s.whead.Some?
    ensures Core(ReadHead(s, t))
  {
    var s' := ReadHead(s, t);
    KeepCounts(s, s', t);
    ReaderKeepsLinks(s, s', t);
    assert TicketOk(s, t);
    assert TicketsOk(s') by {
      forall r | 0 <= r < |s'.threads|
        ensures TicketOk(s', r)
      {
        assert TicketOk(s, r);
      }
    }
  }

  lemma StepWake(s: State, t: Tid)
    requires Core(s) && t < |s.threads| && s.threads[t].Wake? && s.threads[t].head < |s.threads|
    ensures Core(WakeHead(s, t))
  {
    var s' := WakeHead(s, t);
    KeepCounts(s, s', t);
    assert TicketOk(s, t);
    assert LinksOk(s') && OwnerOk(s');
    assert TicketsOk(s') by {
      forall r | 0 <= r < |s'.threads|
        ensures TicketOk(s', r)
      {
        assert TicketOk(s, r);
        if r != t && HasTicket(s.threads[r]) {
          assert s.threads[r].ticket.count != s.threads[t].ticket.count;
        }
      }
    }
  }

  // ------------------------------------------------- steps inside the MCS lock

  // What a step of the MCS lock by a thread outside the body leaves alone.
  ghost predicate MutexFrame(s: State, s': State, t: Tid) {
    && |s.threads| == |s'.threads| == |s.mcs.threads| == |s'.mcs.threads| && t < |s.threads|
    && s' == s.(mcs := s'.mcs, threads := s.threads[t := s'.threads[t]])
    && (forall u | 0 <= u < |s.threads| && u != t :: s'.mcs.threads[u].pc == s.mcs.threads[u].pc)
    && (forall w | s.owner == Some(w) && w < |s.threads| ::
          s'.mcs.threads[w].blocked == s.mcs.threads[w].blocked)
  }

  lemma MutexFrameCore(s: State, s': State, t: Tid)
    requires Core(s) && MutexFrame(s, s', t)
    requires forall k: Kind :: Is(s.threads[t], k) == 0 && Is(s'.threads[t], k) == 0
    requires !HasTicket(s.threads[t]) && !HasTicket(s'.threads[t])
    requires !s.threads[t].Writer? && !s'.threads[t].Writer?
    requires MutexLink(s'.threads[t], s'.mcs.threads[t].pc)
    ensures Core(s')
  {
    KeepCounts(s, s', t);
    assert LinksOk(s') && OwnerOk(s');
    KeepTickets(s, s', t);
  }

  lemma StepRequest(s: State, t: Tid)
    requires Core(s) && t < |s.threads| && s.threads[t] == Out && M.Can(s.mcs, t, M.BeginLock)
    ensures Core(DoRequest(s, t))
  {
    MutexFrameCore(s, DoRequest(s, t), t);
  }

  lemma MutexStepLink(s: State, t: Tid, m: M.Op)
    requires LinksOk(s) && Can(s, t, Mutex(m))
    ensures MutexLink(DoMutex(s, t, m).threads[t], M.Do(s.mcs, t, m).threads[t].pc)
  {
  }

  lemma MutexStepFrame(s: State, t: Tid, m: M.Op)
    requires M.Inv(s.mcs) && LinksOk(s) && OwnerOk(s) && Can(s, t, Mutex(m))
    ensures MutexFrame(s, DoMutex(s, t, m), t)
  {
    M.OthersKeepPc(s.mcs, t, m);
    if s.owner.Some? {
      M.HolderKeepsFlag(s.mcs, t, m, s.owner.value);
    }
    assert s.threads[t := s.threads[t]] == s.threads;
  }

  lemma StepMutex(s: State, t: Tid, m: M.Op)
    requires Core(s) && Can(s, t, Mutex(m)) && MutexFrame(s, DoMutex(s, t, m), t)
    ensures Core(DoMutex(s, t, m))
  {
    MutexStepLink(s, t, m);
    MutexFrameCore(s, DoMutex(s, t, m), t);
  }

  // At most one thread is past the MCS lock.
  lemma SoleHolder(s: State, t: Tid)
    requires M.Inv(s.mcs) && LinksOk(s) && OwnerOk(s) && t < |s.threads|
    requires M.Owns(s.mcs.threads[t].pc) && !s.threads[t].Writer?
    ensures s.owner == None
  {
    if s.owner.Some? {
      var a := M.IndexOf(s.mcs, t);
      var b := M.IndexOf(s.mcs, s.owner.value);
    }
  }

  lemma StepEnterBody(s: State, t: Tid)
    requires Core(s) && t < |s.threads| && s.threads[t] == Acquire && M.Can(s.mcs, t, M.Scribble(true))
    requires s.owner == None
    ensures Core(DoEnterBody(s, t))
  {
    var s' := DoEnterBody(s, t);
    KeepCounts(s, s', t);
    assert LinksOk(s') && OwnerOk(s');
    assert TicketsOk(s') by {
      forall r | 0 <= r < |s'.threads|
        ensures TicketOk(s', r)
      {
        assert TicketOk(s, r);
      }
    }
  }

  // ------------------------------------------------------------- writer steps

  lemma WriterKeepsLinks(s: State, s': State, t: Tid)
    requires LinksOk(s) && OwnerOk(s) && t < |s.threads| && s.threads[t].Writer?
    requires s'.mcs == s.mcs && s'.owner == s.owner && |s'.threads| == |s.threads|
    requires s'.threads == s.threads[t := s'.threads[t]] && s'.threads[t].Writer?
    ensures LinksOk(s') && OwnerOk(s')
  {
  }

  lemma StepEarly(s: State, t: Tid)
    requires Core(s) && t < |s.threads| && s.threads[t].Writer?
    requires Ord(s.threads[t].stage) <= 3
    ensures Core(DoAdvance(s, t, s.threads[t]))
  {
    var s' := DoAdvance(s, t, s.threads[t]);
    KeepCounts(s, s', t);
    WriterKeepsLinks(s, s', t);
    KeepTickets(s, s', t);
  }

  lemma StepMarkRin(s: State, t: Tid)
    requires Core(s) && t < |s.threads| && s.threads[t].Writer?
    requires s.threads[t].stage == MarkRin
    ensures Core(DoAdvance(s, t, s.threads[t]))
  {
    var s' := DoAdvance(s, t, s.threads[t]);
    KeepCounts(s, s', t);
    WriterKeepsLinks(s, s', t);
    KeepTickets(s, s', t);
  }

  lemma StepMarkRout(s: State, t: Tid)
    requires Core(s) && t < |s.threads| && s.threads[t].Writer?
    requires s.threads[t].stage == MarkRout
    ensures Core(DoAdvance(s, t, s.threads[t]))
  {
    var s' := DoAdvance(s, t, s.threads[t]);
    KeepCounts(s, s', t);
    WriterKeepsLinks(s, s', t);
    KeepTickets(s, s', t);
  }

  lemma StepEnterWriting(s: State, t: Tid)
    requires Core(s) && t < |s.threads| && s.threads[t].Writer?
    requires s.threads[t].stage == Drain && !s.mcs.threads[t].blocked
    ensures Core(DoAdvance(s, t, s.threads[t]))
  {
    var s' := DoAdvance(s, t, s.threads[t]);
    KeepCounts(s, s', t);
    WriterKeepsLinks(s, s', t);
    KeepTickets(s, s', t);
  }

  lemma StepLeaveWriting(s: State, t: Tid)
    requires Core(s) && t < |s.threads| && s.threads[t].Writer?
    requires 8 <= Ord(s.threads[t].stage) <= 9
    ensures Core(DoAdvance(s, t, s.threads[t]))
  {
    var s' := DoAdvance(s, t, s.threads[t]);
    KeepCounts(s, s', t);
    WriterKeepsLinks(s, s', t);
    KeepTickets(s, s', t);
  }

  lemma StepStoreRin(s: State, t: Tid)
    requires Core(s) && t < |s.threads| && s.threads[t].Writer?
    requires s.threads[t].stage == StoreRin
    ensures Core(DoAdvance(s, t, s.threads[t]))
  {
    var s' := DoAdvance(s, t, s.threads[t]);
    KeepCounts(s, s', t);
    WriterKeepsLinks(s, s', t);
    KeepTickets(s, s', t);
  }

  lemma StepUnlockRout(s: State, t: Tid)
    requires Core(s) && t < |s.threads| && s.threads[t].Writer?
    requires 11 <= Ord(s.threads[t].stage) <= 12
    ensures Core(DoAdvance(s, t, s.threads[t]))
  {
    var s' := DoAdvance(s, t, s.threads[t]);
    KeepCounts(s, s', t);
    WriterKeepsLinks(s, s', t);
    KeepTickets(s, s', t);
  }

  lemma StepStoreLast(s: State, t: Tid)
    requires Core(s) && t < |s.threads| && s.threads[t].Writer? && s.threads[t].stage == StoreLast
    requires forall r | 0 <= r < |s.threads| ::
               s.threads[r].Compare? ==> s.threads[r].ticket != LastTicket(s.threads[t].arrived)
    ensures Core(DoAdvance(s, t, s.threads[t]))
  {
    var s' := DoAdvance(s, t, s.threads[t]);
    KeepCounts(s, s', t);
    WriterKeepsLinks(s, s', t);
    assert TicketsOk(s') by {
      forall r | 0 <= r < |s'.threads|
        ensures TicketOk(s', r)
      {
        assert TicketOk(s, r);
      }
    }
  }

  lemma StepLowerFlag(s: State, t: Tid)
    requires Core(s) && t < |s.threads| && s.threads[t].Writer? && s.threads[t].stage == LowerFlag
    ensures Core(DoAdvance(s, t, s.threads[t]))
  {
    var s' := DoAdvance(s, t, s.threads[t]);
    KeepCounts(s, s', t);
    assert LinksOk(s') && OwnerOk(s');
    assert TicketsOk(s') by {
      forall r | 0 <= r < |s'.threads|
        ensures TicketOk(s', r)
      {
        assert TicketOk(s, r);
      }
    }
  }

  lemma StepAdvance(s: State, t: Tid)
    requires Core(s) && Can(s, t, Advance) && Timely(s, t, Advance)
    ensures Core(DoAdvance(s, t, s.threads[t]))
  {
    match s.threads[t].stage
    case Announce => StepEarly(s, t);
    case LoadPhase => StepEarly(s, t);
    case RaiseFlag => StepEarly(s, t);
    case MarkRin => StepMarkRin(s, t);
    case StoreLast => StepStoreLast(s, t);
    case MarkRout => StepMarkRout(s, t);
    case Drain => StepEnterWriting(s, t);
    case Writing => StepLeaveWriting(s, t);
    case LoadRin => StepLeaveWriting(s, t);
    case StoreRin => StepStoreRin(s, t);
    case LoadRout => StepUnlockRout(s, t);
    case StoreRout => StepUnlockRout(s, t);
    case LowerFlag => StepLowerFlag(s, t);
  }

  // The thread that a reader wakes holds the MCS lock, so the store is one into the holder's flag.
  lemma WakesHolder(s: State, t: Tid)
    requires Core(s) && t < |s.threads| && s.threads[t].Wake?
    ensures var h := s.threads[t].head;
      M.Can(s.mcs, h, M.Scribble(false)) && ClearBlocked(s.mcs, h) == M.Do(s.mcs, h, M.Scribble(false))
  {
    assert TicketOk(s, t);
  }

  lemma StepMcsInv(s: State, t: Tid, op: Op)
    requires Inv(s) && Can(s, t, op)
    ensures M.Inv(Do(s, t, op).mcs)
  {
    match op
    case DoWake => WakesHolder(s, t); M.StepInv(s.mcs, s.threads[t].head, M.Scribble(false));
    case Request => M.StepInv(s.mcs, t, M.BeginLock);
    case Mutex(m) => M.StepInv(s.mcs, t, m);
    case EnterBody => M.StepInv(s.mcs, t, M.Scribble(true));
    case Advance => AdvanceKeepsMcs(s, t);
    case _ =>
  }

  lemma AdvanceKeepsMcs(s: State, t: Tid)
    requires t < |s.threads| && s.threads[t].Writer?
    ensures DoAdvance(s, t, s.threads[t]).mcs == s.mcs
  {
  }

  /** Every timely step of every thread keeps the invariant. */
  lemma StepInv(s: State, t: Tid, op: Op)
    requires Inv(s) && Can(s, t, op) && Timely(s, t, op)
    ensures Inv(Do(s, t, op))
  {
    StepMcsInv(s, t, op);
    match op
    case Arrive => StepArrive(s, t);
    case LeaveSpin => StepLeaveSpin(s, t);
    case Depart => StepDepart(s, t);
    case DoCompare => StepCompare(s, t);
    case DoLoadHead => StepLoadHead(s, t);
    case DoWake => StepWake(s, t);
    case Request => StepRequest(s, t);
    case Mutex(m) => MutexStepFrame(s, t, m); StepMutex(s, t, m);
    case EnterBody => SoleHolder(s, t); StepEnterBody(s, t);
    case Advance => StepAdvance(s, t);
  }
}
