/**
 The MCS queue lock of dyninstT/common/mcs-lock.C as a state machine.

 A thread is an index into `threads`, and there may be any number of them. Every
 atomic access of the source is one step, and steps of different threads
 interleave in any order. A thread owns one queue node, so nodes are named by
 their threads. Three auxiliary fields record history and influence no step:
 `queue` (threads whose tail exchange happened and that have not released yet, in
 that order), `departed` (releases so far) and `grants` (acquisitions so far).
 */
module McsLock {
  import opened Basics

  type Tid = nat

  // The access a thread performs next; lines of mcs-lock.C in comments.
  datatype Pc =
    | Idle         // no call in progress
    | Exchange     // 52: exchange the tail
    | TryExchange  // 99: compare-exchange the tail with nil
    | SetBlocked   // 61: set my blocked flag
    | Link         // 68: store myself in my predecessor's next
    | Spin         // 76: wait for my blocked flag to clear
    | Holding      // the call returned with the lock held
    | CasTail      // 127: compare-exchange the tail from me to nil
    | AwaitLink    // 142: wait for my next to be set
    | Signal       // 145: clear my successor's blocked flag

  datatype Node = Node(pc: Pc, next: Option<Tid>, blocked: bool, pred: Option<Tid>, succ: Option<Tid>)

  datatype Lock = Lock(
    tail: Option<Tid>, threads: seq<Node>,
    queue: seq<Tid>, departed: seq<Tid>, grants: seq<Tid>)

  datatype Op =
    | BeginLock     // 43
    | BeginTry      // 88
    | DoExchange
    | DoTry
    | DoSetBlocked
    | DoLink
    | LeaveSpin
    | LoadNext      // 112
    | DoCas
    | SeeLink
    | DoSignal
    | Scribble(value: bool)  // a store into the blocked flag of the thread that holds the lock

  predicate Can(s: Lock, t: Tid, op: Op) {
    t < |s.threads| &&
    var n := s.threads[t];
    match op
    case BeginLock => n.pc == Idle
    case BeginTry => n.pc == Idle
    case DoExchange => n.pc == Exchange
    case DoTry => n.pc == TryExchange
    case DoSetBlocked => n.pc == SetBlocked
    case DoLink => n.pc == Link && n.pred.Some? && n.pred.value < |s.threads|
    case LeaveSpin => n.pc == Spin && !n.blocked
    case LoadNext => n.pc == Holding
    case DoCas => n.pc == CasTail
    case SeeLink => n.pc == AwaitLink && n.next.Some?
    case DoSignal => n.pc == Signal && n.succ.Some? && n.succ.value < |s.threads|
    case Scribble(_) => n.pc == Holding
  }

  function Dequeued(q: seq<Tid>): seq<Tid> { if q == [] then [] else q[1..] }

  function Do(s: Lock, t: Tid, op: Op): Lock
    requires Can(s, t, op)
  {
    var n := s.threads[t];
    match op
    case BeginLock => s.(threads := s.threads[t := n.(next := None, pc := Exchange)])
    case BeginTry => s.(threads := s.threads[t := n.(next := None, pc := TryExchange)])
    case DoExchange =>
      var first := s.tail.None?;
      s.(tail := Some(t),
         threads := s.threads[t := n.(pred := s.tail, pc := if first then Holding else SetBlocked)],
         queue := s.queue + [t],
         grants := if first then s.grants + [t] else s.grants)
    case DoTry =>
      if s.tail.None? then
        s.(tail := Some(t), threads := s.threads[t := n.(pc := Holding)],
           queue := s.queue + [t], grants := s.grants + [t])
      else
        s.(threads := s.threads[t := n.(pc := Idle)])
    case DoSetBlocked => s.(threads := s.threads[t := n.(blocked := true, pc := Link)])
    case DoLink =>
      var linked := s.threads[n.pred.value := s.threads[n.pred.value].(next := Some(t))];
      s.(threads := linked[t := linked[t].(pc := Spin)])
    case LeaveSpin =>
      s.(threads := s.threads[t := n.(pc := Holding)], grants := s.grants + [t])
    case LoadNext =>
      s.(threads := s.threads[t := n.(succ := n.next, pc := if n.next.None? then CasTail else Signal)])
    case DoCas =>
      if s.tail == Some(t) then
        s.(tail := None, threads := s.threads[t := n.(pc := Idle)], queue := Dequeued(s.queue),
           departed := s.departed + [t])
      else
        s.(threads := s.threads[t := n.(pc := AwaitLink)])
    case SeeLink => s.(threads := s.threads[t := n.(succ := n.next, pc := Signal)])
    case DoSignal =>
      var woken := s.threads[n.succ.value := s.threads[n.succ.value].(blocked := false)];
      s.(threads := woken[t := woken[t].(pc := Idle)], queue := Dequeued(s.queue),
           departed := s.departed + [t])
    case Scribble(b) => s.(threads := s.threads[t := n.(blocked := b)])
  }

  ghost predicate Init(s: Lock) {
    && s.tail == None
    && s.queue == s.departed == s.grants == []
    && forall t | 0 <= t < |s.threads| :: s.threads[t].pc == Idle
  }

  // ---------------------------------------------------------------- invariant

  predicate Queued(pc: Pc) { pc != Idle && pc != Exchange && pc != TryExchange }

  predicate Waiting(pc: Pc) { pc == SetBlocked || pc == Link || pc == Spin }

  // The thread owns the critical section or is on its way out of it.
  predicate Owns(pc: Pc) { pc == Holding || pc == CasTail || pc == AwaitLink || pc == Signal }

  // The queue lists the threads between tail exchange and release, each once.
  ghost predicate Members(s: Lock) {
    && (forall i | 0 <= i < |s.queue| :: s.queue[i] < |s.threads|)
    && (forall i, j | 0 <= i < j < |s.queue| :: s.queue[i] != s.queue[j])
    && (forall t | 0 <= t < |s.threads| && Queued(s.threads[t].pc) :: t in s.queue)
  }

  ghost predicate Linked(s: Lock, i: nat)
    requires Members(s) && i < |s.queue|
  {
    i + 1 < |s.queue| && s.threads[s.queue[i + 1]].pc == Spin
  }

  // What the thread at position i of the queue is doing.
  ghost predicate Slot(s: Lock, i: nat)
    requires Members(s) && i < |s.queue|
  {
    var n := s.threads[s.queue[i]];
    // next is set exactly when the follower has passed its linking store
    && n.next == (if Linked(s, i) then Some(s.queue[i + 1]) else None)
    && if i == 0 then
         && (Owns(n.pc) || (n.pc == Spin && !n.blocked))
         && (n.pc == AwaitLink ==> 2 <= |s.queue|)
         && (n.pc == Signal ==> Linked(s, 0) && n.succ == Some(s.queue[1]))
       else
         // a waiting thread knows its predecessor, and is blocked before it links
         Waiting(n.pc) && n.pred == Some(s.queue[i - 1]) && (n.pc != SetBlocked ==> n.blocked)
  }

  ghost predicate Slots(s: Lock)
    requires Members(s)
  {
    forall i | 0 <= i < |s.queue| :: Slot(s, i)
  }

  ghost predicate Newcomers(s: Lock) {
    forall t | 0 <= t < |s.threads| ::
      s.threads[t].pc == Exchange || s.threads[t].pc == TryExchange ==> s.threads[t].next == None
  }

  function TailOf(q: seq<Tid>): Option<Tid> { if q == [] then None else Some(q[|q| - 1]) }

  ghost predicate Inv(s: Lock) {
    && Members(s)
    && s.tail == TailOf(s.queue)
    && Slots(s)
    && Newcomers(s)
  }

  lemma InitInv(s: Lock)
    requires Init(s)
    ensures Inv(s)
  {
  }

  lemma IndexOf(s: Lock, t: Tid) returns (i: nat)
    requires Inv(s) && t < |s.threads| && Queued(s.threads[t].pc)
    ensures i < |s.queue| && s.queue[i] == t && Slot(s, i)
    ensures Owns(s.threads[t].pc) ==> i == 0
    ensures Waiting(s.threads[t].pc) && (s.threads[t].pc == Spin ==> s.threads[t].blocked) ==> 1 <= i
    ensures s.threads[t].pc == Spin && !s.threads[t].blocked ==> i == 0
  {
    i :| 0 <= i < |s.queue| && s.queue[i] == t;
    assert Slot(s, i);
  }

  lemma NotQueued(s: Lock, t: Tid)
    requires Inv(s) && t < |s.threads| && !Queued(s.threads[t].pc)
    ensures t !in s.queue
  {
    forall i | 0 <= i < |s.queue|
      ensures s.queue[i] != t
    {
      assert Slot(s, i);
    }
  }

  // Slots carry over when only thread t changed and t is not in the queue.
  lemma OutsiderSlots(s: Lock, s': Lock, t: Tid)
    requires Inv(s) && t < |s.threads| && t !in s.queue
    requires s'.queue == s.queue && |s'.threads| == |s.threads|
    requires s'.threads == s.threads[t := s'.threads[t]] && !Queued(s'.threads[t].pc)
    ensures Members(s') && Slots(s')
  {
    forall i | 0 <= i < |s'.queue|
      ensures Slot(s', i)
    {
      assert Slot(s, i);
    }
  }

  lemma StepBegin(s: Lock, t: Tid, op: Op)
    requires Inv(s) && Can(s, t, op) && (op == BeginLock || op == BeginTry)
    ensures Inv(Do(s, t, op))
  {
    var s' := Do(s, t, op);
    NotQueued(s, t);
    OutsiderSlots(s, s', t);
  }

  lemma StepExchange(s: Lock, t: Tid)
    requires Inv(s) && Can(s, t, DoExchange)
    ensures Inv(Do(s, t, DoExchange))
  {
    var s' := Do(s, t, DoExchange);
    NotQueued(s, t);
    assert s'.queue[|s.queue|] == t;
    assert forall u :: u in s.queue ==> u in s'.queue;
    assert Members(s');
    forall i | 0 <= i < |s'.queue|
      ensures Slot(s', i)
    {
      if i < |s.queue| {
        assert Slot(s, i);
      }
    }
  }

  lemma StepTry(s: Lock, t: Tid)
    requires Inv(s) && Can(s, t, DoTry)
    ensures Inv(Do(s, t, DoTry))
  {
    var s' := Do(s, t, DoTry);
    NotQueued(s, t);
    if s.tail.None? {
      assert s.queue == [] && s'.queue == [t];
      assert s'.queue[0] == t;
      assert Members(s') && Slot(s', 0);
    } else {
      OutsiderSlots(s, s', t);
    }
  }

  // Slots carry over when only the thread at position i changed, and only as its own slot allows.
  lemma InsiderSlots(s: Lock, s': Lock, i: nat)
    requires Inv(s) && i < |s.queue|
    requires var t := s.queue[i];
      && s'.queue == s.queue && |s'.threads| == |s.threads|
      && s'.threads == s.threads[t := s'.threads[t]]
      && Queued(s'.threads[t].pc)
      && s'.threads[t].next == s.threads[t].next
      && (1 <= i ==> (s'.threads[t].pc == Spin <==> s.threads[t].pc == Spin))
    requires Members(s') ==> Slot(s', i)
    ensures Members(s') && Slots(s')
  {
    assert Members(s');
    forall k | 0 <= k < |s'.queue|
      ensures Slot(s', k)
    {
      assert Slot(s, k);
    }
  }

  lemma StepSetBlocked(s: Lock, t: Tid)
    requires Inv(s) && Can(s, t, DoSetBlocked)
    ensures Inv(Do(s, t, DoSetBlocked))
  {
    var i := IndexOf(s, t);
    var s' := Do(s, t, DoSetBlocked);
    InsiderSlots(s, s', i);
  }

  lemma LinkMembers(s: Lock, t: Tid)
    requires Inv(s) && Can(s, t, DoLink)
    ensures Members(Do(s, t, DoLink))
  {
    var s' := Do(s, t, DoLink);
    assert forall u | 0 <= u < |s.threads| :: Queued(s'.threads[u].pc) ==> Queued(s.threads[u].pc);
  }

  lemma LinkSlot(s: Lock, t: Tid, i: nat, k: nat)
    requires Inv(s) && Can(s, t, DoLink)
    requires 1 <= i < |s.queue| && s.queue[i] == t && k < |s.queue|
    requires Members(Do(s, t, DoLink))
    ensures Slot(Do(s, t, DoLink), k)
  {
    assert Slot(s, i) && Slot(s, i - 1) && Slot(s, k);
    assert s.queue[i - 1] != t;
    if k != i && k != i - 1 {
      assert s.queue[k] != t && s.queue[k] != s.queue[i - 1];
      assert Linked(Do(s, t, DoLink), k) <==> Linked(s, k);
    }
  }

  lemma StepLink(s: Lock, t: Tid)
    requires Inv(s) && Can(s, t, DoLink)
    ensures Inv(Do(s, t, DoLink))
  {
    var i := IndexOf(s, t);
    var s' := Do(s, t, DoLink);
    LinkMembers(s, t);
    forall k | 0 <= k < |s'.queue|
      ensures Slot(s', k)
    {
      LinkSlot(s, t, i, k);
    }
    assert Slots(s');
    assert Newcomers(s') by {
      assert Slot(s, i);
      assert forall u | 0 <= u < |s.threads| && u != s.queue[i - 1] && u != t :: s'.threads[u] == s.threads[u];
      assert Slot(s, i - 1);
    }
  }

  lemma StepLeaveSpin(s: Lock, t: Tid)
    requires Inv(s) && Can(s, t, LeaveSpin)
    ensures Inv(Do(s, t, LeaveSpin))
  {
    var i := IndexOf(s, t);
    var s' := Do(s, t, LeaveSpin);
    InsiderSlots(s, s', i);
  }

  lemma StepLoadNext(s: Lock, t: Tid)
    requires Inv(s) && Can(s, t, LoadNext)
    ensures Inv(Do(s, t, LoadNext))
  {
    var i := IndexOf(s, t);
    var s' := Do(s, t, LoadNext);
    InsiderSlots(s, s', i);
  }

  lemma StepCas(s: Lock, t: Tid)
    requires Inv(s) && Can(s, t, DoCas)
    ensures Inv(Do(s, t, DoCas))
  {
    var i := IndexOf(s, t);
    var s' := Do(s, t, DoCas);
    if s.tail == Some(t) {
      assert s.queue[|s.queue| - 1] == s.queue[0];
      assert s.queue == [t];
    } else {
      InsiderSlots(s, s', i);
    }
  }

  lemma StepSeeLink(s: Lock, t: Tid)
    requires Inv(s) && Can(s, t, SeeLink)
    ensures Inv(Do(s, t, SeeLink))
  {
    var i := IndexOf(s, t);
    var s' := Do(s, t, SeeLink);
    InsiderSlots(s, s', i);
  }

  lemma SignalMembers(s: Lock, t: Tid)
    requires Inv(s) && Can(s, t, DoSignal)
    ensures s.queue != [] && s.queue[0] == t
    ensures Members(Do(s, t, DoSignal))
  {
    var i := IndexOf(s, t);
    var s' := Do(s, t, DoSignal);
    assert forall k | 0 <= k < |s'.queue| :: s'.queue[k] == s.queue[k + 1];
    forall u | 0 <= u < |s'.threads| && Queued(s'.threads[u].pc)
      ensures u in s'.queue
    {
      var k :| 0 <= k < |s.queue| && s.queue[k] == u;
      assert s'.queue[k - 1] == u;
    }
  }

  lemma SignalSlot(s: Lock, t: Tid, k: nat)
    requires Inv(s) && Can(s, t, DoSignal)
    requires s.queue != [] && s.queue[0] == t && k + 1 < |s.queue|
    requires Members(Do(s, t, DoSignal))
    ensures Slot(Do(s, t, DoSignal), k)
  {
    assert Slot(s, 0) && Slot(s, 1) && Slot(s, k + 1);
    assert s.queue[k + 1] != t;
    assert Linked(Do(s, t, DoSignal), k) <==> Linked(s, k + 1);
  }

  lemma StepSignal(s: Lock, t: Tid)
    requires Inv(s) && Can(s, t, DoSignal)
    ensures Inv(Do(s, t, DoSignal))
  {
    var s' := Do(s, t, DoSignal);
    SignalMembers(s, t);
    forall k | 0 <= k < |s'.queue|
      ensures Slot(s', k)
    {
      SignalSlot(s, t, k);
    }
    assert Slots(s');
    assert Slot(s, 0);
    assert s'.tail == TailOf(s'.queue);
  }

  lemma StepScribble(s: Lock, t: Tid, b: bool)
    requires Inv(s) && Can(s, t, Scribble(b))
    ensures Inv(Do(s, t, Scribble(b)))
  {
    var i := IndexOf(s, t);
    var s' := Do(s, t, Scribble(b));
    InsiderSlots(s, s', i);
  }

  /** Every step of every thread keeps the queue invariant. */
  lemma StepInv(s: Lock, t: Tid, op: Op)
    requires Inv(s) && Can(s, t, op)
    ensures Inv(Do(s, t, op))
  {
    match op
    case BeginLock => StepBegin(s, t, op);
    case BeginTry => StepBegin(s, t, op);
    case DoExchange => StepExchange(s, t);
    case DoTry => StepTry(s, t);
    case DoSetBlocked => StepSetBlocked(s, t);
    case DoLink => StepLink(s, t);
    case LeaveSpin => StepLeaveSpin(s, t);
    case LoadNext => StepLoadNext(s, t);
    case DoCas => StepCas(s, t);
    case SeeLink => StepSeeLink(s, t);
    case DoSignal => StepSignal(s, t);
    case Scribble(b) => StepScribble(s, t, b);
  }

  // A step leaves the pc of every other thread alone, and the blocked flag of a thread that holds the lock.
  lemma OthersKeepPc(s: Lock, t: Tid, op: Op)
    requires Can(s, t, op)
    ensures |Do(s, t, op).threads| == |s.threads|
    ensures forall u | 0 <= u < |s.threads| && u != t :: Do(s, t, op).threads[u].pc == s.threads[u].pc
  {
  }

  lemma HolderKeepsFlag(s: Lock, t: Tid, op: Op, w: Tid)
    requires Inv(s) && Can(s, t, op) && w < |s.threads| && w != t && s.threads[w].pc == Holding
    ensures Do(s, t, op).threads[w].blocked == s.threads[w].blocked
  {
    if op == DoSignal {
      ReleaseFromFront(s, t, op);
      var i := IndexOf(s, t);
    }
  }

  // ------------------------------------------------------- what every run keeps

  // Threads in the order of their tail exchanges, over the whole run so far.
  function Arrivals(s: Lock): seq<Tid> { s.departed + s.queue }

  // Acquisitions so far: everyone who departed, then the current owner.
  ghost predicate Histories(s: Lock) {
    s.grants == s.departed +
      if s.queue != [] && s.queue[0] < |s.threads| && Owns(s.threads[s.queue[0]].pc) then [s.queue[0]] else []
  }

  ghost predicate Exchanges(s: Lock, op: Op) {
    op == DoExchange || (op == DoTry && s.tail == None)
  }

  ghost predicate Releases(s: Lock, t: Tid, op: Op) {
    op == DoSignal || (op == DoCas && s.tail == Some(t))
  }

  // A release takes its thread off the front of the queue.
  lemma ReleaseFromFront(s: Lock, t: Tid, op: Op)
    requires Inv(s) && Can(s, t, op) && Releases(s, t, op)
    ensures s.queue == [t] + Do(s, t, op).queue
    ensures Owns(s.threads[t].pc)
    ensures op == DoSignal ==> 2 <= |s.queue| && s.queue[1] != t && s.threads[s.queue[1]].pc == Spin
    ensures op == DoCas ==> s.queue == [t]
  {
    var i := IndexOf(s, t);
    if op == DoCas {
      assert s.queue[0] == s.queue[|s.queue| - 1];
    }
  }

  // Ownership of the front of the queue changes only when its own thread leaves the spin.
  lemma FrontKeeps(s: Lock, t: Tid, op: Op)
    requires Inv(s) && Can(s, t, op) && !Releases(s, t, op) && op != LeaveSpin && s.queue != []
    ensures var s' := Do(s, t, op);
      s'.queue != [] && s'.queue[0] == s.queue[0] &&
      (Owns(s'.threads[s.queue[0]].pc) <==> Owns(s.threads[s.queue[0]].pc))
  {
    assert Slot(s, 0);
    if s.queue[0] == t {
      var i := IndexOf(s, t);
    }
  }

  lemma ArrivalsWithoutRelease(s: Lock, t: Tid, op: Op)
    requires Can(s, t, op) && !Releases(s, t, op)
    ensures Arrivals(Do(s, t, op)) == Arrivals(s) + if Exchanges(s, op) then [t] else []
  {
    var s' := Do(s, t, op);
    if Exchanges(s, op) {
      assert s'.queue == s.queue + [t] && s'.departed == s.departed;
    } else {
      assert s'.queue == s.queue && s'.departed == s.departed;
    }
  }

  /** The arrival order grows by one entry at a tail exchange and never changes otherwise. */
  lemma StepArrivals(s: Lock, t: Tid, op: Op)
    requires Inv(s) && Can(s, t, op)
    ensures Arrivals(Do(s, t, op)) == Arrivals(s) + if Exchanges(s, op) then [t] else []
  {
    var s' := Do(s, t, op);
    if Releases(s, t, op) {
      ReleaseFromFront(s, t, op);
      assert s.departed + ([t] + s'.queue) == (s.departed + [t]) + s'.queue;
    } else {
      ArrivalsWithoutRelease(s, t, op);
    }
  }

  lemma StepHistories(s: Lock, t: Tid, op: Op)
    requires Inv(s) && Histories(s) && Can(s, t, op)
    ensures Histories(Do(s, t, op))
  {
    if Releases(s, t, op) {
      ReleaseFromFront(s, t, op);
      var s' := Do(s, t, op);
      assert s'.grants == s'.departed;
      assert op == DoSignal ==> s'.queue[0] == s.queue[1];
    } else if op == LeaveSpin {
      var i := IndexOf(s, t);
    } else if s.queue != [] {
      FrontKeeps(s, t, op);
    }
  }

  ghost predicate Step(s: Lock, s': Lock) {
    exists t, op :: Can(s, t, op) && s' == Do(s, t, op)
  }

  ghost predicate Run(r: seq<Lock>) {
    && r != [] && Init(r[0])
    && forall i | 0 <= i < |r| - 1 :: Step(r[i], r[i + 1])
  }

  lemma {:induction false} RunInv(r: seq<Lock>, i: nat)
    requires Run(r) && i < |r|
    ensures Inv(r[i]) && Histories(r[i])
  {
    if i == 0 {
      InitInv(r[0]);
    } else {
      RunInv(r, i - 1);
      assert Step(r[i - 1], r[i]);
      var t, op :| Can(r[i - 1], t, op) && r[i] == Do(r[i - 1], t, op);
      StepInv(r[i - 1], t, op);
      StepHistories(r[i - 1], t, op);
    }
  }

  /** In every reachable state at most one thread owns the lock. */
  lemma MutualExclusion(r: seq<Lock>, i: nat, t: Tid, u: Tid)
    requires Run(r) && i < |r|
    requires t < |r[i].threads| && u < |r[i].threads|
    requires Owns(r[i].threads[t].pc) && Owns(r[i].threads[u].pc)
    ensures t == u
  {
    RunInv(r, i);
    var a := IndexOf(r[i], t);
    var b := IndexOf(r[i], u);
  }

  /** The lock is granted in the order of the tail exchanges: no thread is ever overtaken. */
  lemma FirstComeFirstServed(r: seq<Lock>, i: nat)
    requires Run(r) && i < |r|
    ensures r[i].grants <= Arrivals(r[i])
    ensures |Arrivals(r[i])| - |r[i].queue| <= |r[i].grants| <= |Arrivals(r[i])| - |r[i].queue| + 1
  {
    RunInv(r, i);
  }

  /** The tail is nil exactly when no thread is between its exchange and its release. */
  lemma TailNilIffFree(r: seq<Lock>, i: nat)
    requires Run(r) && i < |r|
    ensures r[i].tail == None <==> forall t | 0 <= t < |r[i].threads| :: !Queued(r[i].threads[t].pc)
  {
    RunInv(r, i);
    var s := r[i];
    if s.queue != [] {
      assert Slot(s, 0);
    }
  }

  /** trylock acquires exactly when nobody holds or waits, and otherwise leaves the lock as it was. */
  lemma TryLockIffFree(r: seq<Lock>, i: nat, t: Tid)
    requires Run(r) && i < |r| && Can(r[i], t, DoTry)
    ensures var s, s' := r[i], Do(r[i], t, DoTry);
      && (s'.threads[t].pc == Holding <==> s.queue == [])
      && (s'.threads[t].pc != Holding ==>
            s'.tail == s.tail && s'.queue == s.queue && s'.threads == s.threads[t := s.threads[t].(pc := Idle)])
  {
    RunInv(r, i);
  }

  // ------------------------------------------------------------------- progress

  // Steps a queued thread still has to take, or to be given, before it is out.
  function Work(n: Node): nat {
    match n.pc
    case SetBlocked => 8
    case Link => 7
    case Spin => if n.blocked then 6 else 5
    case Holding => 4
    case CasTail => 3
    case AwaitLink => 2
    case Signal => 1
    case _ => 0
  }

  // The work ahead of, and of, the thread at position i.
  ghost function Rank(s: Lock, i: nat): nat
    requires Members(s) && i < |s.queue|
  {
    Work(s.threads[s.queue[i]]) + if i == 0 then 0 else Rank(s, i - 1)
  }

  lemma {:induction false} RankPoint(s: Lock, s': Lock, i: nat, k: nat)
    requires Members(s) && Members(s') && i < |s.queue| <= |s'.queue| && k < |s.queue|
    requires forall j | 0 <= j < |s.queue| :: s'.queue[j] == s.queue[j]
    requires forall j | 0 <= j < |s.queue| && j != k ::
               Work(s'.threads[s.queue[j]]) == Work(s.threads[s.queue[j]])
    requires Work(s'.threads[s.queue[k]]) <= Work(s.threads[s.queue[k]])
    ensures i < k ==> Rank(s', i) == Rank(s, i)
    ensures k <= i ==> Rank(s', i) - Work(s'.threads[s.queue[k]]) == Rank(s, i) - Work(s.threads[s.queue[k]])
  {
    if i > 0 { RankPoint(s, s', i - 1, k); }
  }

  lemma {:induction false} RankShift(s: Lock, s': Lock, i: nat)
    requires Members(s) && Members(s') && 1 <= i < |s.queue| == |s'.queue| + 1
    requires forall j | 1 <= j < |s.queue| :: s'.queue[j - 1] == s.queue[j]
    requires forall j | 2 <= j < |s.queue| ::
               Work(s'.threads[s.queue[j]]) == Work(s.threads[s.queue[j]])
    requires Work(s'.threads[s.queue[1]]) < Work(s.threads[s.queue[1]])
    ensures Rank(s', i - 1) < Rank(s, i)
  {
    if i > 1 { RankShift(s, s', i - 1); }
  }

  lemma RankAfterSignal(s: Lock, t: Tid, i: nat)
    requires Inv(s) && Can(s, t, DoSignal) && 1 <= i < |s.queue|
    requires Inv(Do(s, t, DoSignal))
    ensures var s' := Do(s, t, DoSignal);
      i - 1 < |s'.queue| && s'.queue[i - 1] == s.queue[i] && Rank(s', i - 1) < Rank(s, i)
  {
    var s' := Do(s, t, DoSignal);
    ReleaseFromFront(s, t, DoSignal);
    assert Slot(s, 0) && Slot(s, 1);
    forall j | 2 <= j < |s.queue|
      ensures s'.threads[s.queue[j]] == s.threads[s.queue[j]]
    {
      assert s.queue[j] != s.queue[0] && s.queue[j] != s.queue[1];
    }
    RankShift(s, s', i);
  }

  lemma RankAfterOwnStep(s: Lock, t: Tid, op: Op, i: nat, k: nat)
    requires Inv(s) && Can(s, t, op) && !Releases(s, t, op) && 1 <= i < |s.queue|
    requires k < |s.queue| && s.queue[k] == t
    requires Inv(Do(s, t, op)) && Do(s, t, op).queue == s.queue
    ensures Rank(Do(s, t, op), i) <= Rank(s, i)
    ensures k <= i && !op.Scribble? ==> Rank(Do(s, t, op), i) < Rank(s, i)
  {
    var s' := Do(s, t, op);
    assert Slot(s, k);
    forall j | 0 <= j < |s.queue| && j != k
      ensures Work(s'.threads[s.queue[j]]) == Work(s.threads[s.queue[j]])
    {
      assert s.queue[j] != t;
    }
    RankPoint(s, s', i, k);
  }

  lemma RankAfterOtherStep(s: Lock, t: Tid, op: Op, i: nat)
    requires Inv(s) && Can(s, t, op) && !Queued(s.threads[t].pc) && 1 <= i < |s.queue|
    requires Inv(Do(s, t, op))
    ensures var s' := Do(s, t, op);
      t !in s.queue && |s.queue| <= |s'.queue| && s'.queue[i] == s.queue[i] && Rank(s', i) == Rank(s, i)
  {
    var s' := Do(s, t, op);
    NotQueued(s, t);
    forall j | 0 <= j < |s.queue|
      ensures s'.queue[j] == s.queue[j] && s'.threads[s.queue[j]] == s.threads[s.queue[j]]
    {
      assert s.queue[j] != t;
    }
    RankPoint(s, s', i, 0);
  }

  /** Progress is never undone: whatever any thread does, the work ahead of a waiting thread does not
      grow, and it shrinks with every step of a thread at or before its place in the queue. */
  lemma RankNeverGrows(s: Lock, t: Tid, op: Op, i: nat)
    requires Inv(s) && Can(s, t, op) && 1 <= i < |s.queue|
    ensures var s' := Do(s, t, op);
      var i' := if op == DoSignal then i - 1 else i;
      && Inv(s') && i' < |s'.queue| && s'.queue[i'] == s.queue[i]
      && Rank(s', i') <= Rank(s, i)
      && (!op.Scribble? && (exists k :: 0 <= k <= i && s.queue[k] == t) ==> Rank(s', i') < Rank(s, i))
  {
    StepInv(s, t, op);
    if op == DoSignal {
      RankAfterSignal(s, t, i);
    } else if Releases(s, t, op) {
      ReleaseFromFront(s, t, op);
      assert false;
    } else if Queued(s.threads[t].pc) {
      var k := IndexOf(s, t);
      RankAfterOwnStep(s, t, op, i, k);
    } else {
      RankAfterOtherStep(s, t, op, i);
    }
  }

  /** No thread waits for a link or a signal that never comes: as long as a thread waits, some thread
      at or before its place in the queue has a step to take other than spinning. */
  lemma SomeoneCanStep(s: Lock, i: nat) returns (k: nat, op: Op)
    requires Inv(s) && 1 <= i < |s.queue|
    ensures k <= 1 && k <= i && !op.Scribble? && Can(s, s.queue[k], op) && Queued(s.threads[s.queue[k]].pc)
  {
    assert Slot(s, 0) && Slot(s, 1);
    var h := s.threads[s.queue[0]];
    k := 0;
    match h.pc
    case Spin => op := LeaveSpin;
    case Holding => op := LoadNext;
    case CasTail => op := DoCas;
    case Signal => op := DoSignal;
    case AwaitLink =>
      if h.next.Some? {
        op := SeeLink;
      } else {
        k := 1;
        op := if s.threads[s.queue[1]].pc == SetBlocked then DoSetBlocked else DoLink;
      }
  }

  datatype Event = Event(t: Tid, op: Op)

  ghost predicate StepAt(r: seq<Lock>, es: seq<Event>, i: nat)
    requires |r| == |es| + 1 && i < |es|
  {
    Can(r[i], es[i].t, es[i].op) && r[i + 1] == Do(r[i], es[i].t, es[i].op)
  }

  ghost predicate RunBy(r: seq<Lock>, es: seq<Event>) {
    |r| == |es| + 1 && forall i | 0 <= i < |es| :: StepAt(r, es, i)
  }

  // Thread u is queued behind another.
  ghost predicate Waits(s: Lock, u: Tid) { exists k :: 1 <= k < |s.queue| && s.queue[k] == u }

  // The step is one of a thread at or before the place of u in the queue.
  ghost predicate StepsAhead(s: Lock, e: Event, u: Tid) {
    !e.op.Scribble? && exists k, m :: 0 <= k <= m < |s.queue| && s.queue[k] == e.t && s.queue[m] == u
  }

  // How many such steps there are from state a to state b.
  ghost function AheadSteps(r: seq<Lock>, es: seq<Event>, a: nat, b: nat, u: Tid): nat
    requires RunBy(r, es) && a <= b <= |es|
    decreases b - a
  {
    if a == b then 0 else (if StepsAhead(r[a], es[a], u) then 1 else 0) + AheadSteps(r, es, a + 1, b, u)
  }

  lemma PlaceUnique(s: Lock, u: Tid, i: nat, k: nat)
    requires Members(s) && i < |s.queue| && k < |s.queue| && s.queue[i] == u && s.queue[k] == u
    ensures i == k
  {
  }

  lemma AheadInQueue(s: Lock, e: Event, u: Tid, i: nat)
    requires Members(s) && i < |s.queue| && s.queue[i] == u && StepsAhead(s, e, u)
    ensures exists k :: 0 <= k <= i && s.queue[k] == e.t
  {
    var k, m :| 0 <= k <= m < |s.queue| && s.queue[k] == e.t && s.queue[m] == u;
    PlaceUnique(s, u, i, m);
  }

  // One step, seen from a waiting thread: it keeps its place, and a step ahead of it lowers its rank.
  lemma WaitStep(s: Lock, e: Event, u: Tid, i: nat) returns (i': nat)
    requires Inv(s) && Can(s, e.t, e.op) && 1 <= i < |s.queue| && s.queue[i] == u
    ensures var s' := Do(s, e.t, e.op);
      && Inv(s') && i' < |s'.queue| && s'.queue[i'] == u
      && Rank(s', i') + (if StepsAhead(s, e, u) then 1 else 0) <= Rank(s, i)
  {
    RankNeverGrows(s, e.t, e.op, i);
    if StepsAhead(s, e, u) { AheadInQueue(s, e, u, i); }
    i' := if e.op == DoSignal then i - 1 else i;
  }

  lemma WaitsAt(s: Lock, u: Tid, i: nat)
    requires Members(s) && i < |s.queue| && s.queue[i] == u && Waits(s, u)
    ensures 1 <= i
  {
    var k :| 1 <= k < |s.queue| && s.queue[k] == u;
    PlaceUnique(s, u, i, k);
  }

  /** Over a run: while a thread waits, the threads at or before its place take at most as many steps as its rank
      says, whatever the others do; so it stops waiting once they have taken them. */
  lemma {:induction false} WaitIsBounded(r: seq<Lock>, es: seq<Event>, a: nat, b: nat, u: Tid, i: nat)
    requires RunBy(r, es) && a <= b <= |es| && Inv(r[a])
    requires i < |r[a].queue| && r[a].queue[i] == u
    requires forall j | a <= j < b :: Waits(r[j], u)
    ensures AheadSteps(r, es, a, b, u) <= Rank(r[a], i)
    decreases b - a
  {
    if a < b {
      assert StepAt(r, es, a) && Waits(r[a], u);
      WaitsAt(r[a], u, i);
      var i' := WaitStep(r[a], es[a], u, i);
      WaitIsBounded(r, es, a + 1, b, u, i');
    }
  }

  // ---------------------------------------------------------- how calls return

  // Thread t takes no step from state a to state b.
  ghost predicate Rests(es: seq<Event>, a: nat, b: nat, t: Tid) {
    a <= b <= |es| && forall i | a <= i < b :: es[i].t != t
  }

  lemma {:induction false} RestKeepsPc(r: seq<Lock>, es: seq<Event>, a: nat, b: nat, t: Tid)
    requires RunBy(r, es) && Rests(es, a, b, t) && t < |r[a].threads|
    ensures |r[b].threads| == |r[a].threads| && r[b].threads[t].pc == r[a].threads[t].pc
    decreases b - a
  {
    if a < b {
      assert StepAt(r, es, a);
      OthersKeepPc(r[a], es[a].t, es[a].op);
      RestKeepsPc(r, es, a + 1, b, t);
    }
  }

  /** A thread that begins a trylock has returned after its next step, with the lock exactly when it was free at that
      step, and never waits. */
  lemma TryLockReturns(r: seq<Lock>, es: seq<Event>, a: nat, b: nat, t: Tid)
    requires RunBy(r, es) && a < b < |es| && es[a] == Event(t, BeginTry)
    requires Rests(es, a + 1, b, t) && es[b].t == t
    ensures t < |r[b + 1].threads|
    ensures r[b + 1].threads[t].pc == if r[b].tail == None then Holding else Idle
  {
    assert StepAt(r, es, a) && StepAt(r, es, b);
    RestKeepsPc(r, es, a + 1, b, t);
  }

  // Inside lock, before it returns.
  predicate Locking(pc: Pc) { pc == Exchange || Waiting(pc) }

  /** lock begins outside and returns only with the lock held, unlock begins with it and returns only without it; and
      on the way every step of the thread moves it on. */
  lemma CallsMoveOn(s: Lock, t: Tid, op: Op)
    requires Can(s, t, op) && !op.Scribble?
    ensures var pc, pc' := s.threads[t].pc, Do(s, t, op).threads[t].pc;
      && (op == BeginLock ==> pc == Idle && pc' == Exchange)
      && (Locking(pc) ==> pc' == Holding || (Locking(pc') && Stage(pc) < Stage(pc')))
      && (Owns(pc) ==> pc' == Idle || (Owns(pc') && Stage(pc) < Stage(pc')))
      && (op == LoadNext ==> (pc' == Signal <==> s.threads[t].next.Some?))
  {}

  function Stage(pc: Pc): nat {
    match pc
    case Idle => 0
    case Exchange => 1
    case TryExchange => 1
    case SetBlocked => 2
    case Link => 3
    case Spin => 4
    case Holding => 5
    case CasTail => 6
    case AwaitLink => 7
    case Signal => 8
  }

  /** A thread has a step to take exactly when it does not spin on its blocked
      flag or on a missing link. */
  lemma HeldUpIff(s: Lock, t: Tid)
    requires Inv(s) && t < |s.threads|
    ensures (exists op :: Can(s, t, op)) <==>
      !(s.threads[t].pc == Spin && s.threads[t].blocked) && !(s.threads[t].pc == AwaitLink && s.threads[t].next.None?)
  {
    if Queued(s.threads[t].pc) { var i := IndexOf(s, t); }
    var op := match s.threads[t].pc
      case Idle => BeginLock
      case Exchange => DoExchange
      case TryExchange => DoTry
      case SetBlocked => DoSetBlocked
      case Link => DoLink
      case Spin => LeaveSpin
      case Holding => LoadNext
      case CasTail => DoCas
      case AwaitLink => SeeLink
      case Signal => DoSignal;
    assert Can(s, t, op) || (s.threads[t].pc == Spin && s.threads[t].blocked)
           || (s.threads[t].pc == AwaitLink && s.threads[t].next.None?);
  }

  // The bound is eight steps for each thread up to its place.
  lemma {:induction false} RankAtMost(s: Lock, i: nat)
    requires Members(s) && i < |s.queue|
    ensures Rank(s, i) <= 8 * (i + 1)
  {
    if i > 0 { RankAtMost(s, i - 1); }
  }
}
