/** thread/sync.c: binary semaphores whose waiters re-check, and recursive locks; and the wait slots of
    device/ioqueue.c, in which a thread sleeps while it holds the queue's lock.

    Any number of threads run these functions statement by statement.  Each program point below is
    a place where a thread can be interrupted; sema_down and sema_up disable interrupts and are one
    step each, split only where sema_down blocks.  Semaphore number l belongs to lock number l; the
    semaphores above the locks are used on their own, as a disk channel uses its disk_done.  Wait slots
    2*l and 2*l+1 are the producer and the consumer of the queue that lock l guards. */
module Sync {
  import opened Outcomes
  import opened Scheduler

  datatype Sema = Sema(value: nat, waiters: seq<Tid>)

  datatype Lock = Lock(holder: Option<Tid>, repeat: nat)

  /** Where a thread is: the statement it executes next. */
  datatype Pc =
    | Outside
    | AcqTest(l: nat)      // line 83: holder != running_thread()
    | AcqInc(l: nat)       // line 93: holder_repeat_nr++
    | DownEntry(q: nat)    // line 29, first test of the value
    | DownRecheck(q: nat)  // line 29, back from (or inside) thread_block
    | AcqHolder(l: nat)    // line 86: holder = running_thread()
    | AcqRepeat(l: nat)    // lines 88-89: the assertion, then holder_repeat_nr = 1
    | RelTest(l: nat)      // lines 102-103
    | RelDec(l: nat)       // line 105
    | RelClear(l: nat)     // lines 110-112
    | RelZero(l: nat)      // line 113
    | RelUp(l: nat)        // line 114
    | SlotWait(k: nat)     // ioqueue.c, line 44: back from (or inside) thread_block

  /** `held` and `owner` are history: the locks a thread has acquired and not yet released, counted
      with their nesting, and the thread that is past sema_down and not yet past sema_up. */
  datatype Sys = Sys(
    sched: State,
    semas: seq<Sema>,
    locks: seq<Lock>,
    pc: map<Tid, Pc>,
    held: map<Tid, multiset<nat>>,
    owner: seq<Option<Tid>>,
    slots: seq<Option<Tid>>)
  {
    predicate Shaped() {
      && sched.Closed()
      && |owner| == |locks| <= |semas| && |slots| <= 2 * |locks|
      && pc.Keys == held.Keys == sched.threads.Keys
      && (forall t :: t in pc ==> InRange(pc[t]))
      && (forall q :: 0 <= q < |semas| ==> forall t :: t in semas[q].waiters ==> t in pc)
    }

    predicate InRange(p: Pc) {
      match p
      case Outside => true
      case DownEntry(q) => q < |semas|
      case DownRecheck(q) => q < |semas|
      case SlotWait(k) => k < |slots|
      case _ => p.l < |locks|
    }

    function Goto(p: Pc): Sys
    {
      this.(pc := pc[sched.cur := p])
    }

    function SetLock(l: nat, k: Lock): Sys
      requires l < |locks|
    {
      this.(locks := locks[l := k])
    }

    function SetSema(q: nat, m: Sema): Sys
      requires q < |semas|
    {
      this.(semas := semas[q := m])
    }
  }

  // ---------------------------------------------------------------- the statements

  /** One pass of the loop in sema_down: block, or take the semaphore. */
  function SemaDown(s: Sys, q: nat): Outcome<Sys>
    requires s.Shaped() && q < |s.semas|
  {
    var m := s.semas[q];
    var c := s.sched.cur;
    if m.value == 0 then
      if c in m.waiters then Halted
      else
        var k :- Block(s.sched);
        Next(s.SetSema(q, Sema(0, m.waiters + [c])).Goto(DownRecheck(q)).(sched := k))
    else if m.value - 1 != 0 then Halted
    else
      var s1 := s.SetSema(q, Sema(0, m.waiters));
      if q < |s.locks| then Next(s1.Goto(AcqHolder(q)).(owner := s.owner[q := Some(c)]))
      else Next(s1.Goto(Outside))
  }

  function SemaUp(s: Sys, q: nat): Outcome<Sys>
    requires s.Shaped() && q < |s.semas|
  {
    var m := s.semas[q];
    if m.value != 0 then Halted
    else if m.waiters == [] then Next(s.SetSema(q, Sema(1, [])))
    else
      var k :- Unblock(s.sched, m.waiters[0]);
      Next(s.SetSema(q, Sema(1, m.waiters[1..])).(sched := k))
  }

  /** ioq_wait: the slot is asserted to be free. */
  function SlotSleep(s: Sys, k: nat): Outcome<Sys>
    requires s.Shaped() && k < |s.slots|
  {
    if s.slots[k] != None then Halted
    else
      var m :- Block(s.sched);
      Next(s.Goto(SlotWait(k)).(slots := s.slots[k := Some(s.sched.cur)], sched := m))
  }

  /** wakeup of whoever is in the slot. */
  function SlotWake(s: Sys, k: nat): Outcome<Sys>
    requires s.Shaped() && k < |s.slots|
  {
    if s.slots[k] == None || s.slots[k].value !in s.pc then Halted
    else
      var m :- Unblock(s.sched, s.slots[k].value);
      Next(s.(slots := s.slots[k := None], sched := m))
  }

  /** The running thread executes the statement it is at. */
  function Statement(s: Sys): Outcome<Sys>
    requires s.Shaped()
  {
    var c := s.sched.cur;
    match s.pc[c]
    case Outside => Next(s)
    case AcqTest(l) =>
      Next(s.Goto(if s.locks[l].holder != Some(c) then DownEntry(l) else AcqInc(l)))
    case AcqInc(l) =>
      Next(s.SetLock(l, s.locks[l].(repeat := s.locks[l].repeat + 1)).Goto(Outside)
            .(held := s.held[c := s.held[c] + multiset{l}]))
    case DownEntry(q) => SemaDown(s, q)
    case DownRecheck(q) => SemaDown(s, q)
    case SlotWait(_) => Next(s.Goto(Outside))
    case AcqHolder(l) =>
      Next(s.SetLock(l, s.locks[l].(holder := Some(c))).Goto(AcqRepeat(l)))
    case AcqRepeat(l) =>
      if s.locks[l].repeat != 0 then Halted
      else Next(s.SetLock(l, s.locks[l].(repeat := 1)).Goto(Outside)
                 .(held := s.held[c := s.held[c] + multiset{l}]))
    case RelTest(l) =>
      if s.locks[l].holder != Some(c) then Halted
      else Next(s.Goto(if s.locks[l].repeat > 1 then RelDec(l) else RelClear(l)))
    case RelDec(l) =>
      if s.locks[l].repeat == 0 then Halted
      else Next(s.SetLock(l, s.locks[l].(repeat := s.locks[l].repeat - 1)).Goto(Outside)
                 .(held := s.held[c := s.held[c] - multiset{l}]))
    case RelClear(l) =>
      if s.locks[l].repeat != 1 then Halted
      else Next(s.SetLock(l, s.locks[l].(holder := None)).Goto(RelZero(l)))
    case RelZero(l) =>
      Next(s.SetLock(l, s.locks[l].(repeat := 0)).Goto(RelUp(l)))
    case RelUp(l) =>
      var s1 :- SemaUp(s, l);
      Next(s1.Goto(Outside).(held := s.held[c := s.held[c] - multiset{l}], owner := s.owner[l := None]))
  }

  datatype Action =
    | Tick
    | YieldCpu
    | IdleBlocks
    | Execute
    | CallAcquire(l: nat)
    | CallRelease(l: nat)
    | CallDown(q: nat)
    | InterruptUp(q: nat)
    | SleepInSlot(k: nat)
    | WakeSlot(k: nat)
    | StartThread(t: Tid, priority: nat)

  /** The obligations of clients: a thread releases only what it holds, a free-standing semaphore is
      raised only from 0, a thread sleeps in a slot only while it holds the slot's lock, and idle does nothing but block. */
  predicate Allowed(s: Sys, a: Action)
    requires s.Shaped()
  {
    var c := s.sched.cur;
    match a
    case Tick => true
    case YieldCpu => s.pc[c] == Outside
    case IdleBlocks => c == s.sched.idle
    case Execute => s.pc[c] != Outside
    case CallAcquire(l) => l < |s.locks| && s.pc[c] == Outside && c != s.sched.idle
    case CallRelease(l) => l < |s.locks| && s.pc[c] == Outside && s.held[c][l] > 0
    case CallDown(q) => |s.locks| <= q < |s.semas| && s.pc[c] == Outside && c != s.sched.idle
    case InterruptUp(q) => |s.locks| <= q < |s.semas| && s.semas[q].value == 0
    case SleepInSlot(k) => k < |s.slots| && s.pc[c] == Outside && s.held[c][k / 2] > 0
    case WakeSlot(k) => k < |s.slots| && s.slots[k] != None
    case StartThread(t, p) => t !in s.sched.threads && p <= 255
  }

  function Act(s: Sys, a: Action): Outcome<Sys>
    requires s.Shaped() && Allowed(s, a)
  {
    match a
    case Tick =>
      var k :- TimerTick(s.sched);
      Next(s.(sched := k))
    case YieldCpu =>
      var k :- Yield(s.sched);
      Next(s.(sched := k))
    case IdleBlocks =>
      var k :- Block(s.sched);
      Next(s.(sched := k))
    case Execute => Statement(s)
    case CallAcquire(l) => Next(s.Goto(AcqTest(l)))
    case CallRelease(l) => Next(s.Goto(RelTest(l)))
    case CallDown(q) => Next(s.Goto(DownEntry(q)))
    case InterruptUp(q) => SemaUp(s, q)
    case SleepInSlot(k) => SlotSleep(s, k)
    case WakeSlot(k) => SlotWake(s, k)
    case StartThread(t, p) =>
      var k :- Start(s.sched, t, p);
      Next(s.(sched := k, pc := s.pc[t := Outside], held := s.held[t := multiset{}]))
  }

  // ---------------------------------------------------------------- the invariant

  /** How a program point matters to the owner fields of lock l. */
  datatype Phase = Neutral | Setting | Counting | Decreasing | Clearing | Zeroing | Raising

  function PhaseOf(p: Pc, l: nat): Phase {
    match p
    case AcqHolder(x) => if x == l then Setting else Neutral
    case AcqRepeat(x) => if x == l then Counting else Neutral
    case RelDec(x) => if x == l then Decreasing else Neutral
    case RelClear(x) => if x == l then Clearing else Neutral
    case RelZero(x) => if x == l then Zeroing else Neutral
    case RelUp(x) => if x == l then Raising else Neutral
    case _ => Neutral
  }

  /** Past sema_down of lock l and not yet past its sema_up. */
  ghost predicate Critical(s: Sys, t: Tid, l: nat)
    requires t in s.pc && t in s.held
  {
    s.held[t][l] > 0 || PhaseOf(s.pc[t], l) == Setting || PhaseOf(s.pc[t], l) == Counting
  }

  /** The owner fields equal the owner and its nesting depth. */
  ghost predicate FullyHeld(s: Sys, t: Tid, l: nat)
    requires l < |s.locks| && t in s.held
  {
    s.locks[l] == Lock(Some(t), s.held[t][l]) && s.held[t][l] > 0
  }

  ghost predicate OwnerFields(s: Sys, t: Tid, l: nat)
    requires l < |s.locks| && t in s.held && t in s.pc
  {
    match PhaseOf(s.pc[t], l)
    case Neutral => FullyHeld(s, t, l)
    case Setting => s.locks[l] == Lock(None, 0)
    case Counting => s.locks[l] == Lock(Some(t), 0)
    case Decreasing => FullyHeld(s, t, l) && s.locks[l].repeat > 1
    case Clearing => FullyHeld(s, t, l) && s.locks[l].repeat == 1
    case Zeroing => s.locks[l] == Lock(None, 1) && s.held[t][l] == 1
    case Raising => s.locks[l] == Lock(None, 0) && s.held[t][l] == 1
  }

  ghost predicate LockOk(s: Sys, l: nat)
    requires s.Shaped() && l < |s.locks|
  {
    && (forall t :: t in s.pc ==> (Critical(s, t, l) <==> s.owner[l] == Some(t)))
    && match s.owner[l]
       case None => s.semas[l].value == 1 && s.locks[l] == Lock(None, 0)
       case Some(t) => t in s.pc && s.semas[l].value == 0 && OwnerFields(s, t, l)
  }

  ghost predicate WaitersOk(s: Sys, q: nat)
    requires s.Shaped() && q < |s.semas|
  {
    && NoDup(s.semas[q].waiters)
    && (forall t :: t in s.pc ==>
          (t in s.semas[q].waiters <==> s.sched.Status(t) == Blocked && s.pc[t] == DownRecheck(q)))
  }

  /** A thread that was popped from the wait list and is about to look at the value again. */
  ghost predicate Rechecking(s: Sys, t: Tid, q: nat)
    requires s.Shaped()
  {
    t in s.pc && s.pc[t] == DownRecheck(q) && s.sched.Status(t) != Blocked
  }

  ghost predicate NoLostWakeup(s: Sys, q: nat)
    requires s.Shaped() && q < |s.semas|
  {
    s.semas[q].value == 1 && s.semas[q].waiters != [] ==> exists t :: Rechecking(s, t, q)
  }

  ghost predicate SemaOk(s: Sys, q: nat)
    requires s.Shaped() && q < |s.semas|
  {
    s.semas[q].value <= 1 && WaitersOk(s, q) && NoLostWakeup(s, q)
  }

  /** The nesting depth each program point inside lock_acquire or lock_release implies; idle stays
      outside and holds nothing, and any other blocked thread is waiting on a semaphore or in a slot. */
  ghost predicate ThreadOk(s: Sys, t: Tid)
    requires s.Shaped() && t in s.pc
  {
    && (forall l :: l in s.held[t] ==> l < |s.locks|)
    && (t == s.sched.idle ==> s.pc[t] == Outside && s.held[t] == multiset{})
    && (s.sched.Status(t) == Blocked && t != s.sched.idle ==> s.pc[t].DownRecheck? || s.pc[t].SlotWait?)
    && match s.pc[t]
       case Outside => true
       case AcqTest(l) => true
       case AcqHolder(l) => s.held[t][l] == 0
       case AcqRepeat(l) => s.held[t][l] == 0
       case DownEntry(q) => s.held[t][q] == 0
       case DownRecheck(q) => s.held[t][q] == 0
       case SlotWait(k) => s.held[t][k / 2] > 0 && (s.sched.Status(t) == Blocked ==> s.slots[k] == Some(t))
       case _ => s.held[t][s.pc[t].l] > 0
  }

  /** Whoever is in a slot is blocked there. */
  ghost predicate SlotOk(s: Sys, k: nat)
    requires s.Shaped() && k < |s.slots|
  {
    match s.slots[k]
    case None => true
    case Some(t) => t in s.pc && s.pc[t] == SlotWait(k) && s.sched.Status(t) == Blocked
  }

  ghost predicate SysInv(s: Sys) {
    && s.Shaped()
    && Inv(s.sched)
    && (forall q {:trigger SemaOk(s, q)} :: 0 <= q < |s.semas| ==> SemaOk(s, q))
    && (forall l {:trigger LockOk(s, l)} :: 0 <= l < |s.locks| ==> LockOk(s, l))
    && (forall t {:trigger ThreadOk(s, t)} :: t in s.pc ==> ThreadOk(s, t))
    && (forall k {:trigger SlotOk(s, k)} :: 0 <= k < |s.slots| ==> SlotOk(s, k))
  }

  /** A step that does not stop the machine and keeps the invariant. */
  ghost predicate Safe(o: Outcome<Sys>) {
    match o
    case Halted => false
    case Next(r) => SysInv(r)
  }

  // ---------------------------------------------------------------- frames

  /** From s to r only the thread that was running changes its program point and its locks. */
  ghost predicate OneMoves(s: Sys, r: Sys)
    requires s.Shaped()
  {
    && r.Shaped()
    && r.pc.Keys == s.pc.Keys && r.sched.idle == s.sched.idle
    && |r.semas| == |s.semas| && |r.locks| == |s.locks| && |r.slots| == |s.slots|
    && (forall t :: t in s.pc && t != s.sched.cur ==> r.pc[t] == s.pc[t] && r.held[t] == s.held[t])
  }

  lemma LockFrame(s: Sys, r: Sys, l: nat)
    requires s.Shaped() && OneMoves(s, r) && l < |s.locks| && LockOk(s, l)
    requires r.locks[l] == s.locks[l] && r.owner[l] == s.owner[l] && r.semas[l].value == s.semas[l].value
    requires PhaseOf(r.pc[s.sched.cur], l) == PhaseOf(s.pc[s.sched.cur], l)
    requires r.held[s.sched.cur][l] == s.held[s.sched.cur][l]
    ensures LockOk(r, l)
  {
    assert forall t :: t in s.pc ==> Critical(r, t, l) == Critical(s, t, l);
  }

  /** Lock l after the thread that was running, its owner before or after, has changed it. */
  lemma LockChange(s: Sys, r: Sys, l: nat)
    requires s.Shaped() && OneMoves(s, r) && l < |s.locks| && LockOk(s, l)
    requires s.owner[l] == None || s.owner[l] == Some(s.sched.cur)
    requires r.owner[l] == None || r.owner[l] == Some(s.sched.cur)
    requires Critical(r, s.sched.cur, l) <==> r.owner[l] == Some(s.sched.cur)
    requires r.owner[l] == None ==> r.semas[l].value == 1 && r.locks[l] == Lock(None, 0)
    requires r.owner[l] != None ==> r.semas[l].value == 0 && OwnerFields(r, s.sched.cur, l)
    ensures LockOk(r, l)
  {
    assert forall t :: t in s.pc && t != s.sched.cur ==> Critical(r, t, l) == Critical(s, t, l);
  }

  lemma SemaFrame(s: Sys, r: Sys, q: nat)
    requires s.Shaped() && OneMoves(s, r) && q < |s.semas| && SemaOk(s, q)
    requires r.semas[q] == s.semas[q]
    requires forall t :: t in s.pc && s.pc[t] == DownRecheck(q) ==>
               (r.sched.Status(t) == Blocked <==> s.sched.Status(t) == Blocked)
    requires r.pc[s.sched.cur] == s.pc[s.sched.cur]
             || (r.pc[s.sched.cur] != DownRecheck(q) && s.pc[s.sched.cur] != DownRecheck(q))
    ensures SemaOk(r, q)
  {
    if s.semas[q].value == 1 && s.semas[q].waiters != [] {
      var t :| Rechecking(s, t, q);
      assert Rechecking(r, t, q);
    }
  }

  /** Whoever is no longer in a slot is not blocked. */
  ghost predicate SlotsFreed(s: Sys, r: Sys)
    requires s.Shaped() && r.Shaped() && |r.slots| == |s.slots|
  {
    forall k, t :: 0 <= k < |s.slots| && s.slots[k] == Some(t) && r.slots[k] != Some(t) ==>
      t in r.pc && r.sched.Status(t) != Blocked
  }

  lemma ThreadFrame(s: Sys, r: Sys)
    requires SysInv(s) && OneMoves(s, r)
    requires SlotsFreed(s, r)
    requires forall t :: t in s.pc && t != s.sched.cur && t != s.sched.idle ==>
               (r.sched.Status(t) == Blocked ==> s.sched.Status(t) == Blocked)
    requires ThreadOk(r, s.sched.cur)
    ensures forall t :: t in r.pc ==> ThreadOk(r, t)
  {
    forall t | t in r.pc ensures ThreadOk(r, t) {
      assert ThreadOk(s, t);
    }
  }

  lemma SlotFrame(s: Sys, r: Sys, k: nat)
    requires s.Shaped() && Inv(s.sched) && OneMoves(s, r) && k < |s.slots| && SlotOk(s, k) && ThreadOk(s, s.sched.idle)
    requires r.slots[k] == s.slots[k]
    requires forall t :: t in s.pc && s.pc[t] == SlotWait(k) && t != s.sched.cur && s.sched.Status(t) == Blocked ==>
               r.sched.Status(t) == Blocked
    ensures SlotOk(r, k)
  {
  }

  /** A step of the scheduler that blocks and unblocks nobody, except perhaps idle. */
  ghost predicate SameBlocked(k: State, m: State) {
    && Inv(k) && Inv(m)
    && m.threads.Keys == k.threads.Keys && m.idle == k.idle
    && (forall t :: t in k.threads && t != k.idle ==> (m.Status(t) == Blocked <==> k.Status(t) == Blocked))
  }

  lemma SchedulingSema(s: Sys, k: State, q: nat)
    requires s.Shaped() && SameBlocked(s.sched, k) && q < |s.semas| && SemaOk(s, q)
    requires ThreadOk(s, s.sched.idle)
    ensures s.(sched := k).Shaped() && SemaOk(s.(sched := k), q)
  {
    SemaFrame(s, s.(sched := k), q);
  }

  lemma SchedulingLock(s: Sys, k: State, l: nat)
    requires s.Shaped() && SameBlocked(s.sched, k) && l < |s.locks| && LockOk(s, l)
    ensures s.(sched := k).Shaped() && LockOk(s.(sched := k), l)
  {
    LockFrame(s, s.(sched := k), l);
  }

  lemma SchedulingThread(s: Sys, k: State, t: Tid)
    requires s.Shaped() && SameBlocked(s.sched, k) && t in s.pc && ThreadOk(s, t)
    ensures s.(sched := k).Shaped() && ThreadOk(s.(sched := k), t)
  {
  }

  lemma SchedulingShaped(s: Sys, k: State)
    requires s.Shaped() && SameBlocked(s.sched, k)
    ensures s.(sched := k).Shaped()
  {
  }

  lemma SchedulingKeeps(s: Sys, k: State)
    requires SysInv(s) && SameBlocked(s.sched, k)
    ensures SysInv(s.(sched := k))
  {
    var r := s.(sched := k);
    assert ThreadOk(s, s.sched.idle);
    assert Inv(k) && r.Shaped() by {
      SchedulingShaped(s, k);
    }
    hide SameBlocked, SemaOk, LockOk, ThreadOk, SlotOk, Sys.Shaped, Inv;
    forall q | 0 <= q < |s.semas| ensures SemaOk(r, q) {
      SchedulingSema(s, k, q);
    }
    forall l | 0 <= l < |s.locks| ensures LockOk(r, l) {
      SchedulingLock(s, k, l);
    }
    forall t | t in r.pc ensures ThreadOk(r, t) {
      SchedulingThread(s, k, t);
    }
    forall i | 0 <= i < |r.slots| ensures SlotOk(r, i) {
      SlotFrame(s, r, i);
    }
  }

  /** The semaphores and locks other than number q, and where the running thread stands with them, are
      the same. */
  ghost predicate OthersSame(s: Sys, r: Sys, q: nat)
    requires s.Shaped() && OneMoves(s, r)
  {
    var c := s.sched.cur;
    && (forall i :: 0 <= i < |s.semas| && i != q ==>
          && r.semas[i] == s.semas[i]
          && (r.pc[c] == s.pc[c] || (r.pc[c] != DownRecheck(i) && s.pc[c] != DownRecheck(i))))
    && (forall i :: 0 <= i < |s.locks| && i != q ==>
          && r.locks[i] == s.locks[i] && r.owner[i] == s.owner[i]
          && PhaseOf(r.pc[c], i) == PhaseOf(s.pc[c], i)
          && r.held[c][i] == s.held[c][i])
  }

  /** Of the other threads, only waiters of q can have been unblocked. */
  ghost predicate StatusKept(s: Sys, k: State, q: nat)
    requires s.Shaped() && k.threads.Keys == s.sched.threads.Keys
  {
    && (forall t :: t in s.pc && t != s.sched.cur && t != s.sched.idle && s.pc[t] != DownRecheck(q) ==>
          (k.Status(t) == Blocked <==> s.sched.Status(t) == Blocked))
    && (forall t :: t in s.pc && t != s.sched.cur && t != s.sched.idle && k.Status(t) == Blocked ==>
          s.sched.Status(t) == Blocked)
  }

  /** From s to r nothing happens to the locks and semaphores other than number q. */
  ghost predicate Touches(s: Sys, r: Sys, q: nat)
    requires s.Shaped()
  {
    OneMoves(s, r) && OthersSame(s, r, q) && StatusKept(s, r.sched, q) && r.slots == s.slots
  }

  lemma StepSema(s: Sys, r: Sys, q: nat, i: nat)
    requires s.Shaped() && Touches(s, r, q) && Inv(s.sched) && Inv(r.sched)
    requires i < |s.semas| && i != q && SemaOk(s, i) && ThreadOk(s, s.sched.idle)
    requires r.pc[s.sched.cur] == DownRecheck(i) ==> r.sched.Status(s.sched.cur) != Blocked
    ensures SemaOk(r, i)
  {
    SemaFrame(s, r, i);
  }

  lemma StepSlots(s: Sys, r: Sys, q: nat)
    requires SysInv(s) && Touches(s, r, q)
    ensures forall k :: 0 <= k < |r.slots| ==> SlotOk(r, k)
  {
    assert ThreadOk(s, s.sched.idle);
    forall k | 0 <= k < |s.slots| ensures SlotOk(r, k) {
      assert SlotOk(s, k);
      SlotFrame(s, r, k);
    }
  }

  lemma StepKeeps(s: Sys, r: Sys, q: nat)
    requires SysInv(s) && Touches(s, r, q) && Inv(r.sched)
    requires q < |s.semas| ==> SemaOk(r, q)
    requires q < |s.locks| ==> LockOk(r, q)
    requires ThreadOk(r, s.sched.cur)
    requires !r.pc[s.sched.cur].DownRecheck? || r.pc[s.sched.cur] == DownRecheck(q) || r.sched.cur == s.sched.cur
    ensures SysInv(r)
  {
    assert ThreadOk(s, s.sched.idle);
    forall i | 0 <= i < |s.semas| ensures SemaOk(r, i) {
      if i != q {
        StepSema(s, r, q, i);
      }
    }
    forall i | 0 <= i < |s.locks| ensures LockOk(r, i) {
      if i != q {
        LockFrame(s, r, i);
      }
    }
    ThreadFrame(s, r);
    StepSlots(s, r, q);
  }

  // ---------------------------------------------------------------- sema_down

  function Taken(s: Sys, q: nat): Sys
    requires s.Shaped() && q < |s.semas|
  {
    var s1 := s.SetSema(q, Sema(0, s.semas[q].waiters));
    if q < |s.locks| then s1.Goto(AcqHolder(q)).(owner := s.owner[q := Some(s.sched.cur)])
    else s1.Goto(Outside)
  }

  lemma TakenShaped(s: Sys, q: nat)
    requires s.Shaped() && q < |s.semas|
    ensures Taken(s, q).Shaped()
  {
  }

  lemma TakenTouches(s: Sys, q: nat)
    requires s.Shaped() && q < |s.semas|
    requires s.pc[s.sched.cur] == DownEntry(q) || s.pc[s.sched.cur] == DownRecheck(q)
    ensures Touches(s, Taken(s, q), q)
  {
    TakenShaped(s, q);
  }

  lemma TakenSema(s: Sys, q: nat)
    requires s.Shaped() && q < |s.semas| && SemaOk(s, q)
    requires s.sched.Status(s.sched.cur) != Blocked
    ensures Taken(s, q).Shaped() && SemaOk(Taken(s, q), q)
  {
  }

  lemma TakenLock(s: Sys, q: nat)
    requires s.Shaped() && q < |s.locks| && LockOk(s, q) && s.semas[q].value != 0
    requires ThreadOk(s, s.sched.cur)
    requires s.pc[s.sched.cur] == DownEntry(q) || s.pc[s.sched.cur] == DownRecheck(q)
    ensures Taken(s, q).Shaped() && LockOk(Taken(s, q), q)
  {
    LockChange(s, Taken(s, q), q);
  }

  /** The value is 1: the thread takes the semaphore, whether it arrived first or was popped. */
  lemma DownTakes(s: Sys, q: nat)
    requires SysInv(s) && q < |s.semas| && s.semas[q].value != 0
    requires s.pc[s.sched.cur] == DownEntry(q) || s.pc[s.sched.cur] == DownRecheck(q)
    ensures SemaDown(s, q) == Next(Taken(s, q)) && SysInv(Taken(s, q))
  {
    assert SemaOk(s, q) && ThreadOk(s, s.sched.cur);
    TakenTouches(s, q);
    TakenSema(s, q);
    if q < |s.locks| {
      assert LockOk(s, q);
      TakenLock(s, q);
    }
    StepKeeps(s, Taken(s, q), q);
  }

  function Queued(s: Sys, q: nat, k: State): Sys
    requires s.Shaped() && q < |s.semas|
  {
    s.SetSema(q, Sema(0, s.semas[q].waiters + [s.sched.cur])).Goto(DownRecheck(q)).(sched := k)
  }

  /** The effect of thread_block that matters here. */
  ghost predicate BlockedInto(s: State, k: State) {
    && Inv(s) && Inv(k)
    && k.threads.Keys == s.threads.Keys && k.idle == s.idle && k.cur != s.cur
    && (forall t :: t in s.threads && t != k.cur ==>
          (k.Status(t) == Blocked <==> t == s.cur || s.Status(t) == Blocked))
    && (s.Status(k.cur) == Blocked ==> k.cur == s.idle)
  }

  lemma BlockSwitches(s: State)
    requires Inv(s) && s.cur != s.idle
    ensures Block(s).Next? && BlockedInto(s, Block(s).value)
  {
    BlockSafe(s);
    if s.ready != [] {
      assert s.ready[0] in s.ready;
    }
  }

  lemma QueuedMoves(s: Sys, q: nat, k: State)
    requires s.Shaped() && q < |s.semas| && BlockedInto(s.sched, k)
    ensures OneMoves(s, Queued(s, q, k))
  {
  }

  lemma QueuedTouches(s: Sys, q: nat, k: State)
    requires s.Shaped() && q < |s.semas| && BlockedInto(s.sched, k)
    requires s.pc[s.sched.cur] == DownEntry(q) || s.pc[s.sched.cur] == DownRecheck(q)
    ensures Touches(s, Queued(s, q, k), q)
  {
  }

  lemma QueuedSema(s: Sys, q: nat, k: State)
    requires s.Shaped() && q < |s.semas| && BlockedInto(s.sched, k) && SemaOk(s, q)
    requires ThreadOk(s, s.sched.idle)
    ensures Queued(s, q, k).Shaped() && SemaOk(Queued(s, q, k), q)
  {
    var w := s.semas[q].waiters;
    var r := Queued(s, q, k);
    assert s.sched.cur !in w && k.cur !in w;
    assert forall t :: t in r.semas[q].waiters <==> t in w || t == s.sched.cur;
  }

  lemma QueuedLock(s: Sys, q: nat, k: State)
    requires s.Shaped() && q < |s.locks| && BlockedInto(s.sched, k) && LockOk(s, q)
    requires s.semas[q].value == 0
    requires s.pc[s.sched.cur] == DownEntry(q) || s.pc[s.sched.cur] == DownRecheck(q)
    ensures Queued(s, q, k).Shaped() && LockOk(Queued(s, q, k), q)
  {
    QueuedMoves(s, q, k);
    hide OneMoves, BlockedInto, LockOk;
    LockFrame(s, Queued(s, q, k), q);
  }

  /** The value is 0: the thread queues itself, blocks, and some other thread runs. */
  lemma DownBlocks(s: Sys, q: nat)
    requires SysInv(s) && q < |s.semas| && s.semas[q].value == 0
    requires s.pc[s.sched.cur] == DownEntry(q) || s.pc[s.sched.cur] == DownRecheck(q)
    ensures SemaDown(s, q).Next? && SysInv(SemaDown(s, q).value)
  {
    assert SemaOk(s, q) && ThreadOk(s, s.sched.cur) && ThreadOk(s, s.sched.idle);
    BlockSwitches(s.sched);
    var k := Block(s.sched).value;
    assert SemaDown(s, q) == Next(Queued(s, q, k));
    QueuedTouches(s, q, k);
    QueuedSema(s, q, k);
    if q < |s.locks| {
      assert LockOk(s, q);
      QueuedLock(s, q, k);
    }
    StepKeeps(s, Queued(s, q, k), q);
  }

  // ---------------------------------------------------------------- sema_up

  /** The effect of thread_unblock that matters here. */
  ghost predicate UnblockedInto(s: State, t: Tid, k: State) {
    && Inv(s) && Inv(k) && t in s.threads
    && k.threads.Keys == s.threads.Keys && k.idle == s.idle && k.cur == s.cur
    && k.Status(t) == Ready
    && (forall u :: u in s.threads && u != t ==> k.threads[u] == s.threads[u])
  }

  /** Raising a semaphore pops and unblocks the first waiter, which is now re-checking. */
  lemma UpWakes(s: Sys, q: nat)
    requires s.Shaped() && Inv(s.sched) && q < |s.semas| && SemaOk(s, q) && s.semas[q].value == 0
    ensures var w := s.semas[q].waiters;
            && SemaUp(s, q).Next?
            && var r := SemaUp(s, q).value;
            && r.Shaped()
            && r == s.SetSema(q, Sema(1, if w == [] then [] else w[1..])).(sched := r.sched)
            && (if w == [] then r.sched == s.sched else UnblockedInto(s.sched, w[0], r.sched))
            && SemaOk(r, q)
  {
    if s.semas[q].waiters != [] {
      UpWakesFirst(s, q);
    }
  }

  lemma UpWakesFirst(s: Sys, q: nat)
    requires s.Shaped() && Inv(s.sched) && q < |s.semas| && SemaOk(s, q) && s.semas[q].value == 0
    requires s.semas[q].waiters != []
    ensures var w := s.semas[q].waiters;
            && SemaUp(s, q).Next?
            && var r := SemaUp(s, q).value;
            && r.Shaped()
            && r == s.SetSema(q, Sema(1, w[1..])).(sched := r.sched)
            && UnblockedInto(s.sched, w[0], r.sched)
            && SemaOk(r, q)
  {
    FirstUnblocked(s, q);
    var w := s.semas[q].waiters;
    var r := SemaUp(s, q).value;
    hide Inv;
    assert w[0] in w && w == [w[0]] + w[1..];
    assert forall t :: t in w <==> t == w[0] || t in w[1..];
    assert Rechecking(r, w[0], q);
  }

  lemma FirstUnblocked(s: Sys, q: nat)
    requires s.Shaped() && Inv(s.sched) && q < |s.semas| && SemaOk(s, q) && s.semas[q].value == 0
    requires s.semas[q].waiters != []
    ensures var w := s.semas[q].waiters;
            && SemaUp(s, q).Next?
            && var r := SemaUp(s, q).value;
            && r.Shaped() && r == s.SetSema(q, Sema(1, w[1..])).(sched := r.sched) && UnblockedInto(s.sched, w[0], r.sched)
  {
    var w := s.semas[q].waiters;
    assert w[0] in w;
    UnblockSafe(s.sched, w[0]);
  }

  lemma UpTouches(s: Sys, r: Sys, q: nat)
    requires s.Shaped() && q < |s.semas| && SemaOk(s, q) && r.Shaped()
    requires r == s.(sched := r.sched, semas := r.semas)
    requires |r.semas| == |s.semas| && (forall i :: 0 <= i < |s.semas| && i != q ==> r.semas[i] == s.semas[i])
    requires var w := s.semas[q].waiters;
             if w == [] then r.sched == s.sched else UnblockedInto(s.sched, w[0], r.sched)
    ensures Touches(s, r, q)
  {
    var w := s.semas[q].waiters;
    assert w != [] ==> w[0] in w;
  }

  lemma InterruptUpKeeps(s: Sys, q: nat)
    requires SysInv(s) && |s.locks| <= q < |s.semas| && s.semas[q].value == 0
    ensures SemaUp(s, q).Next? && SysInv(SemaUp(s, q).value)
  {
    assert SemaOk(s, q) && ThreadOk(s, s.sched.cur);
    UpWakes(s, q);
    var r := SemaUp(s, q).value;
    UpTouches(s, r, q);
    StepKeeps(s, r, q);
  }

  function Released(s: Sys, l: nat): Sys
    requires s.Shaped() && l < |s.locks|
  {
    var c := s.sched.cur;
    s.Goto(Outside).(held := s.held[c := s.held[c] - multiset{l}], owner := s.owner[l := None])
  }

  lemma ReleasedShaped(m: Sys, l: nat)
    requires m.Shaped() && l < |m.locks|
    ensures Released(m, l).Shaped()
  {
  }

  lemma ReleasedTouches(s: Sys, m: Sys, r: Sys, l: nat)
    requires s.Shaped() && r.Shaped() && l < |s.locks|
    requires s.pc[s.sched.cur] == RelUp(l)
    requires m == s.(sched := m.sched, semas := m.semas) && Touches(s, m, l)
    requires m.sched.cur == s.sched.cur && r == Released(m, l)
    ensures Touches(s, r, l)
  {
    var c := s.sched.cur;
    assert r.sched == m.sched && r.semas == m.semas && r.locks == s.locks;
    ReleasedOthers(s, m, r, l);
  }

  lemma ReleasedOthers(s: Sys, m: Sys, r: Sys, l: nat)
    requires s.Shaped() && OneMoves(s, m) && OneMoves(s, r) && l < |s.locks| && OthersSame(s, m, l)
    requires s.pc[s.sched.cur] == RelUp(l) && m.pc == s.pc && m.held == s.held
    requires r.semas == m.semas && r.locks == m.locks && r.owner == m.owner[l := None]
    requires r.pc == s.pc[s.sched.cur := Outside]
    requires r.held == s.held[s.sched.cur := s.held[s.sched.cur] - multiset{l}]
    ensures OthersSame(s, r, l)
  {
    var c := s.sched.cur;
    assert r.pc[c] == Outside && s.pc[c] == RelUp(l) && r.held[c] == s.held[c] - multiset{l};
    forall i | 0 <= i < |s.locks| && i != l
      ensures r.owner[i] == s.owner[i] && r.locks[i] == s.locks[i]
      ensures PhaseOf(r.pc[c], i) == PhaseOf(s.pc[c], i) && r.held[c][i] == s.held[c][i]
    {
      assert m.owner[i] == s.owner[i] && m.locks[i] == s.locks[i];
      assert PhaseOf(Outside, i) == PhaseOf(RelUp(l), i);
    }
  }

  lemma ReleasedLock(s: Sys, r: Sys, l: nat)
    requires s.Shaped() && OneMoves(s, r) && l < |s.locks| && LockOk(s, l)
    requires s.pc[s.sched.cur] == RelUp(l) && s.held[s.sched.cur][l] > 0
    requires r.pc[s.sched.cur] == Outside && r.held[s.sched.cur] == s.held[s.sched.cur] - multiset{l}
    requires r.owner[l] == None && r.semas[l].value == 1 && r.locks[l] == s.locks[l]
    ensures LockOk(r, l)
  {
    assert Critical(s, s.sched.cur, l);
    LockChange(s, r, l);
  }

  lemma ReleaseUpStep(s: Sys, l: nat) returns (m: Sys)
    requires s.Shaped() && Inv(s.sched) && s.pc[s.sched.cur] == RelUp(l)
    requires SemaOk(s, l) && s.semas[l].value == 0
    ensures m.Shaped() && m == s.(sched := m.sched, semas := m.semas) && Inv(m.sched)
    ensures m.sched.cur == s.sched.cur && Touches(s, m, l)
    ensures m.semas[l].value == 1 && SemaOk(m, l)
    ensures Statement(s) == Next(Released(m, l))
  {
    UpWakes(s, l);
    m := SemaUp(s, l).value;
    UpTouches(s, m, l);
  }

  lemma ReleasedThread(r: Sys, c: Tid)
    requires r.Shaped() && c in r.pc && r.pc[c] == Outside && c != r.sched.idle
    requires r.sched.Status(c) == Running
    requires forall i :: i in r.held[c] ==> i < |r.locks|
    ensures ThreadOk(r, c)
  {
  }

  lemma ReleaseUpFacts(s: Sys, l: nat)
    requires SysInv(s) && s.pc[s.sched.cur] == RelUp(l)
    ensures s.Shaped() && Inv(s.sched) && l < |s.locks| && LockOk(s, l) && SemaOk(s, l) && s.semas[l].value == 0
    ensures var c := s.sched.cur; s.held[c][l] > 0 && c != s.sched.idle && forall i :: i in s.held[c] ==> i < |s.locks|
  {
    var c := s.sched.cur;
    assert LockOk(s, l) && ThreadOk(s, c) && SemaOk(s, l);
    assert Critical(s, c, l);
  }

  /** What lock_release leaves when it has raised the semaphore. */
  lemma ReleasedKeeps(s: Sys, m: Sys, l: nat)
    requires SysInv(s) && s.pc[s.sched.cur] == RelUp(l) && l < |s.semas|
    requires m.Shaped() && m == s.(sched := m.sched, semas := m.semas) && Inv(m.sched)
    requires m.sched.cur == s.sched.cur && Touches(s, m, l) && m.semas[l].value == 1 && SemaOk(m, l)
    ensures SysInv(Released(m, l))
  {
    ReleaseUpFacts(s, l);
    ReleasedShaped(m, l);
    var r := Released(m, l);
    assert m.sched.Status(s.sched.cur) == Running;
    hide SysInv, Inv, LockOk, SemaOk, ThreadOk, OthersSame, StatusKept;
    ReleasedTouches(s, m, r, l);
    ReleasedLock(s, r, l);
    SemaFrame(m, r, l);
    ReleasedThread(r, s.sched.cur);
    StepKeeps(s, r, l);
  }

  /** The last statement of lock_release. */
  lemma ReleaseUpKeeps(s: Sys, l: nat)
    requires SysInv(s) && s.pc[s.sched.cur] == RelUp(l)
    ensures Safe(Statement(s))
  {
    hide SysInv, Inv, LockOk, SemaOk, Touches, Statement;
    ReleaseUpFacts(s, l);
    var m := ReleaseUpStep(s, l);
    ReleasedKeeps(s, m, l);
  }

  // ---------------------------------------------------------------- the other statements

  predicate AtField(p: Pc) {
    !p.Outside? && !p.DownEntry? && !p.DownRecheck? && !p.RelUp? && !p.SlotWait?
  }

  /** The statements of lock_acquire and lock_release between the semaphore operations: no
      assertion fails, in particular the owner fields are those of the caller. */
  lemma FieldStepRuns(s: Sys)
    requires s.Shaped() && AtField(s.pc[s.sched.cur])
    requires LockOk(s, s.pc[s.sched.cur].l) && ThreadOk(s, s.sched.cur)
    ensures Statement(s).Next?
  {
    var c := s.sched.cur;
    assert Critical(s, c, s.pc[c].l) <==> s.owner[s.pc[c].l] == Some(c);
  }

  /** What such a statement leaves behind: new fields of lock l, a new program point, a new depth. */
  function Field(s: Sys, l: nat, k: Lock, p: Pc, h: multiset<nat>): Sys
    requires s.Shaped() && l < |s.locks|
  {
    s.SetLock(l, k).Goto(p).(held := s.held[s.sched.cur := h])
  }

  predicate About(p: Pc, l: nat) {
    match p
    case Outside => true
    case DownEntry(q) => q == l
    case DownRecheck(q) => false
    case SlotWait(_) => false
    case _ => p.l == l
  }

  lemma FieldMoves(s: Sys, l: nat, k: Lock, p: Pc, h: multiset<nat>)
    requires s.Shaped() && l < |s.locks| && About(p, l)
    ensures OneMoves(s, Field(s, l, k, p, h))
  {
    FieldShaped(s, l, k, p, h);
    hide Sys.Shaped;
  }

  lemma FieldShaped(s: Sys, l: nat, k: Lock, p: Pc, h: multiset<nat>)
    requires s.Shaped() && l < |s.locks| && About(p, l)
    ensures Field(s, l, k, p, h).Shaped()
  {
    assert s.InRange(p);
  }

  lemma FieldOthers(s: Sys, l: nat, k: Lock, p: Pc, h: multiset<nat>)
    requires s.Shaped() && l < |s.locks| && OneMoves(s, Field(s, l, k, p, h))
    requires About(s.pc[s.sched.cur], l) && About(p, l)
    requires forall i :: i != l ==> h[i] == s.held[s.sched.cur][i]
    ensures OthersSame(s, Field(s, l, k, p, h), l)
  {
    var c := s.sched.cur;
    var r := Field(s, l, k, p, h);
    assert r.pc[c] == p && r.held[c] == h;
    assert forall i :: i != l ==> PhaseOf(p, i) == Neutral && PhaseOf(s.pc[c], i) == Neutral;
  }

  lemma FieldTouches(s: Sys, l: nat, k: Lock, p: Pc, h: multiset<nat>)
    requires s.Shaped() && l < |s.locks|
    requires About(s.pc[s.sched.cur], l) && About(p, l)
    requires forall i :: i != l ==> h[i] == s.held[s.sched.cur][i]
    ensures Touches(s, Field(s, l, k, p, h), l)
  {
    FieldMoves(s, l, k, p, h);
    FieldOthers(s, l, k, p, h);
    hide OneMoves, OthersSame, About;
  }

  predicate Acquiring(p: Pc) {
    p.AcqTest? || p.AcqInc? || p.AcqHolder? || p.AcqRepeat?
  }

  lemma FieldStepIs(s: Sys) returns (k: Lock, p: Pc, h: multiset<nat>)
    requires s.Shaped() && AtField(s.pc[s.sched.cur]) && Statement(s).Next?
    ensures var l := s.pc[s.sched.cur].l;
            && Statement(s).value == Field(s, l, k, p, h)
            && About(p, l) && (forall i :: i != l ==> h[i] == s.held[s.sched.cur][i])
  {
    if Acquiring(s.pc[s.sched.cur]) {
      k, p, h := AcquireStepIs(s);
    } else {
      k, p, h := ReleaseStepIs(s);
    }
  }

  lemma AcquireStepIs(s: Sys) returns (k: Lock, p: Pc, h: multiset<nat>)
    requires s.Shaped() && AtField(s.pc[s.sched.cur]) && Statement(s).Next?
    requires Acquiring(s.pc[s.sched.cur])
    ensures var l := s.pc[s.sched.cur].l;
            && Statement(s).value == Field(s, l, k, p, h)
            && About(p, l) && (forall i :: i != l ==> h[i] == s.held[s.sched.cur][i])
  {
    var c := s.sched.cur;
    var l := s.pc[c].l;
    var r := Statement(s).value;
    k, p, h := r.locks[l], r.pc[c], r.held[c];
    assert s.locks[l := s.locks[l]] == s.locks;
    assert s.held[c := s.held[c]] == s.held;
  }

  lemma ReleaseStepIs(s: Sys) returns (k: Lock, p: Pc, h: multiset<nat>)
    requires s.Shaped() && AtField(s.pc[s.sched.cur]) && Statement(s).Next?
    requires !Acquiring(s.pc[s.sched.cur])
    ensures var l := s.pc[s.sched.cur].l;
            && Statement(s).value == Field(s, l, k, p, h)
            && About(p, l) && (forall i :: i != l ==> h[i] == s.held[s.sched.cur][i])
  {
    var c := s.sched.cur;
    var l := s.pc[c].l;
    var r := Statement(s).value;
    k, p, h := r.locks[l], r.pc[c], r.held[c];
    assert s.locks[l := s.locks[l]] == s.locks;
    assert s.held[c := s.held[c]] == s.held;
  }

  lemma FieldLock(s: Sys, r: Sys, l: nat)
    requires s.Shaped() && OneMoves(s, r) && l < |s.locks| && LockOk(s, l)
    requires r.owner == s.owner && r.semas == s.semas
    requires Critical(r, s.sched.cur, l) <==> Critical(s, s.sched.cur, l)
    requires if s.owner[l] == Some(s.sched.cur) then OwnerFields(r, s.sched.cur, l)
             else r.locks[l] == s.locks[l]
    ensures LockOk(r, l)
  {
    forall t | t in s.pc ensures Critical(r, t, l) <==> r.owner[l] == Some(t) {
      if t != s.sched.cur {
        assert Critical(r, t, l) == Critical(s, t, l);
      }
    }
  }

  /** The owner fields after such a statement are again those of the owner. */
  lemma FieldStepOwner(s: Sys, r: Sys, c: Tid, l: nat)
    requires s.Shaped() && c == s.sched.cur && AtField(s.pc[c]) && s.pc[c].l == l
    requires Statement(s) == Next(r)
    requires Critical(s, c, l) <==> s.owner[l] == Some(c)
    requires s.owner[l] == Some(c) ==> OwnerFields(s, c, l)
    requires ThreadOk(s, c)
    requires c in r.pc && c in r.held && |r.locks| == |s.locks|
    ensures Critical(r, c, l) <==> Critical(s, c, l)
    ensures if s.owner[l] == Some(c) then OwnerFields(r, c, l) else r.locks[l] == s.locks[l]
  {
    if Acquiring(s.pc[c]) {
      FieldStepOwnerAcq(s, r, c, l);
    }
  }

  lemma FieldStepOwnerAcq(s: Sys, r: Sys, c: Tid, l: nat)
    requires s.Shaped() && c == s.sched.cur && AtField(s.pc[c]) && s.pc[c].l == l
    requires Acquiring(s.pc[c])
    requires Statement(s) == Next(r)
    requires Critical(s, c, l) <==> s.owner[l] == Some(c)
    requires s.owner[l] == Some(c) ==> OwnerFields(s, c, l)
    requires ThreadOk(s, c)
    requires c in r.pc && c in r.held && |r.locks| == |s.locks|
    ensures Critical(r, c, l) <==> Critical(s, c, l)
    ensures if s.owner[l] == Some(c) then OwnerFields(r, c, l) else r.locks[l] == s.locks[l]
  {
  }

  lemma FieldStepThread(s: Sys, r: Sys, c: Tid, l: nat)
    requires s.Shaped() && c == s.sched.cur && AtField(s.pc[c]) && s.pc[c].l == l
    requires Statement(s) == Next(r)
    requires Critical(s, c, l) <==> s.owner[l] == Some(c)
    requires s.owner[l] == Some(c) ==> OwnerFields(s, c, l)
    requires s.locks[l].holder == Some(c) ==> s.owner[l] == Some(c)
    requires ThreadOk(s, c) && s.sched.Status(c) == Running
    requires r.Shaped() && c in r.pc && r.sched == s.sched && |r.locks| == |s.locks|
    ensures ThreadOk(r, c)
  {
    var h := r.held[c];
    assert h == s.held[c] || h == s.held[c] + multiset{l} || h == s.held[c] - multiset{l};
  }

  lemma FieldStepOk(s: Sys, r: Sys, l: nat)
    requires s.Shaped() && Inv(s.sched) && AtField(s.pc[s.sched.cur]) && l == s.pc[s.sched.cur].l && Statement(s) == Next(r)
    requires LockOk(s, l) && ThreadOk(s, s.sched.cur) && SemaOk(s, l) && Touches(s, r, l)
    requires r.owner == s.owner && r.semas == s.semas && r.sched == s.sched && About(r.pc[s.sched.cur], l)
    ensures LockOk(r, l) && ThreadOk(r, s.sched.cur) && SemaOk(r, l)
  {
    FieldStepOwner(s, r, s.sched.cur, l);
    FieldLock(s, r, l);
    FieldStepThread(s, r, s.sched.cur, l);
    SemaFrame(s, r, l);
  }

  lemma FieldStepKeeps(s: Sys)
    requires SysInv(s) && AtField(s.pc[s.sched.cur])
    ensures Statement(s).Next? && SysInv(Statement(s).value)
  {
    var l := s.pc[s.sched.cur].l;
    assert LockOk(s, l) && ThreadOk(s, s.sched.cur) && SemaOk(s, l);
    FieldStepRuns(s);
    var k, p, h := FieldStepIs(s);
    var r := Field(s, l, k, p, h);
    FieldTouches(s, l, k, p, h);
    FieldStepOk(s, r, l);
    StepKeeps(s, r, l);
  }

  // ---------------------------------------------------------------- the wait slots

  /** A woken thread goes on from ioq_wait. */
  lemma SlotLeaves(s: Sys, k: nat)
    requires SysInv(s) && s.pc[s.sched.cur] == SlotWait(k)
    ensures SysInv(s.Goto(Outside))
  {
    LeavesTouches(s, k);
    hide Touches, SysInv, ThreadOk;
    StepKeeps(s, s.Goto(Outside), |s.semas|);
  }

  lemma LeavesTouches(s: Sys, k: nat)
    requires SysInv(s) && s.pc[s.sched.cur] == SlotWait(k)
    ensures var r := s.Goto(Outside); s.Shaped() && Touches(s, r, |s.semas|) && Inv(r.sched) && ThreadOk(r, s.sched.cur)
    ensures s.sched.cur in s.pc
  {
    assert ThreadOk(s, s.sched.cur);
  }

  function Asleep(s: Sys, k: nat, m: State): Sys
    requires s.Shaped() && k < |s.slots|
  {
    s.Goto(SlotWait(k)).(slots := s.slots[k := Some(s.sched.cur)], sched := m)
  }

  /** The slot is free, because its lock is held by the caller and by whoever is in it. */
  lemma SlotIsFree(s: Sys, k: nat)
    requires SysInv(s) && k < |s.slots| && s.pc[s.sched.cur] == Outside && s.held[s.sched.cur][k / 2] > 0
    ensures s.slots[k] == None
  {
    assert SlotOk(s, k);
    if s.slots[k] != None {
      var t := s.slots[k].value;
      assert ThreadOk(s, t);
      OneHolder(s, t, s.sched.cur, k / 2);
    }
  }

  lemma OneHolder(s: Sys, t: Tid, u: Tid, l: nat)
    requires SysInv(s) && l < |s.locks| && t in s.pc && u in s.pc && s.held[t][l] > 0 && s.held[u][l] > 0
    ensures t == u
  {
    assert LockOk(s, l);
    assert Critical(s, t, l) && Critical(s, u, l);
  }

  lemma SlotSleepKeeps(s: Sys, k: nat)
    requires SysInv(s) && k < |s.slots| && s.pc[s.sched.cur] == Outside && s.held[s.sched.cur][k / 2] > 0
    ensures Safe(SlotSleep(s, k))
  {
    assert ThreadOk(s, s.sched.cur) && ThreadOk(s, s.sched.idle);
    SlotIsFree(s, k);
    BlockSwitches(s.sched);
    var m := Block(s.sched).value;
    assert SlotSleep(s, k) == Next(Asleep(s, k, m));
    AsleepStep(s, k, m);
    SlotStepKeeps(s, Asleep(s, k, m), k);
  }

  lemma AsleepShaped(s: Sys, k: nat, m: State)
    requires s.Shaped() && k < |s.slots| && BlockedInto(s.sched, m)
    ensures Asleep(s, k, m).Shaped() && OneMoves(s, Asleep(s, k, m))
  {
  }

  lemma AsleepOks(s: Sys, k: nat, m: State)
    requires s.Shaped() && k < |s.slots| && BlockedInto(s.sched, m) && s.slots[k] == None && Asleep(s, k, m).Shaped()
    requires s.pc[s.sched.cur] == Outside && s.held[s.sched.cur][k / 2] > 0 && ThreadOk(s, s.sched.cur)
    ensures var r := Asleep(s, k, m); SlotOk(r, k) && ThreadOk(r, s.sched.cur) && SlotsFreed(s, r)
  {
  }

  lemma AsleepStep(s: Sys, k: nat, m: State)
    requires s.Shaped() && k < |s.slots| && BlockedInto(s.sched, m) && s.slots[k] == None
    requires s.pc[s.sched.cur] == Outside && s.held[s.sched.cur][k / 2] > 0 && ThreadOk(s, s.sched.cur)
    ensures var r := Asleep(s, k, m);
            SlotStep(s, r, k) && SlotOk(r, k) && ThreadOk(r, s.sched.cur) && SlotsFreed(s, r)
  {
    AsleepShaped(s, k, m);
    AsleepOks(s, k, m);
    hide SlotOk, ThreadOk, SlotsFreed, OneMoves;
  }

  /** The effect of either slot operation on everything else. */
  ghost predicate SlotStep(s: Sys, r: Sys, k: nat)
    requires s.Shaped() && k < |s.slots|
  {
    && OneMoves(s, r) && r.semas == s.semas && r.locks == s.locks && r.owner == s.owner && r.held == s.held
    && r.slots == s.slots[k := r.slots[k]]
    && Inv(r.sched) && (r.pc[s.sched.cur] == s.pc[s.sched.cur] || (s.pc[s.sched.cur] == Outside && r.pc[s.sched.cur] == SlotWait(k)))
    && (forall t :: t in s.pc && t != s.sched.cur && t != s.sched.idle && s.pc[t] != SlotWait(k) ==>
          (r.sched.Status(t) == Blocked <==> s.sched.Status(t) == Blocked))
    && (forall t :: t in s.pc && t != s.sched.cur && t != s.sched.idle && r.sched.Status(t) == Blocked ==>
          s.sched.Status(t) == Blocked)
    && (r.pc[s.sched.cur] == s.pc[s.sched.cur] ==> r.sched.cur == s.sched.cur)
  }

  lemma SlotStepKeeps(s: Sys, r: Sys, k: nat)
    requires SysInv(s) && k < |s.slots| && SlotStep(s, r, k) && SlotOk(r, k) && ThreadOk(r, s.sched.cur)
    requires SlotsFreed(s, r)
    ensures SysInv(r)
  {
    assert ThreadOk(s, s.sched.idle);
    forall q | 0 <= q < |s.semas| ensures SemaOk(r, q) {
      SemaFrame(s, r, q);
    }
    forall l | 0 <= l < |s.locks| ensures LockOk(r, l) {
      LockFrame(s, r, l);
    }
    forall i | 0 <= i < |s.slots| ensures SlotOk(r, i) {
      if i != k {
        SlotFrame(s, r, i);
      }
    }
    ThreadFrame(s, r);
  }

  lemma SlotWakeKeeps(s: Sys, k: nat)
    requires SysInv(s) && k < |s.slots| && s.slots[k] != None
    ensures Safe(SlotWake(s, k))
  {
    hide SysInv, SlotStep, SlotOk, ThreadOk, SlotsFreed;
    WakeStep(s, k);
    SlotStepKeeps(s, SlotWake(s, k).value, k);
  }

  lemma WakeStep(s: Sys, k: nat)
    requires SysInv(s) && k < |s.slots| && s.slots[k] != None
    ensures s.Shaped() && SlotWake(s, k).Next?
    ensures var r := SlotWake(s, k).value;
            SlotStep(s, r, k) && SlotOk(r, k) && s.sched.cur in r.pc && ThreadOk(r, s.sched.cur) && SlotsFreed(s, r)
  {
    assert SlotOk(s, k) && ThreadOk(s, s.sched.cur);
    UnblockSafe(s.sched, s.slots[k].value);
  }

  lemma StatementKeeps(s: Sys)
    requires SysInv(s)
    ensures Safe(Statement(s))
  {
    match s.pc[s.sched.cur] {
      case Outside =>
      case DownEntry(q) => if s.semas[q].value == 0 { DownBlocks(s, q); } else { DownTakes(s, q); }
      case DownRecheck(q) => if s.semas[q].value == 0 { DownBlocks(s, q); } else { DownTakes(s, q); }
      case RelUp(l) => ReleaseUpKeeps(s, l);
      case SlotWait(k) => SlotLeaves(s, k);
      case _ => FieldStepKeeps(s);
    }
  }

  // ---------------------------------------------------------------- every action keeps it

  lemma CallTouches(s: Sys, p: Pc, l: nat)
    requires s.Shaped() && s.pc[s.sched.cur] == Outside && s.InRange(p) && !p.DownRecheck?
    requires p.AcqTest? || p.RelTest? || p.DownEntry?
    ensures Touches(s, s.Goto(p), l) && s.Goto(p).pc[s.sched.cur] == p
  {
  }

  lemma CallKeeps(s: Sys, p: Pc, l: nat)
    requires SysInv(s) && s.pc[s.sched.cur] == Outside && s.sched.cur != s.sched.idle
    requires s.InRange(p) && l < |s.semas|
    requires p == AcqTest(l) || (p == RelTest(l) && s.held[s.sched.cur][l] > 0)
             || (p == DownEntry(l) && l >= |s.locks|)
    ensures SysInv(s.Goto(p))
  {
    assert ThreadOk(s, s.sched.cur) && SemaOk(s, l);
    var r := s.Goto(p);
    CallTouches(s, p, l);
    SemaFrame(s, r, l);
    if l < |s.locks| {
      LockFrame(s, r, l);
    }
    assert ThreadOk(r, s.sched.cur);
    StepKeeps(s, r, l);
  }

  ghost predicate Joined(s: Sys, r: Sys, t: Tid)
    requires s.Shaped() && r.Shaped()
  {
    && t !in s.pc && r.pc == s.pc[t := Outside] && r.held == s.held[t := multiset{}]
    && r.semas == s.semas && r.locks == s.locks && r.owner == s.owner && r.slots == s.slots
    && r.sched.cur == s.sched.cur && r.sched.idle == s.sched.idle && r.sched.Status(t) == Ready
    && (forall u :: u in s.pc ==> r.sched.threads[u] == s.sched.threads[u])
  }

  lemma JoinedSema(s: Sys, r: Sys, t: Tid, q: nat)
    requires s.Shaped() && r.Shaped() && Joined(s, r, t) && q < |s.semas| && SemaOk(s, q)
    ensures SemaOk(r, q)
  {
    if s.semas[q].value == 1 && s.semas[q].waiters != [] {
      var u :| Rechecking(s, u, q);
      assert Rechecking(r, u, q);
    }
  }

  lemma JoinedLock(s: Sys, r: Sys, t: Tid, l: nat)
    requires s.Shaped() && r.Shaped() && Joined(s, r, t) && l < |s.locks| && LockOk(s, l)
    ensures LockOk(r, l)
  {
    assert forall u :: u in s.pc ==> Critical(r, u, l) == Critical(s, u, l);
    assert !Critical(r, t, l);
  }

  lemma StartJoins(s: Sys, t: Tid, priority: nat)
    requires s.Shaped() && Inv(s.sched) && t !in s.sched.threads && priority <= 255
    ensures var o := Act(s, StartThread(t, priority));
            o.Next? && o.value.Shaped() && Joined(s, o.value, t) && Inv(o.value.sched)
  {
    StartSafe(s.sched, t, priority);
  }

  lemma StartKeeps(s: Sys, t: Tid, priority: nat)
    requires SysInv(s) && t !in s.sched.threads && priority <= 255
    ensures Safe(Act(s, StartThread(t, priority)))
  {
    StartJoins(s, t, priority);
    var r := Act(s, StartThread(t, priority)).value;
    JoinedKeeps(s, r, t);
  }

  lemma JoinedKeeps(s: Sys, r: Sys, t: Tid)
    requires SysInv(s) && r.Shaped() && Inv(r.sched) && Joined(s, r, t)
    ensures SysInv(r)
  {
    forall q | 0 <= q < |s.semas| ensures SemaOk(r, q) {
      JoinedSema(s, r, t, q);
    }
    forall l | 0 <= l < |s.locks| ensures LockOk(r, l) {
      JoinedLock(s, r, t, l);
    }
    forall u | u in r.pc ensures ThreadOk(r, u) {
      assert u != t ==> ThreadOk(s, u);
    }
    forall k | 0 <= k < |r.slots| ensures SlotOk(r, k) {
      assert SlotOk(s, k);
    }
  }

  /** No assertion of thread.c or sync.c fails, whatever thread runs next and wherever it is
      interrupted, as long as threads release only locks they hold. */
  lemma ActKeeps(s: Sys, a: Action)
    requires SysInv(s) && Allowed(s, a)
    ensures Safe(Act(s, a))
  {
    match a {
      case Tick => TickKeeps(s);
      case YieldCpu => YieldKeeps(s);
      case IdleBlocks => IdleKeeps(s);
      case StartThread(t, p) => StartKeeps(s, t, p);
      case _ => ThreadActionKeeps(s, a);
    }
  }

  lemma ThreadActionKeeps(s: Sys, a: Action)
    requires SysInv(s) && Allowed(s, a)
    requires !a.Tick? && !a.YieldCpu? && !a.IdleBlocks? && !a.StartThread?
    ensures Safe(Act(s, a))
  {
    match a {
      case Execute => StatementKeeps(s);
      case InterruptUp(q) => InterruptUpKeeps(s, q);
      case SleepInSlot(k) => SlotSleepKeeps(s, k);
      case WakeSlot(k) => SlotWakeKeeps(s, k);
      case _ => ClientCallKeeps(s, a);
    }
  }

  lemma ClientCallKeeps(s: Sys, a: Action)
    requires SysInv(s) && Allowed(s, a) && (a.CallAcquire? || a.CallRelease? || a.CallDown?)
    ensures Safe(Act(s, a))
  {
    match a {
      case CallAcquire(l) => CallKeeps(s, AcqTest(l), l);
      case CallRelease(l) => HoldersAreNotIdle(s); CallKeeps(s, RelTest(l), l);
      case CallDown(q) => CallKeeps(s, DownEntry(q), q);
    }
  }

  lemma HoldersAreNotIdle(s: Sys)
    requires SysInv(s) && s.held[s.sched.cur] != multiset{}
    ensures s.sched.cur != s.sched.idle
  {
    assert ThreadOk(s, s.sched.cur);
  }

  lemma TickKeeps(s: Sys)
    requires SysInv(s)
    ensures Safe(Act(s, Tick))
  {
    TimerTickSafe(s.sched);
    SchedulingKeeps(s, TimerTick(s.sched).value);
  }

  lemma YieldKeeps(s: Sys)
    requires SysInv(s) && s.pc[s.sched.cur] == Outside
    ensures Safe(Act(s, YieldCpu))
  {
    YieldSafe(s.sched);
    SchedulingKeeps(s, Yield(s.sched).value);
  }

  lemma IdleBlockSchedules(k: State)
    requires Inv(k) && k.cur == k.idle
    ensures Block(k).Next? && SameBlocked(k, Block(k).value)
  {
    BlockSafe(k);
    if k.ready != [] {
      assert k.ready[0] in k.ready;
    }
  }

  lemma IdleKeeps(s: Sys)
    requires SysInv(s) && s.sched.cur == s.sched.idle
    ensures Safe(Act(s, IdleBlocks))
  {
    IdleBlockSchedules(s.sched);
    SchedulingKeeps(s, Block(s.sched).value);
  }

  // ---------------------------------------------------------------- runs

  /** The kernel before any lock has been used: `main` runs, `idle` waits for the processor. */
  function Boot(main: Tid, idle: Tid, nlocks: nat, nsemas: nat, nslots: nat): Sys
    requires main != idle && nlocks <= nsemas && nslots <= 2 * nlocks
  {
    Sys(
      State(map[main := Thread(Running, 31, 31), idle := Thread(Ready, 10, 10)], [idle], main, idle),
      seq(nsemas, i => Sema(if i < nlocks then 1 else 0, [])),
      seq(nlocks, i => Lock(None, 0)),
      map[main := Outside, idle := Outside],
      map[main := multiset{}, idle := multiset{}],
      seq(nlocks, i => None),
      seq(nslots, i => None))
  }

  ghost predicate IsRun(trace: seq<Sys>, actions: seq<Action>) {
    && |trace| == |actions| + 1
    && (forall i :: 0 <= i < |actions| ==>
          && trace[i].Shaped()
          && Allowed(trace[i], actions[i])
          && Act(trace[i], actions[i]) == Next(trace[i + 1]))
  }

  lemma BootScheduler(main: Tid, idle: Tid)
    requires main != idle
    ensures Inv(State(map[main := Thread(Running, 31, 31), idle := Thread(Ready, 10, 10)], [idle], main, idle))
  {
  }

  /** No lock has been used and nobody waits. */
  ghost predicate Unused(s: Sys, nlocks: nat) {
    && s.Shaped() && |s.locks| == nlocks && s.sched.idle in s.pc
    && (forall q :: 0 <= q < |s.semas| ==> s.semas[q] == Sema(if q < nlocks then 1 else 0, []))
    && (forall l :: 0 <= l < nlocks ==> s.locks[l] == Lock(None, 0) && s.owner[l] == None)
    && (forall t :: t in s.pc ==> s.pc[t] == Outside && s.held[t] == multiset{})
    && (forall t :: t in s.pc ==> s.sched.Status(t) != Blocked)
    && (forall k :: 0 <= k < |s.slots| ==> s.slots[k] == None)
  }

  lemma UnusedOk(s: Sys, nlocks: nat)
    requires Unused(s, nlocks) && Inv(s.sched)
    ensures SysInv(s)
  {
  }

  lemma BootOk(main: Tid, idle: Tid, nlocks: nat, nsemas: nat, nslots: nat)
    requires main != idle && nlocks <= nsemas && nslots <= 2 * nlocks
    ensures SysInv(Boot(main, idle, nlocks, nsemas, nslots))
  {
    BootScheduler(main, idle);
    UnusedOk(Boot(main, idle, nlocks, nsemas, nslots), nlocks);
  }

  lemma {:induction false} RunKeeps(trace: seq<Sys>, actions: seq<Action>, n: nat,
                                    main: Tid, idle: Tid, nlocks: nat, nsemas: nat, nslots: nat)
    requires main != idle && nlocks <= nsemas && nslots <= 2 * nlocks
    requires IsRun(trace, actions) && trace[0] == Boot(main, idle, nlocks, nsemas, nslots) && n <= |actions|
    ensures SysInv(trace[n])
  {
    if n == 0 {
      BootOk(main, idle, nlocks, nsemas, nslots);
    } else {
      RunKeeps(trace, actions, n - 1, main, idle, nlocks, nsemas, nslots);
      ActKeeps(trace[n - 1], actions[n - 1]);
    }
  }

  // ---------------------------------------------------------------- what the invariant promises

  /** At most one thread is past sema_down and not yet past sema_up of a lock. */
  lemma MutualExclusion(s: Sys, t: Tid, u: Tid, l: nat)
    requires SysInv(s) && l < |s.locks| && t in s.pc && u in s.pc
    requires Critical(s, t, l) && Critical(s, u, l)
    ensures t == u
    ensures s.semas[l].value == 0
  {
    assert LockOk(s, l);
  }

  /** Between two calls of its own, a thread finds itself in the owner fields exactly when it holds
      the lock, with its nesting depth; so the test at line 83, made with interrupts on, is never
      wrong about the thread that makes it. */
  lemma UnguardedTestIsRight(s: Sys, t: Tid, l: nat)
    requires SysInv(s) && l < |s.locks| && t in s.pc
    requires s.pc[t] == Outside || s.pc[t].AcqTest? || s.pc[t].RelTest?
    ensures s.locks[l].holder == Some(t) <==> s.held[t][l] > 0
    ensures s.held[t][l] > 0 ==> s.locks[l].repeat == s.held[t][l]
  {
    assert LockOk(s, l) && ThreadOk(s, t);
    assert Critical(s, t, l) <==> s.owner[l] == Some(t);
  }

  /** A raised semaphore with waiters always has a popped, unblocked thread at its re-check, also
      after another thread has barged in. */
  lemma NoWakeupIsLost(s: Sys, q: nat) returns (t: Tid)
    requires SysInv(s) && q < |s.semas| && s.semas[q].value == 1 && s.semas[q].waiters != []
    ensures Rechecking(s, t, q) && t !in s.semas[q].waiters
    ensures t == s.sched.cur || t in s.sched.ready
  {
    assert SemaOk(s, q);
    t :| Rechecking(s, t, q);
  }

  ghost predicate OnWaitList(s: Sys, t: Tid, q: nat) {
    q < |s.semas| && t in s.semas[q].waiters && NoDup(s.semas[q].waiters)
  }

  ghost predicate InSlot(s: Sys, t: Tid, k: nat) {
    k < |s.slots| && s.slots[k] == Some(t)
  }

  /** A blocked thread is on one wait list, once, or in one wait slot, or is idle, and only one of the
      three; it is not in the ready list and does not run. */
  lemma BlockedInOnePlace(s: Sys, t: Tid)
    requires SysInv(s) && t in s.pc && s.sched.Status(t) == Blocked
    ensures t == s.sched.idle || (exists q :: OnWaitList(s, t, q)) || (exists k :: InSlot(s, t, k))
    ensures t == s.sched.idle ==> !(exists q :: OnWaitList(s, t, q)) && !(exists k :: InSlot(s, t, k))
    ensures !((exists q :: OnWaitList(s, t, q)) && (exists k :: InSlot(s, t, k)))
    ensures forall p, q :: OnWaitList(s, t, p) && OnWaitList(s, t, q) ==> p == q
    ensures forall j, k :: InSlot(s, t, j) && InSlot(s, t, k) ==> j == k
    ensures t !in s.sched.ready && t != s.sched.cur
  {
    assert ThreadOk(s, t);
    forall q | OnWaitList(s, t, q) ensures s.pc[t] == DownRecheck(q) {
      assert SemaOk(s, q);
    }
    forall k | InSlot(s, t, k) ensures s.pc[t] == SlotWait(k) {
      assert SlotOk(s, k);
    }
    if s.pc[t].DownRecheck? {
      var q := s.pc[t].q;
      assert SemaOk(s, q);
      assert OnWaitList(s, t, q);
    } else if s.pc[t].SlotWait? {
      assert InSlot(s, t, s.pc[t].k);
    }
  }

  /** Conversely, whoever is on a wait list or in a slot is blocked: the assertion of thread_unblock holds
      for whoever sema_up and wakeup take from there. */
  lemma ListedIsBlocked(s: Sys, t: Tid, i: nat)
    requires SysInv(s) && (OnWaitList(s, t, i) || InSlot(s, t, i))
    ensures t in s.pc && s.sched.Status(t) == Blocked && Unblock(s.sched, t).Next?
  {
    if OnWaitList(s, t, i) {
      assert SemaOk(s, i);
    } else {
      assert SlotOk(s, i);
    }
    UnblockSafe(s.sched, t);
  }

  // ---------------------------------------------------------------- whole calls

  predicate Acquires(p: Pc, l: nat) {
    p == AcqTest(l) || p == AcqInc(l) || p == DownEntry(l) || p == DownRecheck(l) || p == AcqHolder(l) || p == AcqRepeat(l)
  }

  predicate Releases(p: Pc, l: nat) {
    p == RelTest(l) || p == RelDec(l) || p == RelClear(l) || p == RelZero(l) || p == RelUp(l)
  }

  /** Thread t is where it was, with what it held. */
  ghost predicate Stays(s: Sys, o: Outcome<Sys>, t: Tid)
    requires t in s.pc && t in s.held
  {
    o.Next? ==> && t in o.value.pc && t in o.value.held && o.value.pc[t] == s.pc[t] && o.value.held[t] == s.held[t]
                && |o.value.locks| == |s.locks|
  }

  lemma DownStays(s: Sys, q: nat, t: Tid)
    requires s.Shaped() && q < |s.semas| && t in s.pc && t != s.sched.cur
    ensures Stays(s, SemaDown(s, q), t)
  {
  }

  lemma UpStays(s: Sys, q: nat, t: Tid)
    requires s.Shaped() && q < |s.semas| && t in s.pc
    ensures Stays(s, SemaUp(s, q), t)
    ensures SemaUp(s, q).Next? ==> SemaUp(s, q).value.pc == s.pc && SemaUp(s, q).value.sched.cur == s.sched.cur
  {
  }

  lemma StatementStays(s: Sys, t: Tid)
    requires s.Shaped() && t in s.pc && t != s.sched.cur
    ensures Stays(s, Statement(s), t)
  {
    match s.pc[s.sched.cur] {
      case DownEntry(q) => DownStays(s, q, t);
      case DownRecheck(q) => DownStays(s, q, t);
      case RelUp(l) => UpStays(s, l, t);
      case _ =>
    }
  }

  /** Nobody but the running thread moves. */
  lemma OthersStay(s: Sys, a: Action, t: Tid)
    requires s.Shaped() && Allowed(s, a) && t in s.pc
    requires t != s.sched.cur || !(a.Execute? || a.CallAcquire? || a.CallRelease? || a.CallDown? || a.SleepInSlot?)
    ensures Stays(s, Act(s, a), t)
  {
    match a {
      case Execute => StatementStays(s, t);
      case InterruptUp(q) => UpStays(s, q, t);
      case SleepInSlot(k) => assert Act(s, a) == SlotSleep(s, k);
      case WakeSlot(k) => assert Act(s, a) == SlotWake(s, k);
      case Tick => assert Act(s, a).Next? ==> Act(s, a).value == s.(sched := TimerTick(s.sched).value);
      case YieldCpu => assert Act(s, a).Next? ==> Act(s, a).value == s.(sched := Yield(s.sched).value);
      case IdleBlocks => assert Act(s, a).Next? ==> Act(s, a).value == s.(sched := Block(s.sched).value);
      case _ =>
    }
  }

  /** What happens to a thread inside lock_acquire, whoever runs. */
  lemma AcquireStep(s: Sys, a: Action, t: Tid, l: nat)
    requires SysInv(s) && Allowed(s, a) && t in s.pc && Acquires(s.pc[t], l) && l < |s.locks|
    ensures Act(s, a).Next? && SysInv(Act(s, a).value)
    ensures var r := Act(s, a).value;
            && t in r.pc && |r.locks| == |s.locks|
            && if r.pc[t] == Outside then r.held[t] == s.held[t] + multiset{l}
               else Acquires(r.pc[t], l) && r.held[t] == s.held[t]
  {
    ActKeeps(s, a);
    if t != s.sched.cur || !a.Execute? {
      OthersStay(s, a, t);
    }
  }

  lemma ReleaseStatement(s: Sys, l: nat)
    requires s.Shaped() && l < |s.locks| && Releases(s.pc[s.sched.cur], l) && Statement(s).Next?
    ensures var r, t := Statement(s).value, s.sched.cur;
            && t in r.pc && t in r.held && |r.locks| == |s.locks|
            && if r.pc[t] == Outside then r.held[t] == s.held[t] - multiset{l}
               else Releases(r.pc[t], l) && r.held[t] == s.held[t]
  {
    if s.pc[s.sched.cur] == RelUp(l) {
      UpStays(s, l, s.sched.cur);
    }
  }

  lemma ReleaseStep(s: Sys, a: Action, t: Tid, l: nat)
    requires SysInv(s) && Allowed(s, a) && t in s.pc && Releases(s.pc[t], l) && l < |s.locks|
    ensures Act(s, a).Next? && SysInv(Act(s, a).value)
    ensures var r := Act(s, a).value;
            && t in r.pc && |r.locks| == |s.locks|
            && if r.pc[t] == Outside then r.held[t] == s.held[t] - multiset{l}
               else Releases(r.pc[t], l) && r.held[t] == s.held[t]
  {
    ActKeeps(s, a);
    if t != s.sched.cur || !a.Execute? {
      OthersStay(s, a, t);
    } else {
      ReleaseStatement(s, l);
    }
  }

  ghost predicate Back(s: Sys, t: Tid) {
    t in s.pc && s.pc[t] == Outside
  }

  lemma {:induction false} InsideAcquire(trace: seq<Sys>, actions: seq<Action>, t: Tid, l: nat, n: nat)
    requires IsRun(trace, actions) && 0 < n <= |actions|
    requires SysInv(trace[1]) && t in trace[1].pc && trace[1].pc[t] == AcqTest(l) && l < |trace[1].locks|
    requires forall i :: 0 < i < n ==> !Back(trace[i], t)
    ensures SysInv(trace[n]) && t in trace[n].pc && |trace[n].locks| == |trace[1].locks|
    ensures if trace[n].pc[t] == Outside then trace[n].held[t] == trace[1].held[t] + multiset{l}
            else Acquires(trace[n].pc[t], l) && trace[n].held[t] == trace[1].held[t]
  {
    if n > 1 {
      InsideAcquire(trace, actions, t, l, n - 1);
      AcquireStep(trace[n - 1], actions[n - 1], t, l);
    }
  }

  lemma {:induction false} InsideRelease(trace: seq<Sys>, actions: seq<Action>, t: Tid, l: nat, n: nat)
    requires IsRun(trace, actions) && 0 < n <= |actions|
    requires SysInv(trace[1]) && t in trace[1].pc && trace[1].pc[t] == RelTest(l) && l < |trace[1].locks|
    requires forall i :: 0 < i < n ==> !Back(trace[i], t)
    ensures SysInv(trace[n]) && t in trace[n].pc && |trace[n].locks| == |trace[1].locks|
    ensures if trace[n].pc[t] == Outside then trace[n].held[t] == trace[1].held[t] - multiset{l}
            else Releases(trace[n].pc[t], l) && trace[n].held[t] == trace[1].held[t]
  {
    if n > 1 {
      InsideRelease(trace, actions, t, l, n - 1);
      ReleaseStep(trace[n - 1], actions[n - 1], t, l);
    }
  }

  /** lock_acquire as a whole: the thread calls it, is back n actions later, and whatever the others did in
      between, it now holds the lock once more than before and nobody else does. */
  lemma AcquireWhole(trace: seq<Sys>, actions: seq<Action>, l: nat, n: nat)
    requires IsRun(trace, actions) && 0 < n <= |actions| && SysInv(trace[0]) && actions[0] == CallAcquire(l)
    requires forall i :: 0 < i < n ==> !Back(trace[i], trace[0].sched.cur)
    requires Back(trace[n], trace[0].sched.cur)
    ensures SysInv(trace[n]) && l < |trace[n].locks|
    ensures var t, s := trace[0].sched.cur, trace[n];
            && s.held[t] == trace[0].held[t] + multiset{l}
            && s.locks[l] == Lock(Some(t), s.held[t][l])
            && forall u :: u in s.pc && u != t ==> !Critical(s, u, l)
  {
    var t, s := trace[0].sched.cur, trace[n];
    ActKeeps(trace[0], actions[0]);
    InsideAcquire(trace, actions, t, l, n);
    UnguardedTestIsRight(s, t, l);
    forall u | u in s.pc && u != t ensures !Critical(s, u, l) {
      assert LockOk(s, l);
      assert Critical(s, t, l);
    }
  }

  /** lock_release as a whole: the thread then holds the lock once less, and if that was the last time and
      nobody has taken it since, the lock is free. */
  lemma ReleaseWhole(trace: seq<Sys>, actions: seq<Action>, l: nat, n: nat)
    requires IsRun(trace, actions) && 0 < n <= |actions| && SysInv(trace[0]) && actions[0] == CallRelease(l)
    requires forall i :: 0 < i < n ==> !Back(trace[i], trace[0].sched.cur)
    requires Back(trace[n], trace[0].sched.cur)
    ensures SysInv(trace[n]) && l < |trace[n].locks|
    ensures var t, s := trace[0].sched.cur, trace[n];
            && s.held[t] == trace[0].held[t] - multiset{l}
            && (s.held[t][l] > 0 ==> s.locks[l] == Lock(Some(t), s.held[t][l]))
            && (s.held[t][l] == 0 ==> !Critical(s, t, l) && s.locks[l].holder != Some(t))
  {
    var t, s := trace[0].sched.cur, trace[n];
    HoldersAreNotIdle(trace[0]);
    ActKeeps(trace[0], actions[0]);
    InsideRelease(trace, actions, t, l, n);
    UnguardedTestIsRight(s, t, l);
    assert LockOk(s, l);
  }

  /** lock_release stops the machine exactly when its caller does not hold the lock. */
  lemma ReleaseHaltsIffNotHeld(s: Sys, l: nat)
    requires SysInv(s) && l < |s.locks| && s.pc[s.sched.cur] == Outside
    ensures Statement(s.Goto(RelTest(l))).Halted? <==> s.held[s.sched.cur][l] == 0
  {
    UnguardedTestIsRight(s, s.sched.cur, l);
  }
}
