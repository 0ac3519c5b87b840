/** What the semaphores of thread/sync.c count over a run, in what order their waiters are woken, and that a
    call of lock_acquire or lock_release does not stand still. */
module SyncRuns {
  import opened Outcomes
  import opened Scheduler
  import opened Sync

  predicate InDown(p: Pc, q: nat) {
    p == DownEntry(q) || p == DownRecheck(q)
  }

  /** Semaphore q is raised, by an interrupt or at the end of lock_release. */
  predicate Raises(s: Sys, a: Action, q: nat)
    requires s.Shaped()
  {
    a == InterruptUp(q) || (a == Execute && s.pc[s.sched.cur] == RelUp(q))
  }

  /** The running thread tests semaphore q. */
  predicate Tests(s: Sys, a: Action, q: nat)
    requires s.Shaped()
  {
    a == Execute && InDown(s.pc[s.sched.cur], q)
  }

  // ---------------------------------------------------------------- one step and one semaphore

  ghost predicate SameSema(s: Sys, a: Action, q: nat)
    requires s.Shaped() && Allowed(s, a) && q < |s.semas|
  {
    Act(s, a).Next? ==> |Act(s, a).value.semas| == |s.semas| && Act(s, a).value.semas[q] == s.semas[q]
  }

  lemma OtherDown(s: Sys, p: nat, q: nat)
    requires s.Shaped() && p < |s.semas| && q < |s.semas| && p != q
    ensures SemaDown(s, p).Next? ==> |SemaDown(s, p).value.semas| == |s.semas| && SemaDown(s, p).value.semas[q] == s.semas[q]
  {
  }

  lemma OtherUp(s: Sys, p: nat, q: nat)
    requires s.Shaped() && p < |s.semas| && q < |s.semas| && p != q
    ensures SemaUp(s, p).Next? ==> |SemaUp(s, p).value.semas| == |s.semas| && SemaUp(s, p).value.semas[q] == s.semas[q]
  {
  }

  lemma OtherStatement(s: Sys, q: nat)
    requires s.Shaped() && q < |s.semas| && !Raises(s, Execute, q) && !Tests(s, Execute, q)
    ensures Statement(s).Next? ==> |Statement(s).value.semas| == |s.semas| && Statement(s).value.semas[q] == s.semas[q]
  {
    match s.pc[s.sched.cur] {
      case DownEntry(p) => OtherDown(s, p, q);
      case DownRecheck(p) => OtherDown(s, p, q);
      case RelUp(l) => OtherUp(s, l, q);
      case _ =>
    }
  }

  lemma OtherAction(s: Sys, a: Action, q: nat)
    requires s.Shaped() && Allowed(s, a) && q < |s.semas| && !Raises(s, a, q) && !Tests(s, a, q)
    ensures SameSema(s, a, q)
  {
    hide SemaUp, SemaDown, Statement;
    match a {
      case Execute => OtherStatement(s, q);
      case InterruptUp(p) => OtherUp(s, p, q);
      case SleepInSlot(k) => assert Act(s, a) == SlotSleep(s, k);
      case WakeSlot(k) => assert Act(s, a) == SlotWake(s, k);
      case Tick => assert Act(s, a).Next? ==> Act(s, a).value == s.(sched := TimerTick(s.sched).value);
      case YieldCpu => assert Act(s, a).Next? ==> Act(s, a).value == s.(sched := Yield(s.sched).value);
      case IdleBlocks => assert Act(s, a).Next? ==> Act(s, a).value == s.(sched := Block(s.sched).value);
      case _ =>
    }
  }

  /** The first waiter, if there is one, can run again and is first in the ready list; the value goes from 0
      to 1. */
  ghost predicate Raised(s: Sys, r: Sys, q: nat)
    requires q < |s.semas|
  {
    && |r.semas| == |s.semas| && s.semas[q].value == 0 && r.semas[q].value == 1
    && if s.semas[q].waiters == [] then r.semas[q].waiters == [] && r.sched.ready == s.sched.ready
       else s.semas[q].waiters == [s.semas[q].waiters[0]] + r.semas[q].waiters
            && r.sched.ready == [s.semas[q].waiters[0]] + s.sched.ready
  }

  /** With the value 1 the thread goes on and the value becomes 0; otherwise it is blocked behind the others. */
  ghost predicate Tested(s: Sys, r: Sys, q: nat)
    requires s.Shaped() && q < |s.semas|
  {
    var c := s.sched.cur;
    && |r.semas| == |s.semas| && r.semas[q].value == 0 && c in r.pc
    && if s.semas[q].value == 1 then !InDown(r.pc[c], q) && r.semas[q].waiters == s.semas[q].waiters && r.sched == s.sched
       else s.semas[q].value == 0 && r.pc[c] == DownRecheck(q) && r.semas[q].waiters == s.semas[q].waiters + [c]
            && c in r.sched.threads && r.sched.Status(c) == Blocked
  }

  lemma UpRaises(s: Sys, q: nat)
    requires SysInv(s) && q < |s.semas| && s.semas[q].value == 0
    ensures SemaUp(s, q).Next? && Raised(s, SemaUp(s, q).value, q)
  {
    assert SemaOk(s, q);
    if s.semas[q].waiters != [] {
      var w := s.semas[q].waiters;
      assert w[0] in w && w == [w[0]] + w[1..];
      UnblockSafe(s.sched, w[0]);
    }
  }

  lemma RaiseStep(s: Sys, a: Action, q: nat)
    requires SysInv(s) && Allowed(s, a) && q < |s.semas| && Raises(s, a, q)
    ensures Act(s, a).Next? && Raised(s, Act(s, a).value, q)
  {
    if a == Execute {
      ReleaseUpFacts(s, q);
    }
    UpRaises(s, q);
    hide SysInv, SemaUp, Raises;
  }

  lemma TestBlocks(s: Sys, q: nat)
    requires SysInv(s) && q < |s.semas| && s.semas[q].value == 0 && InDown(s.pc[s.sched.cur], q)
    ensures SemaDown(s, q).Next? && Tested(s, SemaDown(s, q).value, q)
  {
    assert SemaOk(s, q);
    NotIdleThere(s, q);
    DownBlocks(s, q);
    BlockSwitches(s.sched);
    hide SysInv, Inv, Block;
  }

  lemma TestTakes(s: Sys, q: nat)
    requires SysInv(s) && q < |s.semas| && s.semas[q].value != 0 && InDown(s.pc[s.sched.cur], q)
    ensures SemaDown(s, q).Next? && Tested(s, SemaDown(s, q).value, q)
  {
    assert s.Shaped() && SemaOk(s, q);
    assert s.semas[q].value == 1;
    hide SysInv, Inv, SemaDown, Tested, SemaOk, LockOk;
    DownTakes(s, q);
    TakenTested(s, q);
  }

  lemma TakenTested(s: Sys, q: nat)
    requires s.Shaped() && q < |s.semas| && s.semas[q].value == 1 && InDown(s.pc[s.sched.cur], q)
    ensures Tested(s, Taken(s, q), q)
  {
  }

  lemma TestStep(s: Sys, a: Action, q: nat)
    requires SysInv(s) && Allowed(s, a) && q < |s.semas| && Tests(s, a, q)
    ensures Act(s, a).Next? && Tested(s, Act(s, a).value, q)
  {
    assert s.Shaped();
    hide SysInv, SemaDown, Tested, SemaUp, TimerTick, Yield, Block, Start, SlotSleep, SlotWake;
    assert Act(s, a) == SemaDown(s, q);
    if s.semas[q].value == 0 {
      TestBlocks(s, q);
    } else {
      TestTakes(s, q);
    }
  }

  lemma NotIdleThere(s: Sys, q: nat)
    requires SysInv(s) && InDown(s.pc[s.sched.cur], q)
    ensures s.sched.cur != s.sched.idle
  {
    assert ThreadOk(s, s.sched.cur);
  }

  /** What one step does to semaphore q, whoever runs. */
  lemma SemaStep(s: Sys, a: Action, q: nat)
    requires SysInv(s) && Allowed(s, a) && q < |s.semas|
    ensures Act(s, a).Next? && SysInv(Act(s, a).value) && |Act(s, a).value.semas| == |s.semas|
    ensures if Raises(s, a, q) then Raised(s, Act(s, a).value, q)
            else if Tests(s, a, q) then Tested(s, Act(s, a).value, q)
            else Act(s, a).value.semas[q] == s.semas[q]
  {
    ActKeeps(s, a);
    hide SysInv, Act, Raises, Tests;
    if Raises(s, a, q) {
      RaiseStep(s, a, q);
    } else if Tests(s, a, q) {
      TestStep(s, a, q);
    } else {
      OtherAction(s, a, q);
    }
  }

  // ---------------------------------------------------------------- counting

  /** How often semaphore q has been raised in the first n steps. */
  ghost function Ups(trace: seq<Sys>, actions: seq<Action>, q: nat, n: nat): nat
    requires IsRun(trace, actions) && n <= |actions|
  {
    if n == 0 then 0 else Ups(trace, actions, q, n - 1) + if Raises(trace[n - 1], actions[n - 1], q) then 1 else 0
  }

  /** A thread comes out of sema_down on q. */
  predicate Passes(s: Sys, a: Action, r: Sys, q: nat)
    requires s.Shaped()
  {
    Tests(s, a, q) && s.sched.cur in r.pc && !InDown(r.pc[s.sched.cur], q)
  }

  /** How often a thread has come out of sema_down on q. */
  ghost function Downs(trace: seq<Sys>, actions: seq<Action>, q: nat, n: nat): nat
    requires IsRun(trace, actions) && n <= |actions|
  {
    if n == 0 then 0
    else Downs(trace, actions, q, n - 1) + if Passes(trace[n - 1], actions[n - 1], trace[n], q) then 1 else 0
  }

  lemma RunStep(trace: seq<Sys>, actions: seq<Action>, q: nat, i: nat)
    requires IsRun(trace, actions) && i < |actions| && SysInv(trace[i]) && q < |trace[i].semas|
    ensures var s, a, r := trace[i], actions[i], trace[i + 1];
            && Allowed(s, a) && SysInv(r) && |r.semas| == |s.semas|
            && if Raises(s, a, q) then Raised(s, r, q) else if Tests(s, a, q) then Tested(s, r, q) else r.semas[q] == s.semas[q]
  {
    assert Act(trace[i], actions[i]) == Next(trace[i + 1]);
    hide SysInv, Act, Allowed, Raises, Tests, Raised, Tested;
    SemaStep(trace[i], actions[i], q);
  }

  /** Over every run the value of a semaphore is what it was, plus the times it was raised, less the times a
      thread came out of sema_down. */
  lemma {:induction false} ValueCounts(trace: seq<Sys>, actions: seq<Action>, q: nat, n: nat)
    requires IsRun(trace, actions) && n <= |actions| && SysInv(trace[0]) && q < |trace[0].semas|
    ensures SysInv(trace[n]) && q < |trace[n].semas|
    ensures trace[n].semas[q].value + Downs(trace, actions, q, n) == trace[0].semas[q].value + Ups(trace, actions, q, n)
  {
    if n > 0 {
      hide SysInv, Act, Allowed, Raises, Tests, Raised, Tested, Passes;
      ValueCounts(trace, actions, q, n - 1);
      RunStep(trace, actions, q, n - 1);
      ValueStep(trace[n - 1], actions[n - 1], trace[n], q);
    }
  }

  lemma ValueStep(s: Sys, a: Action, r: Sys, q: nat)
    requires SysInv(s) && |r.semas| == |s.semas| && q < |s.semas|
    requires if Raises(s, a, q) then Raised(s, r, q) else if Tests(s, a, q) then Tested(s, r, q) else r.semas[q] == s.semas[q]
    ensures r.semas[q].value + (if Passes(s, a, r, q) then 1 else 0) == s.semas[q].value + if Raises(s, a, q) then 1 else 0
  {
    assert SemaOk(s, q);
    hide SysInv;
  }

  // ---------------------------------------------------------------- the order of the waiters

  /** t is further ahead than u on the wait list of q. */
  ghost predicate Ahead(s: Sys, q: nat, t: Tid, u: Tid) {
    q < |s.semas| && exists i, j :: 0 <= i < j < |s.semas[q].waiters| && s.semas[q].waiters[i] == t && s.semas[q].waiters[j] == u
  }

  lemma AheadStep(s: Sys, a: Action, r: Sys, q: nat, t: Tid, u: Tid)
    requires SysInv(s) && Ahead(s, q, t, u) && |r.semas| == |s.semas| && t in r.semas[q].waiters
    requires if Raises(s, a, q) then Raised(s, r, q) else if Tests(s, a, q) then Tested(s, r, q) else r.semas[q] == s.semas[q]
    ensures Ahead(r, q, t, u)
  {
    WaitersDistinct(s, q);
    hide SysInv, Raises, Tests;
    var w, x := s.semas[q].waiters, r.semas[q].waiters;
    var i, j :| 0 <= i < j < |w| && w[i] == t && w[j] == u;
    if Raises(s, a, q) {
      var k :| 0 <= k < |x| && x[k] == t;
      assert w[k + 1] == t && i == k + 1;
      assert x[i - 1] == t && x[j - 1] == u;
    } else {
      assert x[i] == t && x[j] == u;
    }
  }

  lemma WaitersDistinct(s: Sys, q: nat)
    requires SysInv(s) && q < |s.semas|
    ensures s.Shaped() && NoDup(s.semas[q].waiters)
  {
    assert SemaOk(s, q);
  }

  /** A waiter is not woken as long as one that came before it still waits. */
  lemma {:induction false} WokenInOrder(trace: seq<Sys>, actions: seq<Action>, q: nat, t: Tid, u: Tid, n: nat)
    requires IsRun(trace, actions) && n <= |actions| && SysInv(trace[0]) && Ahead(trace[0], q, t, u)
    requires forall i :: 0 <= i <= n ==> q < |trace[i].semas| && t in trace[i].semas[q].waiters
    ensures SysInv(trace[n]) && Ahead(trace[n], q, t, u)
  {
    if n > 0 {
      hide SysInv, Act, Allowed, Ahead;
      WokenInOrder(trace, actions, q, t, u, n - 1);
      RunStep(trace, actions, q, n - 1);
      AheadStep(trace[n - 1], actions[n - 1], trace[n], q, t, u);
    }
  }

  // ---------------------------------------------------------------- calls go on

  /** How many statements of its call a thread at p has before it at most, if it is not blocked again. */
  function Left(p: Pc): nat {
    match p
    case Outside => 0
    case AcqTest(_) => 4
    case AcqInc(_) => 1
    case DownEntry(_) => 3
    case DownRecheck(_) => 3
    case AcqHolder(_) => 2
    case AcqRepeat(_) => 1
    case RelTest(_) => 4
    case RelDec(_) => 1
    case RelClear(_) => 3
    case RelZero(_) => 2
    case RelUp(_) => 1
    case SlotWait(_) => 1
  }

  /** The thread is one statement further, or blocked where it was. */
  ghost predicate Advances(s: Sys, r: Sys)
    requires s.Shaped()
  {
    var c := s.sched.cur;
    && c in r.pc && c in r.sched.threads
    && (Left(r.pc[c]) < Left(s.pc[c]) || (Left(r.pc[c]) == Left(s.pc[c]) && r.sched.Status(c) == Blocked))
  }

  lemma FieldAdvances(s: Sys)
    requires s.Shaped() && AtField(s.pc[s.sched.cur])
    ensures Statement(s).Next? ==> Advances(s, Statement(s).value)
  {
    hide SemaUp, SemaDown;
  }

  lemma ReleaseAdvances(s: Sys, l: nat)
    requires SysInv(s) && s.pc[s.sched.cur] == RelUp(l)
    ensures Statement(s).Next? ==> Advances(s, Statement(s).value)
  {
    assert s.Shaped();
    UpStays(s, l, s.sched.cur);
    ActKeeps(s, Execute);
    hide SysInv, SemaUp, SemaDown;
    assert Statement(s).value.Shaped();
  }

  lemma BlockedAdvances(s: Sys, r: Sys, q: nat)
    requires s.Shaped() && InDown(s.pc[s.sched.cur], q) && q < |s.semas| && s.semas[q].value == 0 && Tested(s, r, q)
    ensures Advances(s, r)
  {
  }

  lemma TakenAdvances(s: Sys, q: nat)
    requires s.Shaped() && InDown(s.pc[s.sched.cur], q) && q < |s.semas|
    ensures Advances(s, Taken(s, q))
  {
    TakenShaped(s, q);
  }

  lemma TestAdvances(s: Sys, q: nat)
    requires SysInv(s) && InDown(s.pc[s.sched.cur], q) && q < |s.semas|
    ensures SemaDown(s, q).Next? ==> Advances(s, SemaDown(s, q).value)
  {
    assert s.Shaped();
    hide SysInv, Advances, SemaDown, Tested;
    if s.semas[q].value == 0 {
      TestBlocks(s, q);
      BlockedAdvances(s, SemaDown(s, q).value, q);
    } else {
      DownTakes(s, q);
      TakenAdvances(s, q);
    }
  }

  lemma SlotAdvances(s: Sys, k: nat)
    requires s.Shaped() && s.pc[s.sched.cur] == SlotWait(k)
    ensures Statement(s).Next? ==> Advances(s, Statement(s).value)
  {
    hide SemaUp, SemaDown;
  }

  lemma DownIs(s: Sys, q: nat)
    requires s.Shaped() && InDown(s.pc[s.sched.cur], q)
    ensures q < |s.semas| && Statement(s) == SemaDown(s, q)
  {
    hide SemaUp, SemaDown;
    assert s.InRange(s.pc[s.sched.cur]);
  }

  lemma ShapedOf(s: Sys)
    requires SysInv(s)
    ensures s.Shaped()
  {
  }

  /** Every statement of lock_acquire, lock_release and ioq_wait leads on, so a call of lock_acquire or
      lock_release is over after at most four of them and one more for every time the thread is blocked. */
  lemma StatementAdvances(s: Sys)
    requires SysInv(s) && s.pc[s.sched.cur] != Outside
    ensures Statement(s).Next? && Advances(s, Statement(s).value)
  {
    ShapedOf(s);
    hide SysInv, Statement, Advances, SemaDown, SemaUp, Left;
    StatementKeeps(s);
    var p := s.pc[s.sched.cur];
    if p.DownEntry? || p.DownRecheck? {
      DownIs(s, p.q);
      TestAdvances(s, p.q);
    } else if p.RelUp? {
      ReleaseAdvances(s, p.l);
    } else if p.SlotWait? {
      SlotAdvances(s, p.k);
    } else {
      FieldAdvances(s);
    }
  }

  /** The statements that t has executed in the first n steps. */
  ghost function Statements(trace: seq<Sys>, actions: seq<Action>, t: Tid, n: nat): nat
    requires IsRun(trace, actions) && n <= |actions|
  {
    if n == 0 then 0
    else Statements(trace, actions, t, n - 1) + if actions[n - 1] == Execute && trace[n - 1].sched.cur == t then 1 else 0
  }

  /** How often such a statement left t blocked. */
  ghost function Sleeps(trace: seq<Sys>, actions: seq<Action>, t: Tid, n: nat): nat
    requires IsRun(trace, actions) && n <= |actions|
  {
    if n == 0 then 0
    else
      var s, r := trace[n - 1], trace[n];
      Sleeps(trace, actions, t, n - 1)
      + if actions[n - 1] == Execute && s.sched.cur == t && t in r.sched.threads && r.sched.Status(t) == Blocked then 1 else 0
  }

  lemma TurnCounts(s: Sys, a: Action, r: Sys, t: Tid)
    requires SysInv(s) && Allowed(s, a) && Act(s, a) == Next(r) && t in s.pc && s.pc[t] != Outside
    ensures SysInv(r) && t in r.pc
    ensures (if a == Execute && s.sched.cur == t then 1 else 0) + Left(r.pc[t])
            <= Left(s.pc[t]) + if a == Execute && s.sched.cur == t && t in r.sched.threads && r.sched.Status(t) == Blocked then 1 else 0
  {
    ActKeeps(s, a);
    assert s.Shaped();
    hide SysInv, Left, Statement, TimerTick, Yield, Block, Start, SlotSleep, SlotWake, SemaUp, SemaDown;
    if a == Execute && s.sched.cur == t {
      StatementAdvances(s);
    } else {
      OthersStay(s, a, t);
    }
  }

  /** From inside a call on, whatever the others do, a thread executes at most Left statements of it and one
      more for every time it is blocked: the test that it makes again. */
  lemma {:induction false} CallIsShort(trace: seq<Sys>, actions: seq<Action>, t: Tid, n: nat)
    requires IsRun(trace, actions) && n <= |actions| && SysInv(trace[0]) && t in trace[0].pc
    requires forall i :: 0 <= i < n ==> !Back(trace[i], t)
    ensures SysInv(trace[n]) && t in trace[n].pc
    ensures Statements(trace, actions, t, n) + Left(trace[n].pc[t]) <= Left(trace[0].pc[t]) + Sleeps(trace, actions, t, n)
  {
    if n > 0 {
      hide SysInv, Act, Allowed, Left;
      CallIsShort(trace, actions, t, n - 1);
      assert Act(trace[n - 1], actions[n - 1]) == Next(trace[n]) && !Back(trace[n - 1], t);
      TurnCounts(trace[n - 1], actions[n - 1], trace[n], t);
    }
  }
}
