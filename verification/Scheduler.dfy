/** thread/thread.c and device/timer.c: the ready list, the running thread and the quantum.

    Every function below is one stretch of code that runs with interrupts off.  TASK_WAITING and
    TASK_HANGING are never used by the kernel, so one Blocked status stands for the three. */
module Scheduler {
  import opened Outcomes

  type Tid = nat

  datatype Status = Running | Ready | Blocked

  datatype Thread = Thread(status: Status, ticks: nat, priority: nat)

  datatype State = State(threads: map<Tid, Thread>, ready: seq<Tid>, cur: Tid, idle: Tid) {

    // The pointers held by the scheduler name existing threads.
    predicate Closed() {
      && cur in threads
      && idle in threads
      && (forall t :: t in ready ==> t in threads)
    }

    function Status(t: Tid): Status
      requires t in threads
    {
      threads[t].status
    }

    function Set(t: Tid, status: Status): State
      requires t in threads
    {
      this.(threads := threads[t := threads[t].(status := status)])
    }
  }

  predicate NoDup<T(==)>(s: seq<T>) {
    forall i, j :: 0 <= i < j < |s| ==> s[i] != s[j]
  }

  /** What the scheduler keeps between two of its operations. */
  ghost predicate Inv(s: State) {
    && InTransit(s)
    && s.Status(s.cur) == Running
  }

  /** The same, while the running thread is being switched out: it may already be marked
      Ready (and queued) or Blocked. */
  ghost predicate InTransit(s: State) {
    && s.Closed()
    && NoDup(s.ready)
    && (forall t :: t in s.threads ==> (t in s.ready <==> s.Status(t) == Ready))
    && (forall t :: t in s.threads && s.Status(t) == Running ==> t == s.cur)
    && (forall t :: t in s.threads ==> s.threads[t].ticks <= s.threads[t].priority <= 255)
  }

  // ---------------------------------------------------------------- operations

  function Unblock(s: State, t: Tid): Outcome<State>
    requires t in s.threads
  {
    if s.Status(t) != Blocked || t in s.ready then Halted
    else Next(s.Set(t, Ready).(ready := [t] + s.ready))
  }

  /** The running thread is back in the ready list with a full quantum. */
  function Requeued(s: State): State
    requires s.cur in s.threads
  {
    var c := s.threads[s.cur];
    if c.status == Running
    then s.(ready := s.ready + [s.cur], threads := s.threads[s.cur := Thread(Ready, c.priority, c.priority)])
    else s
  }

  /** The first ready thread runs. */
  function Dispatched(s: State): State
    requires s.ready != [] && s.ready[0] in s.threads
  {
    s.(ready := s.ready[1..]).Set(s.ready[0], Running).(cur := s.ready[0])
  }

  function Schedule(s: State): Outcome<State>
    requires s.Closed()
  {
    if s.Status(s.cur) == Running && s.cur in s.ready then Halted
    else
      var s1 := Requeued(s);
      var s2 :- if s1.ready == [] then Unblock(s1, s1.idle) else Next(s1);
      Next(Dispatched(s2))
  }

  function Block(s: State): Outcome<State>
    requires s.Closed()
  {
    Schedule(s.Set(s.cur, Blocked))
  }

  function Yield(s: State): Outcome<State>
    requires s.Closed()
  {
    if s.cur in s.ready then Halted
    else Schedule(s.(ready := s.ready + [s.cur]).Set(s.cur, Ready))
  }

  function TimerTick(s: State): Outcome<State>
    requires s.Closed()
  {
    var c := s.threads[s.cur];
    if c.ticks == 0 then Schedule(s)
    else Next(s.(threads := s.threads[s.cur := c.(ticks := c.ticks - 1)]))
  }

  /** thread_start: `t` is the fresh page that holds the new thread. */
  function Start(s: State, t: Tid, priority: nat): Outcome<State>
    requires t !in s.threads
  {
    if t in s.ready then Halted
    else Next(s.(threads := s.threads[t := Thread(Ready, priority, priority)], ready := s.ready + [t]))
  }

  // ---------------------------------------------------------------- safety

  lemma RequeuedInTransit(s: State)
    requires InTransit(s)
    ensures InTransit(Requeued(s)) && (s.Status(s.cur) == Running ==> s.cur !in s.ready)
    ensures forall t :: t in s.threads ==> Requeued(s).Status(t) != Running
    ensures Requeued(s).ready == [] ==> Requeued(s).Status(s.idle) == Blocked
  {
    var s1 := Requeued(s);
    assert forall t :: t in s1.ready <==> t in s.ready || (s.Status(s.cur) == Running && t == s.cur);
  }

  /** Nobody is ready: idle is woken and runs. */
  lemma IdleSucceeds(s: State)
    requires InTransit(s) && Requeued(s).ready == []
    ensures var r := Schedule(s);
            && r.Next? && Inv(r.value) && r.value.threads.Keys == s.threads.Keys && r.value.idle == s.idle
            && r.value.cur == s.idle && r.value.ready == []
            && forall t :: t in s.threads && t != s.idle ==> r.value.threads[t] == Requeued(s).threads[t]
  {
    RequeuedInTransit(s);
    var s1 := Requeued(s);
    UnblockSafe(s1, s1.idle);
    PopKeepsInTransit(Unblock(s1, s1.idle).value);
  }

  /** Once the ready list is empty and the running thread has given up the processor, every thread
      is blocked, so the idle thread can be woken; schedule always finds a successor. */
  lemma ScheduleFindsSuccessor(s: State)
    requires InTransit(s)
    ensures var r := Schedule(s);
            && r.Next?
            && Inv(r.value)
            && r.value.threads.Keys == s.threads.Keys
            && r.value.idle == s.idle
            && r.value.cur == (if s.ready != [] then s.ready[0]
                               else if s.Status(s.cur) == Running then s.cur else s.idle)
            && (s.ready != [] ==>
                  r.value.ready == s.ready[1..] + (if s.Status(s.cur) == Running then [s.cur] else []))
            && (s.ready == [] ==> r.value.ready == [])
            && (forall t :: t in s.threads && t != r.value.cur ==>
                  (r.value.Status(t) == Blocked <==> s.Status(t) == Blocked))
  {
    RequeuedInTransit(s);
    if Requeued(s).ready == [] {
      IdleSucceeds(s);
    } else {
      PopKeepsInTransit(Requeued(s));
    }
  }

  lemma PopKeepsInTransit(s: State)
    requires InTransit(s) && s.ready != []
    requires forall t :: t in s.threads ==> s.Status(t) != Running
    ensures Inv(Dispatched(s))
  {
    var n := s.ready[0];
    assert s.ready == [n] + s.ready[1..];
    assert n !in s.ready[1..];
    assert forall t :: t in s.ready <==> t == n || t in s.ready[1..];
  }

  /** thread_unblock stops the machine exactly when its argument is not blocked. */
  lemma UnblockSafe(s: State, t: Tid)
    requires InTransit(s) && t in s.threads
    ensures Unblock(s, t).Next? <==> s.Status(t) == Blocked
    ensures Unblock(s, t).Next? ==>
              var r := Unblock(s, t).value;
              && InTransit(r) && r.ready == [t] + s.ready && r.cur == s.cur
              && (forall u :: u in s.threads && u != t ==> r.threads[u] == s.threads[u])
              && (Inv(s) ==> Inv(r))
  {
    if s.Status(t) == Blocked {
      var r := Unblock(s, t).value;
      assert forall u :: u in r.ready <==> u == t || u in s.ready;
    }
  }

  lemma BlockSafe(s: State)
    requires Inv(s)
    ensures var r := Block(s);
            && r.Next? && Inv(r.value)
            && r.value.threads.Keys == s.threads.Keys && r.value.idle == s.idle
            && r.value.cur == (if s.ready != [] then s.ready[0] else s.idle)
            && (s.ready != [] ==> r.value.ready == s.ready[1..])
            && (forall t :: t in s.threads && t != r.value.cur ==>
                  (r.value.Status(t) == Blocked <==> t == s.cur || s.Status(t) == Blocked))
  {
    var s1 := s.Set(s.cur, Blocked);
    assert InTransit(s1);
    ScheduleFindsSuccessor(s1);
  }

  /** The running thread has queued itself behind the others. */
  function Yielding(s: State): State
    requires s.cur in s.threads
  {
    s.(ready := s.ready + [s.cur]).Set(s.cur, Ready)
  }

  lemma YieldingInTransit(s: State)
    requires Inv(s)
    ensures s.cur !in s.ready && InTransit(Yielding(s)) && Yield(s) == Schedule(Yielding(s))
  {
    var s1 := Yielding(s);
    assert forall t :: t in s1.ready <==> t in s.ready || t == s.cur;
  }

  lemma YieldSafe(s: State)
    requires Inv(s)
    ensures var r := Yield(s);
            && r.Next? && Inv(r.value)
            && r.value.threads.Keys == s.threads.Keys && r.value.idle == s.idle
            && [r.value.cur] + r.value.ready == s.ready + [s.cur]
            && (forall t :: t in s.threads ==> (r.value.Status(t) == Blocked <==> s.Status(t) == Blocked))
  {
    var s1 := Yielding(s);
    YieldingInTransit(s);
    ScheduleFindsSuccessor(s1);
    assert s1.ready == [s1.ready[0]] + s1.ready[1..];
  }

  lemma TimerTickSafe(s: State)
    requires Inv(s)
    ensures var r := TimerTick(s);
            && r.Next? && Inv(r.value)
            && r.value.threads.Keys == s.threads.Keys && r.value.idle == s.idle
            && (s.threads[s.cur].ticks > 0 ==> r.value.cur == s.cur && r.value.ready == s.ready)
            && (s.threads[s.cur].ticks == 0 ==> [r.value.cur] + r.value.ready == s.ready + [s.cur])
            && (forall t :: t in s.threads ==> (r.value.Status(t) == Blocked <==> s.Status(t) == Blocked))
  {
    if s.threads[s.cur].ticks == 0 {
      ScheduleFindsSuccessor(s);
      if s.ready != [] {
        assert s.ready == [s.ready[0]] + s.ready[1..];
      }
    }
  }

  lemma StartSafe(s: State, t: Tid, priority: nat)
    requires Inv(s) && t !in s.threads && priority <= 255
    ensures var r := Start(s, t, priority);
            r.Next? && Inv(r.value) && r.value.ready == s.ready + [t] && r.value.cur == s.cur
  {
    var r := Start(s, t, priority).value;
    assert forall u :: u in r.ready <==> u in s.ready || u == t;
  }

  // ---------------------------------------------------------------- quanta

  predicate SameQuantum(s: State, r: State, t: Tid)
    requires t in s.threads && t in r.threads
  {
    r.threads[t].ticks == s.threads[t].ticks && r.threads[t].priority == s.threads[t].priority
  }

  /** t has all the ticks of its priority, which is the one it had. */
  predicate FullQuantum(s: State, r: State, t: Tid)
    requires t in s.threads && t in r.threads
  {
    r.threads[t].ticks == r.threads[t].priority == s.threads[t].priority
  }

  ghost predicate QuantaKept(s: State, r: State) {
    r.threads.Keys == s.threads.Keys && forall t :: t in s.threads ==> SameQuantum(s, r, t)
  }

  /** A thread that was RUNNING has a full quantum; every other thread has what was left of its own. */
  ghost predicate RunnerRefilled(s: State, r: State) {
    && r.threads.Keys == s.threads.Keys
    && forall t :: t in s.threads ==> if s.Status(t) == Running then FullQuantum(s, r, t) else SameQuantum(s, r, t)
  }

  /** Only the running thread has lost a tick. */
  ghost predicate OneTickTaken(s: State, r: State)
    requires s.cur in s.threads
  {
    && r.threads.Keys == s.threads.Keys
    && r.threads[s.cur].priority == s.threads[s.cur].priority && r.threads[s.cur].ticks + 1 == s.threads[s.cur].ticks
    && forall t :: t in s.threads && t != s.cur ==> SameQuantum(s, r, t)
  }

  /** schedule gives a full quantum to the thread it takes the processor from, and to nobody else. */
  lemma ScheduleQuanta(s: State)
    requires InTransit(s)
    ensures Schedule(s).Next? && RunnerRefilled(s, Schedule(s).value)
  {
    ScheduleFindsSuccessor(s);
  }

  /** A thread that blocks goes on later with the ticks it had left. */
  lemma BlockQuanta(s: State)
    requires Inv(s)
    ensures Block(s).Next? && QuantaKept(s, Block(s).value)
  {
    BlockSafe(s);
    ScheduleQuanta(s.Set(s.cur, Blocked));
  }

  /** So does one that yields. */
  lemma YieldQuanta(s: State)
    requires Inv(s)
    ensures Yield(s).Next? && QuantaKept(s, Yield(s).value)
  {
    YieldingInTransit(s);
    ScheduleQuanta(Yielding(s));
  }

  /** A timer interrupt takes one tick from the running thread, or switches it out with a full quantum. */
  lemma TickQuanta(s: State)
    requires Inv(s)
    ensures TimerTick(s).Next?
    ensures if s.threads[s.cur].ticks > 0 then OneTickTaken(s, TimerTick(s).value)
            else RunnerRefilled(s, TimerTick(s).value)
  {
    if s.threads[s.cur].ticks == 0 {
      ScheduleQuanta(s);
    }
  }

  lemma UnblockQuanta(s: State, t: Tid)
    requires InTransit(s) && t in s.threads && s.Status(t) == Blocked
    ensures Unblock(s, t).Next? && QuantaKept(s, Unblock(s, t).value)
  {
    UnblockSafe(s, t);
  }

  /** The new thread has a full quantum of the priority asked for; nothing of the others has changed. */
  lemma StartQuanta(s: State, t: Tid, priority: nat)
    requires Inv(s) && t !in s.threads && priority <= 255
    ensures var r := Start(s, t, priority);
            && r.Next? && r.value.threads.Keys == s.threads.Keys + {t} && r.value.idle == s.idle
            && r.value.threads[t].ticks == r.value.threads[t].priority == priority
            && r.value.Status(t) == Ready
            && forall u :: u in s.threads ==> r.value.threads[u] == s.threads[u]
  {
    StartSafe(s, t, priority);
  }
}
