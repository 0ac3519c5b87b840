/** Runs of the scheduler, and how long a ready thread can wait for the processor. */
module RoundRobin {
  import opened Outcomes
  import opened Scheduler

  datatype Event =
    | TickEv
    | BlockEv
    | YieldEv
    | StartEv(t: Tid, priority: nat)
    | UnblockEv(t: Tid)

  /** What the environment may do: start threads on fresh pages, unblock existing threads. */
  predicate Enabled(s: State, e: Event) {
    match e
    case StartEv(t, p) => t !in s.threads && p <= 255
    case UnblockEv(t) => t in s.threads
    case _ => true
  }

  function Apply(s: State, e: Event): Outcome<State>
    requires s.Closed() && Enabled(s, e)
  {
    match e
    case TickEv => TimerTick(s)
    case BlockEv => Block(s)
    case YieldEv => Yield(s)
    case StartEv(t, p) => Start(s, t, p)
    case UnblockEv(t) => Unblock(s, t)
  }

  /** `trace` lists the states of a run of `events` from trace[0]. */
  ghost predicate IsRun(trace: seq<State>, events: seq<Event>) {
    && |trace| == |events| + 1
    && (forall i :: 0 <= i < |events| ==>
          && trace[i].Closed()
          && Enabled(trace[i], events[i])
          && Apply(trace[i], events[i]) == Next(trace[i + 1]))
  }

  /** A step halts the machine exactly when it unblocks a thread that is not blocked. */
  lemma ApplyHaltsOnlyOnBadUnblock(s: State, e: Event)
    requires Inv(s) && Enabled(s, e)
    ensures Apply(s, e).Halted? <==> e.UnblockEv? && s.Status(e.t) != Blocked
    ensures Apply(s, e).Next? ==> Inv(Apply(s, e).value)
  {
    match e {
      case TickEv => TimerTickSafe(s);
      case BlockEv => BlockSafe(s);
      case YieldEv => YieldSafe(s);
      case StartEv(t, p) => StartSafe(s, t, p);
      case UnblockEv(t) => UnblockSafe(s, t);
    }
  }

  /** At every point of every run exactly one thread is running, it is in no queue, the ready list
      holds each ready thread once and nothing else. */
  lemma {:induction false} RunKeepsInv(trace: seq<State>, events: seq<Event>, n: nat)
    requires IsRun(trace, events) && Inv(trace[0]) && n <= |events|
    ensures Inv(trace[n])
    ensures trace[n].cur !in trace[n].ready
    ensures forall t :: t in trace[n].threads ==> (trace[n].Status(t) == Running <==> t == trace[n].cur)
  {
    if n > 0 {
      RunKeepsInv(trace, events, n - 1);
      ApplyHaltsOnlyOnBadUnblock(trace[n - 1], events[n - 1]);
    }
  }

  // ---------------------------------------------------------------- waiting time

  function Quanta(s: State, k: nat): nat
    requires s.Closed() && k <= |s.ready|
  {
    if k == 0 then 0 else Quanta(s, k - 1) + s.threads[s.ready[k - 1]].ticks + 1
  }

  /** Timer interrupts that can pass before the thread at position k of the ready list runs. */
  function Budget(s: State, k: nat): nat
    requires s.Closed() && k < |s.ready|
  {
    s.threads[s.cur].ticks + 1 + Quanta(s, k)
  }

  function TickCount(events: seq<Event>): nat {
    if events == [] then 0 else (if events[0].TickEv? then 1 else 0) + TickCount(events[1..])
  }

  lemma {:induction false} QuantaFrame(s: State, r: State, d: nat, k: nat)
    requires s.Closed() && r.Closed() && d + k <= |s.ready| && k <= |r.ready|
    requires forall i :: 0 <= i < k ==>
               r.ready[i] == s.ready[d + i] && r.threads[r.ready[i]].ticks == s.threads[s.ready[d + i]].ticks
    ensures Quanta(s, d + k) == Quanta(s, d) + Quanta(r, k)
  {
    if k > 0 {
      QuantaFrame(s, r, d, k - 1);
    }
  }

  lemma HeadOut(s: State, k: nat)
    requires s.Closed() && k < |s.ready|
    ensures k > 0 ==> Quanta(s, 1) == s.threads[s.ready[0]].ticks + 1
  {
    if k > 0 {
      assert Quanta(s, 1) == Quanta(s, 0) + s.threads[s.ready[0]].ticks + 1;
    }
  }

  lemma SwitchOrder(s: State, e: Event)
    requires Inv(s) && s.ready != []
    requires e.BlockEv? || e.YieldEv? || (e.TickEv? && s.threads[s.cur].ticks == 0)
    ensures var r := Apply(s, e);
            && r.Next? && r.value.Closed()
            && r.value.threads.Keys == s.threads.Keys
            && r.value.cur == s.ready[0]
            && |r.value.ready| >= |s.ready| - 1
            && (forall i :: 0 <= i < |s.ready| - 1 ==> r.value.ready[i] == s.ready[i + 1])
            && (forall i :: 0 <= i < |s.ready| ==>
                  r.value.threads[s.ready[i]].ticks == s.threads[s.ready[i]].ticks)
  {
    match e {
      case BlockEv => BlockSafe(s);
      case YieldEv => YieldSafe(s);
      case TickEv => ScheduleFindsSuccessor(s);
    }
  }

  lemma StayBudget(s: State, e: Event, k: nat)
    requires Inv(s) && Enabled(s, e) && k < |s.ready|
    requires e.StartEv? || (e.TickEv? && s.threads[s.cur].ticks > 0)
    ensures var r := Apply(s, e);
            && r.Next? && r.value.Closed()
            && k < |r.value.ready| && r.value.ready[k] == s.ready[k]
            && Budget(r.value, k) + (if e.TickEv? then 1 else 0) == Budget(s, k)
  {
    if e.StartEv? {
      StartSafe(s, e.t, e.priority);
    } else {
      TimerTickSafe(s);
    }
    StayFrame(s, Apply(s, e).value, k);
  }

  lemma StayFrame(s: State, r: State, k: nat)
    requires Inv(s) && Inv(r) && k < |s.ready| && s.ready <= r.ready
    requires forall t :: t in s.threads && t != s.cur ==> t in r.threads && r.threads[t] == s.threads[t]
    ensures r.ready[k] == s.ready[k] && Quanta(r, k) == Quanta(s, k)
  {
    QuantaFrame(s, r, 0, k);
  }

  lemma SwitchBudget(s: State, r: State, k: nat)
    requires s.Closed() && r.Closed() && 0 < k < |s.ready| && |r.ready| >= |s.ready| - 1
    requires r.threads.Keys == s.threads.Keys
    requires r.cur == s.ready[0]
    requires forall i :: 0 <= i < |s.ready| - 1 ==> r.ready[i] == s.ready[i + 1]
    requires forall i :: 0 <= i < |s.ready| ==> r.threads[s.ready[i]].ticks == s.threads[s.ready[i]].ticks
    ensures Budget(r, k - 1) == Quanta(s, k)
  {
    HeadOut(s, k);
    QuantaFrame(s, r, 1, k - 1);
  }

  /** One step without thread_unblock: the waiting thread runs, or its budget has shrunk, by at
      least one when the step is a timer interrupt. */
  lemma BudgetStep(s: State, e: Event, k: nat) returns (k': nat)
    requires Inv(s) && Enabled(s, e) && !e.UnblockEv? && k < |s.ready|
    ensures var r := Apply(s, e);
            && r.Next? && r.value.Closed()
            && (r.value.cur == s.ready[k]
                || (&& k' < |r.value.ready| && r.value.ready[k'] == s.ready[k]
                    && Budget(r.value, k') + (if e.TickEv? then 1 else 0) <= Budget(s, k)))
  {
    k' := k;
    if e.StartEv? || (e.TickEv? && s.threads[s.cur].ticks > 0) {
      StayBudget(s, e, k);
    } else {
      SwitchOrder(s, e);
      if k > 0 {
        k' := k - 1;
        SwitchBudget(s, Apply(s, e).value, k);
      }
    }
  }

  /** Bounded waiting.  In a run without thread_unblock that sees at least Budget(k) timer
      interrupts, the thread at position k is dispatched, and no more than Budget(k) timer
      interrupts pass before it is. */
  lemma {:induction false} BoundedWaiting(trace: seq<State>, events: seq<Event>, k: nat) returns (n: nat)
    requires IsRun(trace, events) && Inv(trace[0])
    requires forall i :: 0 <= i < |events| ==> !events[i].UnblockEv?
    requires k < |trace[0].ready|
    requires TickCount(events) >= Budget(trace[0], k)
    ensures 0 < n <= |events|
    ensures trace[n].cur == trace[0].ready[k]
    ensures TickCount(events[..n]) <= Budget(trace[0], k)
    decreases |events|
  {
    assert |events| > 0 && Budget(trace[0], k) > 0;
    hide Inv, Enabled, Apply, Budget;
    var k' := BudgetStep(trace[0], events[0], k);
    ApplyHaltsOnlyOnBadUnblock(trace[0], events[0]);
    assert events[..1] == [events[0]];
    assert TickCount(events[..1]) == (if events[0].TickEv? then 1 else 0) + TickCount(events[..1][1..]);
    if trace[1].cur == trace[0].ready[k] {
      n := 1;
    } else {
      var m := BoundedWaiting(trace[1..], events[1..], k');
      n := m + 1;
      assert events[..n][1..] == events[1..][..m];
    }
  }

  // ---------------------------------------------------------------- quanta over runs

  /** Priorities never change: at every point of every run a thread has the one it was started with. */
  lemma {:induction false} PriorityStays(trace: seq<State>, events: seq<Event>, m: nat, n: nat, t: Tid)
    requires IsRun(trace, events) && Inv(trace[0]) && m <= n <= |events| && t in trace[m].threads
    ensures t in trace[n].threads && trace[n].threads[t].priority == trace[m].threads[t].priority
  {
    if m < n {
      PriorityStays(trace, events, m, n - 1, t);
      RunKeepsInv(trace, events, n - 1);
      assert Apply(trace[n - 1], events[n - 1]) == Next(trace[n]);
      StepKeepsPriority(trace[n - 1], events[n - 1], t);
    }
  }

  lemma StepKeepsPriority(s: State, e: Event, t: Tid)
    requires Inv(s) && Enabled(s, e) && Apply(s, e).Next? && t in s.threads
    ensures var r := Apply(s, e).value; t in r.threads && r.threads[t].priority == s.threads[t].priority
  {
    hide Apply;
    StepQuanta(s, e);
  }

  /** What each step does to everybody's quantum. */
  ghost predicate Accounted(s: State, e: Event, r: State)
    requires s.cur in s.threads
  {
    match e
    case TickEv => if s.threads[s.cur].ticks > 0 then OneTickTaken(s, r) else RunnerRefilled(s, r)
    case StartEv(u, p) =>
      && r.threads.Keys == s.threads.Keys + {u} && r.threads[u].ticks == r.threads[u].priority == p
      && forall t :: t in s.threads ==> SameQuantum(s, r, t)
    case _ => QuantaKept(s, r)
  }

  lemma StepQuanta(s: State, e: Event)
    requires Inv(s) && Enabled(s, e) && Apply(s, e).Next?
    ensures Accounted(s, e, Apply(s, e).value)
  {
    match e
    case TickEv => TickQuanta(s);
    case BlockEv => BlockQuanta(s);
    case YieldEv => YieldQuanta(s);
    case StartEv(t, p) => StartQuanta(s, t, p);
    case UnblockEv(t) =>
      UnblockSafe(s, t);
      UnblockQuanta(s, t);
  }

  /** A thread that does not give up the processor keeps it for as many timer interrupts as it has ticks, each
      taking one, whoever is started or woken meanwhile; and the next one switches it out behind all others,
      its quantum full again. */
  lemma {:induction false} QuantumLasts(trace: seq<State>, events: seq<Event>, n: nat)
    requires IsRun(trace, events) && Inv(trace[0]) && n <= |events|
    requires forall i :: 0 <= i < n ==> !events[i].BlockEv? && !events[i].YieldEv?
    requires TickCount(events[..n]) <= trace[0].threads[trace[0].cur].ticks
    ensures Inv(trace[n]) && trace[n].cur == trace[0].cur
    ensures trace[n].threads[trace[n].cur].ticks == trace[0].threads[trace[0].cur].ticks - TickCount(events[..n])
    ensures n < |events| && events[n].TickEv? && trace[n].threads[trace[n].cur].ticks == 0 ==>
              && [trace[n + 1].cur] + trace[n + 1].ready == trace[n].ready + [trace[n].cur]
              && trace[n].cur in trace[n + 1].threads && FullQuantum(trace[0], trace[n + 1], trace[0].cur)
  {
    RunKeepsInv(trace, events, n);
    if n > 0 {
      assert events[..n] == events[..n - 1] + [events[n - 1]];
      TicksAdd(events[..n - 1], events[n - 1]);
      QuantumLasts(trace, events, n - 1);
      StayStep(trace[n - 1], events[n - 1]);
    }
    if n < |events| && events[n].TickEv? && trace[n].threads[trace[n].cur].ticks == 0 {
      TimerTickSafe(trace[n]);
      TickQuanta(trace[n]);
      PriorityStays(trace, events, 0, n, trace[0].cur);
    }
  }

  lemma {:induction false} TicksAdd(events: seq<Event>, e: Event)
    ensures TickCount(events + [e]) == TickCount(events) + if e.TickEv? then 1 else 0
  {
    if events != [] {
      assert (events + [e])[1..] == events[1..] + [e];
      TicksAdd(events[1..], e);
    }
  }

  lemma StayStep(s: State, e: Event)
    requires Inv(s) && Enabled(s, e) && Apply(s, e).Next? && !e.BlockEv? && !e.YieldEv?
    requires e.TickEv? ==> s.threads[s.cur].ticks > 0
    ensures var r := Apply(s, e).value;
            && r.cur == s.cur && s.cur in r.threads
            && r.threads[s.cur].ticks == s.threads[s.cur].ticks - if e.TickEv? then 1 else 0
  {
    StepQuanta(s, e);
    match e
    case TickEv => TimerTickSafe(s);
    case StartEv(t, p) => StartSafe(s, t, p);
    case UnblockEv(t) => UnblockSafe(s, t);
  }
}
