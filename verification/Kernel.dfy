/** The globals of thread.c, sync.c and ioqueue.c as one object that the C functions update in place.  The
    ready list and the semaphores' wait lists are the linked lists of list.c, and a thread has one link,
    its general_tag, for all of them. */
module Kernel {
  import opened Outcomes
  import opened Scheduler
  import opened Sync
  import List

  /** The lists have no link in common. */
  ghost predicate Apart(q: List.Queue, r: List.Queue)
    reads q, r
  {
    forall e :: e in q.Chain() ==> e !in r.Chain()
  }

  class Machine {
    const ready: List.Queue
    const waits: seq<List.Queue>
    var values: seq<nat>
    var threads: map<Tid, Thread>
    var cur: Tid
    var idle: Tid
    var locks: seq<Lock>
    var pc: map<Tid, Pc>
    var held: map<Tid, multiset<nat>>
    var owner: seq<Option<Tid>>
    var slots: seq<Option<Tid>>
    /** &thread->general_tag, and elem2entry back. */
    var tags: map<Tid, List.Elem>
    var entry: map<List.Elem, Tid>
    /** The links of all threads and the ends of all lists. */
    ghost var nodes: set<List.Elem>

    // -------------------------------------------------------------- the lists and what they stand for

    ghost function Queues(): set<List.Queue> {
      {ready} + set q | q in waits
    }

    static ghost function IdsIn(m: map<List.Elem, Tid>, es: seq<List.Elem>): (ts: seq<Tid>)
      ensures |ts| == |es|
    {
      seq(|es|, i requires 0 <= i < |es| => if es[i] in m then m[es[i]] else 0)
    }

    ghost function Ids(es: seq<List.Elem>): (ts: seq<Tid>)
      reads this`entry
      ensures |ts| == |es|
    {
      IdsIn(entry, es)
    }

    /** The thread is linked into q. */
    ghost predicate In(t: Tid, q: List.Queue)
      reads this`tags, q
    {
      t in tags && tags[t] in q.elems
    }

    /** The thread's link is in no list. */
    ghost predicate Loose(t: Tid)
      reads this`tags, Queues()
    {
      forall q :: q in Queues() ==> !In(t, q)
    }

    /** A well-formed list of threads' links. */
    ghost predicate ListOk(q: List.Queue)
      reads this`tags, this`entry, this`nodes, q, nodes
    {
      && (forall e :: e in q.Chain() ==> e in nodes)
      && q.Valid()
      && (forall e :: e in q.elems ==> e in entry && entry[e] in tags && tags[entry[e]] == e)
      && (forall t :: t in tags ==> tags[t] != q.head && tags[t] != q.tail)
    }

    ghost predicate ListsOk()
      reads this`tags, this`entry, this`nodes, Queues(), nodes
    {
      && ready !in waits
      && (forall i, j :: 0 <= i < j < |waits| ==> waits[i] != waits[j])
      && (forall q {:trigger ListOk(q)} :: q in Queues() ==> ListOk(q))
      && (forall q, r {:trigger Apart(q, r)} :: q in Queues() && r in Queues() && q != r ==> Apart(q, r))
      && (forall t :: t in tags ==> tags[t] in entry && entry[tags[t]] == t && tags[t] in nodes)
    }

    ghost predicate Valid()
      reads this`values, this`threads, this`tags, this`entry, this`nodes, Queues(), nodes
    {
      ListsOk() && |waits| == |values| && tags.Keys == threads.Keys
    }

    ghost function Ready(): seq<Tid>
      reads this`entry, ready
    {
      Ids(ready.elems)
    }

    ghost function Waiters(q: nat): seq<Tid>
      requires q < |waits|
      reads this`entry, waits[q]
    {
      Ids(waits[q].elems)
    }

    ghost function Sched(): State
      reads this`threads, this`cur, this`idle, this`entry, ready
    {
      State(threads, Ready(), cur, idle)
    }

    ghost function Semas(): seq<Sema>
      requires |waits| == |values|
      reads this`entry, this`values, waits
    {
      var vs, m, ws := values, entry, waits;
      seq(|vs|, q requires 0 <= q < |vs| == |ws| reads ws => Sema(vs[q], IdsIn(m, ws[q].elems)))
    }

    ghost function Whole(): Sys
      requires |waits| == |values|
      reads this, ready, waits
    {
      Sys(Sched(), Semas(), locks, pc, held, owner, slots)
    }

    /** The globals before idle is in the ready list. */
    constructor (b: Sys)
      requires b.Shaped()
      ensures Valid() && (forall t :: Loose(t)) && |values| == |b.semas|
      ensures fresh(nodes) && forall q :: q in Queues() ==> fresh(q) && q.elems == []
      ensures (forall q :: 0 <= q < |b.semas| ==> values[q] == b.semas[q].value) && cur == b.sched.cur && idle == b.sched.idle
      ensures threads == b.sched.threads && locks == b.locks && pc == b.pc && held == b.held
      ensures owner == b.owner && slots == b.slots
    {
      ghost var ends, ours;
      var qs, links, back;
      qs, ends := EmptyLists(|b.semas| + 1);
      links, back, ours := Links(b.sched.threads.Keys);
      ready, waits := qs[0], qs[1..];
      values := seq(|b.semas|, i requires 0 <= i < |b.semas| => b.semas[i].value);
      threads, cur, idle := b.sched.threads, b.sched.cur, b.sched.idle;
      locks, pc, held, owner, slots := b.locks, b.pc, b.held, b.owner, b.slots;
      tags, entry := links, back;
      nodes := ends + ours;
      new;
      forall q | q in Queues() ensures q in qs {
      }
      NothingLinked();
    }

    /** One link for each thread. */
    static method Links(ts: set<Tid>) returns (links: map<Tid, List.Elem>, back: map<List.Elem, Tid>, ghost all: set<List.Elem>)
      ensures links.Keys == ts && (forall t :: t in ts ==> links[t] in back && back[links[t]] == t && links[t] in all)
      ensures fresh(all)
    {
      links, back, all := map[], map[], {};
      var left := ts;
      while left != {}
        invariant left <= ts && links.Keys == ts - left
        invariant forall t :: t in links ==> links[t] in back && back[links[t]] == t && links[t] in all
        invariant back.Keys <= all && fresh(all)
      {
        var t :| t in left;
        var e := new List.Elem();
        links, back, left, all := links[t := e], back[e := t], left - {t}, all + {e};
      }
    }

    static method Booted(main: Tid, idleThread: Tid, nlocks: nat, nsemas: nat, nslots: nat) returns (m: Machine)
      requires main != idleThread && nlocks <= nsemas && nslots <= 2 * nlocks
      ensures m.Valid() && m.Whole() == Boot(main, idleThread, nlocks, nsemas, nslots) && SysInv(m.Whole())
    {
      BootOk(main, idleThread, nlocks, nsemas, nslots);
      var b := Boot(main, idleThread, nlocks, nsemas, nslots);
      m := new Machine(b);
      assert m.ListOk(m.ready) && m.ready in m.Queues() && m.tags[idleThread] in m.nodes;
      assert m.ready.Chain() == [m.ready.head, m.ready.tail];
      assert m.ready.head in m.ready.Chain() && m.ready.tail in m.ready.Chain();
      m.Append(m.ready, idleThread);
      m.IsBoot(b, main, nlocks, nsemas, nslots);
    }

    lemma NothingLinked()
      requires |waits| == |values| && ready !in waits && forall i, j :: 0 <= i < j < |waits| ==> waits[i] != waits[j]
      requires forall q :: q in Queues() ==> q.Valid() && q.elems == [] && q.head in nodes && q.tail in nodes
      requires forall q, r {:trigger Apart(q, r)} :: q in Queues() && r in Queues() && q != r ==> Apart(q, r)
      requires tags.Keys == threads.Keys && forall t :: t in tags ==> tags[t] in entry && entry[tags[t]] == t && tags[t] in nodes
      requires forall t, q :: t in tags && q in Queues() ==> tags[t] != q.head && tags[t] != q.tail
      ensures Valid() && forall t :: Loose(t)
    {
    }

    lemma IsBoot(b: Sys, main: Tid, nlocks: nat, nsemas: nat, nslots: nat)
      requires main != idle && nlocks <= nsemas && nslots <= 2 * nlocks
      requires b == Boot(main, idle, nlocks, nsemas, nslots)
      requires |waits| == |values| == nsemas && Ready() == [idle] && cur == main
      requires forall q :: 0 <= q < nsemas ==> values[q] == (if q < nlocks then 1 else 0) && waits[q].elems == []
      requires threads == b.sched.threads && locks == b.locks && pc == b.pc && held == b.held
      requires owner == b.owner && slots == b.slots
      ensures Whole() == b && SysInv(Whole())
    {
      forall q | 0 <= q < nsemas ensures Semas()[q] == b.semas[q] {
        assert Waiters(q) == [];
      }
      assert Semas() == b.semas;
      BootOk(main, idle, nlocks, nsemas, nslots);
    }

    static method EmptyLists(n: nat) returns (qs: seq<List.Queue>, ghost ends: set<List.Elem>)
      ensures |qs| == n && fresh(ends)
      ensures forall q :: q in qs ==> fresh(q) && q.Valid() && q.elems == [] && q.head in ends && q.tail in ends
      ensures forall i, j :: 0 <= i < |qs| && 0 <= j < |qs| && i != j ==> qs[i] != qs[j] && Apart(qs[i], qs[j])
    {
      qs, ends := [], {};
      while |qs| < n
        invariant |qs| <= n && fresh(ends)
        invariant forall q :: q in qs ==> fresh(q) && q.Valid() && q.elems == [] && q.head in ends && q.tail in ends
        invariant forall i, j :: 0 <= i < |qs| && 0 <= j < |qs| && i != j ==> qs[i] != qs[j] && Apart(qs[i], qs[j])
      {
        var w := new List.Queue();
        qs, ends := qs + [w], ends + {w.head, w.tail};
      }
    }

    // -------------------------------------------------------------- one thread into or out of one list

    lemma Foreign(q: List.Queue, r: List.Queue, t: Tid)
      requires ListsOk() && q in Queues() && r in Queues() && q != r && t in tags && Loose(t)
      ensures ListOk(r) && tags[t] !in r.Chain() && forall e :: e in q.Chain() ==> e !in r.Chain()
    {
      assert ListOk(r) && Apart(q, r) && !In(t, r);
    }

    method Push(q: List.Queue, t: Tid)
      requires ListsOk() && q in Queues() && t in tags && Loose(t)
      modifies q, q.Chain(), tags[t]
      ensures ListsOk() && Ids(q.elems) == [t] + old(Ids(q.elems))
      ensures forall r :: r in Queues() && r != q ==> r.elems == old(r.elems)
    {
      ghost var c := q.Chain();
      assert ListOk(q) && !In(t, q);
      forall r | r in Queues() && r != q
        ensures ListOk(r) && tags[t] !in r.Chain() && forall e :: e in c ==> e !in r.Chain()
      {
        Foreign(q, r, t);
      }
      forall r, p | r in Queues() && p in Queues() && r != p ensures Apart(r, p) {
      }
      q.Push(tags[t]);
      forall r | r in Queues() && r != q ensures ListOk(r) && Apart(r, q) && Apart(q, r) {
        List.StillLinked(r.Chain());
      }
      forall r, p | r in Queues() && p in Queues() && r != p ensures Apart(r, p) {
      }
      assert ListOk(q);
    }

    method Append(q: List.Queue, t: Tid)
      requires ListsOk() && q in Queues() && t in tags && Loose(t)
      modifies q, q.Chain(), tags[t]
      ensures ListsOk() && Ids(q.elems) == old(Ids(q.elems)) + [t]
      ensures forall r :: r in Queues() && r != q ==> r.elems == old(r.elems)
    {
      ghost var c := q.Chain();
      assert ListOk(q) && !In(t, q);
      forall r | r in Queues() && r != q
        ensures ListOk(r) && tags[t] !in r.Chain() && forall e :: e in c ==> e !in r.Chain()
      {
        Foreign(q, r, t);
      }
      forall r, p | r in Queues() && p in Queues() && r != p ensures Apart(r, p) {
      }
      q.Append(tags[t]);
      forall r | r in Queues() && r != q ensures ListOk(r) && Apart(r, q) && Apart(q, r) {
        List.StillLinked(r.Chain());
      }
      forall r, p | r in Queues() && p in Queues() && r != p ensures Apart(r, p) {
      }
      assert ListOk(q);
    }

    method Pop(q: List.Queue) returns (t: Tid)
      requires ListsOk() && q in Queues() && q.elems != []
      modifies q, q.Chain()
      ensures ListsOk() && [t] + Ids(q.elems) == old(Ids(q.elems)) && t in tags && Loose(t)
      ensures forall r :: r in Queues() && r != q ==> r.elems == old(r.elems)
    {
      ghost var was := Ids(q.elems);
      assert ListOk(q) && q.elems[0] in q.elems;
      var e := PopLink(q);
      hide ListsOk;
      t := entry[e];
      assert [t] + Ids(q.elems) == was;
    }

    method PopLink(q: List.Queue) returns (e: List.Elem)
      requires ListsOk() && q in Queues() && q.elems != []
      modifies q, q.Chain()
      ensures ListsOk() && [e] + q.elems == old(q.elems) && forall r :: r in Queues() ==> e !in r.elems
      ensures forall r :: r in Queues() && r != q ==> r.elems == old(r.elems)
    {
      ghost var c, was := q.Chain(), q.elems;
      assert ListOk(q) && was[0] in was;
      forall r | r in Queues() && r != q
        ensures ListOk(r) && was[0] !in r.Chain() && forall x :: x in c ==> x !in r.Chain()
      {
        assert Apart(q, r) && was[0] in c;
      }
      forall r, p | r in Queues() && p in Queues() && r != p ensures Apart(r, p) {
      }
      e := q.Pop();
      PoppedOnce(c, was, e, q.elems);
      forall r | r in Queues() && r != q ensures ListOk(r) && Apart(r, q) && Apart(q, r) {
        List.StillLinked(r.Chain());
      }
      forall r, p | r in Queues() && p in Queues() && r != p ensures Apart(r, p) {
      }
      assert ListOk(q);
    }

    lemma PoppedOnce(c: seq<List.Elem>, was: seq<List.Elem>, e: List.Elem, left: seq<List.Elem>)
      requires List.Distinct(c) && |c| == |was| + 2 && c[1..|was| + 1] == was == [e] + left
      ensures e !in left && e == was[0] && forall x :: x in left ==> x in was
    {
      forall i | 0 <= i < |left| ensures left[i] != e {
        assert c[1] == was[0] && c[i + 2] == was[i + 1] == left[i];
      }
    }

    /** elem_find. */
    method Find(q: List.Queue, t: Tid) returns (found: bool)
      requires ListsOk() && q in Queues() && t in tags
      ensures found <==> t in Ids(q.elems)
    {
      assert ListOk(q);
      found := q.Find(tags[t]);
      InIsId(q, t);
    }

    lemma InIsId(q: List.Queue, t: Tid)
      requires ListsOk() && q in Queues() && t in tags
      ensures In(t, q) <==> t in Ids(q.elems)
    {
      assert ListOk(q);
      if In(t, q) {
        var i :| 0 <= i < |q.elems| && q.elems[i] == tags[t];
        assert Ids(q.elems)[i] == t;
      }
      if t in Ids(q.elems) {
        var i :| 0 <= i < |q.elems| && Ids(q.elems)[i] == t;
        assert q.elems[i] in q.elems;
      }
    }

    /** t is in no semaphore's list. */
    ghost predicate NotWaiting(t: Tid)
      reads this`entry, waits
    {
      forall q :: 0 <= q < |waits| ==> t !in Waiters(q)
    }

    lemma LooseIff(t: Tid)
      requires ListsOk() && t in tags
      ensures Loose(t) <==> t !in Ready() && NotWaiting(t)
    {
      InIsId(ready, t);
      forall q | 0 <= q < |waits| ensures In(t, waits[q]) <==> t in Waiters(q) {
        InIsId(waits[q], t);
      }
      if t !in Ready() && NotWaiting(t) {
        forall q | q in Queues() ensures !In(t, q) {
        }
      }
      if Loose(t) {
        assert !In(t, ready);
        forall q | 0 <= q < |waits| ensures t !in Waiters(q) {
          assert !In(t, waits[q]);
        }
      }
    }

    // -------------------------------------------------------------- thread.c and timer.c

    /** thread_unblock: `ok` says that no assertion failed. */
    method ThreadUnblock(t: Tid) returns (ok: bool)
      requires Valid() && InTransit(Sched()) && t in threads && NotWaiting(t)
      modifies `threads, ready, nodes
      ensures Valid() && ok == (old(threads[t].status) == Blocked)
      ensures ok ==> InTransit(Sched()) && Unblock(old(Sched()), t) == Next(Sched())
      ensures ok ==> Ready() == [t] + old(Ready())
    {
      hide ListsOk;
      if threads[t].status != Blocked {
        return false;
      }
      UnblockSafe(Sched(), t);
      var found := Find(ready, t);
      assert !found;
      ReadyPush(t);
      threads := threads[t := threads[t].(status := Status.Ready)];
      return true;
    }

    method ReadyPush(t: Tid)
      requires ListsOk() && t in tags && t !in Ready() && NotWaiting(t)
      modifies ready, nodes
      ensures ListsOk() && Ready() == [t] + old(Ready())
      ensures forall u {:trigger NotWaiting(u)} :: old(NotWaiting(u)) ==> NotWaiting(u)
    {
      LooseIff(t);
      assert ListOk(ready);
      Push(ready, t);
    }

    method ReadyAppend(t: Tid)
      requires ListsOk() && t in tags && t !in Ready() && NotWaiting(t)
      modifies ready, nodes
      ensures ListsOk() && Ready() == old(Ready()) + [t]
      ensures forall u {:trigger NotWaiting(u)} :: old(NotWaiting(u)) ==> NotWaiting(u)
    {
      LooseIff(t);
      assert ListOk(ready);
      Append(ready, t);
    }

    method ReadyPop() returns (t: Tid)
      requires ListsOk() && Ready() != []
      modifies ready, nodes
      ensures ListsOk() && [t] + Ready() == old(Ready()) && t in tags
    {
      assert ListOk(ready);
      t := Pop(ready);
    }

    /** The first half of schedule. */
    method Requeue()
      requires Valid() && InTransit(Sched()) && (threads[cur].status == Running ==> NotWaiting(cur))
      modifies `threads, ready, nodes
      ensures Valid() && Sched() == Requeued(old(Sched()))
      ensures forall u {:trigger NotWaiting(u)} :: old(NotWaiting(u)) ==> NotWaiting(u)
    {
      hide ListsOk;
      if threads[cur].status == Running {
        RequeuedInTransit(Sched());
        var found := Find(ready, cur);
        assert !found;
        ReadyAppend(cur);
        var p := threads[cur].priority;
        threads := threads[cur := Thread(Status.Ready, p, p)];
      }
    }

    /** With nobody ready, idle is woken. */
    method WakeIdle()
      requires Valid() && InTransit(Sched()) && NotWaiting(idle)
      requires Ready() == [] ==> threads[idle].status == Blocked
      modifies `threads, ready, nodes
      ensures Valid() && InTransit(Sched()) && Ready() != []
      ensures (if old(Ready()) == [] then Unblock(old(Sched()), idle) else Next(old(Sched()))) == Next(Sched())
    {
      assert ListOk(ready);
      var none := ready.Empty();
      if none {
        var ok := ThreadUnblock(idle);
        assert ok;
      }
    }

    method Dispatch()
      requires Valid() && InTransit(Sched()) && Ready() != []
      modifies `threads, `cur, ready, nodes
      ensures Valid() && Sched() == Dispatched(old(Sched()))
    {
      var next := ReadyPop();
      threads := threads[next := threads[next].(status := Running)];
      cur := next;
    }

    /** schedule: neither assertion can fail, and there is always a thread to switch to. */
    method Schedule()
      requires Valid() && InTransit(Sched()) && NotWaiting(idle)
      requires threads[cur].status == Running ==> NotWaiting(cur)
      modifies `threads, `cur, ready, nodes
      ensures Valid() && Inv(Sched()) && Scheduler.Schedule(old(Sched())) == Next(Sched())
      ensures RunnerRefilled(old(Sched()), Sched())
    {
      hide ListsOk, InTransit, Inv;
      RequeuedInTransit(Sched());
      ScheduleFindsSuccessor(Sched());
      ScheduleQuanta(Sched());
      Requeue();
      WakeIdle();
      Dispatch();
    }

    /** thread_block: the caller is blocked, and the first ready thread runs, or idle. */
    method ThreadBlock()
      requires Valid() && Inv(Sched()) && NotWaiting(idle)
      modifies `threads, `cur, ready, nodes
      ensures Valid() && Inv(Sched()) && Block(old(Sched())) == Next(Sched()) && QuantaKept(old(Sched()), Sched())
      ensures cur == if old(Ready()) != [] then old(Ready()[0]) else idle
      ensures old(cur) != idle ==> threads[old(cur)].status == Blocked
    {
      BlockHandsOver(Sched());
      BlockQuanta(Sched());
      threads := threads[cur := threads[cur].(status := Blocked)];
      Schedule();
    }

    lemma BlockHandsOver(s: State)
      requires Inv(s)
      ensures Block(s).Next? && Block(s).value.cur == (if s.ready != [] then s.ready[0] else s.idle)
      ensures InTransit(s.Set(s.cur, Blocked)) && s.cur in Block(s).value.threads
      ensures s.cur != s.idle ==> Block(s).value.Status(s.cur) == Blocked
    {
      BlockSafe(s);
      assert s.ready != [] ==> s.ready[0] in s.ready;
    }

    lemma YieldRotates(s: State)
      requires Inv(s)
      ensures Yield(s).Next? && [Yield(s).value.cur] + Yield(s).value.ready == s.ready + [s.cur]
    {
      YieldSafe(s);
    }

    lemma TickRotates(s: State)
      requires Inv(s)
      ensures TimerTick(s).Next? && Inv(TimerTick(s).value)
      ensures s.threads[s.cur].ticks == 0 ==>
                [TimerTick(s).value.cur] + TimerTick(s).value.ready == s.ready + [s.cur]
    {
      TimerTickSafe(s);
    }

    /** thread_yield: the caller goes behind the others, and the first of them all runs. */
    method ThreadYield()
      requires Valid() && Inv(Sched()) && NotWaiting(idle) && NotWaiting(cur)
      modifies `threads, `cur, ready, nodes
      ensures Valid() && Inv(Sched()) && Yield(old(Sched())) == Next(Sched()) && QuantaKept(old(Sched()), Sched())
      ensures [cur] + Ready() == old(Ready() + [cur])
    {
      YieldRotates(Sched());
      YieldQuanta(Sched());
      YieldingInTransit(Sched());
      GiveUp();
      Schedule();
    }

    method GiveUp()
      requires Valid() && cur in threads && cur !in Ready() && NotWaiting(cur)
      modifies `threads, ready, nodes
      ensures Valid() && Sched() == Yielding(old(Sched()))
    {
      var found := Find(ready, cur);
      assert !found;
      ReadyAppend(cur);
      threads := threads[cur := threads[cur].(status := Status.Ready)];
    }

    /** The timer interrupt: with ticks left the caller goes on, otherwise it yields with a full quantum. */
    method IntrTimerHandler()
      requires Valid() && Inv(Sched()) && NotWaiting(idle) && NotWaiting(cur)
      modifies `threads, `cur, ready, nodes
      ensures Valid() && Inv(Sched()) && TimerTick(old(Sched())) == Next(Sched())
      ensures if old(threads[cur].ticks) > 0 then OneTickTaken(old(Sched()), Sched()) else RunnerRefilled(old(Sched()), Sched())
      ensures old(threads[cur].ticks) > 0 ==> cur == old(cur) && Ready() == old(Ready())
      ensures old(threads[cur].ticks) == 0 ==> [cur] + Ready() == old(Ready() + [cur])
    {
      TickRotates(Sched());
      TickQuanta(Sched());
      if threads[cur].ticks == 0 {
        Schedule();
      } else {
        threads := threads[cur := threads[cur].(ticks := threads[cur].ticks - 1)];
      }
    }

    // -------------------------------------------------------------- sync.c

    /** Who runs, and idle, is on no wait list. */
    lemma RunnersNotWaiting()
      requires Valid() && SysInv(Whole())
      ensures NotWaiting(cur) && NotWaiting(idle)
    {
      var s := Whole();
      assert ThreadOk(s, idle);
      forall q | 0 <= q < |waits| ensures cur !in Waiters(q) && idle !in Waiters(q) {
        assert SemaOk(s, q) && s.semas[q].waiters == Waiters(q);
      }
    }

    lemma SemasUpdated(semas0: seq<Sema>, q: nat, m: Sema)
      requires |waits| == |values| == |semas0| && q < |values|
      requires Sema(values[q], Waiters(q)) == m
      requires forall i :: 0 <= i < |values| && i != q ==> Sema(values[i], Waiters(i)) == semas0[i]
      ensures Semas() == semas0[q := m]
    {
    }

    /** One list other than the ready list. */
    lemma WaitsAreQueues(q: nat)
      requires ListsOk() && q < |waits|
      ensures waits[q] in Queues() && ListOk(waits[q]) && waits[q] != ready
      ensures forall i :: 0 <= i < |waits| && i != q ==> waits[i] in Queues() && waits[i] != waits[q]
    {
    }

    method WaitAppend(q: nat, t: Tid)
      requires ListsOk() && q < |waits| && t in tags && Loose(t)
      modifies waits[q], nodes
      ensures ListsOk() && Waiters(q) == old(Waiters(q)) + [t] && Ready() == old(Ready())
      ensures forall i :: 0 <= i < |waits| && i != q ==> Waiters(i) == old(Waiters(i))
    {
      WaitsAreQueues(q);
      Append(waits[q], t);
    }

    method WaitPop(q: nat) returns (t: Tid)
      requires ListsOk() && q < |waits| && Waiters(q) != []
      modifies waits[q], nodes
      ensures ListsOk() && [t] + Waiters(q) == old(Waiters(q)) && Ready() == old(Ready()) && t in tags && Loose(t)
      ensures forall i :: 0 <= i < |waits| && i != q ==> Waiters(i) == old(Waiters(i))
    {
      WaitsAreQueues(q);
      t := Pop(waits[q]);
    }

    /** The first waiter goes from the semaphore's list to the front of the ready list. */
    method WakeFirst(q: nat)
      requires Valid() && InTransit(Sched()) && q < |waits| && Waiters(q) != []
      requires Waiters(q)[0] in threads && threads[Waiters(q)[0]].status == Blocked
      modifies `threads, ready, waits[q], nodes
      ensures Valid() && Unblock(old(Sched()), old(Waiters(q)[0])) == Next(Sched())
      ensures Waiters(q) == old(Waiters(q))[1..] && Ready() == [old(Waiters(q)[0])] + old(Ready())
      ensures forall i :: 0 <= i < |waits| && i != q ==> Waiters(i) == old(Waiters(i))
    {
      var t := WaitPop(q);
      LooseIff(t);
      var ok := ThreadUnblock(t);
      assert ok;
    }

    /** sema_up: the first waiter is unblocked and goes in front of the ready list. */
    method Raise(q: nat)
      requires Valid() && InTransit(Sched()) && q < |values| && values[q] == 0
      requires Waiters(q) != [] ==> Waiters(q)[0] in threads && threads[Waiters(q)[0]].status == Blocked
      modifies `values, `threads, ready, waits[q], nodes
      ensures Valid() && values == old(values)[q := 1]
      ensures old(Waiters(q)) == [] ==> Waiters(q) == [] && Sched() == old(Sched())
      ensures old(Waiters(q)) != [] ==> && Unblock(old(Sched()), old(Waiters(q)[0])) == Next(Sched())
                                        && Waiters(q) == old(Waiters(q))[1..]
                                        && Ready() == [old(Waiters(q)[0])] + old(Ready())
      ensures Semas() == old(Semas())[q := Sema(1, Waiters(q))]
    {
      ghost var semas0 := Semas();
      WakeAny(q);
      values := values[q := 1];
      SemasUpdated(semas0, q, Sema(1, Waiters(q)));
    }

    method WakeAny(q: nat)
      requires Valid() && InTransit(Sched()) && q < |waits|
      requires Waiters(q) != [] ==> Waiters(q)[0] in threads && threads[Waiters(q)[0]].status == Blocked
      modifies `threads, ready, waits[q], nodes
      ensures Valid() && forall i :: 0 <= i < |waits| && i != q ==> Waiters(i) == old(Waiters(i))
      ensures old(Waiters(q)) == [] ==> Waiters(q) == [] && Sched() == old(Sched())
      ensures old(Waiters(q)) != [] ==> && Unblock(old(Sched()), old(Waiters(q)[0])) == Next(Sched())
                                        && Waiters(q) == old(Waiters(q))[1..]
                                        && Ready() == [old(Waiters(q)[0])] + old(Ready())
    {
      WaitsAreQueues(q);
      var none := waits[q].Empty();
      if !none {
        WakeFirst(q);
      }
    }

    /** Called from lock_release, or from the handler of a disk interrupt. */
    method SemaUp(q: nat)
      requires Valid() && SysInv(Whole()) && q < |values| && values[q] == 0
      modifies `values, `threads, ready, waits[q], nodes
      ensures Valid() && Sync.SemaUp(old(Whole()), q) == Next(Whole())
    {
      UpMatters(q);
      ghost var s := Whole();
      Raise(q);
      UpIs(s, q, Whole());
    }

    lemma UpIs(s: Sys, q: nat, r: Sys)
      requires s.Shaped() && q < |s.semas| && s.semas[q].value == 0
      requires r == s.(semas := r.semas, sched := r.sched)
      requires s.semas[q].waiters == [] ==> r.sched == s.sched && r.semas == s.semas[q := Sema(1, [])]
      requires s.semas[q].waiters != [] ==> && Unblock(s.sched, s.semas[q].waiters[0]) == Next(r.sched)
                                            && r.semas == s.semas[q := Sema(1, s.semas[q].waiters[1..])]
      ensures Sync.SemaUp(s, q) == Next(r)
    {
    }

    lemma UpMatters(q: nat)
      requires Valid() && SysInv(Whole()) && q < |values|
      ensures Inv(Sched())
      ensures Waiters(q) != [] ==> Waiters(q)[0] in threads && threads[Waiters(q)[0]].status == Blocked
    {
      var s := Whole();
      assert SemaOk(s, q) && s.semas[q].waiters == Waiters(q);
      if Waiters(q) != [] {
        assert Waiters(q)[0] in Waiters(q);
      }
    }

    lemma DownMatters(q: nat)
      requires Valid() && SysInv(Whole()) && q < |values| && (pc[cur] == DownEntry(q) || pc[cur] == DownRecheck(q))
      ensures Inv(Sched()) && NotWaiting(cur) && NotWaiting(idle) && cur != idle && values[q] <= 1 && |owner| == |locks|
    {
      RunnersNotWaiting();
      assert SemaOk(Whole(), q) && ThreadOk(Whole(), cur);
    }

    /** The caller goes to the end of the semaphore's list. */
    method JoinList(q: nat)
      requires Valid() && cur in threads && cur !in Ready() && NotWaiting(cur) && q < |values| && values[q] == 0
      modifies `pc, waits[q], nodes
      ensures Valid() && Ready() == old(Ready()) && pc == old(pc)[cur := DownRecheck(q)]
      ensures forall t :: t != cur && old(NotWaiting(t)) ==> NotWaiting(t)
      ensures Semas() == old(Semas())[q := Sema(0, old(Waiters(q)) + [cur])]
    {
      ghost var semas0 := Semas();
      WaitsAreQueues(q);
      assert cur !in Waiters(q);
      var found := Find(waits[q], cur);
      assert !found;
      LooseIff(cur);
      WaitAppend(q, cur);
      pc := pc[cur := DownRecheck(q)];
      SemasUpdated(semas0, q, Sema(0, Waiters(q)));
    }

    /** It blocks there, and the next thread runs. */
    method WaitFor(q: nat)
      requires Valid() && Inv(Sched()) && NotWaiting(cur) && NotWaiting(idle) && cur != idle
      requires q < |values| && values[q] == 0
      modifies `pc, `threads, `cur, ready, waits[q], nodes
      ensures Valid() && Inv(Sched()) && Block(old(Sched())) == Next(Sched())
      ensures pc == old(pc)[old(cur) := DownRecheck(q)] && threads[old(cur)].status == Blocked
      ensures Semas() == old(Semas())[q := Sema(0, old(Waiters(q)) + [old(cur)])]
    {
      JoinList(q);
      ThreadBlock();
    }

    /** The value is 1: the caller takes it. */
    method Take(q: nat)
      requires Valid() && q < |values| && values[q] == 1 && |owner| == |locks|
      modifies `pc, `owner, `values
      ensures Valid() && pc == old(pc)[cur := if q < |locks| then AcqHolder(q) else Outside]
      ensures values == old(values)[q := 0]
      ensures owner == if q < |locks| then old(owner)[q := Some(cur)] else old(owner)
      ensures Semas() == old(Semas())[q := Sema(0, Waiters(q))]
    {
      ghost var semas0 := Semas();
      values := values[q := values[q] - 1];
      assert values[q] == 0;
      if q < |locks| {
        pc, owner := pc[cur := AcqHolder(q)], owner[q := Some(cur)];
      } else {
        pc := pc[cur := Outside];
      }
      SemasUpdated(semas0, q, Sema(0, Waiters(q)));
    }

    /** One pass of the loop of sema_down; a thread that blocks is at its re-check when it runs again. */
    method SemaDownPass(q: nat)
      requires Valid() && SysInv(Whole()) && q < |values| && (pc[cur] == DownEntry(q) || pc[cur] == DownRecheck(q))
      modifies `pc, `owner, `values, `threads, `cur, ready, waits[q], nodes
      ensures Valid() && SysInv(Whole()) && SemaDown(old(Whole()), q) == Next(Whole())
      ensures old(values[q]) == 0 ==> && cur != old(cur) && threads[old(cur)].status == Blocked
                                      && pc == old(pc)[old(cur) := DownRecheck(q)]
      ensures old(values[q]) != 0 ==> && cur == old(cur) && values[q] == 0
                                      && pc == old(pc)[cur := if q < |locks| then AcqHolder(q) else Outside]
      ensures held == old(held)
    {
      hide SysInv, ListsOk;
      DownMatters(q);
      ghost var s := Whole();
      if values[q] == 0 {
        WaitFor(q);
        DownBlocksIs(s, q, Whole());
      } else {
        Take(q);
        DownTakesIs(s, q, Whole());
      }
    }

    lemma DownBlocksIs(s: Sys, q: nat, r: Sys)
      requires SysInv(s) && q < |s.semas| && s.semas[q].value == 0
      requires s.pc[s.sched.cur] == DownEntry(q) || s.pc[s.sched.cur] == DownRecheck(q)
      requires r == s.(pc := r.pc, semas := r.semas, sched := r.sched) && r.pc == s.pc[s.sched.cur := DownRecheck(q)]
      requires r.semas == s.semas[q := Sema(0, s.semas[q].waiters + [s.sched.cur])] && Block(s.sched) == Next(r.sched)
      ensures SemaDown(s, q) == Next(r) && SysInv(r)
    {
      assert SemaOk(s, q);
      DownBlocks(s, q);
    }

    lemma DownTakesIs(s: Sys, q: nat, r: Sys)
      requires SysInv(s) && q < |s.semas| && s.semas[q].value != 0
      requires s.pc[s.sched.cur] == DownEntry(q) || s.pc[s.sched.cur] == DownRecheck(q)
      requires r == s.(pc := r.pc, semas := r.semas, owner := r.owner)
      requires r.pc == s.pc[s.sched.cur := if q < |s.locks| then AcqHolder(q) else Outside]
      requires r.owner == if q < |s.locks| then s.owner[q := Some(s.sched.cur)] else s.owner
      requires r.semas == s.semas[q := Sema(0, s.semas[q].waiters)]
      ensures SemaDown(s, q) == Next(r) && SysInv(r)
    {
      DownTakes(s, q);
    }

    /** The lines of lock_acquire outside sema_down, by the thread's place in it. */
    method AcquireCode(l: nat)
      requires l < |locks| && cur in pc && cur in held && AcquireLine(pc[cur], l)
      requires pc[cur] == AcqRepeat(l) ==> locks[l].repeat == 0
      modifies `pc, `locks, `held
      ensures var a := TakenBy(cur, old(pc[cur]), old(locks[l]), old(held[cur]), l);
              pc == old(pc)[cur := a.pc] && locks == old(locks)[l := a.lock] && held == old(held)[cur := a.held]
    {
      match pc[cur]
      case AcqTest(_) =>
        pc := pc[cur := if locks[l].holder != Some(cur) then DownEntry(l) else AcqInc(l)];
      case AcqInc(_) =>
        locks := locks[l := Lock(locks[l].holder, locks[l].repeat + 1)];
        held := held[cur := held[cur] + multiset{l}];
        pc := pc[cur := Outside];
      case AcqHolder(_) =>
        locks := locks[l := Lock(Some(cur), locks[l].repeat)];
        pc := pc[cur := AcqRepeat(l)];
      case AcqRepeat(_) =>
        assert locks[l].repeat == 0;
        locks := locks[l := Lock(locks[l].holder, 1)];
        held := held[cur := held[cur] + multiset{l}];
        pc := pc[cur := Outside];
    }

    method AcquirePart(l: nat)
      requires Valid() && l < |locks| && cur in pc && cur in held && AcquireLine(pc[cur], l)
      requires pc[cur] == AcqRepeat(l) ==> locks[l].repeat == 0
      modifies `pc, `locks, `held
      ensures Valid()
      ensures Did(old(Whole()), Whole(), l, TakenBy(cur, old(pc[cur]), old(locks[l]), old(held[cur]), l))
    {
      hide TakenBy, AcquireLine;
      AcquireCode(l);
    }

    /** One line of lock_acquire under the invariant: neither assertion can fail. */
    method LockAcquireStep(l: nat)
      requires Valid() && SysInv(Whole()) && l < |locks| && AcquireLine(pc[cur], l)
      modifies `pc, `locks, `held
      ensures Valid() && SysInv(Whole()) && Statement(old(Whole())) == Next(Whole())
      ensures AcquireMoves(old(Whole()), Whole(), l)
    {
      hide SysInv;
      hide ListsOk, TakenBy;
      ghost var s := Whole();
      AcquireFacts(s, l);
      AcquirePart(l);
      AcquireIs(s, Whole(), l);
    }

    method EnterAcquire(l: nat)
      requires Valid() && SysInv(Whole()) && l < |locks| && cur in pc && pc[cur] == Outside && cur != idle
      modifies `pc
      ensures Valid() && SysInv(Whole()) && pc == old(pc)[cur := AcqTest(l)]
    {
      hide SysInv;
      ghost var s := Whole();
      AcquireFacts(s, l);
      CallKeeps(s, AcqTest(l), l);
      pc := pc[cur := AcqTest(l)];
      assert Whole() == s.Goto(AcqTest(l));
    }

    /** Lines 86-89, or line 93. */
    method FinishAcquire(l: nat)
      requires Valid() && SysInv(Whole()) && l < |locks| && cur in pc && (pc[cur] == AcqHolder(l) || pc[cur] == AcqInc(l))
      modifies `pc, `locks, `held
      ensures Valid() && SysInv(Whole()) && l < |locks| && cur in pc && cur in held && pc[cur] == Outside
      ensures cur in old(held) && held == old(held)[cur := old(held[cur]) + multiset{l}]
      ensures locks[l] == Lock(Some(cur), held[cur][l])
    {
      hide SysInv;
      if pc[cur] == AcqHolder(l) {
        LockAcquireStep(l);
      }
      LockAcquireStep(l);
      UnguardedTestIsRight(Whole(), cur, l);
    }

    /** Lines 85-89. */
    method AcquireFresh(l: nat) returns (got: bool)
      requires Valid() && SysInv(Whole()) && l < |locks| && cur in pc && cur in held && pc[cur] == DownEntry(l)
      modifies `pc, `locks, `held, `owner, `values, `threads, `cur, ready, waits[l], nodes
      ensures Valid() && SysInv(Whole()) && l < |locks| && got == (old(values[l]) == 1)
      ensures got ==> && cur == old(cur) && cur in pc && cur in held && pc[cur] == Outside
                      && locks[l] == Lock(Some(cur), held[cur][l])
                      && held == old(held)[cur := old(held[cur]) + multiset{l}]
      ensures !got ==> cur != old(cur) && held == old(held) && OnWaitList(Whole(), old(cur), l)
    {
      hide SysInv, ListsOk;
      got := DownForLock(l);
      if !got {
        return;
      }
      FinishAcquire(l);
    }

    method DownForLock(l: nat) returns (got: bool)
      requires Valid() && SysInv(Whole()) && l < |locks| && cur in pc && cur in held && pc[cur] == DownEntry(l)
      modifies `pc, `owner, `values, `threads, `cur, ready, waits[l], nodes
      ensures Valid() && SysInv(Whole()) && l < |locks| && got == (old(values[l]) == 1)
      ensures got ==> cur == old(cur) && cur in pc && cur in held && pc[cur] == AcqHolder(l)
      ensures !got ==> cur != old(cur) && OnWaitList(Whole(), old(cur), l)
      ensures held == old(held)
    {
      hide SysInv, ListsOk, SemaDown, OnWaitList;
      LockFree(Whole(), l);
      var me := cur;
      SemaDownPass(l);
      LockFree(Whole(), l);
      if cur != me {
        WaitsThere(Whole(), me, l);
      }
      return cur == me;
    }

    /** lock_acquire until the thread has the lock or waits for it. */
    method LockAcquire(l: nat) returns (got: bool)
      requires Valid() && SysInv(Whole()) && l < |locks| && cur in held && cur in pc && pc[cur] == Outside && cur != idle
      modifies `pc, `locks, `held, `owner, `values, `threads, `cur, ready, waits[l], nodes
      ensures Valid() && SysInv(Whole()) && l < |locks|
      ensures got <==> old(held[cur][l]) > 0 || old(values[l]) == 1
      ensures got ==> && cur == old(cur) && cur in pc && cur in held && pc[cur] == Outside
                      && locks[l] == Lock(Some(cur), held[cur][l])
                      && held == old(held)[cur := old(held[cur]) + multiset{l}]
      ensures !got ==> cur != old(cur) && held == old(held) && OnWaitList(Whole(), old(cur), l)
    {
      hide SysInv;
      EnterAcquire(l);
      LockAcquireStep(l);
      if pc[cur] == DownEntry(l) {
        got := AcquireFresh(l);
      } else {
        FinishAcquire(l);
        got := true;
      }
    }

    lemma LockFree(s: Sys, l: nat)
      requires SysInv(s) && l < |s.locks|
      ensures s.Shaped() && s.semas[l].value <= 1
    {
      assert SemaOk(s, l);
    }

    lemma WaitsThere(s: Sys, t: Tid, q: nat)
      requires SysInv(s) && q < |s.semas| && t in s.pc && s.pc[t] == DownRecheck(q) && s.sched.Status(t) == Blocked
      ensures OnWaitList(s, t, q)
    {
      assert SemaOk(s, q);
    }

    /** The lines of lock_release before sema_up, by the thread's place in it. */
    method ReleaseCode(l: nat)
      requires l < |locks| && cur in pc && cur in held && ReleaseLine(pc[cur], l)
      requires pc[cur] == RelTest(l) ==> locks[l].holder == Some(cur)
      requires pc[cur] == RelDec(l) ==> locks[l].repeat > 0
      requires pc[cur] == RelClear(l) ==> locks[l].repeat == 1
      modifies `pc, `locks, `held
      ensures var a := LetGo(old(pc[cur]), old(locks[l]), old(held[cur]), l);
              pc == old(pc)[cur := a.pc] && locks == old(locks)[l := a.lock] && held == old(held)[cur := a.held]
    {
      match pc[cur]
      case RelTest(_) =>
        assert locks[l].holder == Some(cur);
        pc := pc[cur := if locks[l].repeat > 1 then RelDec(l) else RelClear(l)];
      case RelDec(_) =>
        locks := locks[l := Lock(locks[l].holder, locks[l].repeat - 1)];
        held := held[cur := held[cur] - multiset{l}];
        pc := pc[cur := Outside];
      case RelClear(_) =>
        assert locks[l].repeat == 1;
        locks := locks[l := Lock(None, locks[l].repeat)];
        pc := pc[cur := RelZero(l)];
      case RelZero(_) =>
        locks := locks[l := Lock(locks[l].holder, 0)];
        pc := pc[cur := RelUp(l)];
    }

    method ReleasePart(l: nat)
      requires Valid() && l < |locks| && cur in pc && cur in held && ReleaseLine(pc[cur], l)
      requires pc[cur] == RelTest(l) ==> locks[l].holder == Some(cur)
      requires pc[cur] == RelDec(l) ==> locks[l].repeat > 0
      requires pc[cur] == RelClear(l) ==> locks[l].repeat == 1
      modifies `pc, `locks, `held
      ensures Valid()
      ensures Did(old(Whole()), Whole(), l, LetGo(old(pc[cur]), old(locks[l]), old(held[cur]), l))
    {
      hide LetGo, ReleaseLine;
      ReleaseCode(l);
    }

    /** One line of lock_release under the invariant: neither assertion can fail. */
    method LockReleaseStep(l: nat)
      requires Valid() && SysInv(Whole()) && l < |locks| && cur in pc && ReleaseLine(pc[cur], l)
      modifies `pc, `locks, `held
      ensures Valid() && SysInv(Whole()) && Statement(old(Whole())) == Next(Whole())
      ensures ReleaseMoves(old(Whole()), Whole(), l)
    {
      hide SysInv;
      hide ListsOk, LetGo;
      ghost var s := Whole();
      ReleaseFacts(s, l);
      ReleasePart(l);
      ReleaseIs(s, Whole(), l);
    }

    /** Line 114, and the thread is back. */
    method ReleaseUpCode(l: nat)
      requires Valid() && InTransit(Sched()) && l < |values| && values[l] == 0 && l < |owner| && cur in held
      requires Waiters(l) != [] ==> Waiters(l)[0] in threads && threads[Waiters(l)[0]].status == Blocked
      modifies `pc, `held, `owner, `values, `threads, ready, waits[l], nodes
      ensures Valid() && values == old(values)[l := 1] && pc == old(pc)[cur := Outside]
      ensures held == old(held)[cur := old(held[cur]) - multiset{l}] && owner == old(owner)[l := None]
      ensures old(Waiters(l)) == [] ==> Waiters(l) == [] && Sched() == old(Sched())
      ensures old(Waiters(l)) != [] ==> && Unblock(old(Sched()), old(Waiters(l)[0])) == Next(Sched())
                                        && Waiters(l) == old(Waiters(l))[1..]
      ensures Semas() == old(Semas())[l := Sema(1, Waiters(l))]
    {
      hide ListsOk, InTransit;
      BackOutside();
      Disown(l);
      Raise(l);
    }

    method BackOutside()
      requires Valid()
      modifies `pc
      ensures Valid() && pc == old(pc)[cur := Outside]
    {
      hide ListOk, Apart, List.Queue.Valid;
      pc := pc[cur := Outside];
    }

    method Disown(l: nat)
      requires Valid() && l < |owner| && cur in held
      modifies `held, `owner
      ensures Valid() && owner == old(owner)[l := None] && held == old(held)[cur := old(held[cur]) - multiset{l}]
    {
      hide ListOk, Apart, List.Queue.Valid;
      held, owner := held[cur := held[cur] - multiset{l}], owner[l := None];
    }

    method ReleaseUp(l: nat)
      requires Valid() && SysInv(Whole()) && l < |locks| && cur in pc && cur in held && pc[cur] == RelUp(l)
      modifies `pc, `held, `owner, `values, `threads, ready, waits[l], nodes
      ensures Valid() && SysInv(Whole()) && Statement(old(Whole())) == Next(Whole())
      ensures pc == old(pc)[cur := Outside] && held == old(held)[cur := old(held[cur]) - multiset{l}]
      ensures l < |values| && values[l] == 1
      ensures l < |waits| && old(Waiters(l)) != [] ==> Ready() == [old(Waiters(l)[0])] + old(Ready())
    {
      hide SysInv, Sync.SemaUp, Statement;
      ghost var s := Whole();
      UpCallOk(s, l);
      UpMatters(l);
      ReleaseUpCode(l);
      ghost var m := Whole().(pc := s.pc, held := s.held, owner := s.owner);
      UpIs(s, l, m);
      UpReturns(s, l, m, Whole());
    }

    /** lock_release: `ok` says that its first assertion holds, and then no other one fails. */
    method LockRelease(l: nat) returns (ok: bool)
      requires Valid() && SysInv(Whole()) && l < |locks| && cur in pc && cur in held && pc[cur] == Outside
      modifies `pc, `locks, `held, `owner, `values, `threads, ready, waits[l], nodes
      ensures ok == (old(held[cur][l]) > 0)
      ensures ok ==> && Valid() && SysInv(Whole()) && l < |locks| && cur in pc && pc[cur] == Outside
                     && held == old(held)[cur := old(held[cur]) - multiset{l}]
      ensures ok && old(held[cur][l]) == 1 ==>
                && l < |values| && values[l] == 1
                && (l < |waits| && old(Waiters(l)) != [] ==> Ready() == [old(Waiters(l)[0])] + old(Ready()))
    {
      hide SysInv, Statement, ListsOk;
      UnguardedTestIsRight(Whole(), cur, l);
      if locks[l].holder != Some(cur) {
        return false;
      }
      EnterRelease(l);
      LockReleaseStep(l);
      if pc[cur] == RelDec(l) {
        LockReleaseStep(l);
      } else {
        ReleaseLast(l);
      }
      return true;
    }

    /** Lines 112-114. */
    method ReleaseLast(l: nat)
      requires Valid() && SysInv(Whole()) && l < |locks| && cur in pc && cur in held && pc[cur] == RelClear(l)
      modifies `pc, `locks, `held, `owner, `values, `threads, ready, waits[l], nodes
      ensures Valid() && SysInv(Whole()) && l < |locks| && cur in pc && pc[cur] == Outside
      ensures held == old(held)[cur := old(held[cur]) - multiset{l}]
      ensures l < |values| && values[l] == 1
      ensures l < |waits| && old(Waiters(l)) != [] ==> Ready() == [old(Waiters(l)[0])] + old(Ready())
    {
      hide SysInv, Statement, ListsOk;
      LockReleaseStep(l);
      LockReleaseStep(l);
      ReleaseUp(l);
    }

    method EnterRelease(l: nat)
      requires Valid() && SysInv(Whole()) && l < |locks| && cur in pc && cur in held && pc[cur] == Outside && held[cur][l] > 0
      modifies `pc
      ensures Valid() && SysInv(Whole()) && pc == old(pc)[cur := RelTest(l)]
    {
      hide SysInv;
      ghost var s := Whole();
      AcquireFacts(s, l);
      HoldersAreNotIdle(s);
      CallKeeps(s, RelTest(l), l);
      pc := pc[cur := RelTest(l)];
      assert Whole() == s.Goto(RelTest(l));
    }

    // -------------------------------------------------------------- ioqueue.c

    /** ioq_wait, by a thread that holds the queue's lock: the slot is free. */
    method IoqWait(k: nat)
      requires Valid() && SysInv(Whole()) && k < |slots| && cur in pc && cur in held && pc[cur] == Outside && held[cur][k / 2] > 0
      modifies `pc, `slots, `threads, `cur, ready, nodes
      ensures Valid() && SysInv(Whole()) && SlotSleep(old(Whole()), k) == Next(Whole())
      ensures slots == old(slots)[k := Some(old(cur))] && cur != old(cur) && threads[old(cur)].status == Blocked
    {
      hide SysInv;
      ghost var s := Whole();
      SleepMatters(s, k);
      RunnersNotWaiting();
      SleepCode(k);
      SleepIs(s, k, Whole());
    }

    method SleepCode(k: nat)
      requires Valid() && Inv(Sched()) && NotWaiting(idle) && k < |slots| && slots[k] == None && cur != idle
      modifies `pc, `slots, `threads, `cur, ready, nodes
      ensures Valid() && Block(old(Sched())) == Next(Sched()) && threads[old(cur)].status == Blocked
      ensures slots == old(slots)[k := Some(old(cur))] && pc == old(pc)[old(cur) := SlotWait(k)]
    {
      assert slots[k] == None;
      slots := slots[k := Some(cur)];
      pc := pc[cur := SlotWait(k)];
      ThreadBlock();
    }

    /** wakeup: the thread in the slot is blocked, so thread_unblock takes it. */
    method Wakeup(k: nat)
      requires Valid() && SysInv(Whole()) && k < |slots| && slots[k] != None
      modifies `slots, `threads, ready, nodes
      ensures Valid() && SysInv(Whole()) && SlotWake(old(Whole()), k) == Next(Whole())
      ensures slots == old(slots)[k := None] && Ready() == [old(slots[k]).value] + old(Ready())
    {
      hide SysInv, ListsOk, InTransit;
      ghost var s := Whole();
      WakeMatters(k);
      WakeSlot(k);
      WakeIs(s, k, Whole());
    }

    method WakeSlot(k: nat)
      requires Valid() && InTransit(Sched()) && k < |slots| && slots[k] != None
      requires slots[k].value in threads && NotWaiting(slots[k].value) && threads[slots[k].value].status == Blocked
      modifies `slots, `threads, ready, nodes
      ensures Valid() && slots == old(slots)[k := None] && Semas() == old(Semas())
      ensures Unblock(old(Sched()), old(slots[k]).value) == Next(Sched()) && Ready() == [old(slots[k]).value] + old(Ready())
    {
      ghost var semas0 := Semas();
      assert ready !in waits;
      hide InTransit;
      var t := slots[k].value;
      slots := slots[k := None];
      var ok := ThreadUnblock(t);
      assert ok;
      assert Semas() == semas0;
    }

    lemma WakeMatters(k: nat)
      requires Valid() && SysInv(Whole()) && k < |slots| && slots[k] != None
      ensures Inv(Sched()) && slots[k].value in threads && NotWaiting(slots[k].value)
      ensures threads[slots[k].value].status == Blocked && slots[k].value in pc
    {
      var s, t := Whole(), slots[k].value;
      assert SlotOk(s, k);
      forall q | 0 <= q < |waits| ensures t !in Waiters(q) {
        assert SemaOk(s, q) && s.semas[q].waiters == Waiters(q);
      }
    }
  }

  predicate ReleaseLine(p: Pc, l: nat) {
    p == RelTest(l) || p == RelDec(l) || p == RelClear(l) || p == RelZero(l)
  }

  function LetGo(p: Pc, k: Lock, h: multiset<nat>, l: nat): After
    requires ReleaseLine(p, l) && (p.RelDec? ==> k.repeat > 0)
  {
    if p.RelTest? then After(if k.repeat > 1 then RelDec(l) else RelClear(l), k, h)
    else if p.RelDec? then After(Outside, Lock(k.holder, k.repeat - 1), h - multiset{l})
    else if p.RelClear? then After(RelZero(l), Lock(None, k.repeat), h)
    else After(RelUp(l), Lock(k.holder, 0), h)
  }

  /** Where a line of lock_release leads, by what the thread holds. */
  ghost predicate ReleaseMoves(s: Sys, r: Sys, l: nat) {
    var c := s.sched.cur;
    && c in s.pc && c in s.held && c in r.pc && r.sched.cur == c && |r.locks| == |s.locks|
    && if s.pc[c].RelTest? then r.pc[c] == (if s.held[c][l] > 1 then RelDec(l) else RelClear(l)) && r.held == s.held
       else if s.pc[c].RelDec? then r.pc[c] == Outside && r.held == s.held[c := s.held[c] - multiset{l}]
       else if s.pc[c].RelClear? then r.pc[c] == RelZero(l) && r.held == s.held
       else r.pc[c] == RelUp(l) && r.held == s.held
  }

  lemma ReleaseFacts(s: Sys, l: nat)
    requires SysInv(s) && l < |s.locks|
    ensures s.Shaped()
    ensures var p, k := s.pc[s.sched.cur], s.locks[l];
            && (p == RelTest(l) ==> k == Lock(Some(s.sched.cur), s.held[s.sched.cur][l]))
            && (p == RelDec(l) ==> k.repeat > 0) && (p == RelClear(l) ==> k.repeat == 1)
  {
    StatementKeeps(s);
    if s.pc[s.sched.cur] == RelTest(l) {
      UnguardedTestIsRight(s, s.sched.cur, l);
      assert ThreadOk(s, s.sched.cur);
    }
  }

  /** The caller's line has done its part. */
  ghost predicate Did(s: Sys, r: Sys, l: nat, a: After)
    requires l < |s.locks| && s.sched.cur in s.pc
  {
    var c := s.sched.cur;
    && r == s.(pc := r.pc, locks := r.locks, held := r.held)
    && r.pc == s.pc[c := a.pc] && r.locks == s.locks[l := a.lock] && r.held == s.held[c := a.held]
  }

  lemma SameLock(s: Sys, l: nat)
    requires s.Shaped() && l < |s.locks|
    ensures s.locks[l := s.locks[l]] == s.locks && s.held[s.sched.cur := s.held[s.sched.cur]] == s.held
  {
  }

  lemma ReleaseStatement(s: Sys, r: Sys, l: nat)
    requires s.Shaped() && l < |s.locks| && ReleaseLine(s.pc[s.sched.cur], l)
    requires s.pc[s.sched.cur] == RelTest(l) ==> s.locks[l].holder == Some(s.sched.cur)
    requires s.pc[s.sched.cur] == RelDec(l) ==> s.locks[l].repeat > 0
    requires s.pc[s.sched.cur] == RelClear(l) ==> s.locks[l].repeat == 1
    requires Did(s, r, l, LetGo(s.pc[s.sched.cur], s.locks[l], s.held[s.sched.cur], l))
    ensures Statement(s) == Next(r)
  {
    hide SemaDown, Sync.SemaUp;
    SameLock(s, l);
  }

  lemma ReleaseIs(s: Sys, r: Sys, l: nat)
    requires SysInv(s) && l < |s.locks| && ReleaseLine(s.pc[s.sched.cur], l)
    requires s.pc[s.sched.cur] == RelTest(l) ==> s.locks[l] == Lock(Some(s.sched.cur), s.held[s.sched.cur][l])
    requires s.pc[s.sched.cur] == RelDec(l) ==> s.locks[l].repeat > 0
    requires s.pc[s.sched.cur] == RelClear(l) ==> s.locks[l].repeat == 1
    requires Did(s, r, l, LetGo(s.pc[s.sched.cur], s.locks[l], s.held[s.sched.cur], l))
    ensures Statement(s) == Next(r) && SysInv(r) && ReleaseMoves(s, r, l)
  {
    assert s.Shaped();
    hide SysInv, Statement;
    StatementKeeps(s);
    SameLock(s, l);
    ReleaseStatement(s, r, l);
  }

  lemma UpCallOk(s: Sys, l: nat)
    requires SysInv(s) && l < |s.locks| && s.pc[s.sched.cur] == RelUp(l)
    ensures s.Shaped() && s.semas[l].value == 0
  {
    StatementKeeps(s);
  }

  lemma UpReturns(s: Sys, l: nat, m: Sys, r: Sys)
    requires SysInv(s) && l < |s.locks| && s.pc[s.sched.cur] == RelUp(l) && Sync.SemaUp(s, l) == Next(m)
    requires var c := s.sched.cur;
             r == m.(pc := m.pc[c := Outside], held := s.held[c := s.held[c] - multiset{l}], owner := s.owner[l := None])
    ensures Statement(s) == Next(r) && SysInv(r)
    ensures |r.semas| == |s.semas| && r.semas[l].value == 1
    ensures s.semas[l].waiters != [] ==> r.sched.ready == [s.semas[l].waiters[0]] + s.sched.ready
  {
    StatementKeeps(s);
    UpStays(s, l, s.sched.cur);
  }

  lemma SleepMatters(s: Sys, k: nat)
    requires SysInv(s) && k < |s.slots| && s.pc[s.sched.cur] == Outside && s.held[s.sched.cur][k / 2] > 0
    ensures s.Shaped() && Inv(s.sched) && s.slots[k] == None && s.sched.cur != s.sched.idle
  {
    SlotIsFree(s, k);
    HoldersAreNotIdle(s);
  }

  lemma SleepIs(s: Sys, k: nat, r: Sys)
    requires SysInv(s) && k < |s.slots| && s.pc[s.sched.cur] == Outside && s.held[s.sched.cur][k / 2] > 0
    requires Block(s.sched) == Next(r.sched)
    requires r == s.(sched := r.sched, pc := s.pc[s.sched.cur := SlotWait(k)], slots := s.slots[k := Some(s.sched.cur)])
    ensures SlotSleep(s, k) == Next(r) && SysInv(r) && r.sched.cur != s.sched.cur
  {
    SleepMatters(s, k);
    SlotSleepKeeps(s, k);
    BlockSwitches(s.sched);
  }

  lemma WakeIs(s: Sys, k: nat, r: Sys)
    requires SysInv(s) && k < |s.slots| && s.slots[k] != None && s.slots[k].value in s.pc
    requires Unblock(s.sched, s.slots[k].value) == Next(r.sched) && r == s.(sched := r.sched, slots := s.slots[k := None])
    ensures SlotWake(s, k) == Next(r) && SysInv(r)
  {
    SlotWakeKeeps(s, k);
  }

  predicate AcquireLine(p: Pc, l: nat) {
    p == AcqTest(l) || p == AcqInc(l) || p == AcqHolder(l) || p == AcqRepeat(l)
  }

  /** What a line of lock_acquire or lock_release leaves of the caller's place, the lock and what it holds. */
  datatype After = After(pc: Pc, lock: Lock, held: multiset<nat>)

  function TakenBy(c: Tid, p: Pc, k: Lock, h: multiset<nat>, l: nat): After
    requires AcquireLine(p, l)
  {
    if p.AcqTest? then After(if k.holder != Some(c) then DownEntry(l) else AcqInc(l), k, h)
    else if p.AcqHolder? then After(AcqRepeat(l), Lock(Some(c), k.repeat), h)
    else After(Outside, Lock(k.holder, k.repeat + 1), h + multiset{l})
  }

  /** Where a line of lock_acquire leads, by what the thread holds. */
  ghost predicate AcquireMoves(s: Sys, r: Sys, l: nat) {
    var c := s.sched.cur;
    && c in s.pc && c in s.held && c in r.pc && r.sched.cur == c && |r.locks| == |s.locks|
    && if s.pc[c].AcqTest? then r.pc[c] == (if s.held[c][l] > 0 then AcqInc(l) else DownEntry(l)) && r.held == s.held
       else if s.pc[c].AcqHolder? then r.pc[c] == AcqRepeat(l) && r.held == s.held
       else r.pc[c] == Outside && r.held == s.held[c := s.held[c] + multiset{l}]
  }

  lemma AcquireFacts(s: Sys, l: nat)
    requires SysInv(s) && l < |s.locks|
    ensures s.Shaped()
    ensures s.pc[s.sched.cur] == AcqTest(l) ==> (s.locks[l].holder == Some(s.sched.cur) <==> s.held[s.sched.cur][l] > 0)
    ensures s.pc[s.sched.cur] == AcqRepeat(l) ==> s.locks[l].repeat == 0
  {
    StatementKeeps(s);
    if s.pc[s.sched.cur] == AcqTest(l) {
      UnguardedTestIsRight(s, s.sched.cur, l);
    }
  }

  lemma AcquireStatement(s: Sys, r: Sys, l: nat)
    requires s.Shaped() && l < |s.locks| && AcquireLine(s.pc[s.sched.cur], l)
    requires s.pc[s.sched.cur] == AcqRepeat(l) ==> s.locks[l].repeat == 0
    requires Did(s, r, l, TakenBy(s.sched.cur, s.pc[s.sched.cur], s.locks[l], s.held[s.sched.cur], l))
    ensures Statement(s) == Next(r)
  {
    hide SemaDown, Sync.SemaUp;
    SameLock(s, l);
  }

  lemma AcquireIs(s: Sys, r: Sys, l: nat)
    requires SysInv(s) && l < |s.locks| && AcquireLine(s.pc[s.sched.cur], l)
    requires s.pc[s.sched.cur] == AcqTest(l) ==> (s.locks[l].holder == Some(s.sched.cur) <==> s.held[s.sched.cur][l] > 0)
    requires s.pc[s.sched.cur] == AcqRepeat(l) ==> s.locks[l].repeat == 0
    requires Did(s, r, l, TakenBy(s.sched.cur, s.pc[s.sched.cur], s.locks[l], s.held[s.sched.cur], l))
    ensures Statement(s) == Next(r) && SysInv(r) && AcquireMoves(s, r, l)
  {
    assert s.Shaped();
    hide SysInv, Statement;
    StatementKeeps(s);
    SameLock(s, l);
    AcquireStatement(s, r, l);
  }
}
