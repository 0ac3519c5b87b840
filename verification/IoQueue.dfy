/** device/ioqueue.c: a 64-byte ring shared by producers and consumers.

    The callers have interrupts off, so the functions run without interleaving except where a thread
    blocks: in the sema_down of the queue's lock, and in ioq_wait.  A thread that is not blocked may be
    dispatched at any time and in any order. */
module IoQueue {
  import opened Outcomes

  type Tid = nat
  type Byte = b: nat | b < 256

  const BUFSIZE := 64

  /** Where a thread stands when it is not running. */
  datatype Pc =
    | Outside
    | GetWant            // in sema_down, called from line 68
    | GetWait            // in ioq_wait, called from line 69
    | PutWant(b: Byte)   // in sema_down, called from line 98
    | PutWait(b: Byte)   // in ioq_wait, called from line 99

  /** `produced` and `consumed` are history. */
  datatype Queue = Queue(
    holder: Option<Tid>, repeat: nat, value: nat, waiters: seq<Tid>,
    producer: Option<Tid>, consumer: Option<Tid>,
    buf: seq<Byte>, head: nat, tail: nat,
    pc: map<Tid, Pc>, blocked: set<Tid>,
    produced: seq<Byte>, consumed: seq<Byte>)

  function Next1(pos: nat): nat {
    (pos + 1) % BUFSIZE
  }

  // ---------------------------------------------------------------- the ring

  predicate RingOk(q: Queue) {
    |q.buf| == BUFSIZE && q.head < BUFSIZE && q.tail < BUFSIZE
  }

  function Length(head: nat, tail: nat): nat
    requires head < BUFSIZE && tail < BUFSIZE
  {
    (head + BUFSIZE - tail) % BUFSIZE
  }

  /** The bytes from tail up to head. */
  function Contents(buf: seq<Byte>, head: nat, tail: nat): (s: seq<Byte>)
    requires |buf| == BUFSIZE && head < BUFSIZE && tail < BUFSIZE
    ensures |s| == Length(head, tail)
    decreases Length(head, tail)
  {
    if head == tail then [] else [buf[tail]] + Contents(buf, head, Next1(tail))
  }

  lemma {:induction false} StoredBehind(buf: seq<Byte>, head: nat, tail: nat, b: Byte)
    requires |buf| == BUFSIZE && head < BUFSIZE && tail < BUFSIZE && Next1(head) != tail
    ensures Contents(buf[head := b], Next1(head), tail) == Contents(buf, head, tail) + [b]
    decreases Length(head, tail)
  {
    if head != tail {
      StoredBehind(buf, head, Next1(tail), b);
      assert Contents(buf, head, tail) == [buf[tail]] + Contents(buf, head, Next1(tail));
    } else {
      assert Contents(buf[head := b], Next1(head), Next1(tail)) == [];
    }
  }

  // ---------------------------------------------------------------- the steps

  /** sema_down and the rest of lock_acquire by thread t, which then goes on to ioq_wait; `want` and
      `wait` are its places in the two.  The queue is not looked at again once the lock is taken. */
  function TakeLock(q: Queue, t: Tid, want: Pc, wait: Pc): Outcome<Queue> {
    if q.value == 0 then
      if t in q.waiters then Halted
      else Next(q.(waiters := q.waiters + [t], pc := q.pc[t := want], blocked := q.blocked + {t}))
    else if q.repeat != 0 then Halted
    else
      var q1 := q.(value := q.value - 1, holder := Some(t), repeat := 1, pc := q.pc[t := wait], blocked := q.blocked + {t});
      if wait.GetWait? then
        if q.consumer != None then Halted else Next(q1.(consumer := Some(t)))
      else
        if q.producer != None then Halted else Next(q1.(producer := Some(t)))
  }

  /** lock_release by thread t: the first waiter is unblocked. */
  function ReleaseLock(q: Queue, t: Tid): Outcome<Queue> {
    if q.holder != Some(t) || q.repeat != 1 || q.value != 0 then Halted
    else
      var q1 := q.(holder := None, repeat := 0, value := 1);
      if q.waiters == [] then Next(q1)
      else if q.waiters[0] !in q.blocked then Halted
      else Next(q1.(waiters := q.waiters[1..], blocked := q.blocked - {q.waiters[0]}))
  }

  /** wakeup of whoever is in a wait slot. */
  function Wake(q: Queue, slot: Option<Tid>): Outcome<Queue> {
    match slot
    case None => Next(q)
    case Some(t) => if t !in q.blocked then Halted else Next(q.(blocked := q.blocked - {t}))
  }

  function GetLoop(q: Queue, t: Tid): Outcome<Queue>
    requires RingOk(q)
  {
    if q.head == q.tail then TakeLock(q, t, GetWant, GetWait)
    else
      var q1 :- Wake(q, q.producer);
      Next(q1.(tail := Next1(q.tail), producer := None, consumed := q.consumed + [q.buf[q.tail]], pc := q.pc[t := Outside]))
  }

  function PutLoop(q: Queue, t: Tid, b: Byte): Outcome<Queue>
    requires RingOk(q)
  {
    if Next1(q.head) == q.tail then TakeLock(q, t, PutWant(b), PutWait(b))
    else
      var q1 :- Wake(q, q.consumer);
      Next(q1.(buf := q.buf[q.head := b], head := Next1(q.head), consumer := None,
               produced := q.produced + [b], pc := q.pc[t := Outside]))
  }

  /** A thread outside calls ioq_getchar or ioq_putchar; a dispatched thread goes on from where it was. */
  datatype Event = Get(t: Tid) | Put(t: Tid, b: Byte) | Resume(t: Tid)

  predicate Enabled(q: Queue, e: Event) {
    && e.t in q.pc && e.t !in q.blocked
    && (e.Resume? <==> q.pc[e.t] != Outside)
  }

  function Step(q: Queue, e: Event): Outcome<Queue>
    requires RingOk(q) && Enabled(q, e)
  {
    match e
    case Get(t) => GetLoop(q, t)
    case Put(t, b) => PutLoop(q, t, b)
    case Resume(t) =>
      match q.pc[t]
      case GetWant => TakeLock(q, t, GetWant, GetWait)
      case PutWant(b) => TakeLock(q, t, PutWant(b), PutWait(b))
      case GetWait =>
        var q1 :- ReleaseLock(q, t);
        GetLoop(q1, t)
      case PutWait(b) =>
        var q1 :- ReleaseLock(q, t);
        PutLoop(q1, t, b)
  }

  // ---------------------------------------------------------------- the invariant

  predicate Waiting(p: Pc) {
    p.GetWait? || p.PutWait?
  }

  predicate Wanting(p: Pc) {
    p.GetWant? || p.PutWant?
  }

  ghost predicate LockOk(q: Queue) {
    && (q.value == if q.holder == None then 1 else 0)
    && (q.repeat == if q.holder == None then 0 else 1)
    && (forall t :: t in q.pc ==> (Waiting(q.pc[t]) <==> q.holder == Some(t)))
    && (q.holder != None ==> q.holder.value in q.pc)
  }

  /** A thread in a wait slot is blocked there and holds the lock. */
  ghost predicate SlotsOk(q: Queue) {
    && (forall t :: q.consumer == Some(t) ==> t in q.pc && q.pc[t].GetWait? && t in q.blocked)
    && (forall t :: q.producer == Some(t) ==> t in q.pc && q.pc[t].PutWait? && t in q.blocked)
    && (forall t :: t in q.pc && Waiting(q.pc[t]) && t in q.blocked ==> q.consumer == Some(t) || q.producer == Some(t))
  }

  ghost predicate WaitersOk(q: Queue) {
    && (forall i, j :: 0 <= i < j < |q.waiters| ==> q.waiters[i] != q.waiters[j])
    && (forall t :: t in q.waiters ==> t in q.pc && Wanting(q.pc[t]) && t in q.blocked)
    && (forall t :: t in q.pc && Wanting(q.pc[t]) && t in q.blocked ==> t in q.waiters)
    && (forall t :: t in q.blocked ==> t in q.pc && q.pc[t] != Outside)
  }

  /** Consumed bytes followed by the ring are the produced bytes. */
  ghost predicate BytesOk(q: Queue)
    requires RingOk(q)
  {
    q.produced == q.consumed + Contents(q.buf, q.head, q.tail)
  }

  ghost predicate Inv(q: Queue) {
    RingOk(q) && LockOk(q) && SlotsOk(q) && WaitersOk(q) && BytesOk(q)
  }

  ghost predicate Initial(q: Queue) {
    && q.holder == None && q.repeat == 0 && q.value == 1 && q.waiters == []
    && q.producer == None && q.consumer == None && |q.buf| == BUFSIZE && q.head == q.tail == 0
    && (forall t :: t in q.pc ==> q.pc[t] == Outside) && q.blocked == {} && q.produced == q.consumed == []
  }

  lemma InitialInv(q: Queue)
    requires Initial(q)
    ensures Inv(q)
  {
  }

  /** Thread t runs: it is in no slot and in no list. */
  ghost predicate Running(q: Queue, t: Tid) {
    t in q.pc && t !in q.blocked && !Waiting(q.pc[t])
  }

  lemma TakeLockInv(q: Queue, t: Tid, want: Pc, wait: Pc)
    requires Inv(q) && Running(q, t)
    requires (want.GetWant? && wait.GetWait?) || (want.PutWant? && wait.PutWait?)
    ensures TakeLock(q, t, want, wait).Next? && Inv(TakeLock(q, t, want, wait).value)
  {
    if q.value == 0 {
      QueuesForLock(q, t, want, wait);
    } else {
      GetsLock(q, t, want, wait);
    }
  }

  lemma QueuesForLock(q: Queue, t: Tid, want: Pc, wait: Pc)
    requires Inv(q) && Running(q, t) && q.value == 0
    requires (want.GetWant? && wait.GetWait?) || (want.PutWant? && wait.PutWait?)
    ensures TakeLock(q, t, want, wait).Next? && Inv(TakeLock(q, t, want, wait).value)
  {
    assert t !in q.waiters;
  }

  lemma GetsLock(q: Queue, t: Tid, want: Pc, wait: Pc)
    requires Inv(q) && Running(q, t) && q.value != 0
    requires (want.GetWant? && wait.GetWait?) || (want.PutWant? && wait.PutWait?)
    ensures TakeLock(q, t, want, wait).Next? && Inv(TakeLock(q, t, want, wait).value)
  {
    assert forall u :: q.consumer == Some(u) || q.producer == Some(u) ==> q.holder == Some(u);
  }

  /** Between lock_release and the next turn of the loop, t has let go of the lock but its place is
      still the wait. */
  lemma ReleaseInv(q: Queue, t: Tid)
    requires Inv(q) && t in q.pc && t !in q.blocked && Waiting(q.pc[t])
    ensures ReleaseLock(q, t).Next?
    ensures var q1 := ReleaseLock(q, t).value;
            && Inv(q1.(pc := q1.pc[t := Outside])) && q1.pc == q.pc && t !in q1.blocked
  {
    assert q.consumer != Some(t) && q.producer != Some(t);
    if q.waiters != [] {
      assert q.waiters[0] in q.waiters && q.waiters[0] in q.blocked;
      assert q.waiters == [q.waiters[0]] + q.waiters[1..];
    }
  }

  lemma FetchedIsFirst(q: Queue)
    requires RingOk(q) && BytesOk(q) && q.head != q.tail
    ensures BytesOk(q.(tail := Next1(q.tail), consumed := q.consumed + [q.buf[q.tail]]))
  {
    assert q.consumed + ([q.buf[q.tail]] + Contents(q.buf, q.head, Next1(q.tail)))
        == q.consumed + [q.buf[q.tail]] + Contents(q.buf, q.head, Next1(q.tail));
  }

  lemma WakeGet(q: Queue, t: Tid)
    requires Inv(q) && Running(q, t) && q.pc[t] == Outside && q.head != q.tail
    ensures GetLoop(q, t).Next? && Inv(GetLoop(q, t).value)
  {
    hide Contents;
    assert q.pc[t := Outside] == q.pc;
    FetchedIsFirst(q);
  }

  lemma WakePut(q: Queue, t: Tid, b: Byte)
    requires Inv(q) && Running(q, t) && q.pc[t] == Outside && Next1(q.head) != q.tail
    ensures PutLoop(q, t, b).Next? && Inv(PutLoop(q, t, b).value)
  {
    assert q.pc[t := Outside] == q.pc;
    StoredBehind(q.buf, q.head, q.tail, b);
    var old_ := Contents(q.buf, q.head, q.tail);
    assert q.consumed + old_ + [b] == q.consumed + (old_ + [b]);
  }

  /** The place a thread is at does not matter to the loops. */
  lemma LoopForgets(q: Queue, t: Tid, b: Byte)
    requires RingOk(q) && t in q.pc
    ensures GetLoop(q, t) == GetLoop(q.(pc := q.pc[t := Outside]), t)
    ensures PutLoop(q, t, b) == PutLoop(q.(pc := q.pc[t := Outside]), t, b)
  {
    var p := q.pc[t := Outside];
    assert p[t := Outside] == p && p[t := GetWant] == q.pc[t := GetWant] && p[t := GetWait] == q.pc[t := GetWait];
    assert p[t := PutWant(b)] == q.pc[t := PutWant(b)] && p[t := PutWait(b)] == q.pc[t := PutWait(b)];
  }

  lemma GetInv(q: Queue, t: Tid)
    requires Inv(q) && Running(q, t) && q.pc[t] == Outside
    ensures GetLoop(q, t).Next? && Inv(GetLoop(q, t).value)
  {
    if q.head == q.tail {
      TakeLockInv(q, t, GetWant, GetWait);
    } else {
      WakeGet(q, t);
    }
  }

  lemma PutInv(q: Queue, t: Tid, b: Byte)
    requires Inv(q) && Running(q, t) && q.pc[t] == Outside
    ensures PutLoop(q, t, b).Next? && Inv(PutLoop(q, t, b).value)
  {
    if Next1(q.head) == q.tail {
      TakeLockInv(q, t, PutWant(b), PutWait(b));
    } else {
      WakePut(q, t, b);
    }
  }

  /** No step stops the machine, so in particular the wait slot is NULL whenever a thread records itself
      in it, and every step keeps the invariant. */
  lemma StepInv(q: Queue, e: Event)
    requires Inv(q) && Enabled(q, e)
    ensures Step(q, e).Next? && Inv(Step(q, e).value)
  {
    match e
    case Get(t) => GetInv(q, t);
    case Put(t, b) => PutInv(q, t, b);
    case Resume(t) =>
      match q.pc[t] {
        case GetWant => TakeLockInv(q, t, GetWant, GetWait);
        case PutWant(b) => TakeLockInv(q, t, PutWant(b), PutWait(b));
        case GetWait =>
          ReleaseInv(q, t);
          var q1 := ReleaseLock(q, t).value;
          LoopForgets(q1, t, 0);
          GetInv(q1.(pc := q1.pc[t := Outside]), t);
        case PutWait(b) =>
          ReleaseInv(q, t);
          var q1 := ReleaseLock(q, t).value;
          LoopForgets(q1, t, b);
          PutInv(q1.(pc := q1.pc[t := Outside]), t, b);
      }
  }

  // ---------------------------------------------------------------- the bytes of a call

  /** The turn of the loop of ioq_putchar or ioq_getchar: a call, or what comes behind ioq_wait. */
  predicate AtPut(q: Queue, e: Event)
    requires Enabled(q, e)
  {
    e.Put? || (e.Resume? && q.pc[e.t].PutWait?)
  }

  predicate AtGet(q: Queue, e: Event)
    requires Enabled(q, e)
  {
    e.Get? || (e.Resume? && q.pc[e.t].GetWait?)
  }

  /** The byte that a thread in ioq_putchar was called with, while it waits. */
  function Carried(p: Pc): Option<Byte> {
    match p
    case PutWant(b) => Some(b)
    case PutWait(b) => Some(b)
    case _ => None
  }

  /** The byte of the call that e is about. */
  function ByteOf(q: Queue, e: Event): Option<Byte>
    requires Enabled(q, e)
  {
    if e.Put? then Some(e.b) else if e.Get? then None else Carried(q.pc[e.t])
  }

  function Bytes(q: Queue): seq<Byte>
    requires RingOk(q)
  {
    Contents(q.buf, q.head, q.tail)
  }

  ghost predicate Stored(q: Queue, q': Queue, b: Byte)
    requires RingOk(q) && RingOk(q')
  {
    Bytes(q') == Bytes(q) + [b] && q'.consumed == q.consumed && q'.produced == q.produced + [b]
  }

  ghost predicate Fetched(q: Queue, q': Queue)
    requires RingOk(q) && RingOk(q')
  {
    Bytes(q) != [] && Bytes(q) == [Bytes(q)[0]] + Bytes(q') && q'.consumed == q.consumed + [Bytes(q)[0]]
    && q'.produced == q.produced
  }

  /** Of the places of the threads only that of e's thread changes: it is back from its call, or waits in the
      same call, with the same byte. */
  ghost predicate GoesOn(q: Queue, e: Event, q': Queue)
    requires Enabled(q, e)
  {
    && q'.pc.Keys == q.pc.Keys && (forall t :: t in q.pc && t != e.t ==> q'.pc[t] == q.pc[t])
    && (q'.pc[e.t] != Outside ==> Carried(q'.pc[e.t]) == ByteOf(q, e))
  }

  lemma PutTurn(q: Queue, e: Event)
    requires Inv(q) && Enabled(q, e) && AtPut(q, e) && !Full(q)
    ensures Step(q, e).Next?
    ensures var q' := Step(q, e).value;
            RingOk(q') && GoesOn(q, e, q') && q'.pc[e.t] == Outside && Stored(q, q', ByteOf(q, e).value)
  {
    StepInv(q, e);
    StoredBehind(q.buf, q.head, q.tail, ByteOf(q, e).value);
  }

  lemma GetTurn(q: Queue, e: Event)
    requires Inv(q) && Enabled(q, e) && AtGet(q, e) && !Empty(q)
    ensures Step(q, e).Next?
    ensures var q' := Step(q, e).value;
            RingOk(q') && GoesOn(q, e, q') && q'.pc[e.t] == Outside && Fetched(q, q')
  {
    StepInv(q, e);
  }

  /** The lock is taken or waited for; no byte moves. */
  ghost predicate OnlyLock(q: Queue, t: Tid, q': Queue, b: Option<Byte>) {
    && q'.buf == q.buf && q'.head == q.head && q'.tail == q.tail
    && q'.consumed == q.consumed && q'.produced == q.produced
    && t in q'.pc && q'.pc == q.pc[t := q'.pc[t]] && q'.pc[t] != Outside && Carried(q'.pc[t]) == b
  }

  lemma TakesOnlyLock(q: Queue, t: Tid, want: Pc, wait: Pc)
    requires TakeLock(q, t, want, wait).Next? && want != Outside && wait != Outside && Carried(want) == Carried(wait)
    ensures OnlyLock(q, t, TakeLock(q, t, want, wait).value, Carried(want))
  {
  }

  /** No byte moves, and the thread of e stays in its call. */
  ghost predicate Stays(q: Queue, e: Event, q': Queue)
    requires Enabled(q, e) && RingOk(q)
  {
    && RingOk(q') && GoesOn(q, e, q') && q'.pc[e.t] != Outside
    && Bytes(q') == Bytes(q) && q'.consumed == q.consumed && q'.produced == q.produced
  }

  lemma OnlyLockStays(q: Queue, q1: Queue, e: Event, q': Queue)
    requires Enabled(q, e) && RingOk(q) && OnlyLock(q1, e.t, q', ByteOf(q, e)) && q1.pc == q.pc
    requires q1.buf == q.buf && q1.head == q.head && q1.tail == q.tail && q1.consumed == q.consumed && q1.produced == q.produced
    ensures Stays(q, e, q')
  {
    hide Contents;
  }

  lemma StaysForLock(q: Queue, q1: Queue, e: Event)
    requires Enabled(q, e) && RingOk(q) && q1.pc == q.pc
    requires q1.buf == q.buf && q1.head == q.head && q1.tail == q.tail && q1.consumed == q.consumed && q1.produced == q.produced
    ensures match ByteOf(q, e)
            case Some(b) => TakeLock(q1, e.t, PutWant(b), PutWait(b)).Next? ==> Stays(q, e, TakeLock(q1, e.t, PutWant(b), PutWait(b)).value)
            case None => TakeLock(q1, e.t, GetWant, GetWait).Next? ==> Stays(q, e, TakeLock(q1, e.t, GetWant, GetWait).value)
  {
    hide TakeLock, Stays, OnlyLock;
    match ByteOf(q, e) {
      case Some(b) =>
        if TakeLock(q1, e.t, PutWant(b), PutWait(b)).Next? {
          TakesOnlyLock(q1, e.t, PutWant(b), PutWait(b));
          OnlyLockStays(q, q1, e, TakeLock(q1, e.t, PutWant(b), PutWait(b)).value);
        }
      case None =>
        if TakeLock(q1, e.t, GetWant, GetWait).Next? {
          TakesOnlyLock(q1, e.t, GetWant, GetWait);
          OnlyLockStays(q, q1, e, TakeLock(q1, e.t, GetWant, GetWait).value);
        }
    }
  }

  lemma NoTurn(q: Queue, e: Event)
    requires Inv(q) && Enabled(q, e) && !(AtPut(q, e) && !Full(q)) && !(AtGet(q, e) && !Empty(q))
    ensures Step(q, e).Next? && Stays(q, e, Step(q, e).value)
  {
    assert RingOk(q) by {
      hide LockOk, SlotsOk, WaitersOk, BytesOk;
    }
    StepInv(q, e);
    hide Inv, TakeLock, Stays;
    StaysForLock(q, if e.Resume? && Waiting(q.pc[e.t]) then ReleaseLock(q, e.t).value else q, e);
  }

  /** A put comes back exactly when it looks at a ring that is not full, and then its own byte is behind the
      others; a get comes back exactly when it looks at a ring with a byte, and then has taken the first one.
      Otherwise no byte moves. */
  lemma StepBytes(q: Queue, e: Event)
    requires Inv(q) && Enabled(q, e)
    ensures Step(q, e).Next?
    ensures var q' := Step(q, e).value;
            && RingOk(q') && GoesOn(q, e, q')
            && (q'.pc[e.t] == Outside <==> (AtPut(q, e) && !Full(q)) || (AtGet(q, e) && !Empty(q)))
            && (if AtPut(q, e) && !Full(q) then Stored(q, q', ByteOf(q, e).value)
                else if AtGet(q, e) && !Empty(q) then Fetched(q, q')
                else Stays(q, e, q'))
  {
    hide Inv, Step, Stored, Fetched, Contents;
    if AtPut(q, e) && !Full(q) {
      PutTurn(q, e);
    } else if AtGet(q, e) && !Empty(q) {
      GetTurn(q, e);
    } else {
      NoTurn(q, e);
    }
  }

  /** The step lets go of the lock, which the thread held while it waited. */
  predicate LetsGo(q: Queue, e: Event)
    requires Enabled(q, e)
  {
    e.Resume? && Waiting(q.pc[e.t])
  }

  function WaitersLeft(q: Queue, e: Event): seq<Tid>
    requires Enabled(q, e)
  {
    if LetsGo(q, e) && q.waiters != [] then q.waiters[1..] else q.waiters
  }

  /** Who can run again after the step: the first that waits for the lock, if it is let go, and whoever waits
      for the byte that has come or the place that has become free. */
  function Woken(q: Queue, e: Event): set<Tid>
    requires Enabled(q, e)
  {
    (if LetsGo(q, e) && q.waiters != [] then {q.waiters[0]} else {})
    + (if AtPut(q, e) && !Full(q) && q.consumer.Some? then {q.consumer.value} else {})
    + (if AtGet(q, e) && !Empty(q) && q.producer.Some? then {q.producer.value} else {})
  }

  /** Those and nobody else; a thread whose call is not over takes the lock and its slot if the lock is free,
      and otherwise waits for it behind the others. */
  ghost predicate Wakes(q: Queue, e: Event, q': Queue)
    requires Enabled(q, e)
  {
    var back, free := (AtPut(q, e) && !Full(q)) || (AtGet(q, e) && !Empty(q)), LetsGo(q, e) || q.value == 1;
    && q'.blocked == q.blocked - Woken(q, e) + (if back then {} else {e.t})
    && q'.waiters == WaitersLeft(q, e) + (if back || free then [] else [e.t])
    && (!back && free ==> q'.holder == Some(e.t) && (if ByteOf(q, e).Some? then q'.producer else q'.consumer) == Some(e.t))
    && (AtPut(q, e) && !Full(q) ==> q'.consumer == None && q'.producer == q.producer)
    && (AtGet(q, e) && !Empty(q) ==> q'.producer == None && q'.consumer == q.consumer)
  }

  lemma PutWakes(q: Queue, e: Event)
    requires Inv(q) && Enabled(q, e) && e.Put?
    ensures Step(q, e).Next? && Wakes(q, e, Step(q, e).value)
  {
    StepInv(q, e);
    hide Contents, BytesOk;
  }

  lemma GetWakes(q: Queue, e: Event)
    requires Inv(q) && Enabled(q, e) && e.Get?
    ensures Step(q, e).Next? && Wakes(q, e, Step(q, e).value)
  {
    StepInv(q, e);
    hide Contents, BytesOk;
  }

  lemma WantWakes(q: Queue, e: Event)
    requires Inv(q) && Enabled(q, e) && e.Resume? && Wanting(q.pc[e.t])
    ensures Step(q, e).Next? && Wakes(q, e, Step(q, e).value)
  {
    StepInv(q, e);
    hide Contents, BytesOk;
  }

  lemma PutWaitWakes(q: Queue, e: Event)
    requires Inv(q) && Enabled(q, e) && e.Resume? && q.pc[e.t].PutWait?
    ensures Step(q, e).Next? && Wakes(q, e, Step(q, e).value)
  {
    StepInv(q, e);
    hide Contents, BytesOk;
  }

  lemma GetWaitWakes(q: Queue, e: Event)
    requires Inv(q) && Enabled(q, e) && e.Resume? && q.pc[e.t].GetWait?
    ensures Step(q, e).Next? && Wakes(q, e, Step(q, e).value)
  {
    StepInv(q, e);
    hide Contents, BytesOk;
  }

  lemma StepWakes(q: Queue, e: Event)
    requires Inv(q) && Enabled(q, e)
    ensures Step(q, e).Next? && Wakes(q, e, Step(q, e).value)
  {
    hide Inv, Step, Wakes;
    if e.Put? {
      PutWakes(q, e);
    } else if e.Get? {
      GetWakes(q, e);
    } else if Wanting(q.pc[e.t]) {
      WantWakes(q, e);
    } else if q.pc[e.t].PutWait? {
      PutWaitWakes(q, e);
    } else {
      GetWaitWakes(q, e);
    }
  }

  predicate Empty(q: Queue) {
    q.head == q.tail
  }

  predicate Full(q: Queue) {
    Next1(q.head) == q.tail
  }

  /** The byte of the last call of ioq_putchar by t. */
  function LastPut(events: seq<Event>, t: Tid): Option<Byte> {
    if events == [] then None
    else
      var e := events[|events| - 1];
      if e.Put? && e.t == t then Some(e.b) else LastPut(events[..|events| - 1], t)
  }

  /** Event e brings a put back. */
  predicate PutEnds(q: Queue, e: Event, q': Queue)
    requires Enabled(q, e)
  {
    AtPut(q, e) && e.t in q'.pc && q'.pc[e.t] == Outside
  }

  /** The bytes of the puts that have come back, in that order, each as its caller gave it. */
  ghost function PutBytes(states: seq<Queue>, events: seq<Event>, n: nat): seq<Option<Byte>>
    requires IsRun(states, events) && n <= |events|
  {
    if n == 0 then []
    else
      assert Goes(states[n - 1], events[n - 1], states[n]);
      PutBytes(states, events, n - 1)
      + if PutEnds(states[n - 1], events[n - 1], states[n]) then [LastPut(events[..n], events[n - 1].t)] else []
  }

  function Somes(s: seq<Byte>): seq<Option<Byte>> {
    seq(|s|, i requires 0 <= i < |s| => Some(s[i]))
  }

  lemma StepAll(q: Queue, e: Event, q': Queue)
    requires Inv(q) && Goes(q, e, q')
    ensures RingOk(q') && GoesOn(q, e, q') && (PutEnds(q, e, q') ==> ByteOf(q, e).Some?)
    ensures q'.consumed + Bytes(q') == q.consumed + Bytes(q) + if PutEnds(q, e, q') then [ByteOf(q, e).value] else []
  {
    StepBytes(q, e);
    hide Inv, Step, Bytes, GoesOn, Full, Empty;
    if AtPut(q, e) && !Full(q) {
      Longer(q.consumed, Bytes(q), [ByteOf(q, e).value]);
    } else if AtGet(q, e) && !Empty(q) {
      Longer(q.consumed, [Bytes(q)[0]], Bytes(q'));
    }
  }

  lemma Longer(x: seq<Byte>, y: seq<Byte>, z: seq<Byte>)
    ensures x + (y + z) == x + y + z
  {
  }

  lemma LastPutStep(events: seq<Event>, n: nat, t: Tid)
    requires 0 < n <= |events|
    ensures var e := events[n - 1];
            LastPut(events[..n], t) == if e.Put? && e.t == t then Some(e.b) else LastPut(events[..n - 1], t)
  {
    assert events[..n][..n - 1] == events[..n - 1];
  }

  lemma CarriedStep(q: Queue, e: Event, q': Queue, t: Tid)
    requires Inv(q) && Goes(q, e, q') && t in q'.pc && Carried(q'.pc[t]) != None
    ensures if e.Put? && e.t == t then Carried(q'.pc[t]) == Some(e.b)
            else t in q.pc && Carried(q.pc[t]) == Carried(q'.pc[t])
  {
    StepBytes(q, e);
    hide Inv, Step, Stored, Fetched, Bytes;
  }

  lemma RunGoes(states: seq<Queue>, events: seq<Event>, i: nat)
    requires IsRun(states, events) && i < |events|
    ensures Inv(states[i]) && Goes(states[i], events[i], states[i + 1])
  {
    RunInv(states, events, i);
  }

  /** A thread that waits in ioq_putchar waits with the byte it was called with. */
  lemma {:induction false} CarriedIsLast(states: seq<Queue>, events: seq<Event>, n: nat, t: Tid)
    requires IsRun(states, events) && n <= |events| && t in states[n].pc && Carried(states[n].pc[t]) != None
    ensures LastPut(events[..n], t) == Carried(states[n].pc[t])
  {
    if n > 0 {
      hide Inv, Goes, Carried, LastPut;
      RunGoes(states, events, n - 1);
      CarriedStep(states[n - 1], events[n - 1], states[n], t);
      LastPutStep(events, n, t);
      if !(events[n - 1].Put? && events[n - 1].t == t) {
        CarriedIsLast(states, events, n - 1, t);
      }
    }
  }

  lemma EndedByte(states: seq<Queue>, events: seq<Event>, n: nat)
    requires IsRun(states, events) && n < |events|
    ensures Goes(states[n], events[n], states[n + 1])
    ensures PutEnds(states[n], events[n], states[n + 1]) ==>
              LastPut(events[..n + 1], events[n].t) == ByteOf(states[n], events[n])
  {
    var q, e := states[n], events[n];
    assert Goes(q, e, states[n + 1]);
    LastPutStep(events, n + 1, e.t);
    hide Inv, Step, IsRun;
    if PutEnds(q, e, states[n + 1]) && !e.Put? {
      CarriedIsLast(states, events, n, e.t);
    }
  }

  lemma SomesAppend(s: seq<Byte>, b: Byte)
    ensures Somes(s + [b]) == Somes(s) + [Some(b)] && Somes(s + []) == Somes(s)
  {
    assert s + [] == s;
  }

  /** In every run the bytes consumed, followed by those in the ring, are the bytes of the puts that have come
      back, each as its caller gave it. */
  lemma {:induction false} PutsArrive(states: seq<Queue>, events: seq<Event>, n: nat)
    requires IsRun(states, events) && n <= |events|
    ensures Inv(states[n]) && Somes(states[n].consumed + Bytes(states[n])) == PutBytes(states, events, n)
  {
    RunInv(states, events, n);
    if n > 0 {
      PutsArrive(states, events, n - 1);
      var q, e, q' := states[n - 1], events[n - 1], states[n];
      EndedByte(states, events, n - 1);
      StepAll(q, e, q');
      hide Inv, Goes, IsRun, Contents, LastPut, Somes;
      if PutEnds(q, e, q') {
        SomesAppend(q.consumed + Bytes(q), ByteOf(q, e).value);
      } else {
        assert q'.consumed + Bytes(q') == q.consumed + Bytes(q);
      }
    } else {
      NothingPut(states[0]);
    }
  }

  lemma NothingPut(q: Queue)
    requires Initial(q)
    ensures RingOk(q) && q.consumed + Bytes(q) == [] && Somes([]) == []
  {
  }

  // ---------------------------------------------------------------- runs

  ghost predicate IsRun(states: seq<Queue>, events: seq<Event>) {
    && |states| == |events| + 1 && Initial(states[0])
    && (forall i :: 0 <= i < |events| ==> Goes(states[i], events[i], states[i + 1]))
  }

  ghost predicate Goes(q: Queue, e: Event, q': Queue) {
    RingOk(q) && Enabled(q, e) && Step(q, e) == Next(q')
  }

  lemma {:induction false} RunInv(states: seq<Queue>, events: seq<Event>, i: nat)
    requires IsRun(states, events) && i < |states|
    ensures Inv(states[i])
  {
    if i == 0 {
      InitialInv(states[0]);
    } else {
      RunInv(states, events, i - 1);
      assert Goes(states[i - 1], events[i - 1], states[i]);
      StepInv(states[i - 1], events[i - 1]);
    }
  }

  /** For every interleaving: bytes consumed followed by the ring are the bytes produced, the ring never
      holds more than 63, and a thread in a wait slot holds the lock. */
  lemma NothingLostOrMadeUp(states: seq<Queue>, events: seq<Event>, i: nat)
    requires IsRun(states, events) && i < |states|
    ensures var q := states[i];
            && RingOk(q) && q.produced == q.consumed + Contents(q.buf, q.head, q.tail)
            && |Contents(q.buf, q.head, q.tail)| <= BUFSIZE - 1
            && (forall t :: q.producer == Some(t) || q.consumer == Some(t) ==> q.holder == Some(t))
            && (forall e :: Enabled(q, e) ==> Step(q, e).Next?)
  {
    RunInv(states, events, i);
    var q := states[i];
    forall e | Enabled(q, e) ensures Step(q, e).Next? {
      StepInv(q, e);
    }
  }

  // ---------------------------------------------------------------- what is not promised

  /** t sleeps in the consumer's slot although there is a byte, or in the producer's although there is room. */
  predicate Needless(q: Queue, t: Tid) {
    (q.consumer == Some(t) && !Empty(q)) || (q.producer == Some(t) && !Full(q))
  }

  /** A thread that had to queue for the lock gets it, when what it wanted to wait for has already come. */
  predicate LateGet(q: Queue, e: Event)
    requires Enabled(q, e)
  {
    e.Resume? && q.pc[e.t].GetWant? && q.value == 1 && !Empty(q)
  }

  predicate LatePut(q: Queue, e: Event)
    requires Enabled(q, e)
  {
    e.Resume? && q.pc[e.t].PutWant? && q.value == 1 && !Full(q)
  }

  /** Exactly such a step puts a consumer to sleep with a byte in the ring: the ring is not looked at again
      once the lock is taken. */
  lemma NeedlessConsumerIff(q: Queue, e: Event, t: Tid)
    requires Inv(q) && Enabled(q, e)
    ensures Step(q, e).Next?
    ensures var q' := Step(q, e).value;
            q.consumer != Some(t) && q'.consumer == Some(t) && t in q'.blocked && !Empty(q')
            <==> e.t == t && LateGet(q, e)
  {
    StepInv(q, e);
  }

  /** The same for a producer with room in the ring. */
  lemma NeedlessProducerIff(q: Queue, e: Event, t: Tid)
    requires Inv(q) && Enabled(q, e)
    ensures Step(q, e).Next?
    ensures var q' := Step(q, e).value;
            q.producer != Some(t) && q'.producer == Some(t) && t in q'.blocked && !Full(q')
            <==> e.t == t && LatePut(q, e)
  {
    StepInv(q, e);
  }

  /** Nobody who sleeps for a reason loses it without being woken. */
  lemma StaysNeeded(q: Queue, e: Event, t: Tid)
    requires Inv(q) && Enabled(q, e) && Step(q, e).Next?
    requires q.consumer == Some(t) || q.producer == Some(t)
    ensures Needless(Step(q, e).value, t) ==> Needless(q, t)
  {
    var q' := Step(q, e).value;
    assert e.t != t;
  }

  lemma StepNeedlessIff(q: Queue, e: Event)
    requires Inv(q) && Enabled(q, e) && forall t :: !Needless(q, t)
    ensures Step(q, e).Next?
    ensures (forall t :: !Needless(Step(q, e).value, t)) <==> !LateGet(q, e) && !LatePut(q, e)
  {
    StepInv(q, e);
    var q' := Step(q, e).value;
    NeedlessConsumerIff(q, e, e.t);
    NeedlessProducerIff(q, e, e.t);
    forall t: Tid | Needless(q', t) ensures LateGet(q, e) || LatePut(q, e) {
      if q.consumer == Some(t) || q.producer == Some(t) {
        StaysNeeded(q, e, t);
      } else {
        NeedlessConsumerIff(q, e, t);
        NeedlessProducerIff(q, e, t);
      }
    }
    if LateGet(q, e) || LatePut(q, e) {
      assert Needless(q', e.t);
    }
  }

  /** No state of a run has a thread asleep in a slot that it need not be in iff no step of the run gives
      the lock to a thread that came for it too early. */
  lemma RunNeedlessIff(states: seq<Queue>, events: seq<Event>)
    requires IsRun(states, events)
    ensures (forall i, t :: 0 <= i < |states| ==> !Needless(states[i], t))
            <==> forall i :: 0 <= i < |events| ==> !Late(states[i], events[i])
  {
    if forall i :: 0 <= i < |events| ==> !Late(states[i], events[i]) {
      forall i, t | 0 <= i < |states| ensures !Needless(states[i], t) {
        NeverNeedless(states, events, i);
      }
    }
    if forall i, t :: 0 <= i < |states| ==> !Needless(states[i], t) {
      forall i | 0 <= i < |events| ensures !Late(states[i], events[i]) {
        RunInv(states, events, i);
        assert Goes(states[i], events[i], states[i + 1]);
        StepNeedlessIff(states[i], events[i]);
      }
    }
  }

  predicate Late(q: Queue, e: Event) {
    Enabled(q, e) && (LateGet(q, e) || LatePut(q, e))
  }

  lemma {:induction false} NeverNeedless(states: seq<Queue>, events: seq<Event>, i: nat)
    requires IsRun(states, events) && i < |states| && forall j :: 0 <= j < |events| ==> !Late(states[j], events[j])
    ensures forall t :: !Needless(states[i], t)
  {
    if i > 0 {
      NeverNeedless(states, events, i - 1);
      RunInv(states, events, i - 1);
      assert Goes(states[i - 1], events[i - 1], states[i]);
      StepNeedlessIff(states[i - 1], events[i - 1]);
    }
  }

  /** As the keyboard queue is used: bytes are only put when there is room, and one thread gets them. */
  predicate Guarded(q: Queue, e: Event, c: Tid) {
    (e.Put? ==> !Full(q)) && (e.Get? ==> e.t == c)
  }

  /** Only c ever takes the lock, and it never has to queue for it. */
  ghost predicate OnlyConsumer(q: Queue, c: Tid) {
    forall t :: t in q.pc ==> q.pc[t] == Outside || (t == c && q.pc[t] == GetWait)
  }

  lemma GuardedStep(q: Queue, e: Event, c: Tid)
    requires Inv(q) && Enabled(q, e) && OnlyConsumer(q, c) && Guarded(q, e, c)
    ensures Step(q, e).Next? && OnlyConsumer(Step(q, e).value, c) && !Late(q, e)
  {
    StepInv(q, e);
  }

  /** Then no run has a thread asleep in a slot that it need not be in. */
  lemma KeyboardNeverNeedless(states: seq<Queue>, events: seq<Event>, c: Tid, i: nat, t: Tid)
    requires IsRun(states, events) && i < |states|
    requires forall j :: 0 <= j < |events| ==> Guarded(states[j], events[j], c)
    ensures !Needless(states[i], t)
  {
    forall j | 0 <= j < |events| ensures !Late(states[j], events[j]) {
      OnlyConsumerRuns(states, events, c, j);
      RunInv(states, events, j);
      assert Goes(states[j], events[j], states[j + 1]);
      GuardedStep(states[j], events[j], c);
    }
    NeverNeedless(states, events, i);
  }

  lemma {:induction false} OnlyConsumerRuns(states: seq<Queue>, events: seq<Event>, c: Tid, i: nat)
    requires IsRun(states, events) && i < |states|
    requires forall j :: 0 <= j < |events| ==> Guarded(states[j], events[j], c)
    ensures OnlyConsumer(states[i], c)
  {
    if i > 0 {
      OnlyConsumerRuns(states, events, c, i - 1);
      RunInv(states, events, i - 1);
      assert Goes(states[i - 1], events[i - 1], states[i]);
      GuardedStep(states[i - 1], events[i - 1], c);
    }
  }

  // ---------------------------------------------------------------- two runs that need not have slept

  /** Two consumers: both find the ring empty, two bytes arrive, the first takes one and hands the lock to
      the second, which sleeps. */
  lemma TwoConsumersOversleep() returns (states: seq<Queue>, events: seq<Event>)
    ensures IsRun(states, events) && Needless(states[|events|], 2)
  {
    states, events := TwoWaiting();
    states, events := OneMore(states, events, Resume(1));
    states, events := OneMore(states, events, Resume(2));
  }

  /** One consumer is woken from its slot, the other queues for the lock, and two bytes are there. */
  lemma TwoWaiting() returns (states: seq<Queue>, events: seq<Event>)
    ensures IsRun(states, events)
    ensures var q := states[|events|];
            && RingOk(q) && q.head == 2 && q.tail == 0 && q.waiters == [2] && q.blocked == {2} && q.value == 0 && q.repeat == 1
            && q.holder == Some(1) && q.consumer == None && q.producer == None
            && q.pc == map[1 := GetWait, 2 := GetWant, 3 := Outside]
  {
    states, events := [Fresh()], [];
    assert Initial(Fresh());
    states, events := OneMore(states, events, Get(1));
    states, events := OneMore(states, events, Get(2));
    states, events := OneMore(states, events, Put(3, 65));
    states, events := OneMore(states, events, Put(3, 66));
  }

  function Fresh(): Queue {
    Queue(None, 0, 1, [], None, None, seq(BUFSIZE, i => 0), 0, 0,
          map[1 := Outside, 2 := Outside, 3 := Outside], {}, [], [])
  }

  /** The producer fills the ring. */
  lemma RingFilled() returns (states: seq<Queue>, events: seq<Event>)
    ensures IsRun(states, events) && Quiet(states[|events|], None) && OfPair(events)
    ensures states[|events|].head == BUFSIZE - 1 && states[|events|].tail == 0
  {
    states, events := [Fresh()], [];
    while |events| < BUFSIZE - 1
      invariant |events| <= BUFSIZE - 1 && IsRun(states, events) && Quiet(states[|events|], None) && OfPair(events)
      invariant states[|events|].head == |events| && states[|events|].tail == 0
      decreases BUFSIZE - |events|
    {
      states, events := OneMore(states, events, Put(1, 65));
    }
  }

  /** It waits with one more byte, and the consumer empties the ring. */
  lemma RingEmptied() returns (states: seq<Queue>, events: seq<Event>)
    ensures IsRun(states, events) && Quiet(states[|events|], Some(66)) && OfPair(events)
    ensures states[|events|].head == BUFSIZE - 1 && states[|events|].tail == BUFSIZE - 1
  {
    states, events := RingFilled();
    states, events := OneMore(states, events, Put(1, 66));
    states, events := OneMore(states, events, Get(2));
    ghost var n := |events|;
    assert Quiet(states[|events|], Some(66)) && states[n].tail == 1;
    while |events| < n + BUFSIZE - 2
      invariant n <= |events| <= n + BUFSIZE - 2 && IsRun(states, events) && Quiet(states[|events|], Some(66)) && OfPair(events)
      invariant states[|events|].head == BUFSIZE - 1 && states[|events|].tail == 1 + |events| - n
      decreases n + BUFSIZE - |events|
    {
      states, events := OneMore(states, events, Get(2));
    }
  }

  /** One producer and one consumer are enough when the producer can wait: it fills the ring and waits; the
      consumer empties the ring and queues for the lock; the producer lets go of the lock and puts its byte;
      the consumer gets the lock and sleeps. */
  lemma OnePairOversleeps() returns (states: seq<Queue>, events: seq<Event>)
    ensures IsRun(states, events) && Needless(states[|events|], 2)
    ensures forall i :: 0 <= i < |events| ==> (events[i].Put? ==> events[i].t == 1) && (events[i].Get? ==> events[i].t == 2)
  {
    states, events := RingEmptied();
    states, events := OneMore(states, events, Get(2));
    states, events := OneMore(states, events, Resume(1));
    states, events := OneMore(states, events, Resume(2));
  }

  predicate OfPair(events: seq<Event>) {
    forall i :: 0 <= i < |events| ==> (events[i].Put? ==> events[i].t == 1) && (events[i].Get? ==> events[i].t == 2)
  }

  /** Nobody sleeps; `late` says whether thread 1 has been woken from its wait and not run since, with which byte. */
  ghost predicate Quiet(q: Queue, late: Option<Byte>) {
    && RingOk(q) && q.waiters == [] && q.blocked == {} && q.consumer == None && q.producer == None
    && q.pc.Keys == {1, 2, 3} && q.pc[2] == Outside
    && match late
       case None => q.pc[1] == Outside && q.value == 1 && q.repeat == 0 && q.holder == None
       case Some(b) => q.pc[1] == PutWait(b) && q.value == 0 && q.repeat == 1 && q.holder == Some(1)
  }

  /** The run with one more step. */
  lemma OneMore(states: seq<Queue>, events: seq<Event>, e: Event) returns (states': seq<Queue>, events': seq<Event>)
    requires IsRun(states, events) && RingOk(states[|events|]) && Enabled(states[|events|], e)
    requires Step(states[|events|], e).Next?
    ensures events' == events + [e] && IsRun(states', events') && |states'| == |states| + 1
    ensures states'[..|states|] == states && Step(states[|events|], e) == Next(states'[|events'|])
  {
    states', events' := states + [Step(states[|events|], e).value], events + [e];
    forall i | 0 <= i < |events'| ensures Goes(states'[i], events'[i], states'[i + 1]) {
      if i < |events| {
        assert Goes(states[i], events[i], states[i + 1]);
      }
    }
  }
}
