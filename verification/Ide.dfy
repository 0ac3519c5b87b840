/** device/ide.c: one ATA channel, the threads that issue commands on it under its lock, and interrupts
    that may come at any time, wanted or not.  The lock is taken and given up in one step each: Sync
    proves that lock_acquire and lock_release exclude all others in between. */
module Ide {
  import opened Outcomes

  type Tid = nat

  const MAX_LBA := 163839
  const CHUNK := 256

  datatype Request = Request(lba: nat, cnt: nat, write: bool, done: nat)

  /** Where a requester is in ide_read or ide_write. */
  datatype Pc =
    | Idle
    | Head(r: Request)       // line 210 or 268
    | Issued(r: Request)     // after cmd_out
    | Sent(r: Request)       // ide_write, after write2sector
    | Sleeping(r: Request)   // inside thread_block of sema_down
    | Completed(r: Request)  // past sema_down

  /** `commands`, `ups` and `downs` count cmd_out, the handler's sema_up and the completed sema_down. */
  datatype Channel = Channel(
    owner: Option<Tid>, expecting: bool, value: nat, waiters: seq<Tid>,
    pc: map<Tid, Pc>, blocked: set<Tid>,
    commands: nat, ups: nat, downs: nat)

  /** The sectors of the next command. */
  function ChunkOf(r: Request): nat {
    if r.done + CHUNK <= r.cnt then CHUNK else if r.done < r.cnt then r.cnt - r.done else 0
  }

  function Advanced(r: Request): Request {
    r.(done := r.done + ChunkOf(r))
  }

  /** One turn of sema_down's loop. */
  function Down(c: Channel, t: Tid, r: Request): Outcome<Channel> {
    if c.value == 0 then
      if t in c.waiters then Halted
      else Next(c.(waiters := c.waiters + [t], blocked := c.blocked + {t}, pc := c.pc[t := Sleeping(r)]))
    else if c.value - 1 != 0 then Halted
    else Next(c.(value := 0, downs := c.downs + 1, pc := c.pc[t := Completed(r)]))
  }

  /** intr_hd_handler. */
  function Interrupt(c: Channel): Outcome<Channel> {
    if !c.expecting then Next(c)
    else if c.value != 0 then Halted
    else
      var c1 := c.(expecting := false, value := 1, ups := c.ups + 1);
      if c.waiters == [] then Next(c1)
      else if c.waiters[0] !in c.blocked then Halted
      else Next(c1.(waiters := c.waiters[1..], blocked := c.blocked - {c.waiters[0]}))
  }

  datatype Event = Acquire(t: Tid, r: Request) | Run(t: Tid) | Irq

  predicate Enabled(c: Channel, e: Event) {
    match e
    case Acquire(t, r) => t in c.pc && c.pc[t] == Idle && c.owner == None && r.done == 0 && r.cnt > 0 && r.lba <= MAX_LBA
    case Run(t) => t in c.pc && t !in c.blocked && c.pc[t] != Idle
    case Irq => true
  }

  function Step(c: Channel, e: Event): Outcome<Channel>
    requires Enabled(c, e)
  {
    match e
    case Acquire(t, r) => Next(c.(owner := Some(t), pc := c.pc[t := Head(r)]))
    case Irq => Interrupt(c)
    case Run(t) =>
      match c.pc[t]
      case Head(r) =>
        if r.done >= r.cnt then
          if c.owner != Some(t) then Halted else Next(c.(owner := None, pc := c.pc[t := Idle]))
        else if r.lba + r.done > MAX_LBA then Halted
        else Next(c.(expecting := true, commands := c.commands + 1, pc := c.pc[t := Issued(r)]))
      case Issued(r) => if r.write then Next(c.(pc := c.pc[t := Sent(r)])) else Down(c, t, r)
      case Sent(r) => Down(c, t, r)
      case Sleeping(r) => Down(c, t, r)
      case Completed(r) => Next(c.(pc := c.pc[t := Head(Advanced(r))]))
  }

  // ---------------------------------------------------------------- the invariant

  /** A command has been issued and its sema_down has not completed. */
  predicate Pending(p: Pc) {
    p.Issued? || p.Sent? || p.Sleeping?
  }

  ghost predicate Inv(c: Channel) {
    && (forall t :: t in c.pc ==> (c.pc[t] != Idle <==> c.owner == Some(t)))
    && (c.owner != None ==> c.owner.value in c.pc)
    && c.value <= 1
    && (c.expecting ==> c.value == 0)
    && (c.expecting || c.value == 1 <==> c.owner != None && Pending(c.pc[c.owner.value]))
    && (c.waiters == [] || (c.owner != None && c.waiters == [c.owner.value]))
    && (forall t :: t in c.blocked <==> t in c.waiters)
    && (forall t :: t in c.blocked ==> c.pc[t].Sleeping? && c.expecting)
    && (c.owner != None && c.pc[c.owner.value].Sleeping? && c.expecting ==> c.owner.value in c.blocked)
    && c.commands == c.ups + (if c.expecting then 1 else 0)
    && c.ups == c.downs + c.value
  }

  ghost predicate Initial(c: Channel) {
    && c.owner == None && !c.expecting && c.value == 0 && c.waiters == [] && c.blocked == {}
    && (forall t :: t in c.pc ==> c.pc[t] == Idle) && c.commands == c.ups == c.downs == 0
  }

  lemma InitialInv(c: Channel)
    requires Initial(c)
    ensures Inv(c)
  {
  }

  /** The only assertion a step can fail is the one on the address of a later chunk. */
  predicate OffDisk(c: Channel, e: Event) {
    e.Run? && e.t in c.pc && c.pc[e.t].Head? && c.pc[e.t].r.done < c.pc[e.t].r.cnt
    && c.pc[e.t].r.lba + c.pc[e.t].r.done > MAX_LBA
  }

  lemma DownInv(c: Channel, t: Tid, r: Request)
    requires Inv(c) && t in c.pc && t !in c.blocked && Pending(c.pc[t])
    ensures Down(c, t, r).Next? && Inv(Down(c, t, r).value)
  {
    assert c.owner == Some(t);
  }

  lemma StepInv(c: Channel, e: Event)
    requires Inv(c) && Enabled(c, e)
    ensures Step(c, e).Halted? <==> OffDisk(c, e)
    ensures Step(c, e).Next? ==> Inv(Step(c, e).value)
  {
    match e
    case Acquire(t, r) =>
    case Irq =>
      if c.expecting && c.waiters != [] {
        assert c.waiters[0] in c.waiters;
      }
    case Run(t) =>
      assert c.owner == Some(t);
      var p := c.pc[t];
      if p.Sent? || p.Sleeping? || (p.Issued? && !p.r.write) {
        DownInv(c, t, p.r);
      }
  }

  ghost predicate IsRun(states: seq<Channel>, events: seq<Event>) {
    && |states| == |events| + 1 && Initial(states[0])
    && (forall i :: 0 <= i < |events| ==> Goes(states[i], events[i], states[i + 1]))
  }

  ghost predicate Goes(c: Channel, e: Event, c': Channel) {
    Enabled(c, e) && Step(c, e) == Next(c')
  }

  lemma {:induction false} RunInv(states: seq<Channel>, events: seq<Event>, i: nat)
    requires IsRun(states, events) && i < |states|
    ensures Inv(states[i])
  {
    if i == 0 {
      InitialInv(states[0]);
    } else {
      RunInv(states, events, i - 1);
      assert Goes(states[i - 1], events[i - 1], states[i]);
      StepInv(states[i - 1], events[i - 1]);
    }
  }

  /** Over all interleavings of requesters and interrupts, stray ones included: every command is answered
      by at most one sema_up, and by exactly one by the time its requester is past sema_down; and when the
      channel lock is free, disk_done is 0, no interrupt is expected and nobody waits. */
  lemma HandshakeHolds(states: seq<Channel>, events: seq<Event>, i: nat)
    requires IsRun(states, events) && i < |states|
    ensures var c := states[i];
            && c.ups <= c.commands <= c.ups + 1
            && (c.owner == None ==>
                  c.value == 0 && !c.expecting && c.waiters == [] && c.commands == c.ups == c.downs)
            && (forall t :: t in c.pc && c.pc[t].Completed? ==> c.commands == c.ups == c.downs)
            && (forall e :: Enabled(c, e) && !OffDisk(c, e) ==> Step(c, e).Next?)
  {
    RunInv(states, events, i);
    var c := states[i];
    forall e | Enabled(c, e) && !OffDisk(c, e) ensures Step(c, e).Next? {
      StepInv(c, e);
    }
  }

  // ---------------------------------------------------------------- the commands of one call

  datatype Command = Command(lba: nat, sectors: nat)

  /** The command that event e issues in state c, if c' is what follows. */
  function IssuedBy(c: Channel, e: Event, c': Channel): seq<Command> {
    if e.Run? && e.t in c.pc && e.t in c'.pc && c.pc[e.t].Head? && c'.pc[e.t].Issued? then
      var r := c.pc[e.t].r;
      [Command(r.lba + r.done, ChunkOf(r))]
    else []
  }

  /** The commands of events a..b, whoever issues them. */
  function Commands(states: seq<Channel>, events: seq<Event>, a: nat, b: nat): seq<Command>
    requires |states| == |events| + 1 && a <= b <= |events|
    decreases b
  {
    if a == b then [] else Commands(states, events, a, b - 1) + IssuedBy(states[b - 1], events[b - 1], states[b])
  }

  /** The first n commands that a call for cnt sectors from lba on is to issue. */
  function Wanted(lba: nat, cnt: nat, n: nat): (s: seq<Command>)
    requires n > 0 ==> CHUNK * (n - 1) < cnt
    ensures |s| == n
  {
    seq(n, k requires 0 <= k < n => Command(lba + CHUNK * k, if cnt - CHUNK * k < CHUNK then cnt - CHUNK * k else CHUNK))
  }

  /** Where thread t is with request q when cmds have been issued: every turn of the loop before this one has
      issued its command, and the turn itself has once it is past cmd_out. */
  ghost predicate Progress(p: Pc, q: Request, cmds: seq<Command>) {
    && p != Idle && p.r == q.(done := p.r.done)
    && var turns := (p.r.done + CHUNK - 1) / CHUNK;
    && (if p.Head? then p.r.done == q.cnt || p.r.done == CHUNK * turns < q.cnt else p.r.done == CHUNK * turns < q.cnt)
    && var n := if p.Head? then turns else turns + 1;
    && (n > 0 ==> CHUNK * (n - 1) < q.cnt)
    && cmds == Wanted(q.lba, q.cnt, n)
  }

  lemma WantedMore(lba: nat, cnt: nat, n: nat)
    requires CHUNK * n < cnt
    ensures Wanted(lba, cnt, n + 1)
            == Wanted(lba, cnt, n) + [Command(lba + CHUNK * n, if cnt - CHUNK * n < CHUNK then cnt - CHUNK * n else CHUNK)]
  {
  }

  lemma TurnDone(done: nat, cnt: nat, turns: nat)
    requires done == CHUNK * turns < cnt
    ensures var done' := done + if cnt - done < CHUNK then cnt - done else CHUNK;
            && (done' + CHUNK - 1) / CHUNK == turns + 1
            && (done' == cnt || done' == CHUNK * (turns + 1) < cnt)
  {
  }

  /** While t has the channel, no step but its own issues a command, and its own go on with its request. */
  lemma ProgressStep(c: Channel, e: Event, c': Channel, t: Tid, q: Request, cmds: seq<Command>)
    requires Inv(c) && Goes(c, e, c') && t in c.pc && Progress(c.pc[t], q, cmds) && t in c'.pc && c'.pc[t] != Idle
    ensures Progress(c'.pc[t], q, cmds + IssuedBy(c, e, c'))
  {
    hide Wanted;
    assert c.owner == Some(t);
    assert cmds + [] == cmds;
    if e == Run(t) {
      var r := c.pc[t].r;
      if c.pc[t].Head? {
        WantedMore(q.lba, q.cnt, (r.done + CHUNK - 1) / CHUNK);
      } else if c.pc[t].Completed? {
        TurnDone(r.done, q.cnt, (r.done + CHUNK - 1) / CHUNK);
      }
    } else {
      OthersWait(c, e, c', t);
    }
  }

  lemma OthersWait(c: Channel, e: Event, c': Channel, t: Tid)
    requires Inv(c) && Goes(c, e, c') && c.owner == Some(t) && e != Run(t)
    ensures e == Irq && c'.pc == c.pc
  {
  }

  lemma JustAcquired(c: Channel, c': Channel, t: Tid, q: Request)
    requires Goes(c, Acquire(t, q), c')
    ensures t in c'.pc && Progress(c'.pc[t], q, [] + IssuedBy(c, Acquire(t, q), c'))
  {
    assert Wanted(q.lba, q.cnt, 0) == [];
  }

  /** t has the channel in states a + 1..b. */
  ghost predicate InCall(states: seq<Channel>, t: Tid, a: nat, b: nat) {
    forall k :: a < k <= b && k < |states| ==> t in states[k].pc && states[k].pc[t] != Idle
  }

  lemma RunGoes(states: seq<Channel>, events: seq<Event>, i: nat)
    requires IsRun(states, events) && i < |events|
    ensures Goes(states[i], events[i], states[i + 1]) && Inv(states[i])
  {
    RunInv(states, events, i);
  }

  /** The commands since event a are those of the turns that t has made. */
  ghost predicate OnCall(states: seq<Channel>, events: seq<Event>, a: nat, b: nat, t: Tid, q: Request) {
    && |states| == |events| + 1 && a <= b <= |events|
    && t in states[b].pc && Progress(states[b].pc[t], q, Commands(states, events, a, b))
  }

  lemma CallBegins(states: seq<Channel>, events: seq<Event>, a: nat, t: Tid, q: Request)
    requires |states| == |events| + 1 && a < |events| && events[a] == Acquire(t, q) && Goes(states[a], events[a], states[a + 1])
    ensures OnCall(states, events, a, a + 1, t, q)
  {
    hide Progress, Goes, IssuedBy;
    JustAcquired(states[a], states[a + 1], t, q);
    assert Commands(states, events, a, a) == [];
  }

  lemma CallGoesOn(states: seq<Channel>, events: seq<Event>, a: nat, b: nat, t: Tid, q: Request)
    requires OnCall(states, events, a, b, t, q) && b < |events| && Goes(states[b], events[b], states[b + 1]) && Inv(states[b])
    requires t in states[b + 1].pc && states[b + 1].pc[t] != Idle
    ensures OnCall(states, events, a, b + 1, t, q)
  {
    hide Progress, Goes, Inv, IssuedBy;
    ProgressStep(states[b], events[b], states[b + 1], t, q, Commands(states, events, a, b));
  }

  lemma {:induction false} CallProgress(states: seq<Channel>, events: seq<Event>, a: nat, b: nat, t: Tid, q: Request)
    requires IsRun(states, events) && a < b <= |events| && events[a] == Acquire(t, q) && InCall(states, t, a, b)
    ensures OnCall(states, events, a, b, t, q)
    decreases b
  {
    hide OnCall, Goes, Inv;
    RunGoes(states, events, b - 1);
    if a == b - 1 {
      CallBegins(states, events, a, t, q);
    } else {
      CallProgress(states, events, a, b - 1, t, q);
      CallGoesOn(states, events, a, b - 1, t, q);
    }
  }

  lemma CallEnds(states: seq<Channel>, events: seq<Event>, a: nat, b: nat, t: Tid, q: Request)
    requires OnCall(states, events, a, b, t, q) && b < |events| && Goes(states[b], events[b], states[b + 1]) && Inv(states[b])
    requires t in states[b + 1].pc && states[b + 1].pc[t] == Idle
    ensures Commands(states, events, a, b + 1) == Wanted(q.lba, q.cnt, (q.cnt + CHUNK - 1) / CHUNK)
  {
    hide Goes, Inv, IssuedBy;
    LastStep(states[b], events[b], states[b + 1], t);
    var cmds := Commands(states, events, a, b);
    assert Commands(states, events, a, b + 1) == cmds + [] == cmds;
  }

  /** Between taking the channel for a request and giving it up, exactly one command for every 256 sectors
      or part of them is issued, in order, the k-th for the sectors from lba + 256 * k on. */
  lemma CommandsOfCall(states: seq<Channel>, events: seq<Event>, a: nat, b: nat, t: Tid, q: Request)
    requires IsRun(states, events) && a < b < |events| && events[a] == Acquire(t, q)
    requires InCall(states, t, a, b) && t in states[b + 1].pc && states[b + 1].pc[t] == Idle
    ensures var cmds := Commands(states, events, a, b + 1);
            && |cmds| == (q.cnt + CHUNK - 1) / CHUNK
            && forall k :: 0 <= k < |cmds| ==>
                 && cmds[k].lba == q.lba + CHUNK * k
                 && cmds[k].sectors == if q.cnt - CHUNK * k < CHUNK then q.cnt - CHUNK * k else CHUNK
  {
    hide Goes, Inv, OnCall, IssuedBy, InCall;
    CallProgress(states, events, a, b, t, q);
    RunGoes(states, events, b);
    CallEnds(states, events, a, b, t, q);
  }

  lemma LastStep(c: Channel, e: Event, c': Channel, t: Tid)
    requires Inv(c) && Goes(c, e, c') && t in c.pc && c.pc[t] != Idle && t in c'.pc && c'.pc[t] == Idle
    ensures e == Run(t) && c.pc[t].Head? && c.pc[t].r.done >= c.pc[t].r.cnt && IssuedBy(c, e, c') == []
  {
    if e != Run(t) {
      OthersWait(c, e, c', t);
    }
  }

  // ---------------------------------------------------------------- a call goes on

  /** How many steps of its own a requester at p has left. */
  function Left(p: Pc): nat {
    match p
    case Idle => 0
    case Head(r) => 5 * Turns(r) + 1
    case Issued(r) => 5 * Turns(r)
    case Sent(r) => if Turns(r) == 0 then 0 else 5 * Turns(r) - 1
    case Sleeping(r) => if Turns(r) == 0 then 0 else 5 * Turns(r) - 2
    case Completed(r) => if Turns(r) == 0 then 0 else 5 * Turns(r) - 3
  }

  /** The chunks that are left, the present one included. */
  function Turns(r: Request): nat {
    if r.done >= r.cnt then 0 else (r.cnt - r.done + CHUNK - 1) / CHUNK
  }

  ghost predicate InTurn(p: Pc) {
    p.Issued? || p.Sent? || p.Sleeping? || p.Completed? ==> p.r.done < p.r.cnt
  }

  lemma TurnsFall(r: Request)
    requires r.done < r.cnt
    ensures Turns(r) >= 1 && Turns(Advanced(r)) == Turns(r) - 1
  {
  }

  /** Whatever interrupts come in between, a requester that runs gets on with its call: it never finds that
      it has been woken for nothing. */
  lemma RunAdvances(c: Channel, t: Tid)
    requires Inv(c) && Enabled(c, Run(t)) && InTurn(c.pc[t]) && Step(c, Run(t)).Next?
    ensures var c' := Step(c, Run(t)).value; t in c'.pc && InTurn(c'.pc[t]) && Left(c'.pc[t]) < Left(c.pc[t])
  {
    assert c.owner == Some(t);
    var r := c.pc[t].r;
    if r.done < r.cnt {
      TurnsFall(r);
    }
    hide Turns;
  }

  /** How often t has run in events a..b. */
  function Turned(events: seq<Event>, t: Tid, a: nat, b: nat): nat
    requires a <= b <= |events|
    decreases b
  {
    if a == b then 0 else Turned(events, t, a, b - 1) + if events[b - 1] == Run(t) then 1 else 0
  }

  lemma StepsLeft(c: Channel, e: Event, c': Channel, t: Tid)
    requires Inv(c) && Goes(c, e, c') && t in c.pc && c.pc[t] != Idle && InTurn(c.pc[t])
    ensures t in c'.pc && InTurn(c'.pc[t]) && Left(c'.pc[t]) + (if e == Run(t) then 1 else 0) <= Left(c.pc[t])
  {
    hide Left;
    assert c.owner == Some(t);
    if e == Run(t) {
      RunAdvances(c, t);
    } else {
      OthersWait(c, e, c', t);
    }
  }

  /** A call for cnt sectors is over after at most five steps of its thread for every 256 sectors, and one. */
  lemma {:induction false} CallIsShort(states: seq<Channel>, events: seq<Event>, a: nat, b: nat, t: Tid, q: Request)
    requires IsRun(states, events) && a < b <= |events| && events[a] == Acquire(t, q) && InCall(states, t, a, b - 1)
    ensures t in states[b].pc && InTurn(states[b].pc[t])
    ensures Turned(events, t, a + 1, b) + Left(states[b].pc[t]) <= 5 * ((q.cnt + CHUNK - 1) / CHUNK) + 1
    decreases b
  {
    hide Goes, Inv, Left, InTurn;
    RunGoes(states, events, b - 1);
    if a == b - 1 {
      CallEntered(states[a], states[b], t, q);
    } else {
      CallIsShort(states, events, a, b - 1, t, q);
      StepsLeft(states[b - 1], events[b - 1], states[b], t);
    }
  }

  lemma CallEntered(c: Channel, c': Channel, t: Tid, q: Request)
    requires Goes(c, Acquire(t, q), c')
    ensures t in c'.pc && InTurn(c'.pc[t]) && Left(c'.pc[t]) == 5 * ((q.cnt + CHUNK - 1) / CHUNK) + 1
  {
  }

  // ---------------------------------------------------------------- the registers

  function Register8(w: nat): nat {
    w % 256
  }

  /** What the controller makes of the four address registers and the count register; the low four bits
      of the device register are the top of the address, and a count of 0 stands for 256. */
  function Address(low: nat, mid: nat, high: nat, device: nat): nat {
    low + 256 * mid + 65536 * high + 16777216 * (device % 16)
  }

  function Sectors(count: nat): nat {
    if count == 0 then CHUNK else count
  }

  /** select_sector's device register: MBS, LBA and DEV bits above the top of the address. */
  function DeviceRegister(lba: nat, slave: bool): nat {
    Register8(0xa0 + 0x40 + (if slave then 0x10 else 0) + lba / 16777216)
  }

  /** The controller gets the address that was meant. */
  lemma AddressArrives(lba: nat, slave: bool)
    requires lba <= MAX_LBA
    ensures Address(Register8(lba), Register8(lba / 256), Register8(lba / 65536), DeviceRegister(lba, slave)) == lba
  {
    assert lba / 16777216 == 0;
    assert lba / 65536 < 256;
    assert lba == 256 * (lba / 256) + lba % 256;
    assert lba / 256 == 256 * (lba / 65536) + (lba / 256) % 256 by {
      assert (lba / 256) / 256 == lba / 65536;
    }
  }

  lemma CountArrives(op: nat)
    requires 1 <= op <= CHUNK
    ensures Sectors(Register8(op)) == op
  {
  }

  // ---------------------------------------------------------------- the chunk loops

  class Disk<Sector> {
    var sectors: seq<Sector>
    var buffer: seq<Sector>

    /** A command as the registers carry it: `count` sectors from the address go to the buffer. */
    method ReadChunk(lba: nat, op: nat) returns (data: seq<Sector>)
      requires lba <= MAX_LBA && 1 <= op <= CHUNK && lba + op <= |sectors|
      ensures data == sectors[lba..lba + op]
    {
      var address := Address(lba % 256, lba / 256 % 256, lba / 65536 % 256, DeviceRegister(lba, false));
      AddressArrives(lba, false);
      CountArrives(op);
      var count := op % 256;
      var n := if count == 0 then 256 else count;
      data := sectors[address..address + n];
    }

    method WriteChunk(lba: nat, op: nat, data: seq<Sector>)
      requires lba <= MAX_LBA && 1 <= op <= CHUNK && lba + op <= |sectors| && |data| == op
      modifies `sectors
      ensures sectors == old(sectors)[..lba] + data + old(sectors)[lba + op..]
    {
      var address := Address(lba % 256, lba / 256 % 256, lba / 65536 % 256, DeviceRegister(lba, false));
      AddressArrives(lba, false);
      CountArrives(op);
      var count := op % 256;
      var n := if count == 0 then 256 else count;
      sectors := sectors[..address] + data[..n] + sectors[address + n..];
      assert data[..n] == data;
    }

    /** The loop of ide_read moves exactly sectors lba..lba+cnt, in order; it stops the machine iff a
        chunk would start past max_lba. */
    method IdeRead(lba: nat, cnt: nat) returns (r: Outcome<seq<Sector>>)
      requires lba <= MAX_LBA && cnt > 0 && lba + cnt <= |sectors|
      ensures r == if lba + (cnt - 1) / CHUNK * CHUNK > MAX_LBA then Halted else Next(sectors[lba..lba + cnt])
    {
      hide WholeChunks, ChunkOf;
      NoChunks(lba, cnt);
      var done, buf := 0, [];
      while done < cnt
        invariant done <= cnt && buf == sectors[lba..lba + done]
        invariant WholeChunks(lba, cnt, done)
        decreases cnt - done
      {
        var op := ChunkOf(Request(lba, cnt, false, done));
        NextChunk(lba, cnt, done);
        if lba + done > MAX_LBA {
          return Halted;
        }
        var data := ReadChunk(lba + done, op);
        assert sectors[lba..lba + done] + sectors[lba + done..lba + done + op] == sectors[lba..lba + done + op];
        buf := buf + data;
        done := done + op;
      }
      AllChunks(lba, cnt);
      return Next(buf);
    }

    /** The loop of ide_write replaces exactly sectors lba..lba+|data| by the data. */
    method IdeWrite(lba: nat, data: seq<Sector>) returns (ok: bool)
      requires lba <= MAX_LBA && data != [] && lba + |data| <= |sectors|
      modifies `sectors
      ensures ok <==> lba + (|data| - 1) / CHUNK * CHUNK <= MAX_LBA
      ensures ok ==> sectors == old(sectors)[..lba] + data + old(sectors)[lba + |data|..]
    {
      hide WholeChunks, ChunkOf;
      NoChunks(lba, |data|);
      var done, cnt := 0, |data|;
      ghost var s0 := sectors;
      while done < cnt
        invariant done <= cnt && |sectors| == |s0|
        invariant sectors == s0[..lba] + data[..done] + s0[lba + done..]
        invariant WholeChunks(lba, cnt, done)
        decreases cnt - done
      {
        var op := ChunkOf(Request(lba, cnt, true, done));
        NextChunk(lba, cnt, done);
        if lba + done > MAX_LBA {
          return false;
        }
        WriteChunk(lba + done, op, data[done..done + op]);
        Spliced(s0, data, lba, done, op);
        done := done + op;
      }
      AllChunks(lba, cnt);
      assert data[..done] == data;
      return true;
    }
  }

  /** `done` sectors are whole chunks, or all there are, and no chunk so far began past max_lba. */
  predicate WholeChunks(lba: nat, cnt: nat, done: nat) {
    && (done % CHUNK == 0 || done == cnt)
    && (done > 0 ==> lba + (done - 1) / CHUNK * CHUNK <= MAX_LBA)
  }

  lemma NoChunks(lba: nat, cnt: nat)
    ensures WholeChunks(lba, cnt, 0)
  {
  }

  lemma AllChunks(lba: nat, cnt: nat)
    requires WholeChunks(lba, cnt, cnt) && cnt > 0
    ensures lba + (cnt - 1) / CHUNK * CHUNK <= MAX_LBA
  {
  }

  lemma NextChunk(lba: nat, cnt: nat, done: nat)
    requires WholeChunks(lba, cnt, done) && done < cnt
    ensures var op := ChunkOf(Request(lba, cnt, false, done));
            && 1 <= op <= CHUNK && done + op <= cnt && op == ChunkOf(Request(lba, cnt, true, done))
            && (lba + done <= MAX_LBA ==> WholeChunks(lba, cnt, done + op))
    ensures lba + done > MAX_LBA ==> lba + (cnt - 1) / CHUNK * CHUNK > MAX_LBA
  {
    var op := ChunkOf(Request(lba, cnt, false, done));
    assert (done + op - 1) / CHUNK * CHUNK == done;
    assert (cnt - 1) / CHUNK * CHUNK >= done;
  }

  lemma Spliced<T>(s0: seq<T>, data: seq<T>, lba: nat, done: nat, op: nat)
    requires done + op <= |data| && lba + |data| <= |s0|
    ensures var s := s0[..lba] + data[..done] + s0[lba + done..];
            s[..lba + done] + data[done..done + op] + s[lba + done + op..]
            == s0[..lba] + data[..done + op] + s0[lba + (done + op)..]
  {
  }
}
