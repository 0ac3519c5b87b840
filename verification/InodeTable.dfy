/** fs/inode.c: 76-byte inodes packed without gaps into 512-byte sectors, so that a slot can straddle
    two sectors, and the list of open inodes in front of them. */
module InodeTable {
  import opened Outcomes

  type byte = b: nat | b < 256
  type u32 = w: nat | w < 0x1_0000_0000

  const SECTOR := 512
  const INODE_SIZE := 76
  const MAX_FILES := 4096
  const TABLE_SECTORS := 608

  /** struct inode; `prev` and `next` are its inode_tag. */
  datatype Inode = Inode(
    no: u32, size: u32, opens: u32, writeDeny: bool, sectors: seq<u32>, prev: u32, next: u32)

  ghost predicate WellFormed(i: Inode) {
    |i.sectors| == 13
  }

  // ---------------------------------------------------------------- the bytes of an inode

  function Le32(w: u32): (r: seq<byte>)
    ensures |r| == 4
  {
    [w % 256, w / 256 % 256, w / 65536 % 256, w / 16777216]
  }

  function FromLe32(b: seq<byte>, at: nat): u32
    requires at + 4 <= |b|
  {
    var b0: int, b1: int, b2: int, b3: int := b[at], b[at + 1], b[at + 2], b[at + 3];
    b0 + 256 * b1 + 65536 * b2 + 16777216 * b3
  }

  lemma WordRoundTrip(w: u32, pre: seq<byte>, post: seq<byte>)
    ensures FromLe32(pre + Le32(w) + post, |pre|) == w
  {
    var b := pre + Le32(w) + post;
    assert b[|pre|] == Le32(w)[0] && b[|pre| + 1] == Le32(w)[1];
    assert b[|pre| + 2] == Le32(w)[2] && b[|pre| + 3] == Le32(w)[3];
  }

  function Words(ws: seq<u32>): (r: seq<byte>)
    ensures |r| == 4 * |ws|
  {
    if ws == [] then [] else Le32(ws[0]) + Words(ws[1..])
  }

  function FromWords(b: seq<byte>, at: nat, n: nat): (r: seq<u32>)
    requires at + 4 * n <= |b|
    ensures |r| == n
    decreases n
  {
    if n == 0 then [] else [FromLe32(b, at)] + FromWords(b, at + 4, n - 1)
  }

  lemma {:induction false} WordsRoundTrip(ws: seq<u32>, pre: seq<byte>, post: seq<byte>)
    ensures FromWords(pre + Words(ws) + post, |pre|, |ws|) == ws
  {
    if ws != [] {
      var b := pre + Words(ws) + post;
      assert b == pre + Le32(ws[0]) + (Words(ws[1..]) + post);
      WordRoundTrip(ws[0], pre, Words(ws[1..]) + post);
      assert b == (pre + Le32(ws[0])) + Words(ws[1..]) + post;
      WordsRoundTrip(ws[1..], pre + Le32(ws[0]), post);
    }
  }

  /** The C layout: i_no, i_size, i_open_cnts, write_deny and three bytes of padding, i_sectors, the tag. */
  function Encode(i: Inode): (r: seq<byte>)
    requires |i.sectors| == 13
    ensures |r| == INODE_SIZE
  {
    Words([i.no, i.size, i.opens]) + Le32(if i.writeDeny then 1 else 0) + Words(i.sectors) + Words([i.prev, i.next])
  }

  function Decode(b: seq<byte>): Inode
    requires |b| == INODE_SIZE
  {
    Inode(FromLe32(b, 0), FromLe32(b, 4), FromLe32(b, 8), b[12] != 0, FromWords(b, 16, 13),
          FromLe32(b, 68), FromLe32(b, 72))
  }

  lemma TwoWords(x: u32, y: u32)
    ensures Words([x, y]) == Le32(x) + Le32(y)
  {
    assert [x, y][1..] == [y] && [y][1..] == [];
    assert Words([y]) == Le32(y) + Words([]);
    assert Words([]) == [];
  }

  lemma DecodeHead(i: Inode, deny: seq<byte>, rest: seq<byte>)
    requires |deny| == 4
    ensures var b := Words([i.no, i.size, i.opens]) + deny + rest;
            && FromLe32(b, 0) == i.no && FromLe32(b, 4) == i.size && FromLe32(b, 8) == i.opens
            && b[12] == deny[0]
  {
    TwoWords(i.size, i.opens);
    assert [i.no, i.size, i.opens][1..] == [i.size, i.opens];
    var x, y, z := Le32(i.no), Le32(i.size), Le32(i.opens);
    var b := Words([i.no, i.size, i.opens]) + deny + rest;
    assert b == [] + x + (y + z + deny + rest);
    WordRoundTrip(i.no, [], y + z + deny + rest);
    assert b == x + y + (z + deny + rest);
    WordRoundTrip(i.size, x, z + deny + rest);
    assert b == (x + y) + z + (deny + rest);
    WordRoundTrip(i.opens, x + y, deny + rest);
  }

  lemma DecodeTail(front: seq<byte>, prev: u32, next: u32)
    requires |front| == 68
    ensures var b := front + Words([prev, next]);
            FromLe32(b, 68) == prev && FromLe32(b, 72) == next
  {
    TwoWords(prev, next);
    var b := front + Words([prev, next]);
    assert b == front + Le32(prev) + Le32(next);
    WordRoundTrip(prev, front, Le32(next));
    assert b == (front + Le32(prev)) + Le32(next) + [];
    WordRoundTrip(next, front + Le32(prev), []);
  }

  lemma DecodeEncode(i: Inode)
    requires WellFormed(i)
    ensures Decode(Encode(i)) == i
  {
    var head := Words([i.no, i.size, i.opens]);
    var deny := Le32(if i.writeDeny then 1 else 0);
    var middle := Words(i.sectors);
    var tags := Words([i.prev, i.next]);
    assert Encode(i) == head + deny + (middle + tags);
    DecodeHead(i, deny, middle + tags);
    WordsRoundTrip(i.sectors, head + deny, tags);
    DecodeTail(head + deny + middle, i.prev, i.next);
  }

  // ---------------------------------------------------------------- slots on disk

  datatype Position = Position(twoSec: bool, lba: nat, off: nat)

  function Locate(tableLba: nat, no: nat): Outcome<Position>
  {
    if no >= MAX_FILES then Halted
    else
      var at := no * INODE_SIZE;
      Next(Position(SECTOR - at % SECTOR < INODE_SIZE, tableLba + at / SECTOR, at % SECTOR))
  }

  predicate HoldsTable(disk: seq<byte>, tableLba: nat) {
    SECTOR * (tableLba + TABLE_SECTORS) <= |disk|
  }

  function SlotAt(tableLba: nat, no: nat): nat {
    SECTOR * tableLba + INODE_SIZE * no
  }

  function Slot(disk: seq<byte>, tableLba: nat, no: nat): (r: seq<byte>)
    requires HoldsTable(disk, tableLba) && no < MAX_FILES
    ensures |r| == INODE_SIZE
  {
    disk[SlotAt(tableLba, no)..SlotAt(tableLba, no) + INODE_SIZE]
  }

  function Splice(s: seq<byte>, at: nat, b: seq<byte>): (r: seq<byte>)
    requires at + |b| <= |s|
    ensures |r| == |s|
  {
    s[..at] + b + s[at + |b|..]
  }

  function Zeros(n: nat): (r: seq<byte>)
    ensures |r| == n
  {
    seq(n, i => 0)
  }

  /** Reading the one or two sectors around a slot, patching them and writing them back patches the
      slot and nothing else. */
  lemma PatchedSectors(disk: seq<byte>, tableLba: nat, no: nat, b: seq<byte>)
    requires HoldsTable(disk, tableLba) && no < MAX_FILES && |b| == INODE_SIZE
    ensures var p := Locate(tableLba, no).value;
            var n := if p.twoSec then 2 else 1;
            && SECTOR * (p.lba + n) <= |disk| && p.off + INODE_SIZE <= SECTOR * n
            && Splice(disk, SECTOR * p.lba, Splice(disk[SECTOR * p.lba..SECTOR * (p.lba + n)], p.off, b))
               == Splice(disk, SlotAt(tableLba, no), b)
  {
    var p := Locate(tableLba, no).value;
    var n := if p.twoSec then 2 else 1;
    var at := no * INODE_SIZE;
    assert at == SECTOR * (at / SECTOR) + at % SECTOR;
    assert SECTOR * p.lba + p.off == SlotAt(tableLba, no);
    assert at <= 4095 * INODE_SIZE;
    assert p.lba + n <= tableLba + TABLE_SECTORS;
    SpliceInside(disk, SECTOR * p.lba, SECTOR * (p.lba + n), p.off, b);
  }

  lemma SlotInSectors(disk: seq<byte>, tableLba: nat, no: nat)
    requires HoldsTable(disk, tableLba) && no < MAX_FILES
    ensures var p := Locate(tableLba, no).value;
            var hi := SECTOR * (p.lba + if p.twoSec then 2 else 1);
            && hi <= |disk| && SECTOR * p.lba + p.off + INODE_SIZE <= hi
            && disk[SECTOR * p.lba..hi][p.off..p.off + INODE_SIZE] == Slot(disk, tableLba, no)
  {
    PatchedSectors(disk, tableLba, no, Zeros(INODE_SIZE));
    var p := Locate(tableLba, no).value;
    var lo, hi := SECTOR * p.lba, SECTOR * (p.lba + if p.twoSec then 2 else 1);
    assert lo + p.off == SlotAt(tableLba, no);
    SubSlice(disk, lo, hi, p.off, p.off + INODE_SIZE);
  }

  lemma SubSlice(s: seq<byte>, lo: nat, hi: nat, a: nat, b: nat)
    requires a <= b && lo + b <= hi <= |s|
    ensures s[lo..hi][a..b] == s[lo + a..lo + b]
  {
    var x, y := s[lo..hi][a..b], s[lo + a..lo + b];
    forall k | 0 <= k < b - a ensures x[k] == y[k] {
      assert x[k] == s[lo..hi][a + k];
    }
  }

  lemma SpliceInside(s: seq<byte>, lo: nat, hi: nat, off: nat, b: seq<byte>)
    requires lo + off + |b| <= hi <= |s|
    ensures Splice(s, lo, Splice(s[lo..hi], off, b)) == Splice(s, lo + off, b)
  {
    var x := Splice(s, lo, Splice(s[lo..hi], off, b));
    var y := Splice(s, lo + off, b);
    forall k | 0 <= k < |s| ensures x[k] == y[k] {
    }
  }

  lemma SpliceSlots(disk: seq<byte>, tableLba: nat, no: nat, b: seq<byte>)
    requires HoldsTable(disk, tableLba) && no < MAX_FILES && |b| == INODE_SIZE
    ensures var r := Splice(disk, SlotAt(tableLba, no), b);
            && HoldsTable(r, tableLba) && Slot(r, tableLba, no) == b
            && (forall m :: 0 <= m < MAX_FILES && m != no ==> Slot(r, tableLba, m) == Slot(disk, tableLba, m))
  {
    var r := Splice(disk, SlotAt(tableLba, no), b);
    forall m | 0 <= m < MAX_FILES && m != no ensures Slot(r, tableLba, m) == Slot(disk, tableLba, m) {
      if m < no {
        assert INODE_SIZE * (m + 1) <= INODE_SIZE * no;
      } else {
        assert INODE_SIZE * (no + 1) <= INODE_SIZE * m;
      }
    }
  }

  // ---------------------------------------------------------------- inode_sync, inode_delete, inode_open

  /** The fields that only matter in memory are cleared before the inode goes to disk. */
  function Pure(i: Inode): Inode {
    i.(opens := 0, writeDeny := false, prev := 0, next := 0)
  }

  /** The slot inode_sync writes: line 61 keeps the inode number in a uint8_t. */
  function SyncNumber(i: Inode, shipped: bool): nat {
    if shipped then i.no % 256 else i.no
  }

  function Sync(disk: seq<byte>, tableLba: nat, i: Inode, shipped: bool): Outcome<seq<byte>>
    requires HoldsTable(disk, tableLba) && WellFormed(i)
  {
    if SyncNumber(i, shipped) >= MAX_FILES then Halted
    else Next(Splice(disk, SlotAt(tableLba, SyncNumber(i, shipped)), Encode(Pure(i))))
  }

  function Load(disk: seq<byte>, tableLba: nat, no: nat): Inode
    requires HoldsTable(disk, tableLba) && no < MAX_FILES
  {
    Decode(Slot(disk, tableLba, no))
  }

  /** A later inode_open that misses the open list sees the synced fields, and every other inode is
      as before. */
  ghost predicate SyncedTo(disk: seq<byte>, tableLba: nat, i: Inode, r: Outcome<seq<byte>>)
    requires HoldsTable(disk, tableLba) && i.no < MAX_FILES
  {
    && r.Next? && HoldsTable(r.value, tableLba)
    && Load(r.value, tableLba, i.no) == Pure(i)
    && forall m :: 0 <= m < MAX_FILES && m != i.no ==> Slot(r.value, tableLba, m) == Slot(disk, tableLba, m)
  }

  lemma SyncThenLoad(disk: seq<byte>, tableLba: nat, i: Inode)
    requires HoldsTable(disk, tableLba) && WellFormed(i) && i.no < MAX_FILES
    ensures SyncedTo(disk, tableLba, i, Sync(disk, tableLba, i, false))
  {
    SpliceSlots(disk, tableLba, i.no, Encode(Pure(i)));
    DecodeEncode(Pure(i));
  }

  /** The promise of inode_sync for inode number `no`, on every disk and for every inode. */
  ghost predicate SyncWorks(no: u32, shipped: bool)
    requires no < MAX_FILES
  {
    forall disk: seq<byte>, tableLba: nat, i: Inode ::
      HoldsTable(disk, tableLba) && WellFormed(i) && i.no == no ==>
        SyncedTo(disk, tableLba, i, Sync(disk, tableLba, i, shipped))
  }

  /** The shipped inode_sync keeps its promise exactly for inode numbers that fit in a byte. */
  lemma ShippedSyncWorksIff(no: u32)
    requires no < MAX_FILES
    ensures SyncWorks(no, true) <==> no < 256
  {
    if no < 256 {
      forall disk: seq<byte>, tableLba: nat, i: Inode
        | HoldsTable(disk, tableLba) && WellFormed(i) && i.no == no
        ensures SyncedTo(disk, tableLba, i, Sync(disk, tableLba, i, true))
      {
        SmallNumberSyncs(disk, tableLba, i);
      }
    } else {
      var disk, i := ShippedSyncLosesInode(no);
      assert !SyncWorks(no, true);
    }
  }

  lemma SmallNumberSyncs(disk: seq<byte>, tableLba: nat, i: Inode)
    requires HoldsTable(disk, tableLba) && WellFormed(i) && i.no < 256
    ensures SyncedTo(disk, tableLba, i, Sync(disk, tableLba, i, true))
  {
    assert i.no % 256 == i.no;
    assert Sync(disk, tableLba, i, true) == Sync(disk, tableLba, i, false);
    SyncThenLoad(disk, tableLba, i);
  }

  /** From number 256 on the shipped inode_sync leaves the inode's own slot as it was. */
  lemma ShippedSyncLosesInode(no: u32) returns (disk: seq<byte>, i: Inode)
    requires 256 <= no < MAX_FILES
    ensures HoldsTable(disk, 0) && WellFormed(i) && i.no == no
    ensures !SyncedTo(disk, 0, i, Sync(disk, 0, i, true))
  {
    disk := Zeros(SECTOR * TABLE_SECTORS);
    i := Inode(no, 0, 0, false, seq(13, k => 0), 0, 0);
    SpliceSlots(disk, 0, no % 256, Encode(Pure(i)));
    var r := Sync(disk, 0, i, true).value;
    var slot := Slot(r, 0, no);
    assert slot == Slot(disk, 0, no);
    assert forall k :: 0 <= k < INODE_SIZE ==> slot[k] == disk[SlotAt(0, no) + k];
    assert slot[0] == 0 && slot[1] == 0 && slot[2] == 0 && slot[3] == 0;
    assert Load(r, 0, no).no == 0;
  }

  /** inode_delete clears one slot. */
  lemma DeleteClearsSlot(disk: seq<byte>, tableLba: nat, no: nat)
    requires HoldsTable(disk, tableLba) && no < MAX_FILES
    ensures var r := Splice(disk, SlotAt(tableLba, no), Zeros(INODE_SIZE));
            && HoldsTable(r, tableLba) && Slot(r, tableLba, no) == Zeros(INODE_SIZE)
            && (forall m :: 0 <= m < MAX_FILES && m != no ==> Slot(r, tableLba, m) == Slot(disk, tableLba, m))
  {
    SpliceSlots(disk, tableLba, no, Zeros(INODE_SIZE));
  }

  // ---------------------------------------------------------------- the list of open inodes

  const MAX_OPENS := 0xffff_ffff

  /** inode_open: `slot` is what the disk holds, read only when the inode is not open yet. */
  function Opened(list: map<nat, Inode>, no: nat, slot: Inode): map<nat, Inode>
    requires no in list ==> list[no].opens < MAX_OPENS
  {
    list[no := if no in list then list[no].(opens := list[no].opens + 1) else slot.(opens := 1)]
  }

  /** inode_close. */
  function Closed(list: map<nat, Inode>, no: nat): map<nat, Inode>
    requires no in list && list[no].opens > 0
  {
    if list[no].opens == 1 then list - {no} else list[no := list[no].(opens := list[no].opens - 1)]
  }

  lemma CloseUndoesOpen(list: map<nat, Inode>, no: nat, slot: Inode)
    requires no in list ==> 0 < list[no].opens < MAX_OPENS
    ensures Closed(Opened(list, no, slot), no) == list
  {
    if no in list {
      assert Closed(Opened(list, no, slot), no) == list[no := list[no]];
    }
  }

  datatype Use = Open(no: nat) | Close(no: nat)

  ghost predicate Used(list: map<nat, Inode>, u: Use, load: nat -> Inode, list': map<nat, Inode>) {
    match u
    case Open(no) => (no in list ==> list[no].opens < MAX_OPENS) && list' == Opened(list, no, load(no))
    case Close(no) => no in list && list[no].opens > 0 && list' == Closed(list, no)
  }

  /** `lists` are the states of the list along a run of opens and closes. */
  ghost predicate IsRun(lists: seq<map<nat, Inode>>, uses: seq<Use>, load: nat -> Inode) {
    && |lists| == |uses| + 1 && lists[0] == map[]
    && forall i :: 0 <= i < |uses| ==> Used(lists[i], uses[i], load, lists[i + 1])
  }

  function Balance(uses: seq<Use>, no: nat): int {
    if uses == [] then 0
    else
      var u := uses[|uses| - 1];
      Balance(uses[..|uses| - 1], no) + if u.no != no then 0 else if u.Open? then 1 else -1
  }

  /** At every moment an inode is in the list iff it has been opened more often than closed, and i_open_cnts
      is the difference: everybody who has it open shares one record, and the last close drops it. */
  lemma {:induction false} OpensCounted(lists: seq<map<nat, Inode>>, uses: seq<Use>, load: nat -> Inode, i: nat, no: nat)
    requires IsRun(lists, uses, load) && i <= |uses|
    ensures Balance(uses[..i], no) >= 0
    ensures no in lists[i] <==> Balance(uses[..i], no) > 0
    ensures no in lists[i] ==> lists[i][no].opens as int == Balance(uses[..i], no)
  {
    if i > 0 {
      OpensCounted(lists, uses, load, i - 1, no);
      assert uses[..i][..i - 1] == uses[..i - 1] && uses[..i][i - 1] == uses[i - 1];
      assert Used(lists[i - 1], uses[i - 1], load, lists[i]);
    }
  }

  /** A partition: its disk, and its open_inodes list by inode number. */
  class Partition {
    var disk: seq<byte>
    const tableLba: nat
    var openList: map<nat, Inode>
    var halted: bool

    ghost predicate Valid()
      reads this
    {
      && HoldsTable(disk, tableLba)
      && (forall no :: no in openList ==> no < MAX_FILES && openList[no].no == no && WellFormed(openList[no]) && openList[no].opens > 0)
    }

    constructor (disk: seq<byte>, tableLba: nat)
      requires HoldsTable(disk, tableLba)
      ensures Valid() && this.disk == disk && this.tableLba == tableLba && openList == map[] && !halted
    {
      this.disk, this.tableLba := disk, tableLba;
      openList, halted := map[], false;
    }

    method IdeRead(lba: nat, cnt: nat) returns (buf: seq<byte>)
      requires SECTOR * (lba + cnt) <= |disk|
      ensures buf == disk[SECTOR * lba..SECTOR * (lba + cnt)]
    {
      buf := disk[SECTOR * lba..SECTOR * (lba + cnt)];
    }

    method IdeWrite(lba: nat, buf: seq<byte>)
      requires SECTOR * lba + |buf| <= |disk|
      modifies `disk
      ensures disk == Splice(old(disk), SECTOR * lba, buf)
    {
      disk := disk[..SECTOR * lba] + buf + disk[SECTOR * lba + |buf|..];
    }

    /** The read-modify-write that inode_sync and inode_delete share. */
    method Patch(no: nat, b: seq<byte>)
      requires HoldsTable(disk, tableLba) && no < MAX_FILES && |b| == INODE_SIZE
      modifies `disk
      ensures HoldsTable(disk, tableLba) && disk == Splice(old(disk), SlotAt(tableLba, no), b)
    {
      PatchedSectors(disk, tableLba, no, b);
      var at := no * INODE_SIZE;
      var offSec, off := at / SECTOR, at % SECTOR;
      var n := if SECTOR - off < INODE_SIZE then 2 else 1;
      var buf := IdeRead(tableLba + offSec, n);
      buf := buf[..off] + b + buf[off + |b|..];
      IdeWrite(tableLba + offSec, buf);
    }

    method InodeSync(i: Inode, shipped: bool)
      requires Valid() && !halted && WellFormed(i)
      modifies `disk, `halted
      ensures var r := Sync(old(disk), tableLba, i, shipped);
              if r.Halted? then halted && disk == old(disk) else !halted && disk == r.value
      ensures Valid()
    {
      var no := if shipped then i.no % 256 else i.no;
      if no >= MAX_FILES {
        halted := true;
        return;
      }
      Patch(no, Encode(Pure(i)));
    }

    method InodeDelete(no: nat)
      requires Valid() && no < MAX_FILES
      modifies `disk
      ensures Valid() && disk == Splice(old(disk), SlotAt(tableLba, no), Zeros(INODE_SIZE))
    {
      Patch(no, Zeros(INODE_SIZE));
    }

    method ReadInode(no: nat) returns (i: Inode)
      requires HoldsTable(disk, tableLba) && no < MAX_FILES
      ensures i == Load(disk, tableLba, no)
    {
      SlotInSectors(disk, tableLba, no);
      var at := no * INODE_SIZE;
      var offSec, off := at / SECTOR, at % SECTOR;
      var n := if SECTOR - off < INODE_SIZE then 2 else 1;
      var buf := IdeRead(tableLba + offSec, n);
      i := Decode(buf[off..off + INODE_SIZE]);
    }

    /** The slot on disk must hold inode `no`, as it does for every inode the bitmap marks used. */
    method InodeOpen(no: nat) returns (i: Inode)
      requires Valid() && no < MAX_FILES
      requires no in openList ==> openList[no].opens < MAX_OPENS
      requires no !in openList ==> Load(disk, tableLba, no).no == no
      modifies `openList
      ensures Valid()
      ensures no in old(openList) ==> i == old(openList)[no].(opens := old(openList)[no].opens + 1)
      ensures no !in old(openList) ==> i == Load(disk, tableLba, no).(opens := 1)
      ensures openList == old(openList)[no := i] && openList == Opened(old(openList), no, Load(disk, tableLba, no))
    {
      if no in openList {
        i := openList[no].(opens := openList[no].opens + 1);
      } else {
        i := ReadInode(no);
        i := i.(opens := 1);
      }
      openList := openList[no := i];
    }

    /** The last close drops the inode from the list, so an open followed by a close is undone. */
    method InodeClose(no: nat)
      requires Valid() && no in openList
      modifies `openList
      ensures Valid()
      ensures openList == Closed(old(openList), no)
    {
      if openList[no].opens - 1 == 0 {
        openList := openList - {no};
      } else {
        openList := openList[no := openList[no].(opens := openList[no].opens - 1)];
      }
    }
  }
}
