/** fs/dir.c: a directory is at most 140 sectors of 24-byte entries, 12 named by the inode and 128 by
    an index table, with gaps where sectors have been reclaimed. */
module Directory {
  import opened Outcomes
  import opened BitSeq

  type Blk = nat

  const PER_SECTOR := 21
  const ENTRY_SIZE := 24
  const DIRECT := 12
  const MAX_BLOCKS := 140

  /** A directory slot; Empty is f_type FT_UNKNOWN. */
  datatype Slot = Empty | Entry(name: string, ino: nat, isDir: bool)

  datatype Sector = Pointers(ps: seq<Blk>) | Slots(es: seq<Slot>)

  /** The block bitmap and the sectors of a partition; bit i stands for sector base + i. */
  datatype Volume = Volume(base: nat, bits: seq<bool>, disk: map<Blk, Sector>) {
    predicate Used(b: Blk) {
      base <= b < base + |bits| && bits[b - base]
    }

    function Put(b: Blk, s: Sector): Volume {
      this.(disk := disk[b := s])
    }

    function Free(b: Blk): Volume
      requires base <= b < base + |bits|
    {
      this.(bits := bits[b - base := false])
    }
  }

  /** The fields of a directory's inode: i_sectors[0..12], i_sectors[12], i_size. */
  datatype Dir = Dir(direct: seq<Blk>, table: Blk, size: nat)

  // ---------------------------------------------------------------- block_bitmap_alloc

  /** None is bitmap_scan's -1.  On a full map the shipped bitmap_scan stops the machine instead, so
      the paths that handle None are never reached there. */
  function Alloc(v: Volume): Option<(Volume, Blk)> {
    var i := FirstClear(v.bits);
    if i == |v.bits| then None else Some((v.(bits := v.bits[i := true]), v.base + i))
  }

  // ---------------------------------------------------------------- the live entries

  function Zeros(n: nat): (r: seq<Blk>)
    ensures |r| == n && forall i :: 0 <= i < n ==> r[i] == 0
  {
    seq(n, i => 0)
  }

  function Blank(): (r: seq<Slot>)
    ensures |r| == PER_SECTOR && forall i :: 0 <= i < PER_SECTOR ==> r[i] == Empty
  {
    seq(PER_SECTOR, i => Empty)
  }

  function Index(d: Dir, disk: map<Blk, Sector>): seq<Blk> {
    if d.table != 0 && d.table in disk && disk[d.table].Pointers? then disk[d.table].ps
    else Zeros(MAX_BLOCKS - DIRECT)
  }

  /** all_blocks, with the index table loaded when there is one. */
  function View(d: Dir, disk: map<Blk, Sector>): seq<Blk> {
    d.direct + Index(d, disk)
  }

  function LiveSlots(es: seq<Slot>): seq<Slot> {
    if es == [] then []
    else (if es[0] == Empty then [] else [es[0]]) + LiveSlots(es[1..])
  }

  function LiveOf(disk: map<Blk, Sector>, b: Blk): seq<Slot> {
    if b == 0 || b !in disk || !disk[b].Slots? then [] else LiveSlots(disk[b].es)
  }

  function LiveAll(disk: map<Blk, Sector>, blocks: seq<Blk>): seq<Slot> {
    if blocks == [] then [] else LiveOf(disk, blocks[0]) + LiveAll(disk, blocks[1..])
  }

  /** The entries of a directory, in block order. */
  function Live(d: Dir, v: Volume): seq<Slot> {
    LiveAll(v.disk, View(d, v.disk))
  }

  function Blocks(d: Dir, disk: map<Blk, Sector>): set<Blk> {
    (set b | b in View(d, disk) && b != 0) + (if d.table != 0 then {d.table} else {})
  }

  // ---------------------------------------------------------------- well-formed directories

  predicate Shaped(d: Dir, disk: map<Blk, Sector>) {
    && |d.direct| == DIRECT
    && (d.table != 0 ==>
          d.table in disk && disk[d.table].Pointers? && |disk[d.table].ps| == MAX_BLOCKS - DIRECT)
  }

  /** No sector is referred to twice. */
  ghost predicate Separate(blocks: seq<Blk>, table: Blk) {
    && (forall i, j :: 0 <= i < j < |blocks| && blocks[i] != 0 ==> blocks[i] != blocks[j])
    && (forall i :: 0 <= i < |blocks| && blocks[i] != 0 ==> blocks[i] != table)
  }

  ghost predicate SectorOk(v: Volume, b: Blk) {
    && v.Used(b) && b in v.disk && v.disk[b].Slots?
    && |v.disk[b].es| == PER_SECTOR && LiveSlots(v.disk[b].es) != []
  }

  ghost predicate Valid(d: Dir, v: Volume) {
    && v.base > 0
    && Shaped(d, v.disk)
    && Separate(View(d, v.disk), d.table)
    && (forall b :: b in View(d, v.disk) && b != 0 ==> SectorOk(v, b))
    && (d.table != 0 ==> v.Used(d.table) && exists b :: b in Index(d, v.disk) && b != 0)
    && d.size == ENTRY_SIZE * |Live(d, v)|
  }

  predicate IsDot(e: Slot) {
    e.Entry? && (e.name == "." || e.name == "..")
  }

  predicate Plain(e: Slot) {
    e.Entry? && !IsDot(e)
  }

  /** Only the first sector holds "." and "..", and it does hold ".". */
  ghost predicate DotsFirst(d: Dir, v: Volume)
    requires Valid(d, v)
  {
    && d.direct[0] != 0
    && (exists e :: e in LiveOf(v.disk, d.direct[0]) && e.Entry? && e.name == ".")
    && (forall i :: 1 <= i < MAX_BLOCKS ==>
          forall e :: e in LiveOf(v.disk, View(d, v.disk)[i]) ==> Plain(e))
  }

  // ---------------------------------------------------------------- facts about live entries

  lemma {:induction false} LiveSlotsConcat(a: seq<Slot>, b: seq<Slot>)
    ensures LiveSlots(a + b) == LiveSlots(a) + LiveSlots(b)
  {
    if a == [] {
      assert a + b == b;
    } else {
      assert (a + b)[1..] == a[1..] + b;
      LiveSlotsConcat(a[1..], b);
    }
  }

  lemma {:induction false} LiveSlotsMember(es: seq<Slot>, e: Slot)
    ensures e in LiveSlots(es) <==> e in es && e != Empty
  {
    if es != [] {
      LiveSlotsMember(es[1..], e);
      assert es == [es[0]] + es[1..];
    }
  }

  lemma LiveSlotsSplit(a: seq<Slot>, x: Slot, c: seq<Slot>)
    ensures LiveSlots(a + [x] + c) == LiveSlots(a) + LiveSlots([x]) + LiveSlots(c)
  {
    LiveSlotsConcat(a + [x], c);
    LiveSlotsConcat(a, [x]);
  }

  lemma {:induction false} LiveAllConcat(disk: map<Blk, Sector>, a: seq<Blk>, b: seq<Blk>)
    ensures LiveAll(disk, a + b) == LiveAll(disk, a) + LiveAll(disk, b)
  {
    if a == [] {
      assert a + b == b;
    } else {
      assert (a + b)[1..] == a[1..] + b;
      LiveAllConcat(disk, a[1..], b);
    }
  }

  lemma LiveAllSplit(disk: map<Blk, Sector>, blocks: seq<Blk>, i: nat)
    requires i < |blocks|
    ensures LiveAll(disk, blocks)
            == LiveAll(disk, blocks[..i]) + LiveOf(disk, blocks[i]) + LiveAll(disk, blocks[i + 1..])
  {
    var a, c := blocks[..i], blocks[i + 1..];
    assert blocks == a + [blocks[i]] + c;
    LiveAllConcat(disk, a + [blocks[i]], c);
    LiveAllConcat(disk, a, [blocks[i]]);
    assert LiveAll(disk, [blocks[i]]) == LiveOf(disk, blocks[i]) + LiveAll(disk, []);
  }

  lemma {:induction false} LiveAllFrame(disk: map<Blk, Sector>, disk': map<Blk, Sector>, blocks: seq<Blk>)
    requires forall b :: b in blocks ==> LiveOf(disk', b) == LiveOf(disk, b)
    ensures LiveAll(disk', blocks) == LiveAll(disk, blocks)
  {
    if blocks != [] {
      LiveAllFrame(disk, disk', blocks[1..]);
    }
  }

  lemma {:induction false} LiveAllZeros(disk: map<Blk, Sector>, blocks: seq<Blk>)
    requires forall i :: 0 <= i < |blocks| ==> blocks[i] == 0
    ensures LiveAll(disk, blocks) == []
  {
    if blocks != [] {
      LiveAllZeros(disk, blocks[1..]);
    }
  }

  /** Only block i changes, from `blocks[i]` to `b`. */
  lemma LiveAllPoint(disk: map<Blk, Sector>, disk': map<Blk, Sector>, blocks: seq<Blk>, i: nat, b: Blk)
    requires i < |blocks|
    requires forall j :: 0 <= j < |blocks| && j != i ==> LiveOf(disk', blocks[j]) == LiveOf(disk, blocks[j])
    ensures LiveAll(disk', blocks[i := b])
            == LiveAll(disk, blocks[..i]) + LiveOf(disk', b) + LiveAll(disk, blocks[i + 1..])
  {
    var blocks' := blocks[i := b];
    LiveAllSplit(disk', blocks', i);
    assert blocks'[..i] == blocks[..i] && blocks'[i + 1..] == blocks[i + 1..];
    LiveAllFrame(disk, disk', blocks[..i]);
    LiveAllFrame(disk, disk', blocks[i + 1..]);
  }

  lemma MiddleGrows<T>(a: seq<T>, x: seq<T>, y: seq<T>, c: seq<T>, e: T)
    requires multiset(y) == multiset(x) + multiset{e}
    ensures multiset(a + y + c) == multiset(a + x + c) + multiset{e}
    ensures |a + y + c| == |a + x + c| + 1
  {
    assert |y| == |multiset(y)| == |multiset(x)| + 1;
  }

  lemma FillSlotLive(es: seq<Slot>, k: nat, e: Slot)
    requires k < |es| && es[k] == Empty && e != Empty
    ensures multiset(LiveSlots(es[k := e])) == multiset(LiveSlots(es)) + multiset{e}
    ensures |LiveSlots(es[k := e])| == |LiveSlots(es)| + 1
  {
    var a, c := es[..k], es[k + 1..];
    assert es == a + [Empty] + c && es[k := e] == a + [e] + c;
    LiveSlotsSplit(a, Empty, c);
    LiveSlotsSplit(a, e, c);
    assert LiveSlots([Empty]) == [] && LiveSlots([e]) == [e];
    MiddleGrows(LiveSlots(a), [], [e], LiveSlots(c), e);
  }

  lemma ViewMember(d: Dir, disk: map<Blk, Sector>, i: nat)
    requires Shaped(d, disk) && i < MAX_BLOCKS
    ensures |View(d, disk)| == MAX_BLOCKS
    ensures View(d, disk)[i] == if i < DIRECT then d.direct[i] else Index(d, disk)[i - DIRECT]
    ensures View(d, disk)[i] != 0 ==> View(d, disk)[i] in Blocks(d, disk)
  {
    assert View(d, disk)[i] in View(d, disk);
  }

  /** The entries of one block change from x to y = x plus e. */
  lemma OneBlockGrows(disk: map<Blk, Sector>, disk': map<Blk, Sector>, blocks: seq<Blk>, i: nat, b: Blk, e: Slot)
    requires i < |blocks|
    requires forall j :: 0 <= j < |blocks| && j != i ==> LiveOf(disk', blocks[j]) == LiveOf(disk, blocks[j])
    requires multiset(LiveOf(disk', b)) == multiset(LiveOf(disk, blocks[i])) + multiset{e}
    ensures multiset(LiveAll(disk', blocks[i := b])) == multiset(LiveAll(disk, blocks)) + multiset{e}
    ensures |LiveAll(disk', blocks[i := b])| == |LiveAll(disk, blocks)| + 1
  {
    LiveAllSplit(disk, blocks, i);
    LiveAllPoint(disk, disk', blocks, i, b);
    MiddleGrows(LiveAll(disk, blocks[..i]), LiveOf(disk, blocks[i]), LiveOf(disk', b),
                LiveAll(disk, blocks[i + 1..]), e);
  }

  lemma {:induction false} NoLiveInEmpties(es: seq<Slot>)
    requires forall i :: 0 <= i < |es| ==> es[i] == Empty
    ensures LiveSlots(es) == []
  {
    if es != [] {
      NoLiveInEmpties(es[1..]);
    }
  }

  lemma DirectView(d: Dir, disk: map<Blk, Sector>, disk': map<Blk, Sector>, i: nat, b: Blk)
    requires Shaped(d, disk) && i < DIRECT
    requires d.table != 0 ==> d.table in disk' && disk'[d.table] == disk[d.table]
    ensures Shaped(d.(direct := d.direct[i := b]), disk')
    ensures View(d.(direct := d.direct[i := b]), disk') == View(d, disk)[i := b]
  {
    assert Index(d.(direct := d.direct[i := b]), disk') == Index(d, disk);
  }

  lemma UpdateBehind(blocks: seq<Blk>, k: nat, i: nat, b: Blk)
    requires k <= i < |blocks|
    ensures blocks[..k] + blocks[i := b][k..] == blocks[i := b]
  {
  }

  lemma IndirectView(d: Dir, disk: map<Blk, Sector>, disk': map<Blk, Sector>, i: nat, b: Blk)
    requires Shaped(d, disk) && d.table != 0 && DIRECT <= i < MAX_BLOCKS
    requires d.table in disk' && disk'[d.table] == Pointers(View(d, disk)[i := b][DIRECT..])
    ensures Shaped(d, disk') && View(d, disk') == View(d, disk)[i := b]
  {
    var blocks := View(d, disk);
    assert blocks[..DIRECT] == d.direct;
    UpdateBehind(blocks, DIRECT, i, b);
  }

  lemma SameFields(d: Dir, d': Dir, disk: map<Blk, Sector>)
    requires d'.direct == d.direct && d'.table == d.table
    ensures View(d', disk) == View(d, disk) && (Shaped(d, disk) ==> Shaped(d', disk))
  {
  }

  function SlotsOf(v: Volume, b: Blk): seq<Slot> {
    if b == 0 || b !in v.disk || !v.disk[b].Slots? then [] else v.disk[b].es
  }

  lemma LiveOfIsSlots(v: Volume, b: Blk)
    ensures LiveOf(v.disk, b) == LiveSlots(SlotsOf(v, b))
  {
  }

  lemma BlockOk(d: Dir, v: Volume, i: nat)
    requires Valid(d, v) && i < MAX_BLOCKS && View(d, v.disk)[i] != 0
    ensures SectorOk(v, View(d, v.disk)[i]) && View(d, v.disk)[i] in Blocks(d, v.disk)
    ensures View(d, v.disk)[i] != d.table
  {
    ViewMember(d, v.disk, i);
    assert View(d, v.disk)[i] in View(d, v.disk);
  }

  // ---------------------------------------------------------------- "." and ".." stay in the first sector

  lemma DotsFrame(d: Dir, v: Volume, d': Dir, v': Volume, i: nat)
    requires Valid(d, v) && Valid(d', v') && DotsFirst(d, v) && i < MAX_BLOCKS
    requires forall j :: 0 <= j < MAX_BLOCKS && j != i ==>
               LiveOf(v'.disk, View(d', v'.disk)[j]) == LiveOf(v.disk, View(d, v.disk)[j])
    requires forall s :: s in LiveOf(v'.disk, View(d', v'.disk)[i]) ==>
               s in LiveOf(v.disk, View(d, v.disk)[i]) || Plain(s)
    requires d'.direct[0] != 0
    requires i == 0 ==> forall s :: s in LiveOf(v.disk, d.direct[0]) && !Plain(s) ==> s in LiveOf(v'.disk, d'.direct[0])
    ensures DotsFirst(d', v')
  {
    ViewMember(d, v.disk, 0);
    ViewMember(d', v'.disk, 0);
    var dot :| dot in LiveOf(v.disk, d.direct[0]) && dot.Entry? && dot.name == ".";
    assert dot in LiveOf(v'.disk, d'.direct[0]);
  }

  lemma MoreMembers(x: seq<Slot>, y: seq<Slot>, e: Slot)
    requires multiset(y) == multiset(x) + multiset{e}
    ensures forall s :: s in y <==> s in x || s == e
  {
    forall s ensures s in y <==> s in x || s == e {
      assert s in y <==> s in multiset(y);
      assert s in x <==> s in multiset(x);
    }
  }

  /** Entries change inside the sectors of a directory; which sectors it has does not. */
  lemma SameBlocks(d: Dir, v: Volume, d': Dir, v': Volume)
    requires Valid(d, v) && Shaped(d', v'.disk)
    requires d'.table == d.table && d'.direct == d.direct && Index(d', v'.disk) == Index(d, v.disk)
    requires v'.base == v.base && v'.bits == v.bits
    requires forall x :: x in View(d, v.disk) && x != 0 ==> SectorOk(v', x)
    requires d'.size == ENTRY_SIZE * |Live(d', v')|
    ensures Valid(d', v') && Blocks(d', v'.disk) == Blocks(d, v.disk)
  {
    assert View(d', v'.disk) == View(d, v.disk);
  }

  /** How many sectors are free. */
  function Room(v: Volume): nat {
    CountClear(v.bits)
  }

  lemma AllocRoom(v: Volume)
    ensures Alloc(v).Some? <==> Room(v) > 0
    ensures Alloc(v).Some? ==> Room(Alloc(v).value.0) == Room(v) - 1
  {
    FirstClearCounts(v.bits);
  }
}
