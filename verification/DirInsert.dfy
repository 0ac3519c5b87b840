/** sync_dir_entry (fs/dir.c). */
module DirInsert {
  import opened Outcomes
  import opened Directory

  /** all_blocks as sync_dir_entry gathers it: the shipped lines 161-171 leave out the index table. */
  function Gathered(d: Dir, disk: map<Blk, Sector>, shipped: bool): seq<Blk> {
    if shipped then d.direct + Zeros(MAX_BLOCKS - DIRECT) else View(d, disk)
  }

  predicate HasRoom(v: Volume, b: Blk) {
    b in v.disk && v.disk[b].Slots? && Empty in v.disk[b].es
  }

  function FirstEmpty(es: seq<Slot>): (k: nat)
    ensures k <= |es|
    ensures k < |es| ==> es[k] == Empty
    ensures forall i :: 0 <= i < k ==> es[i] != Empty
  {
    if es == [] || es[0] == Empty then 0 else 1 + FirstEmpty(es[1..])
  }

  /** The first block, from i on, that is a gap or has an empty slot. */
  function StopAt(v: Volume, blocks: seq<Blk>, i: nat): (r: nat)
    requires i <= |blocks|
    ensures i <= r <= |blocks|
    ensures r < |blocks| ==> blocks[r] == 0 || HasRoom(v, blocks[r])
    ensures forall j :: i <= j < r ==> blocks[j] != 0 && !HasRoom(v, blocks[j])
    decreases |blocks| - i
  {
    if i == |blocks| || blocks[i] == 0 || HasRoom(v, blocks[i]) then i else StopAt(v, blocks, i + 1)
  }

  datatype Insertion = Insertion(ok: bool, d: Dir, v: Volume)

  function NewSector(e: Slot): Sector {
    Slots([e] + Blank()[1..])
  }

  function Grown(d: Dir): Dir {
    d.(size := d.size + ENTRY_SIZE)
  }

  /** Lines 184-246: a sector (and an index table when the gap is block 12) is allocated for e. */
  function FillGap(d: Dir, v: Volume, blocks: seq<Blk>, i: nat, e: Slot): Insertion
    requires |d.direct| == DIRECT && |blocks| == MAX_BLOCKS && i < MAX_BLOCKS
  {
    match Alloc(v)
    case None => Insertion(false, d, v)
    case Some((v1, b)) =>
      if i < DIRECT then
        Insertion(true, Grown(d.(direct := d.direct[i := b])), v1.Put(b, NewSector(e)))
      else if i == DIRECT then
        match Alloc(v1)
        case None => Insertion(false, d.(table := 0), v1.Free(b))
        case Some((v2, c)) =>
          Insertion(true, Grown(d.(table := b)),
                    v2.Put(b, Pointers(blocks[i := c][DIRECT..])).Put(c, NewSector(e)))
      else
        Insertion(true, Grown(d),
                  v1.Put(d.table, Pointers(blocks[i := b][DIRECT..])).Put(b, NewSector(e)))
  }

  /** Lines 249-263: e goes into the first empty slot of sector b. */
  function SlotFilled(v: Volume, b: Blk, e: Slot): Volume
    requires HasRoom(v, b)
  {
    var es := v.disk[b].es;
    v.Put(b, Slots(es[FirstEmpty(es) := e]))
  }

  function Insert(d: Dir, v: Volume, e: Slot, shipped: bool): Insertion
    requires Shaped(d, v.disk)
  {
    var blocks := Gathered(d, v.disk, shipped);
    var i := StopAt(v, blocks, 0);
    if i == MAX_BLOCKS then Insertion(false, d, v)
    else if blocks[i] == 0 then FillGap(d, v, blocks, i, e)
    else Insertion(true, Grown(d), SlotFilled(v, blocks[i], e))
  }

  // ---------------------------------------------------------------- insertion refines adding an entry

  /** One more entry, exactly the sectors that became used are allocated, they were free before, and
      no sector of anybody else is touched. */
  ghost predicate Inserted(d: Dir, v: Volume, e: Slot, r: Insertion) {
    var more := Blocks(r.d, r.v.disk) - Blocks(d, v.disk);
    && Valid(r.d, r.v)
    && multiset(Live(r.d, r.v)) == multiset(Live(d, v)) + multiset{e}
    && Blocks(d, v.disk) <= Blocks(r.d, r.v.disk)
    && r.v.base == v.base && |r.v.bits| == |v.bits|
    && (forall b :: b in more ==> !v.Used(b))
    && (forall b :: r.v.Used(b) <==> v.Used(b) || b in more)
    && (forall b :: b in v.disk && b !in Blocks(r.d, r.v.disk) ==> b in r.v.disk && r.v.disk[b] == v.disk[b])
  }

  lemma NewSectorLive(e: Slot)
    requires e != Empty
    ensures |NewSector(e).es| == PER_SECTOR && LiveSlots(NewSector(e).es) == [e]
  {
    NoLiveInEmpties(Blank()[1..]);
    assert ([e] + Blank()[1..])[1..] == Blank()[1..];
  }

  lemma SlotFilledElsewhere(v: Volume, b: Blk, e: Slot, x: Blk)
    requires HasRoom(v, b) && (x == 0 || x != b)
    ensures LiveOf(SlotFilled(v, b, e).disk, x) == LiveOf(v.disk, x)
  {
  }

  lemma SlotFilledHere(v: Volume, b: Blk, e: Slot)
    requires HasRoom(v, b) && b != 0 && e != Empty
    ensures multiset(LiveOf(SlotFilled(v, b, e).disk, b)) == multiset(LiveOf(v.disk, b)) + multiset{e}
  {
    FillSlotLive(v.disk[b].es, FirstEmpty(v.disk[b].es), e);
  }

  lemma SlotFilledLive(d: Dir, v: Volume, i: nat, e: Slot)
    requires Shaped(d, v.disk) && Separate(View(d, v.disk), d.table) && i < MAX_BLOCKS && e != Empty
    requires View(d, v.disk)[i] != 0 && HasRoom(v, View(d, v.disk)[i])
    ensures var b := View(d, v.disk)[i]; var v' := SlotFilled(v, b, e); var d' := Grown(d);
            && Index(d', v'.disk) == Index(d, v.disk)
            && multiset(Live(d', v')) == multiset(Live(d, v)) + multiset{e}
            && |Live(d', v')| == |Live(d, v)| + 1
  {
    var blocks := View(d, v.disk);
    var b := blocks[i];
    var v' := SlotFilled(v, b, e);
    assert Index(Grown(d), v'.disk) == Index(d, v.disk);
    SlotFilledHere(v, b, e);
    forall j | 0 <= j < |blocks| && j != i ensures LiveOf(v'.disk, blocks[j]) == LiveOf(v.disk, blocks[j]) {
      SlotFilledElsewhere(v, b, e, blocks[j]);
    }
    assert blocks[i := b] == blocks;
    OneBlockGrows(v.disk, v'.disk, blocks, i, b, e);
  }

  lemma SlotFilledSector(v: Volume, b: Blk, e: Slot, x: Blk)
    requires HasRoom(v, b) && SectorOk(v, x) && e != Empty
    ensures SectorOk(SlotFilled(v, b, e), x)
  {
    if x == b {
      FillSlotLive(v.disk[b].es, FirstEmpty(v.disk[b].es), e);
    }
  }

  /** The block has an empty slot. */
  lemma InsertIntoSlot(d: Dir, v: Volume, i: nat, e: Slot)
    requires Valid(d, v) && i < MAX_BLOCKS && e != Empty
    requires View(d, v.disk)[i] != 0 && HasRoom(v, View(d, v.disk)[i])
    ensures Inserted(d, v, e, Insertion(true, Grown(d), SlotFilled(v, View(d, v.disk)[i], e)))
  {
    var blocks := View(d, v.disk);
    var b := blocks[i];
    var v' := SlotFilled(v, b, e);
    BlockOk(d, v, i);
    SlotFilledLive(d, v, i, e);
    forall x | x in blocks && x != 0 ensures SectorOk(v', x) {
      SlotFilledSector(v, b, e, x);
    }
    SameBlocksInsert(d, v, e, Grown(d), v');
  }

  lemma SameBlocksInsert(d: Dir, v: Volume, e: Slot, d': Dir, v': Volume)
    requires Valid(d, v) && Shaped(d', v'.disk)
    requires d'.table == d.table && d'.direct == d.direct && Index(d', v'.disk) == Index(d, v.disk)
    requires v'.base == v.base && v'.bits == v.bits
    requires forall x :: x in View(d, v.disk) && x != 0 ==> SectorOk(v', x)
    requires multiset(Live(d', v')) == multiset(Live(d, v)) + multiset{e}
    requires d'.size == ENTRY_SIZE * |Live(d', v')|
    requires forall x :: x in v.disk && x !in Blocks(d, v.disk) ==> x in v'.disk && v'.disk[x] == v.disk[x]
    ensures Inserted(d, v, e, Insertion(true, d', v'))
  {
    SameBlocks(d, v, d', v');
    assert forall b :: v'.Used(b) <==> v.Used(b);
    InsertedInPlace(d, v, e, d', v');
  }

  lemma InsertedInPlace(d: Dir, v: Volume, e: Slot, d': Dir, v': Volume)
    requires Valid(d', v') && Blocks(d', v'.disk) == Blocks(d, v.disk) && v'.base == v.base && v'.bits == v.bits
    requires forall b :: v'.Used(b) <==> v.Used(b)
    requires multiset(Live(d', v')) == multiset(Live(d, v)) + multiset{e}
    requires forall x :: x in v.disk && x !in Blocks(d, v.disk) ==> x in v'.disk && v'.disk[x] == v.disk[x]
    ensures Inserted(d, v, e, Insertion(true, d', v'))
  {
    assert Blocks(d', v'.disk) - Blocks(d, v.disk) == {};
  }

  /** A gap at i now refers to the fresh sector b, which holds e alone. */
  ghost predicate GapFilled(d: Dir, v: Volume, i: nat, b: Blk, e: Slot, d': Dir, v': Volume)
    requires Valid(d, v)
  {
    && i < MAX_BLOCKS && View(d, v.disk)[i] == 0
    && Shaped(d', v'.disk) && View(d', v'.disk) == View(d, v.disk)[i := b]
    && v.base == v'.base && |v.bits| == |v'.bits|
    && b != 0 && b != d'.table && !v.Used(b)
    && (d.table == 0 || d'.table == d.table)
    && (d'.table != d.table ==> !v.Used(d'.table))
    && (forall x :: v'.Used(x) <==> v.Used(x) || x == b || (x != 0 && x == d'.table))
    && b in v'.disk && v'.disk[b] == NewSector(e)
    && (forall x :: x in v.disk && x != b && (x == 0 || x != d'.table) ==> x in v'.disk && v'.disk[x] == v.disk[x])
    && d'.size == d.size + ENTRY_SIZE
    && (d'.table != 0 && d.table == 0 ==> i >= DIRECT)
  }

  lemma GapFilledLive(d: Dir, v: Volume, i: nat, b: Blk, e: Slot, d': Dir, v': Volume)
    requires Valid(d, v) && GapFilled(d, v, i, b, e, d', v') && e != Empty
    ensures multiset(Live(d', v')) == multiset(Live(d, v)) + multiset{e}
    ensures |Live(d', v')| == |Live(d, v)| + 1
  {
    var blocks := View(d, v.disk);
    NewSectorLive(e);
    forall j | 0 <= j < |blocks| && j != i ensures LiveOf(v'.disk, blocks[j]) == LiveOf(v.disk, blocks[j]) {
      if blocks[j] != 0 {
        assert blocks[j] in blocks && SectorOk(v, blocks[j]);
      }
    }
    OneBlockGrows(v.disk, v'.disk, blocks, i, b, e);
  }

  lemma GapFilledBlocks(d: Dir, v: Volume, i: nat, b: Blk, e: Slot, d': Dir, v': Volume)
    requires Valid(d, v) && GapFilled(d, v, i, b, e, d', v')
    ensures Blocks(d', v'.disk) == Blocks(d, v.disk) + {b} + (if d'.table != 0 then {d'.table} else {})
    ensures forall x :: x in Blocks(d, v.disk) ==> v.Used(x)
  {
    var blocks := View(d, v.disk);
    var blocks' := View(d', v'.disk);
    assert |blocks| == MAX_BLOCKS;
    forall x | x in Blocks(d, v.disk) ensures x in Blocks(d', v'.disk) && v.Used(x) {
      if x in blocks {
        var j :| 0 <= j < |blocks| && blocks[j] == x;
        assert blocks'[j] == x;
        assert SectorOk(v, x);
      }
    }
    assert blocks'[i] == b;
    forall x | x in blocks' && x != 0 ensures x == b || x in blocks {
      var j :| 0 <= j < |blocks'| && blocks'[j] == x;
      assert j != i ==> blocks[j] == x;
    }
  }

  lemma GapFilledSeparate(d: Dir, v: Volume, i: nat, b: Blk, e: Slot, d': Dir, v': Volume)
    requires Valid(d, v) && GapFilled(d, v, i, b, e, d', v')
    ensures Separate(View(d', v'.disk), d'.table)
  {
    var blocks := View(d, v.disk);
    var blocks' := View(d', v'.disk);
    forall j | 0 <= j < |blocks| && blocks[j] != 0 ensures v.Used(blocks[j]) {
      assert blocks[j] in blocks && SectorOk(v, blocks[j]);
    }
  }

  lemma GapFilledInserts(d: Dir, v: Volume, i: nat, b: Blk, e: Slot, d': Dir, v': Volume)
    requires Valid(d, v) && GapFilled(d, v, i, b, e, d', v') && e != Empty
    ensures Inserted(d, v, e, Insertion(true, d', v'))
  {
    var blocks := View(d, v.disk);
    var blocks' := View(d', v'.disk);
    GapFilledLive(d, v, i, b, e, d', v');
    GapFilledBlocks(d, v, i, b, e, d', v');
    GapFilledSeparate(d, v, i, b, e, d', v');
    NewSectorLive(e);
    forall x | x in blocks' && x != 0 ensures SectorOk(v', x) {
      if x != b {
        var j :| 0 <= j < |blocks'| && blocks'[j] == x;
        assert blocks[j] == x && x in blocks && SectorOk(v, x);
        assert x != d'.table;
      }
    }
    if d'.table != 0 {
      assert exists x :: x in Index(d', v'.disk) && x != 0 by {
        GapFilledIndex(d, v, i, b, e, d', v');
      }
    }
    assert Valid(d', v');
  }

  lemma GapFilledIndex(d: Dir, v: Volume, i: nat, b: Blk, e: Slot, d': Dir, v': Volume)
    requires Valid(d, v) && GapFilled(d, v, i, b, e, d', v') && d'.table != 0
    ensures exists x :: x in Index(d', v'.disk) && x != 0
  {
    var ix := Index(d, v.disk);
    var ix' := Index(d', v'.disk);
    if i >= DIRECT {
      ViewMember(d', v'.disk, i);
      assert ix'[i - DIRECT] == b && b in ix';
    } else {
      var x :| x in ix && x != 0;
      var j :| 0 <= j < |ix| && ix[j] == x;
      ViewMember(d, v.disk, j + DIRECT);
      ViewMember(d', v'.disk, j + DIRECT);
      assert ix'[j] == x && x in ix';
    }
  }

  /** The branch at lines 205-229 is taken although the directory has an index table: sync_dir_entry
      then puts a second table in its place. */
  ghost predicate ReplacesTable(d: Dir, v: Volume, shipped: bool)
    requires Shaped(d, v.disk)
  {
    d.table != 0 && StopAt(v, Gathered(d, v.disk, shipped), 0) == DIRECT
    && Gathered(d, v.disk, shipped)[DIRECT] == 0
  }

  /** Of the free sectors block_bitmap_alloc takes the lowest. */
  lemma AllocLowest(v: Volume, b: Blk)
    requires Alloc(v).Some?
    ensures v.base <= b < Alloc(v).value.1 ==> v.Used(b)
  {
  }

  lemma AllocIsFresh(v: Volume)
    requires v.base > 0 && Alloc(v).Some?
    ensures var (v1, b) := Alloc(v).value;
            && b != 0 && !v.Used(b) && v.base <= b < v.base + |v.bits|
            && v1 == v.(bits := v1.bits) && |v1.bits| == |v.bits|
            && (forall x :: v1.Used(x) <==> v.Used(x) || x == b)
            && v1.Free(b) == v
  {
    var (v1, b) := Alloc(v).value;
    assert v.bits[b - v.base := true][b - v.base := false] == v.bits;
  }

  lemma GatheredIsView(d: Dir, v: Volume, shipped: bool, i: nat)
    requires Valid(d, v) && i < MAX_BLOCKS && i == StopAt(v, Gathered(d, v.disk, shipped), 0)
    requires !ReplacesTable(d, v, shipped)
    ensures Gathered(d, v.disk, shipped)[i] == View(d, v.disk)[i]
    ensures i >= DIRECT ==> Gathered(d, v.disk, shipped) == View(d, v.disk)
    ensures i == DIRECT && Gathered(d, v.disk, shipped)[i] == 0 ==> d.table == 0
    ensures i > DIRECT ==> d.table != 0
  {
    var g := Gathered(d, v.disk, shipped);
    ViewMember(d, v.disk, i);
    if i > DIRECT {
      assert g[DIRECT] != 0;
    }
  }

  lemma DirectGap(d: Dir, v: Volume, i: nat, e: Slot)
    requires Valid(d, v) && i < DIRECT && View(d, v.disk)[i] == 0 && Alloc(v).Some?
    ensures var (v1, b) := Alloc(v).value;
            GapFilled(d, v, i, b, e, Grown(d.(direct := d.direct[i := b])), v1.Put(b, NewSector(e)))
  {
    AllocIsFresh(v);
    var (v1, b) := Alloc(v).value;
    var d' := Grown(d.(direct := d.direct[i := b]));
    var v' := v1.Put(b, NewSector(e));
    DirectView(d, v.disk, v'.disk, i, b);
    assert View(d', v'.disk) == View(d.(direct := d.direct[i := b]), v'.disk);
  }

  lemma InsertDirect(d: Dir, v: Volume, i: nat, e: Slot)
    requires Valid(d, v) && e != Empty && i < DIRECT && View(d, v.disk)[i] == 0 && Alloc(v).Some?
    ensures Inserted(d, v, e, FillGap(d, v, View(d, v.disk), i, e))
  {
    var (v1, b) := Alloc(v).value;
    DirectGap(d, v, i, e);
    GapFilledInserts(d, v, i, b, e, Grown(d.(direct := d.direct[i := b])), v1.Put(b, NewSector(e)));
  }

  /** The sectors an allocation at block 12 takes, and what it leaves behind. */
  lemma FirstIndirectGap(d: Dir, v: Volume, e: Slot) returns (c: Blk)
    requires Valid(d, v) && d.table == 0 && FillGap(d, v, View(d, v.disk), DIRECT, e).ok
    ensures var r := FillGap(d, v, View(d, v.disk), DIRECT, e);
            GapFilled(d, v, DIRECT, c, e, r.d, r.v)
  {
    AllocIsFresh(v);
    var (v1, b) := Alloc(v).value;
    AllocIsFresh(v1);
    var (v2, c') := Alloc(v1).value;
    c := c';
    var blocks := View(d, v.disk);
    var d' := Grown(d.(table := b));
    var v' := v2.Put(b, Pointers(blocks[DIRECT := c][DIRECT..])).Put(c, NewSector(e));
    assert blocks[..DIRECT] == d.direct;
    NewTableView(d', v'.disk, blocks, b, c);
  }

  lemma InsertFirstIndirect(d: Dir, v: Volume, e: Slot)
    requires Valid(d, v) && e != Empty && d.table == 0
    requires FillGap(d, v, View(d, v.disk), DIRECT, e).ok
    ensures Inserted(d, v, e, FillGap(d, v, View(d, v.disk), DIRECT, e))
  {
    var c := FirstIndirectGap(d, v, e);
    var r := FillGap(d, v, View(d, v.disk), DIRECT, e);
    GapFilledInserts(d, v, DIRECT, c, e, r.d, r.v);
  }

  /** v1 is v with the bit of the fresh sector b set. */
  ghost predicate Allocated(v: Volume, v1: Volume, b: Blk) {
    && b != 0 && !v.Used(b)
    && v1 == v.(bits := v1.bits) && |v1.bits| == |v.bits|
    && (forall x :: v1.Used(x) <==> v.Used(x) || x == b)
  }

  lemma IndirectGap(d: Dir, v: Volume, v1: Volume, b: Blk, i: nat, e: Slot)
    requires Valid(d, v) && DIRECT < i < MAX_BLOCKS && d.table != 0
    requires View(d, v.disk)[i] == 0 && Allocated(v, v1, b)
    ensures GapFilled(d, v, i, b, e, Grown(d),
                      v1.Put(d.table, Pointers(View(d, v.disk)[i := b][DIRECT..])).Put(b, NewSector(e)))
  {
    var ps := View(d, v.disk)[i := b][DIRECT..];
    var v' := v1.Put(d.table, Pointers(ps)).Put(b, NewSector(e));
    UsedAfter(v, v1, b, d.table, v');
    assert b != d.table;
    assert v'.disk == v.disk[d.table := Pointers(ps)][b := NewSector(e)];
    IndirectView(d, v.disk, v'.disk, i, b);
    SameFields(d, Grown(d), v'.disk);
  }

  lemma UsedAfter(v: Volume, v1: Volume, b: Blk, t: Blk, v': Volume)
    requires Allocated(v, v1, b) && v.Used(t) && v'.base == v1.base && v'.bits == v1.bits
    ensures forall x :: v'.Used(x) <==> v.Used(x) || x == b || (x != 0 && x == t)
  {
    assert forall x :: v'.Used(x) <==> v1.Used(x);
  }

  lemma InsertIndirect(d: Dir, v: Volume, i: nat, e: Slot)
    requires Valid(d, v) && e != Empty && DIRECT < i < MAX_BLOCKS && d.table != 0
    requires View(d, v.disk)[i] == 0 && Alloc(v).Some?
    ensures Inserted(d, v, e, FillGap(d, v, View(d, v.disk), i, e))
  {
    AllocIsFresh(v);
    var (v1, b) := Alloc(v).value;
    IndirectGap(d, v, v1, b, i, e);
    GapFilledInserts(d, v, i, b, e, Grown(d),
                     v1.Put(d.table, Pointers(View(d, v.disk)[i := b][DIRECT..])).Put(b, NewSector(e)));
  }

  /** sync_dir_entry adds exactly one entry, or fails and changes nothing, unless it replaces an
      existing index table. */
  lemma InsertRefines(d: Dir, v: Volume, e: Slot, shipped: bool)
    requires Valid(d, v) && e != Empty && !ReplacesTable(d, v, shipped)
    ensures var r := Insert(d, v, e, shipped);
            if r.ok then Inserted(d, v, e, r) else r.d == d && r.v == v
  {
    var g := Gathered(d, v.disk, shipped);
    var i := StopAt(v, g, 0);
    if i < MAX_BLOCKS {
      GatheredIsView(d, v, shipped, i);
      if g[i] != 0 {
        InsertIntoSlot(d, v, i, e);
      } else if Alloc(v).Some? {
        AllocIsFresh(v);
        if i < DIRECT {
          InsertDirect(d, v, i, e);
        } else if i == DIRECT {
          if FillGap(d, v, g, i, e).ok {
            InsertFirstIndirect(d, v, e);
          }
        } else {
          InsertIndirect(d, v, i, e);
        }
      }
    }
  }

  lemma NewTableView(d: Dir, disk: map<Blk, Sector>, blocks: seq<Blk>, b: Blk, c: Blk)
    requires |blocks| == MAX_BLOCKS && blocks[..DIRECT] == d.direct && d.table == b && b != 0
    requires b in disk && disk[b] == Pointers(blocks[DIRECT := c][DIRECT..])
    ensures View(d, disk) == blocks[DIRECT := c]
  {
    UpdateBehind(blocks, DIRECT, DIRECT, c);
  }

  /** What FillGap does at block 12 when both allocations succeed. */
  lemma TableReplaced(d: Dir, v: Volume, e: Slot, shipped: bool) returns (b: Blk, c: Blk)
    requires Valid(d, v) && ReplacesTable(d, v, shipped) && Insert(d, v, e, shipped).ok
    ensures var r := Insert(d, v, e, shipped); var g := Gathered(d, v.disk, shipped);
            && b != 0 && c != 0 && b != c && !v.Used(b) && !v.Used(c)
            && r.d.table == b && r.d.direct == d.direct
            && r.v.disk == v.disk[b := Pointers(g[DIRECT := c][DIRECT..])][c := NewSector(e)]
            && View(r.d, r.v.disk) == g[DIRECT := c]
            && (forall x :: v.Used(x) ==> r.v.Used(x))
  {
    AllocIsFresh(v);
    var (v1, b') := Alloc(v).value;
    AllocIsFresh(v1);
    var (v2, c') := Alloc(v1).value;
    b, c := b', c';
    var r := Insert(d, v, e, shipped);
    NewTableView(r.d, r.v.disk, Gathered(d, v.disk, shipped), b, c);
  }

  lemma NotGathered(d: Dir, v: Volume, shipped: bool, j: nat)
    requires Valid(d, v) && d.table != 0 && j < MAX_BLOCKS
    ensures |Gathered(d, v.disk, shipped)| == MAX_BLOCKS && Gathered(d, v.disk, shipped)[j] != d.table
  {
    ViewMember(d, v.disk, j);
  }

  lemma NotInBlocks(d: Dir, disk: map<Blk, Sector>, x: Blk)
    requires d.table != x
    requires forall j :: 0 <= j < |View(d, disk)| ==> View(d, disk)[j] != x
    ensures x !in Blocks(d, disk)
  {
  }

  lemma OldTableNotKept(d: Dir, v: Volume, d': Dir, disk': map<Blk, Sector>, c: Blk, shipped: bool)
    requires Valid(d, v) && d.table != 0 && d'.table != d.table && c != d.table
    requires View(d', disk') == Gathered(d, v.disk, shipped)[DIRECT := c]
    ensures d.table !in Blocks(d', disk')
  {
    var g' := View(d', disk');
    forall j | 0 <= j < |g'| ensures g'[j] != d.table {
      NotGathered(d, v, shipped, j);
    }
    NotInBlocks(d', disk', d.table);
  }

  /** Replacing the index table leaks the old one: its bit stays set and nothing refers to it. */
  lemma ReplacedTableLeaks(d: Dir, v: Volume, e: Slot, shipped: bool)
    requires Valid(d, v) && e != Empty && ReplacesTable(d, v, shipped) && Insert(d, v, e, shipped).ok
    ensures var r := Insert(d, v, e, shipped);
            d.table !in Blocks(r.d, r.v.disk) && r.v.Used(d.table)
  {
    var b, c := TableReplaced(d, v, e, shipped);
    var r := Insert(d, v, e, shipped);
    OldTableNotKept(d, v, r.d, r.v.disk, c, shipped);
  }

  lemma NewTableLive(disk: map<Blk, Sector>, direct: seq<Blk>, c: Blk, e: Slot)
    requires c != 0 && c in disk && disk[c] == NewSector(e) && e != Empty
    ensures LiveAll(disk, direct + Zeros(MAX_BLOCKS - DIRECT)[0 := c]) == LiveAll(disk, direct) + [e]
  {
    var ix := Zeros(MAX_BLOCKS - DIRECT)[0 := c];
    LiveAllConcat(disk, direct, ix);
    LiveAllZeros(disk, ix[1..]);
    NewSectorLive(e);
    assert LiveAll(disk, ix) == LiveOf(disk, c) + LiveAll(disk, ix[1..]);
  }

  lemma IndirectNotEmpty(d: Dir, v: Volume)
    requires Valid(d, v) && d.table != 0
    ensures |Live(d, v)| >= |LiveAll(v.disk, d.direct)| + 1
  {
    var ix := Index(d, v.disk);
    LiveAllConcat(v.disk, d.direct, ix);
    var x :| x in ix && x != 0;
    assert x in View(d, v.disk) && SectorOk(v, x);
    var j :| 0 <= j < |ix| && ix[j] == x;
    LiveAllSplit(v.disk, ix, j);
  }

  /** As shipped, every entry behind the old index table is lost with it. */
  lemma ShippedInsertLosesEntries(d: Dir, v: Volume, e: Slot)
    requires Valid(d, v) && e != Empty && ReplacesTable(d, v, true) && Insert(d, v, e, true).ok
    ensures var r := Insert(d, v, e, true);
            && Live(r.d, r.v) == LiveAll(v.disk, d.direct) + [e]
            && |Live(r.d, r.v)| <= |Live(d, v)|
  {
    var b, c := TableReplaced(d, v, e, true);
    var r := Insert(d, v, e, true);
    assert View(r.d, r.v.disk) == d.direct + Zeros(MAX_BLOCKS - DIRECT)[0 := c];
    forall x | x in d.direct ensures LiveOf(r.v.disk, x) == LiveOf(v.disk, x) {
      if x != 0 {
        assert x in View(d, v.disk) && SectorOk(v, x);
      }
    }
    LiveAllFrame(v.disk, r.v.disk, d.direct);
    NewTableLive(r.v.disk, d.direct, c, e);
    IndirectNotEmpty(d, v);
  }

  /** When a successful sync_dir_entry does what it is for, shipped or with the table loaded. */
  lemma InsertRefinesIff(d: Dir, v: Volume, e: Slot, shipped: bool)
    requires Valid(d, v) && e != Empty && Insert(d, v, e, shipped).ok
    ensures Inserted(d, v, e, Insert(d, v, e, shipped)) <==> !ReplacesTable(d, v, shipped)
  {
    if ReplacesTable(d, v, shipped) {
      ReplacedTableLeaks(d, v, e, shipped);
      assert d.table in Blocks(d, v.disk);
    } else {
      InsertRefines(d, v, e, shipped);
    }
  }

  // ---------------------------------------------------------------- "." and ".." stay in the first sector

  lemma SlotFilledDots(d: Dir, v: Volume, i: nat, e: Slot)
    requires Valid(d, v) && DotsFirst(d, v) && i < MAX_BLOCKS && Plain(e)
    requires View(d, v.disk)[i] != 0 && HasRoom(v, View(d, v.disk)[i])
    requires Valid(Grown(d), SlotFilled(v, View(d, v.disk)[i], e))
    ensures DotsFirst(Grown(d), SlotFilled(v, View(d, v.disk)[i], e))
  {
    var blocks := View(d, v.disk);
    var b := blocks[i];
    var v' := SlotFilled(v, b, e);
    SlotFilledLive(d, v, i, e);
    assert View(Grown(d), v'.disk) == blocks;
    SlotFilledHere(v, b, e);
    forall j | 0 <= j < MAX_BLOCKS && j != i ensures LiveOf(v'.disk, blocks[j]) == LiveOf(v.disk, blocks[j]) {
      SlotFilledElsewhere(v, b, e, blocks[j]);
    }
    MoreMembers(LiveOf(v.disk, b), LiveOf(v'.disk, b), e);
    DotsFrame(d, v, Grown(d), v', i);
  }

  lemma GapFilledDots(d: Dir, v: Volume, i: nat, b: Blk, e: Slot, d': Dir, v': Volume)
    requires Valid(d, v) && DotsFirst(d, v) && GapFilled(d, v, i, b, e, d', v') && Plain(e) && Valid(d', v')
    ensures DotsFirst(d', v')
  {
    var blocks := View(d, v.disk);
    NewSectorLive(e);
    ViewMember(d, v.disk, 0);
    ViewMember(d', v'.disk, 0);
    forall j | 0 <= j < MAX_BLOCKS && j != i
      ensures LiveOf(v'.disk, View(d', v'.disk)[j]) == LiveOf(v.disk, blocks[j])
    {
      if blocks[j] != 0 {
        BlockOk(d, v, j);
      }
    }
    DotsFrame(d, v, d', v', i);
  }

  lemma InsertKeepsDots(d: Dir, v: Volume, e: Slot, shipped: bool)
    requires Valid(d, v) && DotsFirst(d, v) && Plain(e) && !ReplacesTable(d, v, shipped)
    requires Insert(d, v, e, shipped).ok
    requires Valid(Insert(d, v, e, shipped).d, Insert(d, v, e, shipped).v)
    ensures DotsFirst(Insert(d, v, e, shipped).d, Insert(d, v, e, shipped).v)
  {
    var g := Gathered(d, v.disk, shipped);
    var i := StopAt(v, g, 0);
    GatheredIsView(d, v, shipped, i);
    if g[i] != 0 {
      SlotFilledDots(d, v, i, e);
    } else if i == DIRECT {
      var c := FirstIndirectGap(d, v, e);
      var r := FillGap(d, v, g, i, e);
      GapFilledDots(d, v, i, c, e, r.d, r.v);
    } else {
      GapKeepsDots(d, v, i, e);
    }
  }

  lemma GapKeepsDots(d: Dir, v: Volume, i: nat, e: Slot)
    requires Valid(d, v) && DotsFirst(d, v) && Plain(e) && i < MAX_BLOCKS && i != DIRECT
    requires View(d, v.disk)[i] == 0 && (i > DIRECT ==> d.table != 0) && Alloc(v).Some?
    requires var r := FillGap(d, v, View(d, v.disk), i, e); Valid(r.d, r.v)
    ensures var r := FillGap(d, v, View(d, v.disk), i, e); DotsFirst(r.d, r.v)
  {
    AllocIsFresh(v);
    var (v1, b) := Alloc(v).value;
    if i < DIRECT {
      DirectGap(d, v, i, e);
    } else {
      IndirectGap(d, v, v1, b, i, e);
    }
    var r := FillGap(d, v, View(d, v.disk), i, e);
    GapFilledDots(d, v, i, b, e, r.d, r.v);
  }

  // ---------------------------------------------------------------- when an insertion succeeds

  /** Free sectors that an insertion at block i takes: an entry in a gap needs one, and block 12 one
      more for the index table. */
  function Needs(i: nat): nat {
    if i == DIRECT then 2 else 1
  }

  /** The first block that could take the entry is a gap, and `room` free sectors do not fill it. */
  predicate ShortOf(d: Dir, v: Volume, room: nat, shipped: bool)
    requires Shaped(d, v.disk)
  {
    var blocks := Gathered(d, v.disk, shipped);
    var i := StopAt(v, blocks, 0);
    i < MAX_BLOCKS && blocks[i] == 0 && room < Needs(i)
  }

  /** Some block has an empty slot, or is a gap and there is room to fill it; the first such block counts. */
  predicate Insertable(d: Dir, v: Volume, shipped: bool)
    requires Shaped(d, v.disk)
  {
    StopAt(v, Gathered(d, v.disk, shipped), 0) < MAX_BLOCKS && !ShortOf(d, v, Room(v), shipped)
  }

  /** No block has an empty slot or is a gap. */
  predicate DirFull(d: Dir, v: Volume)
    requires Shaped(d, v.disk)
  {
    forall i :: 0 <= i < MAX_BLOCKS ==> View(d, v.disk)[i] != 0 && !HasRoom(v, View(d, v.disk)[i])
  }

  lemma InsertOkIff(d: Dir, v: Volume, e: Slot, shipped: bool)
    requires Shaped(d, v.disk)
    ensures Insert(d, v, e, shipped).ok <==> Insertable(d, v, shipped)
  {
    AllocRoom(v);
    if Alloc(v).Some? {
      AllocRoom(Alloc(v).value.0);
    }
  }

  lemma DirFullIff(d: Dir, v: Volume)
    requires Shaped(d, v.disk)
    ensures DirFull(d, v) <==> StopAt(v, View(d, v.disk), 0) == MAX_BLOCKS
  {
  }

  /** The failure that is not clean: the table would be replaced and there is room for the new table but
      not for the block.  The old table is dropped from the inode and the new one given back. */
  lemma InsertFailsReplacing(d: Dir, v: Volume, e: Slot, shipped: bool)
    requires Valid(d, v) && ReplacesTable(d, v, shipped)
    ensures !Insert(d, v, e, shipped).ok <==> Room(v) < 2
    ensures Room(v) == 0 ==> Insert(d, v, e, shipped) == Insertion(false, d, v)
    ensures Room(v) == 1 ==> Insert(d, v, e, shipped) == Insertion(false, d.(table := 0), v)
  {
    AllocRoom(v);
    if Alloc(v).Some? {
      AllocIsFresh(v);
      AllocRoom(Alloc(v).value.0);
    }
  }

  // ---------------------------------------------------------------- with the scan that stops

  /** With `stops`, as shipped, a scan of a full block bitmap stops the machine instead of answering -1. */
  function InsertScan(d: Dir, v: Volume, e: Slot, shipped: bool, stops: bool): Outcome<Insertion>
    requires Shaped(d, v.disk)
  {
    if stops && ShortOf(d, v, Room(v), shipped) then Halted else Next(Insert(d, v, e, shipped))
  }

  function FillGapScan(d: Dir, v: Volume, blocks: seq<Blk>, i: nat, e: Slot, stops: bool): Outcome<Insertion>
    requires |d.direct| == DIRECT && |blocks| == MAX_BLOCKS && i < MAX_BLOCKS
  {
    if stops && Room(v) < Needs(i) then Halted else Next(FillGap(d, v, blocks, i, e))
  }
}
