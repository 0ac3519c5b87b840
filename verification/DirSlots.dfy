/** A directory as 140 times 21 slots: sync_dir_entry fills the first free one, delete_dir_entry clears one. */
module DirSlots {
  import opened Directory
  import opened DirInsert
  import opened DirDelete

  /** Slot k of block i; a gap has only free ones. */
  function SlotAt(d: Dir, v: Volume, i: nat, k: nat): Slot
    requires Shaped(d, v.disk) && i < MAX_BLOCKS
  {
    var es := SlotsOf(v, View(d, v.disk)[i]);
    if k < |es| then es[k] else Empty
  }

  /** Nothing is free before slot k of block i, which is. */
  ghost predicate FirstFree(d: Dir, v: Volume, i: nat, k: nat)
    requires Shaped(d, v.disk)
  {
    && i < MAX_BLOCKS && k < PER_SECTOR && SlotAt(d, v, i, k) == Empty
    && (forall j: nat, l: nat {:trigger SlotAt(d, v, j, l)} ::
          j < MAX_BLOCKS && l < PER_SECTOR && (j < i || (j == i && l < k)) ==> SlotAt(d, v, j, l) != Empty)
  }

  /** Slot k of block i is now e, and all others are as they were. */
  ghost predicate OneSlot(d: Dir, v: Volume, d': Dir, v': Volume, i: nat, k: nat, e: Slot)
    requires Shaped(d, v.disk) && Shaped(d', v'.disk)
  {
    forall j: nat, l: nat {:trigger SlotAt(d', v', j, l)} :: j < MAX_BLOCKS && l < PER_SECTOR ==>
      SlotAt(d', v', j, l) == if j == i && l == k then e else SlotAt(d, v, j, l)
  }

  // ---------------------------------------------------------------- insertion

  lemma BlockSlots(d: Dir, v: Volume, i: nat)
    requires Valid(d, v) && i < MAX_BLOCKS
    ensures |View(d, v.disk)| == MAX_BLOCKS
    ensures View(d, v.disk)[i] != 0 ==> SectorOk(v, View(d, v.disk)[i]) && |SlotsOf(v, View(d, v.disk)[i])| == PER_SECTOR
    ensures View(d, v.disk)[i] == 0 ==> SlotsOf(v, View(d, v.disk)[i]) == []
  {
    ViewMember(d, v.disk, i);
    if View(d, v.disk)[i] != 0 {
      BlockOk(d, v, i);
    }
  }

  lemma StopsAtFirstFree(d: Dir, v: Volume, i: nat, k: nat)
    requires Valid(d, v) && FirstFree(d, v, i, k)
    ensures StopAt(v, View(d, v.disk), 0) == i
    ensures View(d, v.disk)[i] == 0 ==> k == 0
    ensures View(d, v.disk)[i] != 0 ==> HasRoom(v, View(d, v.disk)[i]) && FirstEmpty(SlotsOf(v, View(d, v.disk)[i])) == k
  {
    var blocks := View(d, v.disk);
    forall j | 0 <= j <= i ensures blocks[j] == 0 || HasRoom(v, blocks[j]) <==> j == i {
      BlockSlots(d, v, j);
      var es := SlotsOf(v, blocks[j]);
      if j < i {
        assert SlotAt(d, v, j, 0) != Empty;
        forall l | 0 <= l < |es| ensures es[l] != Empty {
          assert SlotAt(d, v, j, l) != Empty;
        }
      } else if blocks[j] != 0 {
        assert es[k] == Empty && es[k] in es;
      }
    }
    BlockSlots(d, v, i);
    assert k > 0 ==> SlotAt(d, v, i, 0) != Empty;
    if blocks[i] != 0 {
      var es := SlotsOf(v, blocks[i]);
      forall l | 0 <= l < k ensures es[l] != Empty {
        assert SlotAt(d, v, i, l) != Empty;
      }
    }
  }

  /** Block i is rewritten and the others hold what they held. */
  lemma OneBlock(d: Dir, v: Volume, d': Dir, v': Volume, i: nat, k: nat, e: Slot)
    requires Shaped(d, v.disk) && Shaped(d', v'.disk) && i < MAX_BLOCKS && k < PER_SECTOR
    requires forall j :: 0 <= j < MAX_BLOCKS && j != i ==>
               SlotsOf(v', View(d', v'.disk)[j]) == SlotsOf(v, View(d, v.disk)[j])
    requires forall l: nat {:trigger SlotAt(d', v', i, l)} :: l < PER_SECTOR ==>
               SlotAt(d', v', i, l) == if l == k then e else SlotAt(d, v, i, l)
    ensures OneSlot(d, v, d', v', i, k, e)
  {
    forall j: nat, l: nat | j < MAX_BLOCKS && l < PER_SECTOR && j != i ensures SlotAt(d', v', j, l) == SlotAt(d, v, j, l) {
      assert SlotsOf(v', View(d', v'.disk)[j]) == SlotsOf(v, View(d, v.disk)[j]);
    }
  }

  /** Writing sector b of a directory leaves its other sectors as they were. */
  lemma PutElsewhere(d: Dir, v: Volume, i: nat, j: nat, s: Sector)
    requires Valid(d, v) && i < MAX_BLOCKS && View(d, v.disk)[i] != 0 && j < MAX_BLOCKS
    ensures |View(d, v.disk)| == MAX_BLOCKS
    ensures j != i ==> SlotsOf(v.Put(View(d, v.disk)[i], s), View(d, v.disk)[j]) == SlotsOf(v, View(d, v.disk)[j])
    ensures Shaped(d, v.Put(View(d, v.disk)[i], s).disk) && View(d, v.Put(View(d, v.disk)[i], s).disk) == View(d, v.disk)
  {
    BlockSlots(d, v, j);
    BlockOk(d, v, i);
    var v' := v.Put(View(d, v.disk)[i], s);
    assert Index(d, v'.disk) == Index(d, v.disk);
  }

  /** One slot of a sector is rewritten. */
  lemma SlotWritten(d: Dir, v: Volume, i: nat, k: nat, e: Slot, d': Dir)
    requires Valid(d, v) && i < MAX_BLOCKS && View(d, v.disk)[i] != 0 && k < PER_SECTOR
    requires d'.direct == d.direct && d'.table == d.table && |SlotsOf(v, View(d, v.disk)[i])| == PER_SECTOR
    ensures var b := View(d, v.disk)[i]; var v' := v.Put(b, Slots(SlotsOf(v, b)[k := e]));
            Shaped(d', v'.disk) && OneSlot(d, v, d', v', i, k, e)
  {
    var b := View(d, v.disk)[i];
    var v' := v.Put(b, Slots(SlotsOf(v, b)[k := e]));
    PutElsewhere(d, v, i, i, v'.disk[b]);
    SameFields(d, d', v'.disk);
    forall j | 0 <= j < MAX_BLOCKS && j != i
      ensures SlotsOf(v', View(d', v'.disk)[j]) == SlotsOf(v, View(d, v.disk)[j])
    {
      PutElsewhere(d, v, i, j, v'.disk[b]);
    }
    OneBlock(d, v, d', v', i, k, e);
  }

  lemma GapFilledPlace(d: Dir, v: Volume, i: nat, b: Blk, e: Slot, d': Dir, v': Volume)
    requires Valid(d, v) && GapFilled(d, v, i, b, e, d', v')
    ensures OneSlot(d, v, d', v', i, 0, e)
  {
    var blocks := View(d, v.disk);
    forall j | 0 <= j < MAX_BLOCKS && j != i ensures SlotsOf(v', View(d', v'.disk)[j]) == SlotsOf(v, blocks[j]) {
      BlockSlots(d, v, j);
      if blocks[j] != 0 {
        BlockOk(d, v, j);
      }
    }
    BlockSlots(d, v, i);
    assert SlotsOf(v', b) == NewSector(e).es;
    OneBlock(d, v, d', v', i, 0, e);
  }

  lemma FillGapPlace(d: Dir, v: Volume, i: nat, e: Slot)
    requires Valid(d, v) && e != Empty && i < MAX_BLOCKS && View(d, v.disk)[i] == 0
    requires i == DIRECT ==> d.table == 0
    requires i > DIRECT ==> d.table != 0
    requires FillGap(d, v, View(d, v.disk), i, e).ok
    ensures var r := FillGap(d, v, View(d, v.disk), i, e);
            Shaped(r.d, r.v.disk) && OneSlot(d, v, r.d, r.v, i, 0, e)
  {
    AllocIsFresh(v);
    var (v1, b) := Alloc(v).value;
    var r := FillGap(d, v, View(d, v.disk), i, e);
    if i < DIRECT {
      DirectGap(d, v, i, e);
      GapFilledPlace(d, v, i, b, e, r.d, r.v);
    } else if i == DIRECT {
      var c := FirstIndirectGap(d, v, e);
      GapFilledPlace(d, v, i, c, e, r.d, r.v);
    } else {
      IndirectGap(d, v, v1, b, i, e);
      GapFilledPlace(d, v, i, b, e, r.d, r.v);
    }
  }

  /** A successful insertion fills the first free slot and no other, unless it replaces a table. */
  lemma InsertFillsFirst(d: Dir, v: Volume, e: Slot, i: nat, k: nat)
    requires Valid(d, v) && FirstFree(d, v, i, k) && e != Empty
    requires Insert(d, v, e, false).ok && !ReplacesTable(d, v, false)
    ensures var r := Insert(d, v, e, false); Shaped(r.d, r.v.disk) && OneSlot(d, v, r.d, r.v, i, k, e)
  {
    StopsAtFirstFree(d, v, i, k);
    GatheredIsView(d, v, false, i);
    if View(d, v.disk)[i] == 0 {
      FillGapPlace(d, v, i, e);
    } else {
      BlockSlots(d, v, i);
      SlotWritten(d, v, i, k, e, Grown(d));
    }
  }

  // ---------------------------------------------------------------- deletion

  lemma OnlyLive(es: seq<Slot>, k: nat, l: nat)
    requires k < |es| && l < |es| && k != l && LiveSlots(es) == [es[k]]
    ensures es[l] == Empty
  {
    LiveSlotsMember(es, es[k]);
    LiveSlotsMember(es[k := Empty], es[l]);
    ClearSlotLive(es, k);
    assert multiset(LiveSlots(es)) == multiset{es[k]};
    assert es[k := Empty][l] == es[l];
    assert |LiveSlots(es[k := Empty])| == |multiset(LiveSlots(es[k := Empty]))| == 0;
  }

  lemma GapMadePlace(d: Dir, v: Volume, i: nat, k: nat, d': Dir, v': Volume)
    requires Valid(d, v) && i < MAX_BLOCKS && k < |SlotsOf(v, View(d, v.disk)[i])|
    requires SlotsOf(v, View(d, v.disk)[i])[k] != Empty
    requires GapMade(d, v, i, SlotsOf(v, View(d, v.disk)[i])[k], d', v')
    ensures OneSlot(d, v, d', v', i, k, Empty)
  {
    var blocks := View(d, v.disk);
    forall j | 0 <= j < MAX_BLOCKS && j != i ensures SlotsOf(v', View(d', v'.disk)[j]) == SlotsOf(v, blocks[j]) {
      BlockSlots(d, v, j);
      if blocks[j] != 0 {
        BlockOk(d, v, j);
      }
    }
    BlockSlots(d, v, i);
    var es := SlotsOf(v, blocks[i]);
    LiveOfIsSlots(v, blocks[i]);
    forall l | 0 <= l < PER_SECTOR && l != k ensures SlotAt(d, v, i, l) == Empty {
      OnlyLive(es, k, l);
    }
    OneBlock(d, v, d', v', i, k, Empty);
  }

  /** Slot k of block i is the only one that names ino. */
  ghost predicate OnlyNamedAt(d: Dir, v: Volume, ino: nat, i: nat, k: nat)
    requires Shaped(d, v.disk)
  {
    && i < MAX_BLOCKS && k < PER_SECTOR
    && forall j: nat, l: nat {:trigger SlotAt(d, v, j, l)} :: j < MAX_BLOCKS && l < PER_SECTOR ==>
         (Names(SlotAt(d, v, j, l), ino) <==> j == i && l == k)
  }

  lemma FoundWhereNamed(d: Dir, v: Volume, ino: nat, i: nat, k: nat)
    requires Valid(d, v) && OnlyNamedAt(d, v, ino, i, k)
    ensures View(d, v.disk)[i] != 0 && k < |SlotsOf(v, View(d, v.disk)[i])|
    ensures FoundAt(v, View(d, v.disk), ino, 0) == i && FirstNamed(SlotsOf(v, View(d, v.disk)[i]), ino) == k
  {
    var blocks := View(d, v.disk);
    assert Names(SlotAt(d, v, i, k), ino);
    forall j | 0 <= j <= i
      ensures FirstNamed(SlotsOf(v, blocks[j]), ino) == if j == i then k else |SlotsOf(v, blocks[j])|
    {
      BlockSlots(d, v, j);
      var es := SlotsOf(v, blocks[j]);
      forall l | 0 <= l < |es| ensures Names(es[l], ino) <==> j == i && l == k {
        assert es[l] == SlotAt(d, v, j, l);
      }
    }
    BlockSlots(d, v, i);
  }

  /** A deletion clears the one slot that names the inode and no other. */
  lemma DeleteClearsOne(d: Dir, v: Volume, ino: nat, i: nat, k: nat)
    requires Valid(d, v) && DotsFirst(d, v) && OnlyNamedAt(d, v, ino, i, k) && CountNames(Live(d, v), ino) <= 1
    ensures var r := Delete(d, v, ino);
            r.Next? && r.value.found && Shaped(r.value.d, r.value.v.disk)
            && OneSlot(d, v, r.value.d, r.value.v, i, k, Empty)
  {
    FoundWhereNamed(d, v, ino, i, k);
    var e := DeleteFound(d, v, ino, i);
    var es := SlotsOf(v, View(d, v.disk)[i]);
    var r := Delete(d, v, ino).value;
    if CountPlain(es) == 1 && !HasDot(es) {
      FirstSectorHasDot(d, v, i);
      AloneInSector(es, k);
      LiveOfIsSlots(v, View(d, v.disk)[i]);
      SizeCoversEntry(d, v, i);
      ReclaimMakesGap(d, v, i, es[k]);
      GapMadePlace(d, v, i, k, r.d, r.v);
    } else {
      BlockSlots(d, v, i);
      SlotWritten(d, v, i, k, Empty, r.d);
    }
  }

  // ---------------------------------------------------------------- a gap at block 12

  /** The first free slot is the first of block 12, that block is a gap, and some later one is not. */
  lemma GapAtTwelve(d: Dir, v: Volume, p: nat, l: nat)
    requires Valid(d, v) && FirstFree(d, v, DIRECT, 0)
    requires forall k: nat {:trigger SlotAt(d, v, DIRECT, k)} :: k < PER_SECTOR ==> SlotAt(d, v, DIRECT, k) == Empty
    requires DIRECT < p < MAX_BLOCKS && l < PER_SECTOR && SlotAt(d, v, p, l) != Empty
    ensures ReplacesTable(d, v, false) && ReplacesTable(d, v, true)
  {
    var blocks := View(d, v.disk);
    StopsAtFirstFree(d, v, DIRECT, 0);
    BlockSlots(d, v, DIRECT);
    if blocks[DIRECT] != 0 {
      var es := SlotsOf(v, blocks[DIRECT]);
      forall k | 0 <= k < |es| ensures es[k] == Empty {
        assert es[k] == SlotAt(d, v, DIRECT, k);
      }
      NoLiveInEmpties(es);
    }
    BlockSlots(d, v, p);
    ViewMember(d, v.disk, p);
    ShippedStops(d, v);
  }

  /** Without the table, as shipped, block 12 looks like a gap whenever the sectors before it are full. */
  lemma ShippedStops(d: Dir, v: Volume)
    requires Valid(d, v) && d.table != 0 && StopAt(v, View(d, v.disk), 0) >= DIRECT
    ensures ReplacesTable(d, v, true)
  {
    var g := Gathered(d, v.disk, true);
    forall j | 0 <= j < DIRECT ensures g[j] == View(d, v.disk)[j] {
      ViewMember(d, v.disk, j);
    }
    assert g[DIRECT] == 0;
  }

  /** A directory with an index table has an entry behind its direct blocks. */
  lemma TableHolds(d: Dir, v: Volume) returns (i: nat, k: nat)
    requires Valid(d, v) && d.table != 0
    ensures DIRECT <= i < MAX_BLOCKS && k < PER_SECTOR && SlotAt(d, v, i, k) != Empty
  {
    var ix := Index(d, v.disk);
    var b :| b in ix && b != 0;
    var j :| 0 <= j < |ix| && ix[j] == b;
    i := j + DIRECT;
    BlockSlots(d, v, i);
    ViewMember(d, v.disk, i);
    var es := SlotsOf(v, b);
    if forall l :: 0 <= l < |es| ==> es[l] == Empty {
      NoLiveInEmpties(es);
    }
    var l :| 0 <= l < |es| && es[l] != Empty;
    k := l;
  }

  /** An insertion takes two sectors at most. */
  lemma InsertRoom(d: Dir, v: Volume, e: Slot)
    requires Shaped(d, v.disk) && Room(v) >= 2
    ensures Room(Insert(d, v, e, false).v) + 2 >= Room(v)
  {
    AllocRoom(v);
    AllocRoom(Alloc(v).value.0);
  }
}
