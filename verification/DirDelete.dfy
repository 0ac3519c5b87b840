/** delete_dir_entry (fs/dir.c). */
module DirDelete {
  import opened Outcomes
  import opened Directory

  /** An entry, other than "." and "..", for inode `ino`. */
  predicate Names(e: Slot, ino: nat) {
    Plain(e) && e.ino == ino
  }

  function CountNames(es: seq<Slot>, ino: nat): nat {
    if es == [] then 0 else (if Names(es[0], ino) then 1 else 0) + CountNames(es[1..], ino)
  }

  function CountPlain(es: seq<Slot>): nat {
    if es == [] then 0 else (if Plain(es[0]) then 1 else 0) + CountPlain(es[1..])
  }

  function CountUsed(bs: seq<Blk>): nat {
    if bs == [] then 0 else (if bs[0] != 0 then 1 else 0) + CountUsed(bs[1..])
  }

  predicate HasDot(es: seq<Slot>) {
    exists k :: 0 <= k < |es| && es[k].Entry? && es[k].name == "."
  }

  function FirstNamed(es: seq<Slot>, ino: nat): (k: nat)
    ensures k <= |es|
    ensures k < |es| ==> Names(es[k], ino)
    ensures forall i :: 0 <= i < k ==> !Names(es[i], ino)
  {
    if es == [] || Names(es[0], ino) then 0 else 1 + FirstNamed(es[1..], ino)
  }

  /** The first block, from i on, with an entry for `ino`. */
  function FoundAt(v: Volume, blocks: seq<Blk>, ino: nat, i: nat): (r: nat)
    requires i <= |blocks|
    ensures i <= r <= |blocks|
    ensures r < |blocks| ==> FirstNamed(SlotsOf(v, blocks[r]), ino) < |SlotsOf(v, blocks[r])|
    ensures forall j :: i <= j < r ==> FirstNamed(SlotsOf(v, blocks[j]), ino) == |SlotsOf(v, blocks[j])|
    decreases |blocks| - i
  {
    if i == |blocks| || FirstNamed(SlotsOf(v, blocks[i]), ino) < |SlotsOf(v, blocks[i])| then i
    else FoundAt(v, blocks, ino, i + 1)
  }

  function SlotCleared(v: Volume, b: Blk, k: nat): Volume
    requires k < |SlotsOf(v, b)|
  {
    v.Put(b, Slots(SlotsOf(v, b)[k := Empty]))
  }

  datatype Deletion = Deletion(found: bool, d: Dir, v: Volume)

  /** Lines 368-416: the sector at i goes back to the bitmap, and the index table with its last sector. */
  function Reclaim(d: Dir, v: Volume, blocks: seq<Blk>, i: nat): Outcome<(Dir, Volume)>
    requires |d.direct| == DIRECT && |blocks| == MAX_BLOCKS && i < MAX_BLOCKS
  {
    var b := blocks[i];
    if !(v.base <= b < v.base + |v.bits|) then Halted
    else if i < DIRECT then Next((d.(direct := d.direct[i := 0]), v.Free(b)))
    else if CountUsed(blocks[DIRECT..]) > 1 then
      Next((d, v.Free(b).Put(d.table, Pointers(blocks[i := 0][DIRECT..]))))
    else if !(v.base <= d.table < v.base + |v.bits|) then Halted
    else Next((d.(table := 0), v.Free(b).Free(d.table)))
  }

  function Delete(d: Dir, v: Volume, ino: nat): Outcome<Deletion>
    requires Shaped(d, v.disk)
  {
    var blocks := View(d, v.disk);
    var i := FoundAt(v, blocks, ino, 0);
    if i == MAX_BLOCKS then Next(Deletion(false, d, v))
    else if CountNames(SlotsOf(v, blocks[i]), ino) > 1 then Halted
    else DeleteAt(d, v, blocks, i, FirstNamed(SlotsOf(v, blocks[i]), ino))
  }

  /** Lines 363-431: slot k of the sector at i. */
  function DeleteAt(d: Dir, v: Volume, blocks: seq<Blk>, i: nat, k: nat): Outcome<Deletion>
    requires |d.direct| == DIRECT && |blocks| == MAX_BLOCKS && i < MAX_BLOCKS && k < |SlotsOf(v, blocks[i])|
  {
    var es := SlotsOf(v, blocks[i]);
    var (d1, v1) :-
      if CountPlain(es) == 1 && !HasDot(es) then Reclaim(d, v, blocks, i)
      else Next((d, SlotCleared(v, blocks[i], k)));
    if d1.size < ENTRY_SIZE then Halted
    else Next(Deletion(true, d1.(size := d1.size - ENTRY_SIZE), v1))
  }

  // ---------------------------------------------------------------- deletion refines removing an entry

  /** One entry less, exactly the sectors that became empty are given back, and no sector of anybody
      else is touched. */
  ghost predicate Deleted(d: Dir, v: Volume, e: Slot, d': Dir, v': Volume) {
    var gone := Blocks(d, v.disk) - Blocks(d', v'.disk);
    && Valid(d', v')
    && multiset(Live(d, v)) == multiset(Live(d', v')) + multiset{e}
    && Blocks(d', v'.disk) <= Blocks(d, v.disk)
    && v'.base == v.base && |v'.bits| == |v.bits|
    && (forall b :: v'.Used(b) <==> v.Used(b) && b !in gone)
    && (forall b :: b in v.disk && b !in Blocks(d, v.disk) ==> b in v'.disk && v'.disk[b] == v.disk[b])
  }

  lemma {:induction false} CountNamesConcat(a: seq<Slot>, b: seq<Slot>, ino: nat)
    ensures CountNames(a + b, ino) == CountNames(a, ino) + CountNames(b, ino)
  {
    if a == [] {
      assert a + b == b;
    } else {
      assert (a + b)[1..] == a[1..] + b;
      CountNamesConcat(a[1..], b, ino);
    }
  }

  lemma {:induction false} CountNamesLive(es: seq<Slot>, ino: nat)
    ensures CountNames(LiveSlots(es), ino) == CountNames(es, ino)
  {
    if es != [] {
      CountNamesLive(es[1..], ino);
      CountNamesConcat(if es[0] == Empty then [] else [es[0]], LiveSlots(es[1..]), ino);
    }
  }

  lemma {:induction false} CountNamesZero(es: seq<Slot>, ino: nat)
    ensures CountNames(es, ino) == 0 <==> FirstNamed(es, ino) == |es|
  {
    if es != [] {
      CountNamesZero(es[1..], ino);
    }
  }

  /** Blocks before the one found name `ino` nowhere. */
  lemma {:induction false} NotNamedBefore(v: Volume, blocks: seq<Blk>, ino: nat)
    requires forall j :: 0 <= j < |blocks| ==> FirstNamed(SlotsOf(v, blocks[j]), ino) == |SlotsOf(v, blocks[j])|
    ensures CountNames(LiveAll(v.disk, blocks), ino) == 0
  {
    if blocks != [] {
      NotNamedBefore(v, blocks[1..], ino);
      LiveOfIsSlots(v, blocks[0]);
      CountNamesLive(SlotsOf(v, blocks[0]), ino);
      CountNamesZero(SlotsOf(v, blocks[0]), ino);
      CountNamesConcat(LiveOf(v.disk, blocks[0]), LiveAll(v.disk, blocks[1..]), ino);
    }
  }

  /** delete_dir_entry finds an entry iff there is one. */
  lemma FoundIffNamed(d: Dir, v: Volume, ino: nat)
    requires Valid(d, v)
    ensures var i := FoundAt(v, View(d, v.disk), ino, 0);
            && (i == MAX_BLOCKS <==> CountNames(Live(d, v), ino) == 0)
            && (i < MAX_BLOCKS ==>
                  1 <= CountNames(SlotsOf(v, View(d, v.disk)[i]), ino) <= CountNames(Live(d, v), ino))
  {
    var blocks := View(d, v.disk);
    var i := FoundAt(v, blocks, ino, 0);
    if i == MAX_BLOCKS {
      NotNamedBefore(v, blocks, ino);
    } else {
      var es := SlotsOf(v, blocks[i]);
      CountNamesZero(es, ino);
      CountNamesLive(es, ino);
      LiveOfIsSlots(v, blocks[i]);
      LiveAllSplit(v.disk, blocks, i);
      CountNamesConcat(LiveAll(v.disk, blocks[..i]) + LiveOf(v.disk, blocks[i]), LiveAll(v.disk, blocks[i + 1..]), ino);
      CountNamesConcat(LiveAll(v.disk, blocks[..i]), LiveOf(v.disk, blocks[i]), ino);
    }
  }

  lemma {:induction false} AllPlainCount(es: seq<Slot>)
    requires forall e :: e in LiveSlots(es) ==> Plain(e)
    ensures CountPlain(es) == |LiveSlots(es)|
  {
    if es != [] {
      assert forall e :: e in LiveSlots(es[1..]) ==> e in LiveSlots(es);
      AllPlainCount(es[1..]);
      assert es[0] != Empty ==> es[0] in LiveSlots(es);
    }
  }

  lemma ClearSlotLive(es: seq<Slot>, k: nat)
    requires k < |es| && es[k] != Empty
    ensures multiset(LiveSlots(es)) == multiset(LiveSlots(es[k := Empty])) + multiset{es[k]}
  {
    assert es[k := Empty][k := es[k]] == es;
    FillSlotLive(es[k := Empty], k, es[k]);
  }

  /** The entries of one block change from y = x plus e to x. */
  lemma OneBlockShrinks(disk: map<Blk, Sector>, disk': map<Blk, Sector>, blocks: seq<Blk>, i: nat, b: Blk, e: Slot)
    requires i < |blocks|
    requires forall j :: 0 <= j < |blocks| && j != i ==> LiveOf(disk', blocks[j]) == LiveOf(disk, blocks[j])
    requires multiset(LiveOf(disk, blocks[i])) == multiset(LiveOf(disk', b)) + multiset{e}
    ensures multiset(LiveAll(disk, blocks)) == multiset(LiveAll(disk', blocks[i := b])) + multiset{e}
    ensures |LiveAll(disk, blocks)| == |LiveAll(disk', blocks[i := b])| + 1
  {
    LiveAllSplit(disk, blocks, i);
    LiveAllPoint(disk, disk', blocks, i, b);
    MiddleGrows(LiveAll(disk, blocks[..i]), LiveOf(disk', b), LiveOf(disk, blocks[i]),
                LiveAll(disk, blocks[i + 1..]), e);
  }

  lemma SizeCoversEntry(d: Dir, v: Volume, i: nat)
    requires Valid(d, v) && i < MAX_BLOCKS && View(d, v.disk)[i] != 0
    ensures d.size >= ENTRY_SIZE
  {
    BlockOk(d, v, i);
    LiveAllSplit(v.disk, View(d, v.disk), i);
  }

  lemma SlotClearedElsewhere(v: Volume, b: Blk, k: nat, x: Blk)
    requires k < |SlotsOf(v, b)| && x != b
    ensures LiveOf(SlotCleared(v, b, k).disk, x) == LiveOf(v.disk, x)
  {
  }

  lemma SlotClearedHere(v: Volume, b: Blk, k: nat)
    requires k < |SlotsOf(v, b)| && SlotsOf(v, b)[k] != Empty && b != 0
    ensures multiset(LiveOf(v.disk, b)) == multiset(LiveOf(SlotCleared(v, b, k).disk, b)) + multiset{SlotsOf(v, b)[k]}
  {
    ClearSlotLive(SlotsOf(v, b), k);
  }

  lemma SlotClearedLive(d: Dir, v: Volume, i: nat, k: nat)
    requires Shaped(d, v.disk) && Separate(View(d, v.disk), d.table) && i < MAX_BLOCKS
    requires View(d, v.disk)[i] != 0
    requires k < |SlotsOf(v, View(d, v.disk)[i])| && SlotsOf(v, View(d, v.disk)[i])[k] != Empty
    ensures var b := View(d, v.disk)[i]; var v' := SlotCleared(v, b, k);
            && Index(d, v'.disk) == Index(d, v.disk)
            && multiset(Live(d, v)) == multiset(Live(d, v')) + multiset{SlotsOf(v, b)[k]}
            && |Live(d, v)| == |Live(d, v')| + 1
  {
    var blocks := View(d, v.disk);
    var b := blocks[i];
    var v' := SlotCleared(v, b, k);
    assert Index(d, v'.disk) == Index(d, v.disk);
    SlotClearedHere(v, b, k);
    forall j | 0 <= j < |blocks| && j != i ensures LiveOf(v'.disk, blocks[j]) == LiveOf(v.disk, blocks[j]) {
      SlotClearedElsewhere(v, b, k, blocks[j]);
    }
    assert blocks[i := b] == blocks;
    OneBlockShrinks(v.disk, v'.disk, blocks, i, b, SlotsOf(v, b)[k]);
  }

  lemma SameBlocksDelete(d: Dir, v: Volume, e: Slot, d': Dir, v': Volume)
    requires Valid(d, v) && Shaped(d', v'.disk)
    requires d'.table == d.table && d'.direct == d.direct && Index(d', v'.disk) == Index(d, v.disk)
    requires v'.base == v.base && v'.bits == v.bits
    requires forall x :: x in View(d, v.disk) && x != 0 ==> SectorOk(v', x)
    requires multiset(Live(d, v)) == multiset(Live(d', v')) + multiset{e}
    requires d'.size == ENTRY_SIZE * |Live(d', v')|
    requires forall x :: x in v.disk && x !in Blocks(d, v.disk) ==> x in v'.disk && v'.disk[x] == v.disk[x]
    ensures Deleted(d, v, e, d', v')
  {
    SameBlocks(d, v, d', v');
  }

  /** The entry is cleared and its sector keeps others. */
  lemma DeleteFromSlot(d: Dir, v: Volume, i: nat, k: nat)
    requires Valid(d, v) && i < MAX_BLOCKS && View(d, v.disk)[i] != 0 && d.size >= ENTRY_SIZE
    requires k < |SlotsOf(v, View(d, v.disk)[i])| && SlotsOf(v, View(d, v.disk)[i])[k] != Empty
    requires LiveSlots(SlotsOf(v, View(d, v.disk)[i])[k := Empty]) != []
    ensures var b := View(d, v.disk)[i];
            Deleted(d, v, SlotsOf(v, b)[k], d.(size := d.size - ENTRY_SIZE), SlotCleared(v, b, k))
  {
    var b := View(d, v.disk)[i];
    var v' := SlotCleared(v, b, k);
    var d' := d.(size := d.size - ENTRY_SIZE);
    BlockOk(d, v, i);
    SlotClearedLive(d, v, i, k);
    assert View(d', v'.disk) == View(d, v'.disk);
    forall x | x in View(d, v.disk) && x != 0 ensures SectorOk(v', x) {
      SlotClearedSector(v, b, k, x);
    }
    SameBlocksDelete(d, v, SlotsOf(v, b)[k], d', v');
  }

  lemma SlotClearedSector(v: Volume, b: Blk, k: nat, x: Blk)
    requires k < |SlotsOf(v, b)| && SectorOk(v, x)
    requires LiveSlots(SlotsOf(v, b)[k := Empty]) != []
    ensures SectorOk(SlotCleared(v, b, k), x)
  {
  }

  /** The sector at i held only e; the directory no longer refers to it. */
  ghost predicate GapMade(d: Dir, v: Volume, i: nat, e: Slot, d': Dir, v': Volume)
    requires Valid(d, v)
  {
    && i < MAX_BLOCKS && View(d, v.disk)[i] != 0 && LiveOf(v.disk, View(d, v.disk)[i]) == [e]
    && Shaped(d', v'.disk) && View(d', v'.disk) == View(d, v.disk)[i := 0]
    && v.base == v'.base && |v.bits| == |v'.bits|
    && (d'.table == d.table || d'.table == 0)
    && (d'.table != 0 ==> exists x :: x in Index(d', v'.disk) && x != 0)
    && (forall x :: v'.Used(x) <==>
          v.Used(x) && x != View(d, v.disk)[i] && (d'.table == d.table || x != d.table))
    && (forall x :: x in v.disk && (x == 0 || x != d.table) ==> x in v'.disk && v'.disk[x] == v.disk[x])
    && d'.size + ENTRY_SIZE == d.size
  }

  lemma GapMadeLive(d: Dir, v: Volume, i: nat, e: Slot, d': Dir, v': Volume)
    requires Valid(d, v) && GapMade(d, v, i, e, d', v')
    ensures multiset(Live(d, v)) == multiset(Live(d', v')) + multiset{e}
    ensures |Live(d, v)| == |Live(d', v')| + 1
  {
    var blocks := View(d, v.disk);
    forall j | 0 <= j < |blocks| && j != i ensures LiveOf(v'.disk, blocks[j]) == LiveOf(v.disk, blocks[j]) {
      if blocks[j] != 0 {
        BlockOk(d, v, j);
      }
    }
    OneBlockShrinks(v.disk, v'.disk, blocks, i, 0, e);
  }

  lemma GapMadeBlocks(d: Dir, v: Volume, i: nat, e: Slot, d': Dir, v': Volume)
    requires Valid(d, v) && GapMade(d, v, i, e, d', v')
    ensures Blocks(d', v'.disk)
            == Blocks(d, v.disk) - {View(d, v.disk)[i]} - (if d'.table == d.table then {} else {d.table})
    ensures Separate(View(d', v'.disk), d'.table)
  {
    var blocks := View(d, v.disk);
    var blocks' := View(d', v'.disk);
    assert |blocks| == MAX_BLOCKS;
    BlockOk(d, v, i);
    forall x | x in blocks && x != 0 && x != blocks[i] ensures x in blocks' && x != d.table {
      var j :| 0 <= j < |blocks| && blocks[j] == x;
      assert blocks'[j] == x;
    }
    forall x | x in blocks' && x != 0 ensures x in blocks && x != blocks[i] && x != d.table {
      var j :| 0 <= j < |blocks'| && blocks'[j] == x;
      assert j != i && blocks[j] == x;
    }
  }

  lemma GapMadeDeletes(d: Dir, v: Volume, i: nat, e: Slot, d': Dir, v': Volume)
    requires Valid(d, v) && GapMade(d, v, i, e, d', v')
    ensures Deleted(d, v, e, d', v')
  {
    GapMadeLive(d, v, i, e, d', v');
    GapMadeBlocks(d, v, i, e, d', v');
    BlockOk(d, v, i);
    var blocks := View(d, v.disk);
    var blocks' := View(d', v'.disk);
    forall x | x in blocks' && x != 0 ensures SectorOk(v', x) {
      assert x in Blocks(d', v'.disk);
      assert x in blocks && SectorOk(v, x);
    }
    assert Valid(d', v');
  }

  lemma {:induction false} CountUsedSplit(a: seq<Blk>, b: seq<Blk>)
    ensures CountUsed(a + b) == CountUsed(a) + CountUsed(b)
  {
    if a == [] {
      assert a + b == b;
    } else {
      assert (a + b)[1..] == a[1..] + b;
      CountUsedSplit(a[1..], b);
    }
  }

  lemma {:induction false} CountUsedZero(bs: seq<Blk>)
    ensures CountUsed(bs) == 0 <==> forall j :: 0 <= j < |bs| ==> bs[j] == 0
  {
    if bs != [] {
      CountUsedZero(bs[1..]);
      if forall j :: 0 <= j < |bs[1..]| ==> bs[1..][j] == 0 {
        assert forall j :: 1 <= j < |bs| ==> bs[j] == bs[1..][j - 1];
      }
    }
  }

  /** With the used block i wiped, another used block remains iff there were more than one. */
  lemma LastIndirect(bs: seq<Blk>, i: nat)
    requires i < |bs| && bs[i] != 0
    ensures CountUsed(bs) > 1 <==> exists j :: 0 <= j < |bs| && j != i && bs[j] != 0
  {
    var a, c := bs[..i], bs[i + 1..];
    assert bs == a + [bs[i]] + c && bs[i := 0] == a + [0] + c;
    CountUsedSplit(a + [bs[i]], c);
    CountUsedSplit(a, [bs[i]]);
    CountUsedSplit(a + [0], c);
    CountUsedSplit(a, [0]);
    var wiped := bs[i := 0];
    CountUsedZero(wiped);
    assert forall j :: 0 <= j < |bs| ==> wiped[j] == if j == i then 0 else bs[j];
  }

  lemma ReclaimDirect(d: Dir, v: Volume, i: nat, e: Slot)
    requires Valid(d, v) && i < DIRECT && View(d, v.disk)[i] != 0 && d.size >= ENTRY_SIZE
    requires LiveOf(v.disk, View(d, v.disk)[i]) == [e]
    ensures var r := Reclaim(d, v, View(d, v.disk), i);
            r.Next? && r.value.0.size == d.size
            && GapMade(d, v, i, e, r.value.0.(size := d.size - ENTRY_SIZE), r.value.1)
  {
    BlockOk(d, v, i);
    var (d1, v1) := Reclaim(d, v, View(d, v.disk), i).value;
    var d' := d1.(size := d.size - ENTRY_SIZE);
    DirectView(d, v.disk, v1.disk, i, 0);
    assert View(d', v1.disk) == View(d1, v1.disk);
    assert Index(d', v1.disk) == Index(d, v.disk);
  }

  lemma ShareStays(d: Dir, disk: map<Blk, Sector>, disk': map<Blk, Sector>, i: nat)
    requires Shaped(d, disk) && Shaped(d, disk') && DIRECT <= i < MAX_BLOCKS
    requires View(d, disk)[i] != 0 && CountUsed(View(d, disk)[DIRECT..]) > 1
    requires View(d, disk') == View(d, disk)[i := 0]
    ensures exists x :: x in Index(d, disk') && x != 0
  {
    var ix := View(d, disk)[DIRECT..];
    assert ix[i - DIRECT] == View(d, disk)[i];
    LastIndirect(ix, i - DIRECT);
    var j :| 0 <= j < |ix| && j != i - DIRECT && ix[j] != 0;
    ViewMember(d, disk', j + DIRECT);
    assert Index(d, disk')[j] == ix[j];
    assert ix[j] in Index(d, disk');
  }

  lemma ReclaimIndirectShare(d: Dir, v: Volume, i: nat, e: Slot)
    requires Valid(d, v) && DIRECT <= i < MAX_BLOCKS && View(d, v.disk)[i] != 0 && d.size >= ENTRY_SIZE
    requires LiveOf(v.disk, View(d, v.disk)[i]) == [e]
    requires CountUsed(View(d, v.disk)[DIRECT..]) > 1
    ensures var r := Reclaim(d, v, View(d, v.disk), i);
            r.Next? && r.value.0.size == d.size
            && GapMade(d, v, i, e, r.value.0.(size := d.size - ENTRY_SIZE), r.value.1)
  {
    BlockOk(d, v, i);
    ViewMember(d, v.disk, i);
    assert d.table != 0;
    var (d1, v1) := Reclaim(d, v, View(d, v.disk), i).value;
    IndirectView(d, v.disk, v1.disk, i, 0);
    ShareStays(d, v.disk, v1.disk, i);
    var d' := d1.(size := d.size - ENTRY_SIZE);
    assert View(d', v1.disk) == View(d, v1.disk) && Index(d', v1.disk) == Index(d, v1.disk);
  }

  lemma LastIndirectView(d: Dir, disk: map<Blk, Sector>, i: nat)
    requires Shaped(d, disk) && DIRECT <= i < MAX_BLOCKS && View(d, disk)[i] != 0
    requires CountUsed(View(d, disk)[DIRECT..]) <= 1
    ensures View(d.(table := 0), disk) == View(d, disk)[i := 0]
  {
    var ix := Index(d, disk);
    assert View(d, disk)[DIRECT..] == ix;
    LastIndirect(ix, i - DIRECT);
    assert ix[i - DIRECT := 0] == Zeros(MAX_BLOCKS - DIRECT);
    assert (d.direct + ix)[i := 0] == d.direct + ix[i - DIRECT := 0];
  }

  lemma ReclaimIndirectLast(d: Dir, v: Volume, i: nat, e: Slot)
    requires Valid(d, v) && DIRECT <= i < MAX_BLOCKS && View(d, v.disk)[i] != 0 && d.size >= ENTRY_SIZE
    requires LiveOf(v.disk, View(d, v.disk)[i]) == [e]
    requires CountUsed(View(d, v.disk)[DIRECT..]) <= 1
    ensures var r := Reclaim(d, v, View(d, v.disk), i);
            r.Next? && r.value.0.size == d.size
            && GapMade(d, v, i, e, r.value.0.(size := d.size - ENTRY_SIZE), r.value.1)
  {
    BlockOk(d, v, i);
    ViewMember(d, v.disk, i);
    assert d.table != 0;
    LastIndirectView(d, v.disk, i);
    var (d1, v1) := Reclaim(d, v, View(d, v.disk), i).value;
    var d' := d1.(size := d.size - ENTRY_SIZE);
    assert View(d', v1.disk) == View(d.(table := 0), v1.disk);
  }

  lemma ReclaimMakesGap(d: Dir, v: Volume, i: nat, e: Slot)
    requires Valid(d, v) && i < MAX_BLOCKS && View(d, v.disk)[i] != 0 && d.size >= ENTRY_SIZE
    requires LiveOf(v.disk, View(d, v.disk)[i]) == [e]
    ensures var r := Reclaim(d, v, View(d, v.disk), i);
            r.Next? && r.value.0.size == d.size
            && GapMade(d, v, i, e, r.value.0.(size := d.size - ENTRY_SIZE), r.value.1)
  {
    if i < DIRECT {
      ReclaimDirect(d, v, i, e);
    } else if CountUsed(View(d, v.disk)[DIRECT..]) > 1 {
      ReclaimIndirectShare(d, v, i, e);
    } else {
      ReclaimIndirectLast(d, v, i, e);
    }
  }

  // ---------------------------------------------------------------- the whole deletion

  lemma {:induction false} PlainBound(es: seq<Slot>)
    ensures CountPlain(es) <= |LiveSlots(es)|
    ensures CountPlain(es) == |LiveSlots(es)| <==> forall k :: 0 <= k < |es| && es[k] != Empty ==> Plain(es[k])
  {
    if es != [] {
      PlainBound(es[1..]);
      assert forall k :: 1 <= k < |es| ==> es[k] == es[1..][k - 1];
    }
  }

  lemma {:induction false} NamedIsPlain(es: seq<Slot>, k: nat)
    requires k < |es| && Plain(es[k])
    ensures CountPlain(es) >= 1
  {
    if k > 0 {
      NamedIsPlain(es[1..], k - 1);
    }
  }

  /** When the sector must not be reclaimed, something else lives in it. */
  lemma KeepsOthers(es: seq<Slot>, k: nat)
    requires k < |es| && Plain(es[k]) && (CountPlain(es) != 1 || HasDot(es))
    ensures LiveSlots(es[k := Empty]) != []
  {
    NamedIsPlain(es, k);
    PlainBound(es);
    ClearSlotLive(es, k);
    var rest := es[k := Empty];
    assert |LiveSlots(es)| == |multiset(LiveSlots(es))| == |LiveSlots(rest)| + 1;
    if HasDot(es) {
      var j :| 0 <= j < |es| && es[j].Entry? && es[j].name == ".";
      assert rest[j] == es[j] && rest[j] in rest;
      LiveSlotsMember(rest, es[j]);
    }
  }

  /** When the sector is reclaimed, the entry was alone in it. */
  lemma AloneInSector(es: seq<Slot>, k: nat)
    requires k < |es| && Plain(es[k]) && CountPlain(es) == 1
    requires forall e :: e in LiveSlots(es) ==> Plain(e)
    ensures LiveSlots(es) == [es[k]]
  {
    AllPlainCount(es);
    LiveSlotsMember(es, es[k]);
    OnlyMember(LiveSlots(es), es[k]);
  }

  lemma OnlyMember(s: seq<Slot>, e: Slot)
    requires |s| == 1 && e in s
    ensures s == [e]
  {
  }

  lemma DotInside(es: seq<Slot>, e: Slot)
    requires e in LiveSlots(es) && e.Entry? && e.name == "."
    ensures HasDot(es)
  {
    LiveSlotsMember(es, e);
    var k :| 0 <= k < |es| && es[k] == e;
  }

  lemma FirstSectorHasDot(d: Dir, v: Volume, i: nat)
    requires Valid(d, v) && DotsFirst(d, v) && i < MAX_BLOCKS && View(d, v.disk)[i] != 0
    requires !HasDot(SlotsOf(v, View(d, v.disk)[i]))
    ensures i > 0 && forall e :: e in LiveSlots(SlotsOf(v, View(d, v.disk)[i])) ==> Plain(e)
  {
    ViewMember(d, v.disk, i);
    LiveOfIsSlots(v, View(d, v.disk)[i]);
    if i == 0 {
      var e :| e in LiveOf(v.disk, d.direct[0]) && e.Entry? && e.name == ".";
      DotInside(SlotsOf(v, d.direct[0]), e);
    }
  }

  lemma DeleteFound(d: Dir, v: Volume, ino: nat, i: nat) returns (e: Slot)
    requires Valid(d, v) && DotsFirst(d, v) && CountNames(Live(d, v), ino) <= 1
    requires i == FoundAt(v, View(d, v.disk), ino, 0) && i < MAX_BLOCKS
    ensures Names(e, ino) && e in Live(d, v)
    ensures Delete(d, v, ino).Next? && Delete(d, v, ino).value.found
    ensures Deleted(d, v, e, Delete(d, v, ino).value.d, Delete(d, v, ino).value.v)
  {
    FoundIffNamed(d, v, ino);
    var blocks := View(d, v.disk);
    var k := FirstNamed(SlotsOf(v, blocks[i]), ino);
    e := SlotsOf(v, blocks[i])[k];
    EntryIsLive(d, v, i, k);
    DeleteAtRefines(d, v, i, k);
  }

  lemma DeleteAtReclaims(d: Dir, v: Volume, i: nat, k: nat)
    requires Valid(d, v) && DotsFirst(d, v) && i < MAX_BLOCKS && View(d, v.disk)[i] != 0
    requires k < |SlotsOf(v, View(d, v.disk)[i])| && Plain(SlotsOf(v, View(d, v.disk)[i])[k])
    requires CountPlain(SlotsOf(v, View(d, v.disk)[i])) == 1 && !HasDot(SlotsOf(v, View(d, v.disk)[i]))
    ensures var r := DeleteAt(d, v, View(d, v.disk), i, k);
            && r.Next? && r.value.found
            && Deleted(d, v, SlotsOf(v, View(d, v.disk)[i])[k], r.value.d, r.value.v)
  {
    SizeCoversEntry(d, v, i);
    ReclaimDeletes(d, v, i, k);
  }

  lemma DeleteAtClears(d: Dir, v: Volume, i: nat, k: nat)
    requires Valid(d, v) && i < MAX_BLOCKS && View(d, v.disk)[i] != 0
    requires k < |SlotsOf(v, View(d, v.disk)[i])| && Plain(SlotsOf(v, View(d, v.disk)[i])[k])
    requires !(CountPlain(SlotsOf(v, View(d, v.disk)[i])) == 1 && !HasDot(SlotsOf(v, View(d, v.disk)[i])))
    ensures var r := DeleteAt(d, v, View(d, v.disk), i, k);
            && r.Next? && r.value.found
            && Deleted(d, v, SlotsOf(v, View(d, v.disk)[i])[k], r.value.d, r.value.v)
  {
    SizeCoversEntry(d, v, i);
    KeepsOthers(SlotsOf(v, View(d, v.disk)[i]), k);
    DeleteFromSlot(d, v, i, k);
  }

  lemma DeleteAtRefines(d: Dir, v: Volume, i: nat, k: nat)
    requires Valid(d, v) && DotsFirst(d, v) && i < MAX_BLOCKS && View(d, v.disk)[i] != 0
    requires k < |SlotsOf(v, View(d, v.disk)[i])| && Plain(SlotsOf(v, View(d, v.disk)[i])[k])
    ensures var r := DeleteAt(d, v, View(d, v.disk), i, k);
            && r.Next? && r.value.found
            && Deleted(d, v, SlotsOf(v, View(d, v.disk)[i])[k], r.value.d, r.value.v)
  {
    var es := SlotsOf(v, View(d, v.disk)[i]);
    if CountPlain(es) == 1 && !HasDot(es) {
      DeleteAtReclaims(d, v, i, k);
    } else {
      DeleteAtClears(d, v, i, k);
    }
  }

  /** The entry was alone in its sector. */
  lemma ReclaimDeletes(d: Dir, v: Volume, i: nat, k: nat)
    requires Valid(d, v) && DotsFirst(d, v) && i < MAX_BLOCKS && View(d, v.disk)[i] != 0 && d.size >= ENTRY_SIZE
    requires var es := SlotsOf(v, View(d, v.disk)[i]);
             k < |es| && Plain(es[k]) && CountPlain(es) == 1 && !HasDot(es)
    ensures var r := Reclaim(d, v, View(d, v.disk), i);
            && r.Next? && r.value.0.size == d.size
            && Deleted(d, v, SlotsOf(v, View(d, v.disk)[i])[k], r.value.0.(size := d.size - ENTRY_SIZE), r.value.1)
  {
    var blocks := View(d, v.disk);
    var es := SlotsOf(v, blocks[i]);
    FirstSectorHasDot(d, v, i);
    AloneInSector(es, k);
    LiveOfIsSlots(v, blocks[i]);
    ReclaimMakesGap(d, v, i, es[k]);
    var (d1, v1) := Reclaim(d, v, blocks, i).value;
    GapMadeDeletes(d, v, i, es[k], d1.(size := d.size - ENTRY_SIZE), v1);
  }

  /** delete_dir_entry removes the one entry for `ino`, wherever it is, and nothing else; when there
      is none it reports failure and changes nothing. */
  lemma DeleteRefines(d: Dir, v: Volume, ino: nat) returns (e: Slot)
    requires Valid(d, v) && DotsFirst(d, v) && CountNames(Live(d, v), ino) <= 1
    ensures var r := Delete(d, v, ino);
            && r.Next?
            && (r.value.found <==> CountNames(Live(d, v), ino) == 1)
            && (!r.value.found ==> r.value == Deletion(false, d, v))
            && (r.value.found ==> Names(e, ino) && e in Live(d, v) && Deleted(d, v, e, r.value.d, r.value.v))
  {
    FoundIffNamed(d, v, ino);
    var i := FoundAt(v, View(d, v.disk), ino, 0);
    if i < MAX_BLOCKS {
      e := DeleteFound(d, v, ino, i);
    } else {
      e := Empty;
    }
  }

  lemma EntryIsLive(d: Dir, v: Volume, i: nat, k: nat)
    requires Valid(d, v) && i < MAX_BLOCKS && k < |SlotsOf(v, View(d, v.disk)[i])|
    requires SlotsOf(v, View(d, v.disk)[i])[k] != Empty
    ensures SlotsOf(v, View(d, v.disk)[i])[k] in Live(d, v)
  {
    var es := SlotsOf(v, View(d, v.disk)[i]);
    LiveSlotsMember(es, es[k]);
    LiveOfIsSlots(v, View(d, v.disk)[i]);
    LiveAllSplit(v.disk, View(d, v.disk), i);
  }

  // ---------------------------------------------------------------- "." and ".." stay in the first sector

  lemma SlotClearedDots(d: Dir, v: Volume, i: nat, k: nat, d': Dir)
    requires Valid(d, v) && DotsFirst(d, v) && i < MAX_BLOCKS && View(d, v.disk)[i] != 0
    requires k < |SlotsOf(v, View(d, v.disk)[i])| && Plain(SlotsOf(v, View(d, v.disk)[i])[k])
    requires d' == d.(size := d'.size) && Valid(d', SlotCleared(v, View(d, v.disk)[i], k))
    ensures DotsFirst(d', SlotCleared(v, View(d, v.disk)[i], k))
  {
    var blocks := View(d, v.disk);
    var b := blocks[i];
    var v' := SlotCleared(v, b, k);
    SlotClearedLive(d, v, i, k);
    assert View(d', v'.disk) == View(d, v'.disk) == blocks;
    SlotClearedHere(v, b, k);
    forall j | 0 <= j < MAX_BLOCKS && j != i ensures LiveOf(v'.disk, blocks[j]) == LiveOf(v.disk, blocks[j]) {
      SlotClearedElsewhere(v, b, k, blocks[j]);
    }
    MoreMembers(LiveOf(v'.disk, b), LiveOf(v.disk, b), SlotsOf(v, b)[k]);
    DotsFrame(d, v, d', v', i);
  }

  lemma GapMadeDots(d: Dir, v: Volume, i: nat, e: Slot, d': Dir, v': Volume)
    requires Valid(d, v) && DotsFirst(d, v) && GapMade(d, v, i, e, d', v') && i > 0 && Valid(d', v')
    ensures DotsFirst(d', v')
  {
    var blocks := View(d, v.disk);
    ViewMember(d, v.disk, 0);
    ViewMember(d', v'.disk, 0);
    forall j | 0 <= j < MAX_BLOCKS && j != i
      ensures LiveOf(v'.disk, View(d', v'.disk)[j]) == LiveOf(v.disk, blocks[j])
    {
      if blocks[j] != 0 {
        BlockOk(d, v, j);
      }
    }
    DotsFrame(d, v, d', v', i);
  }

  lemma DeleteKeepsDots(d: Dir, v: Volume, ino: nat)
    requires Valid(d, v) && DotsFirst(d, v) && CountNames(Live(d, v), ino) == 1
    requires Delete(d, v, ino).Next? && Delete(d, v, ino).value.found
    requires Valid(Delete(d, v, ino).value.d, Delete(d, v, ino).value.v)
    ensures DotsFirst(Delete(d, v, ino).value.d, Delete(d, v, ino).value.v)
  {
    var blocks := View(d, v.disk);
    var i := FoundAt(v, blocks, ino, 0);
    var es := SlotsOf(v, blocks[i]);
    var k := FirstNamed(es, ino);
    var r := Delete(d, v, ino).value;
    SizeCoversEntry(d, v, i);
    if CountPlain(es) == 1 && !HasDot(es) {
      FirstSectorHasDot(d, v, i);
      AloneInSector(es, k);
      LiveOfIsSlots(v, blocks[i]);
      ReclaimMakesGap(d, v, i, es[k]);
      GapMadeDots(d, v, i, es[k], r.d, r.v);
    } else {
      SlotClearedDots(d, v, i, k, r.d);
    }
  }
}
