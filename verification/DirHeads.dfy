/** Slots 0 and 1 of a directory's first sector: get_parent_dir_inode_nr (fs/fs.c) reads ".." there. */
module DirHeads {
  import opened Directory
  import opened DirInsert
  import opened DirDelete

  function Dot(n: nat): Slot {
    Entry(".", n, true)
  }

  function DotDot(up: nat): Slot {
    Entry("..", up, true)
  }

  ghost predicate HeadSlots(es: seq<Slot>, n: nat, up: nat) {
    |es| >= 2 && es[0] == Dot(n) && es[1] == DotDot(up)
  }

  /** The first sector starts with "." for inode n and ".." for inode up. */
  ghost predicate Heads(d: Dir, v: Volume, n: nat, up: nat) {
    |d.direct| == DIRECT && d.direct[0] != 0 && HeadSlots(SlotsOf(v, d.direct[0]), n, up)
  }

  lemma FirstIsView(d: Dir, v: Volume)
    requires Valid(d, v) && d.direct[0] != 0
    ensures View(d, v.disk)[0] == d.direct[0] && v.Used(d.direct[0]) && d.direct[0] != d.table
    ensures d.direct[0] in v.disk
    ensures forall i :: 1 <= i < MAX_BLOCKS ==> View(d, v.disk)[i] != d.direct[0]
  {
    ViewMember(d, v.disk, 0);
    BlockOk(d, v, 0);
  }

  lemma SlotFilledHeads(v: Volume, b: Blk, e: Slot, first: Blk, n: nat, up: nat)
    requires HasRoom(v, b) && HeadSlots(SlotsOf(v, first), n, up)
    ensures HeadSlots(SlotsOf(SlotFilled(v, b, e), first), n, up)
  {
    if b == first {
      assert FirstEmpty(v.disk[b].es) >= 2;
    }
  }

  lemma FillGapHeads(d: Dir, v: Volume, blocks: seq<Blk>, i: nat, e: Slot, n: nat, up: nat)
    requires Valid(d, v) && Heads(d, v, n, up) && |blocks| == MAX_BLOCKS && 0 < i < MAX_BLOCKS
    requires FillGap(d, v, blocks, i, e).ok
    ensures var r := FillGap(d, v, blocks, i, e);
            |r.d.direct| == DIRECT && r.d.direct[0] == d.direct[0] && Heads(r.d, r.v, n, up)
  {
    FirstIsView(d, v);
    AllocIsFresh(v);
    if i == DIRECT {
      AllocIsFresh(Alloc(v).value.0);
    }
  }

  lemma InsertKeepsHeads(d: Dir, v: Volume, e: Slot, n: nat, up: nat)
    requires Valid(d, v) && Heads(d, v, n, up) && Insert(d, v, e, false).ok
    ensures var r := Insert(d, v, e, false);
            |r.d.direct| == DIRECT && r.d.direct[0] == d.direct[0] && Heads(r.d, r.v, n, up)
  {
    var i := StopAt(v, View(d, v.disk), 0);
    FirstIsView(d, v);
    if View(d, v.disk)[i] != 0 {
      SlotFilledHeads(v, View(d, v.disk)[i], e, d.direct[0], n, up);
    } else {
      FillGapHeads(d, v, View(d, v.disk), i, e, n, up);
    }
  }

  lemma HeadHasDot(es: seq<Slot>, n: nat, up: nat)
    requires HeadSlots(es, n, up)
    ensures HasDot(es)
  {
    assert es[0].name == ".";
  }

  lemma ReclaimHeads(d: Dir, v: Volume, i: nat, n: nat, up: nat)
    requires Valid(d, v) && Heads(d, v, n, up) && 0 < i < MAX_BLOCKS && Reclaim(d, v, View(d, v.disk), i).Next?
    ensures var (d1, v1) := Reclaim(d, v, View(d, v.disk), i).value;
            |d1.direct| == DIRECT && d1.direct[0] == d.direct[0] && Heads(d1, v1, n, up)
  {
    FirstIsView(d, v);
  }

  lemma SlotClearedHeads(v: Volume, b: Blk, k: nat, first: Blk, n: nat, up: nat)
    requires k < |SlotsOf(v, b)| && Plain(SlotsOf(v, b)[k]) && HeadSlots(SlotsOf(v, first), n, up)
    ensures HeadSlots(SlotsOf(SlotCleared(v, b, k), first), n, up)
  {
    if b == first {
      assert k >= 2;
    }
  }

  lemma DeleteAtKeepsHeads(d: Dir, v: Volume, i: nat, k: nat, n: nat, up: nat)
    requires Valid(d, v) && Heads(d, v, n, up) && i < MAX_BLOCKS && k < |SlotsOf(v, View(d, v.disk)[i])|
    requires Plain(SlotsOf(v, View(d, v.disk)[i])[k]) && DeleteAt(d, v, View(d, v.disk), i, k).Next?
    ensures var r := DeleteAt(d, v, View(d, v.disk), i, k).value;
            |r.d.direct| == DIRECT && r.d.direct[0] == d.direct[0] && Heads(r.d, r.v, n, up)
  {
    var es := SlotsOf(v, View(d, v.disk)[i]);
    FirstIsView(d, v);
    if CountPlain(es) == 1 && !HasDot(es) {
      if i == 0 {
        HeadHasDot(es, n, up);
      } else {
        ReclaimHeads(d, v, i, n, up);
      }
    } else {
      SlotClearedHeads(v, View(d, v.disk)[i], k, d.direct[0], n, up);
    }
  }

  lemma DeleteKeepsHeads(d: Dir, v: Volume, ino: nat, n: nat, up: nat)
    requires Valid(d, v) && Heads(d, v, n, up) && Delete(d, v, ino).Next?
    ensures var r := Delete(d, v, ino).value;
            |r.d.direct| == DIRECT && r.d.direct[0] == d.direct[0] && Heads(r.d, r.v, n, up)
  {
    var i := FoundAt(v, View(d, v.disk), ino, 0);
    if i < MAX_BLOCKS {
      DeleteAtKeepsHeads(d, v, i, FirstNamed(SlotsOf(v, View(d, v.disk)[i]), ino), n, up);
    }
  }
}
