/** The blocks of a regular file: the growth part of file_write (fs/file.c) and inode_release (fs/inode.c). */
module FileGrowth {
  import opened Outcomes
  import opened Directory
  import opened DirInsert

  const BLOCK := 512

  // ---------------------------------------------------------------- files and their blocks

  /** An inode whose sectors are all allocated and referred to once; sector `base` belongs to the root. */
  ghost predicate Owned(d: Dir, v: Volume) {
    && v.base > 0
    && Shaped(d, v.disk)
    && Separate(View(d, v.disk), d.table)
    && (forall b :: b in Blocks(d, v.disk) ==> v.Used(b) && b != v.base)
  }

  /** Exactly the first n of the 140 block addresses are set. */
  ghost predicate Prefix(d: Dir, disk: map<Blk, Sector>, n: nat) {
    forall k :: 0 <= k < |View(d, disk)| ==> (View(d, disk)[k] != 0 <==> k < n)
  }

  /** How many data blocks a file that was written to has. */
  function BlocksFor(size: nat): nat {
    size / BLOCK + 1
  }

  /** Blocks are exactly i_size/512+1 once the file was written to, with an index table iff more than 12. */
  ghost predicate FileInv(d: Dir, v: Volume) {
    && Owned(d, v)
    && (d.direct[0] == 0 ==> d.size == 0)
    && var n := if d.direct[0] == 0 then 0 else BlocksFor(d.size);
    && n <= MAX_BLOCKS && Prefix(d, v.disk, n)
    && (d.table != 0 <==> n > DIRECT)
  }

  lemma EmptyFile(v: Volume)
    requires v.base > 0
    ensures FileInv(Dir(Zeros(DIRECT), 0, 0), v) && Blocks(Dir(Zeros(DIRECT), 0, 0), v.disk) == {}
  {
  }

  // ---------------------------------------------------------------- file_write, lines 305-472

  datatype Growth = Growth(ok: bool, d: Dir, v: Volume)

  datatype Filling = Filling(ok: bool, all: seq<Blk>, v: Volume)

  /** The allocation loops: blocks i..will get a fresh sector each.  The first twelve of `all` are the
      inode's own addresses, asserted to be unset. */
  function Fill(all: seq<Blk>, v: Volume, i: nat, will: nat): Outcome<Filling>
    requires will <= |all|
    decreases will - i
  {
    if i >= will then Next(Filling(true, all, v))
    else
      match Alloc(v)
      case None => Next(Filling(false, all, v))
      case Some((v1, b)) =>
        if i < DIRECT && all[i] != 0 then Halted
        else Fill(all[i := b], v1, i + 1, will)
  }

  function Stored(d: Dir, f: Filling, table: Blk): Growth
    requires |f.all| == MAX_BLOCKS
  {
    var d' := d.(direct := f.all[..DIRECT], table := table);
    Growth(f.ok, d', if f.ok && table != 0 then f.v.Put(table, Pointers(f.all[DIRECT..])) else f.v)
  }

  /** The file has `used` data blocks and is to have `will`. */
  function Extend(d: Dir, v: Volume, used: nat, will: nat): Outcome<Growth>
    requires Shaped(d, v.disk) && 1 <= used <= will <= MAX_BLOCKS
  {
    if will == used then
      if will > DIRECT && d.table == 0 then Halted else Next(Growth(true, d, v))
    else if will <= DIRECT then
      if d.direct[used - 1] == 0 then Halted
      else
        FillLength(d.direct + Zeros(MAX_BLOCKS - DIRECT), v, used, will);
        var f :- Fill(d.direct + Zeros(MAX_BLOCKS - DIRECT), v, used, will);
        Next(Growth(f.ok, d.(direct := f.all[..DIRECT]), f.v))
    else if used <= DIRECT then
      match Alloc(v)
      case None => Next(Growth(false, d, v))
      case Some((v1, t)) =>
        if d.table != 0 then Halted
        else
          FillLength(d.direct + Zeros(MAX_BLOCKS - DIRECT), v1, used, will);
          var f :- Fill(d.direct + Zeros(MAX_BLOCKS - DIRECT), v1, used, will);
          Next(Stored(d, f, t))
    else if d.table == 0 then Halted
    else
      FillLength(View(d, v.disk), v, used, will);
      var f :- Fill(View(d, v.disk), v, used, will);
      Next(Stored(d, f, d.table))
  }

  lemma {:induction false} FillLength(all: seq<Blk>, v: Volume, i: nat, will: nat)
    requires will <= |all|
    ensures Fill(all, v, i, will).Next? ==> |Fill(all, v, i, will).value.all| == |all|
    decreases will - i
  {
    if i < will && Alloc(v).Some? && !(i < DIRECT && all[i] != 0) {
      FillLength(all[i := Alloc(v).value.1], Alloc(v).value.0, i + 1, will);
    }
  }

  /** The guard at line 270, the first block, and the rest.  i_size is set by the write loop. */
  function Grow(d: Dir, v: Volume, count: nat): Outcome<Growth>
    requires Shaped(d, v.disk)
  {
    if d.size + count > BLOCK * MAX_BLOCKS then Next(Growth(false, d, v))
    else
      match if d.direct[0] == 0 then Alloc(v) else Some((v, d.direct[0]))
      case None => Next(Growth(false, d, v))
      case Some((v1, b)) =>
        var d1 := d.(direct := d.direct[0 := b]);
        if BlocksFor(d.size + count) > MAX_BLOCKS then Halted
        else Extend(d1, v1, BlocksFor(d.size), BlocksFor(d.size + count))
  }

  // ---------------------------------------------------------------- the allocation loop

  /** v' is v with the sectors `got` allocated; they were free, are distinct, and no sector is written. */
  ghost predicate Took(v: Volume, v': Volume, got: seq<Blk>) {
    && v'.base == v.base && |v'.bits| == |v.bits| && v'.disk == v.disk
    && (forall j :: 0 <= j < |got| ==> got[j] != 0 && !v.Used(got[j]))
    && (forall j, k :: 0 <= j < k < |got| ==> got[j] != got[k])
    && (forall x :: v'.Used(x) <==> v.Used(x) || x in got)
  }

  lemma TookOne(v: Volume)
    requires v.base > 0 && Alloc(v).Some?
    ensures Took(v, Alloc(v).value.0, [Alloc(v).value.1])
  {
    AllocIsFresh(v);
  }

  lemma TookMore(v: Volume, v1: Volume, v2: Volume, a: seq<Blk>, b: seq<Blk>)
    requires Took(v, v1, a) && Took(v1, v2, b)
    ensures Took(v, v2, a + b)
  {
    var c := a + b;
    forall j, k | 0 <= j < k < |c| ensures c[j] != c[k] {
      if j < |a| <= k {
        assert v1.Used(c[j]);
      }
    }
  }

  /** A finished loop put fresh sectors at i..will and left every other address alone. */
  lemma {:induction false} FillTakes(all: seq<Blk>, v: Volume, i: nat, will: nat) returns (got: seq<Blk>)
    requires v.base > 0 && i <= will <= |all|
    requires Fill(all, v, i, will).Next? && Fill(all, v, i, will).value.ok
    ensures var f := Fill(all, v, i, will).value;
            |got| == will - i && Took(v, f.v, got) && f.all == all[..i] + got + all[will..]
    decreases will - i
  {
    got := [];
    if i < will {
      TookOne(v);
      var (v1, b) := Alloc(v).value;
      var rest := FillTakes(all[i := b], v1, i + 1, will);
      got := [b] + rest;
      TookMore(v, v1, Fill(all, v, i, will).value.v, [b], rest);
      assert all[i := b][..i + 1] == all[..i] + [b] && all[i := b][will..] == all[will..];
      assert all[..i] + [b] + rest + all[will..] == all[..i] + got + all[will..];
    } else {
      assert all == all[..i] + got + all[will..];
    }
  }

  lemma {:induction false} FillRuns(all: seq<Blk>, v: Volume, i: nat, will: nat)
    requires i <= will <= |all| && forall k :: i <= k < will && k < DIRECT ==> all[k] == 0
    ensures Fill(all, v, i, will).Next?
    decreases will - i
  {
    if i < will && Alloc(v).Some? {
      FillRuns(all[i := Alloc(v).value.1], Alloc(v).value.0, i + 1, will);
    }
  }

  // ---------------------------------------------------------------- growing keeps the invariant

  /** `more` are the sectors the file gained; nobody else's sectors changed. */
  ghost predicate Grew(d: Dir, v: Volume, d': Dir, v': Volume) {
    var more := Blocks(d', v'.disk) - Blocks(d, v.disk);
    && Blocks(d, v.disk) <= Blocks(d', v'.disk)
    && v'.base == v.base && |v'.bits| == |v.bits|
    && (forall b :: b in more ==> !v.Used(b))
    && (forall b :: v'.Used(b) <==> v.Used(b) || b in more)
    && (forall b :: b in v.disk && (b == 0 || b != d'.table) ==> b in v'.disk && v'.disk[b] == v.disk[b])
  }

  /** The common form of the growth situations: sectors `got` appended to the prefix of `used`, and
      the table the same, or new and in `fresh_`. */
  ghost predicate Appended(d: Dir, v: Volume, used: nat, got: seq<Blk>, newTable: seq<Blk>, d': Dir, v': Volume)
    requires Shaped(d, v.disk)
  {
    && used + |got| <= MAX_BLOCKS
    && Shaped(d', v'.disk)
    && View(d', v'.disk) == View(d, v.disk)[..used] + got + View(d, v.disk)[used + |got|..]
    && Took(v, v'.(disk := v.disk), newTable + got)
    && d'.table == (if newTable == [] then d.table else newTable[0]) && |newTable| <= 1
    && (newTable != [] ==> d.table == 0)
    && (forall b :: b in v.disk && (b == 0 || b != d'.table) ==> b in v'.disk && v'.disk[b] == v.disk[b])
  }

  lemma InBlocks(d: Dir, disk: map<Blk, Sector>, k: nat)
    requires Shaped(d, disk) && k < MAX_BLOCKS && View(d, disk)[k] != 0
    ensures View(d, disk)[k] in Blocks(d, disk)
  {
  }

  lemma SpliceMembers(all: seq<Blk>, used: nat, got: seq<Blk>, x: Blk)
    requires used + |got| <= |all| && x != 0 && forall k :: used <= k < |all| ==> all[k] == 0
    ensures x in all[..used] + got + all[used + |got|..] <==> x in all || x in got
  {
    assert all == all[..used] + all[used..];
    assert x in all <==> x in all[..used] || x in all[used..];
  }

  lemma AppendedBlocks(d: Dir, v: Volume, used: nat, got: seq<Blk>, newTable: seq<Blk>, d': Dir, v': Volume)
    requires Shaped(d, v.disk) && used <= MAX_BLOCKS && Prefix(d, v.disk, used)
    requires Appended(d, v, used, got, newTable, d', v')
    ensures forall x :: x in Blocks(d', v'.disk) <==> x in Blocks(d, v.disk) || x in newTable + got
  {
    forall x ensures x in Blocks(d', v'.disk) <==> x in Blocks(d, v.disk) || x in newTable + got {
      if x != 0 {
        SpliceMembers(View(d, v.disk), used, got, x);
      }
      assert x in newTable + got <==> x in newTable || x in got;
    }
  }

  lemma AppendedSeparate(d: Dir, v: Volume, used: nat, got: seq<Blk>, newTable: seq<Blk>, d': Dir, v': Volume)
    requires Owned(d, v) && used <= MAX_BLOCKS && Prefix(d, v.disk, used)
    requires Appended(d, v, used, got, newTable, d', v')
    ensures Separate(View(d', v'.disk), d'.table)
  {
    forall k | 0 <= k < used ensures v.Used(View(d, v.disk)[k]) {
      InBlocks(d, v.disk, k);
    }
    SplicedSeparate(View(d, v.disk), v, used, newTable, got, d'.table);
    assert d'.table != 0 ==> d'.table in newTable || (v.Used(d'.table) && d'.table !in View(d, v.disk));
    AppendedTable(View(d, v.disk), v, used, newTable, got, d'.table);
  }

  /** The sectors taken and the sectors there before are all different. */
  lemma SplicedSeparate(all: seq<Blk>, v: Volume, used: nat, newTable: seq<Blk>, got: seq<Blk>, table: Blk)
    requires used + |got| <= |all| && forall k :: 0 <= k < used ==> v.Used(all[k]) && all[k] != 0
    requires forall k :: used <= k < |all| ==> all[k] == 0
    requires forall i, j :: 0 <= i < j < |all| && all[i] != 0 ==> all[i] != all[j]
    requires forall j :: 0 <= j < |newTable + got| ==> !v.Used((newTable + got)[j])
    requires forall j, k :: 0 <= j < k < |newTable + got| ==> (newTable + got)[j] != (newTable + got)[k]
    ensures var all' := all[..used] + got + all[used + |got|..];
            forall i, j :: 0 <= i < j < |all'| && all'[i] != 0 ==> all'[i] != all'[j]
  {
    var taken := newTable + got;
    assert forall j :: 0 <= j < |got| ==> got[j] == taken[|newTable| + j];
  }

  lemma AppendedTable(all: seq<Blk>, v: Volume, used: nat, newTable: seq<Blk>, got: seq<Blk>, table: Blk)
    requires used + |got| <= |all| && |newTable| <= 1
    requires forall k :: 0 <= k < used ==> v.Used(all[k])
    requires forall k :: used <= k < |all| ==> all[k] == 0
    requires forall j :: 0 <= j < |newTable + got| ==> !v.Used((newTable + got)[j])
    requires forall j, k :: 0 <= j < k < |newTable + got| ==> (newTable + got)[j] != (newTable + got)[k]
    requires table != 0 ==> table in newTable || (v.Used(table) && table !in all)
    ensures var all' := all[..used] + got + all[used + |got|..];
            forall i :: 0 <= i < |all'| && all'[i] != 0 ==> all'[i] != table
  {
    var taken := newTable + got;
    assert forall j :: 0 <= j < |got| ==> got[j] == taken[|newTable| + j];
    assert forall j :: 0 <= j < |newTable| ==> newTable[j] == taken[j];
  }

  lemma AppendedGrows(d: Dir, v: Volume, used: nat, got: seq<Blk>, newTable: seq<Blk>, d': Dir, v': Volume)
    requires Owned(d, v) && used <= MAX_BLOCKS && Prefix(d, v.disk, used) && v.Used(v.base)
    requires Appended(d, v, used, got, newTable, d', v')
    ensures Owned(d', v') && Grew(d, v, d', v') && Prefix(d', v'.disk, used + |got|)
  {
    AppendedBlocks(d, v, used, got, newTable, d', v');
    AppendedSeparate(d, v, used, got, newTable, d', v');
    var taken := newTable + got;
    forall x | x in taken ensures x != 0 && !v.Used(x) {
      var j :| 0 <= j < |taken| && taken[j] == x;
    }
    forall k | 0 <= k < |View(d', v'.disk)| ensures View(d', v'.disk)[k] != 0 <==> k < used + |got| {
      if used <= k < used + |got| {
        assert got[k - used] == taken[|newTable| + k - used];
      }
    }
    assert forall x :: v'.Used(x) <==> v'.(disk := v.disk).Used(x);
  }

  /** From `used` data blocks to `will`. */
  lemma ExtendAppends(d: Dir, v: Volume, used: nat, will: nat)
    returns (got: seq<Blk>, newTable: seq<Blk>)
    requires Owned(d, v) && 1 <= used <= will <= MAX_BLOCKS && Prefix(d, v.disk, used)
    requires d.table != 0 <==> used > DIRECT
    ensures var r := Extend(d, v, used, will);
            r.Next? && (r.value.ok ==> |got| == will - used
                                       && Appended(d, v, used, got, newTable, r.value.d, r.value.v)
                                       && (newTable != [] <==> used <= DIRECT < will)
                                       && r.value.d.size == d.size)
  {
    got, newTable := [], [];
    assert |View(d, v.disk)| == MAX_BLOCKS;
    if will == used {
      assert View(d, v.disk) == View(d, v.disk)[..used] + got + View(d, v.disk)[used..];
    } else if will <= DIRECT {
      got := ExtendDirect(d, v, used, will);
    } else if used <= DIRECT {
      got, newTable := ExtendAcross(d, v, used, will);
    } else {
      got := ExtendIndirect(d, v, used, will);
    }
  }

  lemma PrefixZeros(d: Dir, disk: map<Blk, Sector>, used: nat)
    requires Shaped(d, disk) && used <= DIRECT && Prefix(d, disk, used) && d.table == 0
    ensures View(d, disk) == d.direct + Zeros(MAX_BLOCKS - DIRECT)
    ensures forall k :: 0 <= k < DIRECT ==> d.direct[k] == View(d, disk)[k]
  {
  }

  lemma ExtendDirect(d: Dir, v: Volume, used: nat, will: nat) returns (got: seq<Blk>)
    requires Owned(d, v) && 1 <= used < will <= DIRECT && Prefix(d, v.disk, used) && d.table == 0
    ensures var r := Extend(d, v, used, will);
            r.Next? && (r.value.ok ==> |got| == will - used && Appended(d, v, used, got, [], r.value.d, r.value.v)
                                       && r.value.d.size == d.size)
  {
    var all := View(d, v.disk);
    PrefixZeros(d, v.disk, used);
    assert d.direct[used - 1] == all[used - 1];
    FillRuns(all, v, used, will);
    got := [];
    var f := Fill(all, v, used, will).value;
    if f.ok {
      got := FillTakes(all, v, used, will);
      assert [] + got == got;
      assert f.all[DIRECT..] == Zeros(MAX_BLOCKS - DIRECT);
      assert f.all == f.all[..DIRECT] + f.all[DIRECT..];
    }
  }

  lemma StoredView(d: Dir, f: Filling, table: Blk)
    requires |f.all| == MAX_BLOCKS && f.ok && table != 0
    ensures var r := Stored(d, f, table);
            Shaped(r.d, r.v.disk) && View(r.d, r.v.disk) == f.all && r.d.table == table && r.d.size == d.size
  {
    assert f.all == f.all[..DIRECT] + f.all[DIRECT..];
  }

  lemma ExtendAcross(d: Dir, v: Volume, used: nat, will: nat) returns (got: seq<Blk>, newTable: seq<Blk>)
    requires Owned(d, v) && 1 <= used <= DIRECT < will <= MAX_BLOCKS && Prefix(d, v.disk, used) && d.table == 0
    ensures var r := Extend(d, v, used, will);
            r.Next? && (r.value.ok ==> |got| == will - used && Appended(d, v, used, got, newTable, r.value.d, r.value.v)
                                       && newTable != [] && r.value.d.size == d.size)
  {
    got, newTable := [], [];
    var all := View(d, v.disk);
    PrefixZeros(d, v.disk, used);
    if Alloc(v).Some? {
      var (v1, t) := Alloc(v).value;
      TookOne(v);
      FillRuns(all, v1, used, will);
      var f := Fill(all, v1, used, will).value;
      FillLength(all, v1, used, will);
      if f.ok {
        got := FillTakes(all, v1, used, will);
        newTable := [t];
        TookMore(v, v1, f.v, newTable, got);
        StoredView(d, f, t);
      }
    }
  }

  lemma ExtendIndirect(d: Dir, v: Volume, used: nat, will: nat) returns (got: seq<Blk>)
    requires Owned(d, v) && DIRECT < used < will <= MAX_BLOCKS && Prefix(d, v.disk, used) && d.table != 0
    ensures var r := Extend(d, v, used, will);
            r.Next? && (r.value.ok ==> |got| == will - used && Appended(d, v, used, got, [], r.value.d, r.value.v)
                                       && r.value.d.size == d.size)
  {
    got := [];
    var all := View(d, v.disk);
    FillRuns(all, v, used, will);
    FillLength(all, v, used, will);
    var f := Fill(all, v, used, will).value;
    if f.ok {
      got := FillTakes(all, v, used, will);
      assert [] + got == got;
      StoredView(d, f, d.table);
    }
  }

  // ---------------------------------------------------------------- the growth of one file_write

  lemma FirstBlock(d: Dir, v: Volume, v1: Volume, b: Blk)
    requires FileInv(d, v) && d.direct[0] == 0 && v.Used(v.base) && Took(v, v1, [b])
    ensures Appended(d, v, 0, [b], [], d.(direct := d.direct[0 := b]), v1)
  {
    var d1 := d.(direct := d.direct[0 := b]);
    var all := View(d, v.disk);
    DirectView(d, v.disk, v1.disk, 0, b);
    assert all[0 := b] == all[..0] + [b] + all[0 + |[b]|..];
    assert [] + [b] == [b];
  }

  lemma GrewTwice(d: Dir, v: Volume, d1: Dir, v1: Volume, d2: Dir, v2: Volume)
    requires Grew(d, v, d1, v1) && Grew(d1, v1, d2, v2) && v1.disk == v.disk
    ensures Grew(d, v, d2, v2)
  {
    var b1, b2 := Blocks(d1, v1.disk), Blocks(d2, v2.disk);
    var more := b2 - Blocks(d, v.disk);
    forall b | b in more ensures !v.Used(b) {
      if b !in b1 {
        assert b in b2 - b1 && !v1.Used(b);
      } else {
        assert b in b1 - Blocks(d, v.disk);
      }
    }
    forall b ensures v2.Used(b) <==> v.Used(b) || b in more {
      assert v2.Used(b) <==> v1.Used(b) || b in b2 - b1;
      assert v1.Used(b) <==> v.Used(b) || b in b1 - Blocks(d, v.disk);
    }
  }

  /** One file_write of count bytes: it stops the machine exactly when i_size + count is 71680, which
      passes the guard at line 270 and fails the assertion at line 328.  When it succeeds and i_size has
      been moved by `count`, the file again has exactly i_size/512+1 data blocks, all of them its own
      and the new ones fresh, and an index table iff there are more than 12. */
  lemma GrowKeeps(d: Dir, v: Volume, count: nat)
    requires FileInv(d, v) && v.Used(v.base) && (d.direct[0] != 0 || Alloc(v).Some?)
    ensures Grow(d, v, count).Halted? <==> d.size + count == BLOCK * MAX_BLOCKS
    ensures Grow(d, v, count).Next? && Grow(d, v, count).value.ok ==>
              GrewTo(d, v, d.size + count, Grow(d, v, count).value.d, Grow(d, v, count).value.v)
  {
    if d.size + count < BLOCK * MAX_BLOCKS {
      BlocksForBound(d.size, count);
      var d1, v1 := FirstGrown(d, v);
      GrowUnfolds(d, v, count, d1, v1);
      var r := GrowRest(d, v, count, d1, v1);
    }
  }

  /** The file can now hold `size` bytes. */
  ghost predicate GrewTo(d: Dir, v: Volume, size: nat, d': Dir, v': Volume)
  {
    && |d'.direct| == DIRECT && d'.direct[0] != 0 && d'.size == d.size
    && FileInv(d'.(size := size), v')
    && Grew(d, v, d', v') && InPlace(d, v, d', v')
  }

  /** Whatever block was the k-th of the file still is. */
  ghost predicate InPlace(d: Dir, v: Volume, d': Dir, v': Volume) {
    && |View(d, v.disk)| == |View(d', v'.disk)|
    && forall k :: 0 <= k < |View(d, v.disk)| && View(d, v.disk)[k] != 0 ==> View(d', v'.disk)[k] == View(d, v.disk)[k]
  }

  lemma AppendedTableIs(d: Dir, v: Volume, used: nat, got: seq<Blk>, newTable: seq<Blk>, d': Dir, v': Volume)
    requires Shaped(d, v.disk) && Appended(d, v, used, got, newTable, d', v')
    ensures d'.table != 0 <==> d.table != 0 || newTable != []
  {
    assert newTable != [] ==> newTable[0] == (newTable + got)[0];
  }

  lemma AppendedInPlace(d: Dir, v: Volume, used: nat, got: seq<Blk>, newTable: seq<Blk>, d': Dir, v': Volume)
    requires Shaped(d, v.disk) && used <= MAX_BLOCKS && Prefix(d, v.disk, used) && Appended(d, v, used, got, newTable, d', v')
    ensures InPlace(d, v, d', v')
  {
  }

  lemma InPlaceTwice(d: Dir, v: Volume, d1: Dir, v1: Volume, d2: Dir, v2: Volume)
    requires InPlace(d, v, d1, v1) && InPlace(d1, v1, d2, v2)
    ensures InPlace(d, v, d2, v2)
  {
    hide View;
  }

  lemma GrowUnfolds(d: Dir, v: Volume, count: nat, d1: Dir, v1: Volume)
    requires Shaped(d, v.disk) && Shaped(d1, v1.disk) && d.size + count < BLOCK * MAX_BLOCKS
    requires d.direct[0] != 0 ==> v1 == v && d1 == d
    requires d.direct[0] == 0 ==> Alloc(v).Some? && v1 == Alloc(v).value.0
                                  && d1 == d.(direct := d.direct[0 := Alloc(v).value.1])
    requires 1 <= BlocksFor(d.size) <= BlocksFor(d.size + count) <= MAX_BLOCKS
    ensures Grow(d, v, count) == Extend(d1, v1, BlocksFor(d.size), BlocksFor(d.size + count))
  {
    if d.direct[0] != 0 {
      assert d.direct[0 := d.direct[0]] == d.direct;
      assert d.(direct := d.direct[0 := d.direct[0]]) == d;
    }
  }

  lemma GrowRest(d: Dir, v: Volume, count: nat, d1: Dir, v1: Volume) returns (r: Outcome<Growth>)
    requires Owned(d1, v1) && v1.Used(v1.base) && Prefix(d1, v1.disk, BlocksFor(d.size)) && Grew(d, v, d1, v1) && InPlace(d, v, d1, v1)
    requires d1.size == d.size && (d1.table != 0 <==> BlocksFor(d.size) > DIRECT)
    requires v1.disk == v.disk
    requires 1 <= BlocksFor(d.size) <= BlocksFor(d.size + count) <= MAX_BLOCKS
    ensures r == Extend(d1, v1, BlocksFor(d.size), BlocksFor(d.size + count)) && r.Next?
    ensures r.value.ok ==> GrewTo(d, v, d.size + count, r.value.d, r.value.v)
  {
    hide Extend, Prefix, InPlace, Grew, BlocksFor, FileInv, Appended;
    var used, will := BlocksFor(d.size), BlocksFor(d.size + count);
    var got, newTable := ExtendAppends(d1, v1, used, will);
    r := Extend(d1, v1, used, will);
    if r.value.ok {
      AppendedGrows(d1, v1, used, got, newTable, r.value.d, r.value.v);
      GrewTwice(d, v, d1, v1, r.value.d, r.value.v);
      AppendedTableIs(d1, v1, used, got, newTable, r.value.d, r.value.v);
      AppendedInPlace(d1, v1, used, got, newTable, r.value.d, r.value.v);
      InPlaceTwice(d, v, d1, v1, r.value.d, r.value.v);
      GrownInv(r.value.d, r.value.v, d.size + count);
    }
  }

  lemma BlocksForBound(size: nat, count: nat)
    requires size + count < BLOCK * MAX_BLOCKS
    ensures 1 <= BlocksFor(size) <= BlocksFor(size + count) <= MAX_BLOCKS
  {
  }

  lemma GrownInv(d: Dir, v: Volume, size: nat)
    requires Owned(d, v) && Prefix(d, v.disk, BlocksFor(size)) && BlocksFor(size) <= MAX_BLOCKS
    requires d.table != 0 <==> BlocksFor(size) > DIRECT
    ensures d.direct[0] != 0 && FileInv(d.(size := size), v)
  {
    ViewMember(d, v.disk, 0);
    assert View(d.(size := size), v.disk) == View(d, v.disk);
  }

  /** Lines 306-322. */
  lemma FirstGrown(d: Dir, v: Volume) returns (d1: Dir, v1: Volume)
    requires FileInv(d, v) && v.Used(v.base) && (d.direct[0] != 0 || Alloc(v).Some?)
    ensures d.direct[0] != 0 ==> v1 == v && d1 == d
    ensures d.direct[0] == 0 ==> v1 == Alloc(v).value.0 && d1 == d.(direct := d.direct[0 := Alloc(v).value.1])
    ensures Owned(d1, v1) && Prefix(d1, v1.disk, BlocksFor(d.size)) && Grew(d, v, d1, v1) && InPlace(d, v, d1, v1)
    ensures v1.Used(v1.base) && d1.table == d.table && d1.size == d.size && v1.disk == v.disk
  {
    d1, v1 := d, v;
    if d.direct[0] == 0 {
      TookOne(v);
      v1 := Alloc(v).value.0;
      d1 := d.(direct := d.direct[0 := Alloc(v).value.1]);
      FirstBlock(d, v, v1, d1.direct[0]);
      AppendedGrows(d, v, 0, [d1.direct[0]], [], d1, v1);
      AppendedInPlace(d, v, 0, [d1.direct[0]], [], d1, v1);
    }
  }

  // ---------------------------------------------------------------- the size that is stored

  /** What the write loop as shipped adds to i_size: one chunk, however much is to be written, because
      bytes_written is decreased and wraps around. */
  function FirstChunk(size: nat, count: nat): nat {
    var left := BLOCK - size % BLOCK;
    if count < left then count else left
  }

  /** With i_size moved by the first chunk alone, the blocks still match it exactly when the write ends
      before the sector after the next begins. */
  lemma ShippedSizeRightIff(d: Dir, v: Volume, size: nat, count: nat)
    requires |d.direct| == DIRECT && d.direct[0] != 0 && FileInv(d.(size := size + count), v)
    ensures FileInv(d.(size := size + FirstChunk(size, count)), v) <==> count < BLOCK - size % BLOCK + BLOCK
  {
    var s1, s2 := size + FirstChunk(size, count), size + count;
    ChunkBlocks(size, count);
    SameFields(d.(size := s2), d.(size := s1), v.disk);
    SameOwned(d.(size := s2), d.(size := s1), v);
    hide BlocksFor, Owned, FirstChunk;
    if BlocksFor(s1) != BlocksFor(s2) {
      var all := View(d.(size := s2), v.disk);
      assert all[BlocksFor(s1)] != 0;
    }
  }

  lemma SameOwned(d: Dir, d': Dir, v: Volume)
    requires d'.direct == d.direct && d'.table == d.table
    ensures Owned(d', v) <==> Owned(d, v)
  {
    SameFields(d, d', v.disk);
    SameFields(d', d, v.disk);
    hide View;
    assert Blocks(d', v.disk) == Blocks(d, v.disk);
  }

  lemma ChunkBlocks(size: nat, count: nat)
    ensures var s1 := size + FirstChunk(size, count);
            && BlocksFor(s1) <= BlocksFor(size + count)
            && (BlocksFor(s1) == BlocksFor(size + count) <==> count < BLOCK - size % BLOCK + BLOCK)
  {
    var left := BLOCK - size % BLOCK;
    if count >= left {
      assert (size + left) % BLOCK == 0;
      assert (size + count) / BLOCK == (size + left) / BLOCK + (count - left) / BLOCK;
    }
  }

  // ---------------------------------------------------------------- inode_release

  /** Lines 250-277: every address that is set goes back to the bitmap; its index must be positive and
      inside the bitmap. */
  function FreeEach(v: Volume, blocks: seq<Blk>): Outcome<Volume>
    decreases blocks
  {
    if blocks == [] then Next(v)
    else if blocks[0] == 0 then FreeEach(v, blocks[1..])
    else if !(v.base < blocks[0] < v.base + |v.bits|) then Halted
    else FreeEach(v.Free(blocks[0]), blocks[1..])
  }

  function Release(d: Dir, v: Volume): Outcome<Volume> {
    if d.table == 0 then FreeEach(v, d.direct)
    else if !(v.base < d.table < v.base + |v.bits|) then Halted
    else FreeEach(v.Free(d.table), View(d, v.disk))
  }

  /** v' is v with exactly the sectors in `gone` given back. */
  ghost predicate Gave(v: Volume, v': Volume, gone: set<Blk>) {
    && v'.base == v.base && |v'.bits| == |v.bits| && v'.disk == v.disk
    && (forall x :: v'.Used(x) <==> v.Used(x) && x !in gone)
  }

  lemma {:induction false} FreeEachGives(v: Volume, blocks: seq<Blk>)
    requires forall b :: b in blocks && b != 0 ==> v.base < b < v.base + |v.bits|
    ensures FreeEach(v, blocks).Next?
    ensures Gave(v, FreeEach(v, blocks).value, set b | b in blocks && b != 0)
    decreases blocks
  {
    if blocks != [] {
      var b := blocks[0];
      assert blocks == [b] + blocks[1..] && b in blocks;
      assert forall x :: x in blocks[1..] ==> x in blocks;
      var v1 := if b == 0 then v else v.Free(b);
      assert v1.base == v.base && |v1.bits| == |v.bits|;
      FreeEachGives(v1, blocks[1..]);
    }
  }

  /** inode_release gives back exactly the sectors of the inode and none of its assertions fires. */
  lemma ReleaseGivesBlocks(d: Dir, v: Volume)
    requires Owned(d, v)
    ensures Release(d, v).Next? && Gave(v, Release(d, v).value, Blocks(d, v.disk))
  {
    assert forall b :: b in View(d, v.disk) && b != 0 ==> b in Blocks(d, v.disk);
    if d.table == 0 {
      assert forall b :: b != 0 ==> (b in View(d, v.disk) <==> b in d.direct);
      FreeEachGives(v, d.direct);
    } else {
      assert d.table in Blocks(d, v.disk);
      FreeEachGives(v.Free(d.table), View(d, v.disk));
    }
  }

  // ---------------------------------------------------------------- a file's whole life

  /** Successful appends of the given sizes, with i_size moved by each. */
  ghost predicate Appends(d: Dir, v: Volume, counts: seq<nat>, d': Dir, v': Volume)
    requires Shaped(d, v.disk)
    decreases counts
  {
    if counts == [] then d' == d && v' == v
    else
      var r := Grow(d, v, counts[0]);
      && r.Next? && r.value.ok && Shaped(r.value.d, r.value.v.disk)
      && Appends(r.value.d.(size := r.value.d.size + counts[0]), r.value.v, counts[1..], d', v')
  }

  /** Grew, without the clause about sectors elsewhere. */
  ghost predicate Gained(d: Dir, v: Volume, d': Dir, v': Volume) {
    var more := Blocks(d', v'.disk) - Blocks(d, v.disk);
    && Blocks(d, v.disk) <= Blocks(d', v'.disk)
    && v'.base == v.base && |v'.bits| == |v.bits|
    && (forall b :: b in more ==> !v.Used(b))
    && (forall b :: v'.Used(b) <==> v.Used(b) || b in more)
  }

  lemma GainedTwice(d: Dir, v: Volume, d1: Dir, v1: Volume, d2: Dir, v2: Volume)
    requires Gained(d, v, d1, v1) && Gained(d1, v1, d2, v2)
    ensures Gained(d, v, d2, v2)
  {
    var b0, b1, b2 := Blocks(d, v.disk), Blocks(d1, v1.disk), Blocks(d2, v2.disk);
    forall b ensures v2.Used(b) <==> v.Used(b) || b in b2 - b0 {
      assert v2.Used(b) <==> v1.Used(b) || b in b2 - b1;
      assert v1.Used(b) <==> v.Used(b) || b in b1 - b0;
    }
    forall b | b in b2 - b0 ensures !v.Used(b) {
      assert b in b2 - b1 || b in b1 - b0;
    }
  }

  lemma OneAppend(d: Dir, v: Volume, count: nat, r: Growth, d1: Dir)
    requires FileInv(d, v) && v.Used(v.base) && Grow(d, v, count) == Next(r) && r.ok
    requires d1 == r.d.(size := r.d.size + count)
    ensures FileInv(d1, r.v) && Gained(d, v, d1, r.v) && r.v.Used(r.v.base)
  {
    assert d.direct[0] != 0 || Alloc(v).Some?;
    GrowKeeps(d, v, count);
    SameFields(r.d, d1, r.v.disk);
    assert Blocks(d1, r.v.disk) == Blocks(r.d, r.v.disk);
  }

  /** Any sequence of successful appends keeps the block invariant. */
  lemma {:induction false} AppendsKeep(d: Dir, v: Volume, counts: seq<nat>, d': Dir, v': Volume)
    requires FileInv(d, v) && v.Used(v.base) && Appends(d, v, counts, d', v')
    ensures FileInv(d', v') && Gained(d, v, d', v')
    decreases counts
  {
    if counts != [] {
      var r := Grow(d, v, counts[0]).value;
      var d1 := r.d.(size := r.d.size + counts[0]);
      OneAppend(d, v, counts[0], r, d1);
      AppendsKeep(d1, r.v, counts[1..], d', v');
      GainedTwice(d, v, d1, r.v, d', v');
    }
  }

  /** A file that was created, appended to any number of times and deleted leaves the block bitmap as it was. */
  lemma LifeOfAFile(v: Volume, counts: seq<nat>, d: Dir, v': Volume)
    requires v.base > 0 && v.Used(v.base)
    requires Appends(Dir(Zeros(DIRECT), 0, 0), v, counts, d, v')
    ensures Release(d, v').Next? && Release(d, v').value.bits == v.bits
  {
    EmptyFile(v);
    AppendsKeep(Dir(Zeros(DIRECT), 0, 0), v, counts, d, v');
    ReleaseGivesBlocks(d, v');
    BitsBack(v, v', Release(d, v').value, Blocks(d, v'.disk));
  }

  lemma BitsBack(v: Volume, v': Volume, w: Volume, mine: set<Blk>)
    requires v'.base == v.base && |v'.bits| == |v.bits| && Gave(v', w, mine)
    requires forall b :: v'.Used(b) <==> v.Used(b) || b in mine
    requires forall b :: b in mine ==> !v.Used(b)
    ensures w.bits == v.bits
  {
    forall i | 0 <= i < |v.bits| ensures w.bits[i] == v.bits[i] {
      assert w.Used(v.base + i) <==> v'.Used(v.base + i) && v.base + i !in mine;
      assert v'.Used(v.base + i) <==> v.Used(v.base + i) || v.base + i in mine;
    }
  }

  // ---------------------------------------------------------------- when a growth succeeds

  /** The block that a file which was never written to gets first. */
  function FirstNeed(d: Dir): nat
    requires |d.direct| == DIRECT
  {
    if d.direct[0] == 0 then 1 else 0
  }

  /** Free sectors that file_write takes: the first block, the blocks in addition, and the index table. */
  function GrowNeed(d: Dir, count: nat): nat
    requires |d.direct| == DIRECT
  {
    var used, will := BlocksFor(d.size), BlocksFor(d.size + count);
    FirstNeed(d) + (if used < will then will - used else 0) + if used <= DIRECT < will then 1 else 0
  }

  lemma {:induction false} FillOkIff(all: seq<Blk>, v: Volume, i: nat, will: nat)
    requires i <= will <= |all| && Fill(all, v, i, will).Next?
    ensures Fill(all, v, i, will).value.ok <==> Room(v) >= will - i
    ensures Room(v) == 0 && i < will ==> Fill(all, v, i, will).value == Filling(false, all, v)
    decreases will - i
  {
    AllocRoom(v);
    if i < will && Alloc(v).Some? {
      FillOkIff(all[i := Alloc(v).value.1], Alloc(v).value.0, i + 1, will);
    }
  }

  lemma ExtendOkIff(d: Dir, v: Volume, used: nat, will: nat)
    requires Owned(d, v) && 1 <= used <= will <= MAX_BLOCKS && Prefix(d, v.disk, used)
    requires d.table != 0 <==> used > DIRECT
    ensures Extend(d, v, used, will).Next?
    ensures Extend(d, v, used, will).value.ok <==>
              Room(v) >= will - used + if used <= DIRECT < will then 1 else 0
    ensures Room(v) == 0 && used < will ==> Extend(d, v, used, will).value == Growth(false, d, v)
  {
    var got, newTable := ExtendAppends(d, v, used, will);
    assert |View(d, v.disk)| == MAX_BLOCKS;
    AllocRoom(v);
    if used < will {
      if will <= DIRECT {
        PrefixZeros(d, v.disk, used);
        FillOkIff(View(d, v.disk), v, used, will);
      } else if used <= DIRECT {
        PrefixZeros(d, v.disk, used);
        if Alloc(v).Some? {
          FillOkIff(View(d, v.disk), Alloc(v).value.0, used, will);
        }
      } else {
        FillOkIff(View(d, v.disk), v, used, will);
        StoredSame(d, v, d.table);
      }
    }
  }

  lemma StoredSame(d: Dir, v: Volume, table: Blk)
    requires Shaped(d, v.disk) && table == d.table
    ensures Stored(d, Filling(false, View(d, v.disk), v), table) == Growth(false, d, v)
  {
    assert View(d, v.disk)[..DIRECT] == d.direct;
  }

  /** file_write stops the machine iff the file would have exactly 71680 bytes and its first block is there
      or can be had; otherwise it succeeds iff the file stays below that and there is room. */
  lemma GrowOutcome(d: Dir, v: Volume, count: nat)
    requires FileInv(d, v) && v.Used(v.base)
    ensures Grow(d, v, count).Halted? <==> d.size + count == BLOCK * MAX_BLOCKS && Room(v) >= FirstNeed(d)
    ensures Grow(d, v, count).Next? ==>
              (Grow(d, v, count).value.ok <==> d.size + count < BLOCK * MAX_BLOCKS && Room(v) >= GrowNeed(d, count))
  {
    AllocRoom(v);
    if d.size + count < BLOCK * MAX_BLOCKS && Room(v) >= FirstNeed(d) {
      BlocksForBound(d.size, count);
      var d1, v1 := FirstGrown(d, v);
      GrowUnfolds(d, v, count, d1, v1);
      ExtendOkIff(d1, v1, BlocksFor(d.size), BlocksFor(d.size + count));
    }
  }

  /** Out of room before anything but the first block was taken: the file is still in order. */
  lemma GrowFailsClean(d: Dir, v: Volume, count: nat)
    requires FileInv(d, v) && v.Used(v.base) && d.size + count < BLOCK * MAX_BLOCKS
    requires Room(v) < GrowNeed(d, count) && Room(v) <= FirstNeed(d)
    ensures Grow(d, v, count).Next? && !Grow(d, v, count).value.ok
    ensures var g := Grow(d, v, count).value; FileInv(g.d, g.v) && Grew(d, v, g.d, g.v) && g.d.size == d.size
  {
    AllocRoom(v);
    GrowOutcome(d, v, count);
    if Room(v) >= FirstNeed(d) {
      BlocksForBound(d.size, count);
      var d1, v1 := FirstGrown(d, v);
      GrowUnfolds(d, v, count, d1, v1);
      ExtendOkIff(d1, v1, BlocksFor(d.size), BlocksFor(d.size + count));
      if d.direct[0] == 0 {
        ViewMember(d1, v1.disk, 0);
      }
    }
  }

  /** The allocation loop, whether it ends well or not, leaves what is before it alone, and if there is any
      room its first block is a sector that was free. */
  lemma {:induction false} FillPartial(all: seq<Blk>, v: Volume, i: nat, will: nat)
    requires v.base > 0 && i <= will <= |all| && Fill(all, v, i, will).Next?
    ensures var f := Fill(all, v, i, will).value;
            && |f.all| == |all| && (forall k :: 0 <= k < i ==> f.all[k] == all[k])
            && f.v.base == v.base && f.v.disk == v.disk && |f.v.bits| == |v.bits|
            && (forall x :: v.Used(x) ==> f.v.Used(x))
            && (i < will && Room(v) > 0 ==> f.all[i] != 0 && f.v.Used(f.all[i]) && !v.Used(f.all[i]))
    decreases will - i
  {
    AllocRoom(v);
    if i < will && Alloc(v).Some? {
      AllocIsFresh(v);
      FillPartial(all[i := Alloc(v).value.1], Alloc(v).value.0, i + 1, will);
    }
  }

  /** A sector that is marked used and was not before, but is not the file's. */
  ghost predicate Strays(d: Dir, v: Volume, d': Dir, v': Volume, x: Blk) {
    d' == d && v'.disk == v.disk && v'.Used(x) && !v.Used(x)
  }

  lemma ExtendSpoils(d: Dir, v: Volume, used: nat, will: nat)
    requires Owned(d, v) && 1 <= used < will <= MAX_BLOCKS && Prefix(d, v.disk, used) && used == BlocksFor(d.size)
    requires d.table != 0 <==> used > DIRECT
    requires 0 < Room(v) < will - used + if used <= DIRECT < will then 1 else 0
    ensures Extend(d, v, used, will).Next?
    ensures var g := Extend(d, v, used, will).value;
            !g.ok && (!FileInv(g.d, g.v) || exists x :: Strays(d, v, g.d, g.v, x))
  {
    ExtendOkIff(d, v, used, will);
    AllocRoom(v);
    assert |View(d, v.disk)| == MAX_BLOCKS;
    ViewMember(d, v.disk, 0);
    var g := Extend(d, v, used, will).value;
    if will <= DIRECT {
      SpoilsDirect(d, v, used, will);
    } else if used <= DIRECT {
      SpoilsAcross(d, v, used, will);
    } else {
      SpoilsIndirect(d, v, used, will);
    }
  }

  lemma SpoilsDirect(d: Dir, v: Volume, used: nat, will: nat)
    requires Owned(d, v) && 1 <= used < will <= DIRECT && Prefix(d, v.disk, used) && used == BlocksFor(d.size)
    requires d.table == 0 && Room(v) > 0 && Extend(d, v, used, will).Next?
    ensures !FileInv(Extend(d, v, used, will).value.d, Extend(d, v, used, will).value.v)
            || Extend(d, v, used, will).value.ok
  {
    PrefixZeros(d, v.disk, used);
    var all := View(d, v.disk);
    assert d.direct[used - 1] == all[used - 1];
    FillPartial(all, v, used, will);
    var f := Fill(all, v, used, will).value;
    var d' := d.(direct := f.all[..DIRECT]);
    assert d'.direct[0] == all[0] && d'.direct[used] == f.all[used];
    if Shaped(d', f.v.disk) {
      ViewMember(d', f.v.disk, used);
      assert !Prefix(d', f.v.disk, used);
    }
  }

  lemma SpoilsAcross(d: Dir, v: Volume, used: nat, will: nat)
    requires Owned(d, v) && 1 <= used <= DIRECT < will <= MAX_BLOCKS && Prefix(d, v.disk, used) && used == BlocksFor(d.size)
    requires d.table == 0 && Room(v) > 0 && Extend(d, v, used, will).Next?
    ensures !FileInv(Extend(d, v, used, will).value.d, Extend(d, v, used, will).value.v)
            || Extend(d, v, used, will).value.ok
  {
    AllocRoom(v);
    AllocIsFresh(v);
    PrefixZeros(d, v.disk, used);
    var all := View(d, v.disk);
    var (v1, t) := Alloc(v).value;
    FillPartial(all, v1, used, will);
    assert all[0] == d.direct[0];
  }

  lemma SpoilsIndirect(d: Dir, v: Volume, used: nat, will: nat)
    requires Owned(d, v) && DIRECT < used < will <= MAX_BLOCKS && Prefix(d, v.disk, used)
    requires d.table != 0 && Room(v) > 0 && Extend(d, v, used, will).Next? && !Extend(d, v, used, will).value.ok
    ensures exists x :: Strays(d, v, Extend(d, v, used, will).value.d, Extend(d, v, used, will).value.v, x)
  {
    var all := View(d, v.disk);
    FillPartial(all, v, used, will);
    var f := Fill(all, v, used, will).value;
    assert f.all[..DIRECT] == d.direct;
    var g := Extend(d, v, used, will).value;
    assert Strays(d, v, g.d, g.v, f.all[used]);
  }

  /** Out of room after more than the first block was taken: the inode no longer fits its size, or sectors
      are marked used that no inode refers to. */
  lemma GrowSpoils(d: Dir, v: Volume, count: nat)
    requires FileInv(d, v) && v.Used(v.base) && d.size + count < BLOCK * MAX_BLOCKS
    requires FirstNeed(d) < Room(v) < GrowNeed(d, count)
    ensures Grow(d, v, count).Next? && !Grow(d, v, count).value.ok
    ensures var g := Grow(d, v, count).value;
            !FileInv(g.d, g.v) || exists x :: g.v.Used(x) && !v.Used(x) && x !in Blocks(g.d, g.v.disk) && g.v.disk == v.disk
  {
    AllocRoom(v);
    GrowOutcome(d, v, count);
    BlocksForBound(d.size, count);
    var d1, v1 := FirstGrown(d, v);
    GrowUnfolds(d, v, count, d1, v1);
    ExtendSpoils(d1, v1, BlocksFor(d.size), BlocksFor(d.size + count));
    var g := Grow(d, v, count).value;
    if FileInv(g.d, g.v) {
      var x :| Strays(d1, v1, g.d, g.v, x);
      assert x in Blocks(d1, v1.disk) ==> v1.Used(x);
      assert v.Used(x) ==> v1.Used(x);
    }
  }

  /** A failed growth writes no sector and gives none back. */
  ghost predicate OnlyMarks(v: Volume, v': Volume) {
    v'.base == v.base && v'.disk == v.disk && |v'.bits| == |v.bits| && forall x :: v.Used(x) ==> v'.Used(x)
  }

  lemma ExtendFailsInPlace(d: Dir, v: Volume, used: nat, will: nat)
    requires v.base > 0 && Shaped(d, v.disk) && 1 <= used <= will <= MAX_BLOCKS
    requires Extend(d, v, used, will).Next? && !Extend(d, v, used, will).value.ok
    ensures OnlyMarks(v, Extend(d, v, used, will).value.v)
  {
    var all := d.direct + Zeros(MAX_BLOCKS - DIRECT);
    if will <= DIRECT {
      FillPartial(all, v, used, will);
    } else if used <= DIRECT {
      if Alloc(v).Some? {
        AllocIsFresh(v);
        FillPartial(all, Alloc(v).value.0, used, will);
      }
    } else {
      FillPartial(View(d, v.disk), v, used, will);
    }
  }

  lemma GrowFailsInPlace(d: Dir, v: Volume, count: nat)
    requires v.base > 0 && Shaped(d, v.disk) && Grow(d, v, count).Next? && !Grow(d, v, count).value.ok
    ensures OnlyMarks(v, Grow(d, v, count).value.v)
  {
    if d.size + count < BLOCK * MAX_BLOCKS && (d.direct[0] != 0 || Alloc(v).Some?) {
      BlocksForBound(d.size, count);
      if d.direct[0] == 0 {
        AllocIsFresh(v);
        var (v1, b) := Alloc(v).value;
        ExtendFailsInPlace(d.(direct := d.direct[0 := b]), v1, BlocksFor(d.size), BlocksFor(d.size + count));
      } else {
        GrowUnfolds(d, v, count, d, v);
        ExtendFailsInPlace(d, v, BlocksFor(d.size), BlocksFor(d.size + count));
      }
    }
  }

  // ---------------------------------------------------------------- with the scan that stops

  /** With `stops`, as shipped, the scan of a full bitmap stops the machine; the loop and the growth fail
      for no other reason. */
  function FillScan(all: seq<Blk>, v: Volume, i: nat, will: nat, stops: bool): Outcome<Filling>
    requires will <= |all|
  {
    var f :- Fill(all, v, i, will);
    if stops && !f.ok then Halted else Next(f)
  }

  function ExtendScan(d: Dir, v: Volume, used: nat, will: nat, stops: bool): Outcome<Growth>
    requires Shaped(d, v.disk) && 1 <= used <= will <= MAX_BLOCKS
  {
    var g :- Extend(d, v, used, will);
    if stops && !g.ok then Halted else Next(g)
  }

  function GrowScan(d: Dir, v: Volume, count: nat, stops: bool): Outcome<Growth>
    requires Shaped(d, v.disk)
  {
    var g :- Grow(d, v, count);
    if stops && !g.ok && d.size + count <= BLOCK * MAX_BLOCKS then Halted else Next(g)
  }
}
