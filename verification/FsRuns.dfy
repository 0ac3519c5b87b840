/** Runs of system calls from a freshly formatted partition. */
module FsRuns {
  import opened BitSeq
  import opened Directory
  import opened DirInsert
  import opened DirHeads
  import opened DirEntries
  import opened FileGrowth
  import opened FsState
  import opened FileSystem
  import opened FsCalls
  import opened Tree
  import Paths
  import Format

  // ---------------------------------------------------------------- formatting

  /** How many bits of the block bitmap partition_format leaves clear or gives to the root: one more than
      there are blocks, unless the blocks fill the last sector of the bitmap. */
  function Allocatable(bits: nat): nat {
    if bits % Format.BITS_PER_SECTOR == 0 then bits else bits + 1
  }

  /** What partition_format leaves: the root directory in the first sector, and nothing else.  The ones that
      pad the last sector of the bitmap are left off. */
  function Formatted(start: nat, secCnt: nat): Fs
    requires secCnt > Format.USED_SECTS
  {
    var p := Format.Plan(start, secCnt);
    Fs(Volume(p.dataStart, seq(Allocatable(p.bits), i requires 0 <= i => Format.InitialBit(p.bits, i)),
              map[p.dataStart := Slots(DotSlots(0, 0))]),
       seq(MAX_FILES, i requires 0 <= i => i == 0), map[0 := NewDir(p.dataStart)])
  }

  /** The bitmap on disk is the one of Formatted followed by ones. */
  lemma BitmapIsPadded(bits: nat, i: nat)
    requires bits >= 8 && i < Format.DivRoundUp(bits, Format.BITS_PER_SECTOR) * Format.BITS_PER_SECTOR
    ensures Format.InitialBit(bits, i) == (i == 0 || i >= Allocatable(bits))
  {
    assert bits / 8 / Format.SECTOR == bits / Format.BITS_PER_SECTOR;
    Format.OneBitTooManyFree(bits, i);
    if bits % Format.BITS_PER_SECTOR == 0 {
      assert i < bits;
    }
  }

  /** No scan takes a bit of the padding, and what it takes in front of it does not depend on it. */
  lemma {:induction false} PaddingNeverTaken(bits: seq<bool>, pad: seq<bool>)
    requires forall i :: 0 <= i < |pad| ==> pad[i]
    ensures FirstClear(bits + pad) == if FirstClear(bits) < |bits| then FirstClear(bits) else |bits + pad|
    ensures CountClear(bits + pad) == CountClear(bits)
    decreases |bits| + |pad|
  {
    if bits != [] {
      assert (bits + pad)[1..] == bits[1..] + pad;
      PaddingNeverTaken(bits[1..], pad);
    } else {
      assert bits + pad == pad;
      if pad != [] {
        assert [] + pad[1..] == pad[1..];
        PaddingNeverTaken([], pad[1..]);
      }
    }
  }

  lemma FormattedBits(start: nat, secCnt: nat)
    requires secCnt > Format.USED_SECTS && Format.Plan(start, secCnt).bits >= 8
    ensures var fs := Formatted(start, secCnt);
            && fs.v.base > 0 && |fs.v.bits| >= 8 && forall b :: fs.v.Used(b) <==> b == fs.v.base
  {
    var p := Format.Plan(start, secCnt);
    var fs := Formatted(start, secCnt);
    forall i | 0 <= i < |fs.v.bits| ensures fs.v.bits[i] == (i == 0) {
      BitmapIsPadded(p.bits, i);
    }
  }

  lemma FormattedStore(start: nat, secCnt: nat)
    requires secCnt > Format.USED_SECTS && Format.Plan(start, secCnt).bits >= 8
    ensures var fs := Formatted(start, secCnt);
            Store(fs.nodes, fs.v) && NodesRep(fs.nodes, fs.v, Fresh()) && RootFirst(fs.nodes, fs.v) && fs.v.base > 0
  {
    var blank, none := FormattedRoot(start, secCnt);
    var fs := Formatted(start, secCnt);
    RehousedRep(none, blank, Fresh(), 0, NewDir(fs.v.base), fs.v, Fresh());
  }

  lemma FormattedRoot(start: nat, secCnt: nat) returns (blank: Volume, none: map<nat, Dir>)
    requires secCnt > Format.USED_SECTS && Format.Plan(start, secCnt).bits >= 8
    ensures var fs := Formatted(start, secCnt); var d := NewDir(fs.v.base);
            && NodeRep(d, fs.v, 0, Fresh()) && Rehoused(none, blank, 0, d, fs.v) && fs.v.base > 0
            && none == map[] && Store(none, blank) && none[0 := d] == fs.nodes
  {
    var fs := Formatted(start, secCnt);
    FormattedBits(start, secCnt);
    blank := Volume(fs.v.base, seq(|fs.v.bits|, i => false), map[]);
    none := map[];
    assert forall b :: !blank.Used(b);
    NewDirRep(fs.v, fs.v.base, 0, 0, 0);
    assert Fresh().dirs[0] == Folder(map[], 0, 0);
    RootAlone(blank, NewDir(fs.v.base), fs.v);
  }

  lemma RootAlone(blank: Volume, d: Dir, v: Volume)
    requires Shaped(d, v.disk) && Blocks(d, v.disk) == {v.base} && (forall b :: v.Used(b) <==> b == v.base)
    requires blank.base == v.base && |blank.bits| == |v.bits| && blank.disk == map[] && forall b :: !blank.Used(b)
    ensures Rehoused(map[], blank, 0, d, v) && Store(map[], blank)
  {
  }

  lemma FormattedRep(start: nat, secCnt: nat)
    requires secCnt > Format.USED_SECTS && Format.Plan(start, secCnt).bits >= 8
    ensures Rep(Formatted(start, secCnt), Fresh())
  {
    FormattedStore(start, secCnt);
    FreshIsTree();
  }

  // ---------------------------------------------------------------- each call keeps the tree

  lemma SameNodes(fs: Fs, p: nat)
    requires p in fs.nodes
    ensures fs.(v := fs.v, nodes := fs.nodes[p := fs.nodes[p]]) == fs
  {
    assert fs.nodes[p := fs.nodes[p]] == fs.nodes;
  }

  lemma CreateStep(fs: Fs, t: Tree, names: seq<string>, stops: bool)
    requires Rep(fs, t) && CleanNames(names) && AllShaped(fs) && !Leaks(fs, Create(names), stops)
    requires SysCreate(fs, names, stops).Next?
    ensures Sound(SysCreate(fs, names, stops).value.fs)
  {
    if Creatable(fs, names) && InodeLeft(fs) {
      var p, a := ParentOf(fs, t, names);
      CreateOutcome(fs, p, a, stops);
      InsertOkIff(fs.nodes[p], fs.v, EntryOf(a, Kid(FirstClear(fs.ibits), false)), false);
      if CreateFile(fs, p, a, stops).value.ok {
        CreateKeeps(fs, t, p, a, stops);
      } else {
        AllocRoom(fs.v);
        CreateFails(fs, t, p, a, stops);
      }
    }
    assert Rep(fs, t);
  }

  lemma CreateFails(fs: Fs, t: Tree, p: nat, a: string, stops: bool)
    requires Rep(fs, t) && p in t.dirs && Shaped(fs.nodes[p], fs.v.disk) && InodeLeft(fs)
    requires CreateFile(fs, p, a, stops).Next? && !CreateFile(fs, p, a, stops).value.ok
    requires !(ReplacesTable(fs.nodes[p], fs.v, false) && Alloc(fs.v).Some?)
    ensures CreateFile(fs, p, a, stops).value.fs == fs
  {
    SameNodes(fs, p);
    assert NodeRep(fs.nodes[p], fs.v, p, t);
    InsertFailsClean(fs.nodes[p], fs.v, EntryOf(a, Kid(FirstClear(fs.ibits), false)));
  }

  lemma InsertFailsClean(d: Dir, v: Volume, e: Slot)
    requires Valid(d, v) && e != Empty && !Insert(d, v, e, false).ok
    requires !(ReplacesTable(d, v, false) && Alloc(v).Some?)
    ensures Insert(d, v, e, false).d == d && Insert(d, v, e, false).v == v
  {
    if !ReplacesTable(d, v, false) {
      InsertRefines(d, v, e, false);
    }
  }

  lemma MkdirStep(fs: Fs, t: Tree, names: seq<string>, stops: bool)
    requires Rep(fs, t) && CleanNames(names) && AllShaped(fs) && !Leaks(fs, Mkdir(names), stops)
    requires SysMkdir(fs, names, stops).Next?
    ensures Sound(SysMkdir(fs, names, stops).value.fs)
  {
    AllocRoom(fs.v);
    if Creatable(fs, names) && InodeLeft(fs) && Room(fs.v) > 0 {
      var p, a := ParentOf(fs, t, names);
      MkdirOutcome(fs, t, p, a, stops);
      AfterDots(fs.nodes[p], fs.v, FirstClear(fs.ibits), p);
      MakeDirKeeps(fs, t, p, a, stops);
    }
    assert Rep(fs, t);
  }

  lemma GrewRehouses(nodes: map<nat, Dir>, v: Volume, n: nat, d': Dir, v': Volume, size: nat)
    requires n in nodes && Owned(nodes[n], v) && Grew(nodes[n], v, d', v') && Shaped(d', v'.disk)
    ensures Rehoused(nodes, v, n, d'.(size := size), v')
  {
    var d2 := d'.(size := size);
    SameFields(d', d2, v'.disk);
    assert Blocks(d2, v'.disk) == Blocks(d', v'.disk);
    assert d'.table != 0 ==> d'.table in Blocks(d', v'.disk);
  }

  lemma AppendStep(fs: Fs, t: Tree, names: seq<string>, count: nat, stops: bool)
    requires Rep(fs, t) && CleanNames(names) && AllShaped(fs) && !Leaks(fs, Append(names, count), stops)
    requires SysAppend(fs, names, count, stops).Next?
    ensures Sound(SysAppend(fs, names, count, stops).value.fs)
  {
    if Appendable(fs, names) {
      var n := FileOf(fs, t, names);
      GrowOutcome(fs.nodes[n], fs.v, count);
      var g := Grow(fs.nodes[n], fs.v, count).value;
      if g.ok {
        AppendKeeps(fs, t, n, count);
      } else {
        AppendFails(fs, t, n, count);
      }
    }
    assert Rep(fs, t);
  }

  /** A successful append leaves the tree as it was. */
  lemma AppendKeeps(fs: Fs, t: Tree, n: nat, count: nat)
    requires Rep(fs, t) && n in t.files && n in fs.nodes && Shaped(fs.nodes[n], fs.v.disk)
    requires Grow(fs.nodes[n], fs.v, count).Next? && Grow(fs.nodes[n], fs.v, count).value.ok
    ensures var g := Grow(fs.nodes[n], fs.v, count).value;
            Rep(fs.(v := g.v, nodes := fs.nodes[n := g.d.(size := g.d.size + count)]), t)
  {
    AppendStores(fs.nodes, fs.v, t, n, count);
    var g := Grow(fs.nodes[n], fs.v, count).value;
    var nodes' := fs.nodes[n := g.d.(size := g.d.size + count)];
    assert nodes'.Keys == fs.nodes.Keys;
  }

  lemma AppendStores(nodes: map<nat, Dir>, v: Volume, t: Tree, n: nat, count: nat)
    requires Store(nodes, v) && NodesRep(nodes, v, t) && RootFirst(nodes, v) && v.base > 0 && 0 in t.dirs
    requires n in nodes && n !in t.dirs && Shaped(nodes[n], v.disk)
    requires Grow(nodes[n], v, count).Next? && Grow(nodes[n], v, count).value.ok
    ensures var g := Grow(nodes[n], v, count).value; var nodes' := nodes[n := g.d.(size := g.d.size + count)];
            Store(nodes', g.v) && NodesRep(nodes', g.v, t) && g.v.base == v.base
  {
    var g := FileGrew(nodes, v, t, n, count);
    RehousedRep(nodes, v, t, n, g.d.(size := g.d.size + count), g.v, t);
  }

  lemma FileGrew(nodes: map<nat, Dir>, v: Volume, t: Tree, n: nat, count: nat) returns (g: Growth)
    requires Store(nodes, v) && NodesRep(nodes, v, t) && RootFirst(nodes, v) && v.base > 0 && 0 in t.dirs
    requires n in nodes && n !in t.dirs && Shaped(nodes[n], v.disk)
    requires Grow(nodes[n], v, count).Next? && Grow(nodes[n], v, count).value.ok
    ensures g == Grow(nodes[n], v, count).value && NodeRep(g.d.(size := g.d.size + count), g.v, n, t)
    ensures Rehoused(nodes, v, n, g.d.(size := g.d.size + count), g.v)
  {
    g := Grow(nodes[n], v, count).value;
    assert NodeRep(nodes[n], v, n, t);
    NotRootBlock(nodes, v, t, n);
    GrowKeeps(nodes[n], v, count);
    SameFields(g.d.(size := g.d.size + count), g.d, g.v.disk);
    GrewRehouses(nodes, v, n, g.d, g.v, g.d.size + count);
  }

  /** Failing before anything but the first sector is taken, an append leaves the tree as it was too. */
  lemma AppendFails(fs: Fs, t: Tree, n: nat, count: nat)
    requires Rep(fs, t) && n in t.files && n in fs.nodes && FileInv(fs.nodes[n], fs.v) && fs.v.Used(fs.v.base)
    requires Grow(fs.nodes[n], fs.v, count).Next? && !Grow(fs.nodes[n], fs.v, count).value.ok
    requires var d := fs.nodes[n];
             !(d.size + count < BLOCK * MAX_BLOCKS && FirstNeed(d) < Room(fs.v) < GrowNeed(d, count))
    ensures Rep(AfterGrowth(fs, n, count, Grow(fs.nodes[n], fs.v, count).value).fs, t)
  {
    var d := fs.nodes[n];
    var g := Grow(d, fs.v, count).value;
    AllocRoom(fs.v);
    GrowOutcome(d, fs.v, count);
    if d.size + count >= BLOCK * MAX_BLOCKS {
      assert g == Growth(false, d, fs.v);
      SameNodes(fs, n);
    } else {
      GrowFailsClean(d, fs.v, count);
      GrewRehouses(fs.nodes, fs.v, n, g.d, g.v, g.d.size);
      assert g.d.(size := g.d.size) == g.d;
      assert NodeRep(g.d, g.v, n, t);
      RehousedRep(fs.nodes, fs.v, t, n, g.d, g.v, t);
      assert fs.nodes[n := g.d].Keys == fs.nodes.Keys;
    }
  }

  lemma StepKeeps(fs: Fs, t: Tree, e: Event, stops: bool)
    requires Rep(fs, t) && Legal(e) && AllShaped(fs) && !Leaks(fs, e, stops) && Step(fs, e, stops).Next?
    ensures Sound(Step(fs, e, stops).value.fs)
  {
    match e
    case Create(names) => CreateStep(fs, t, names, stops);
    case Mkdir(names) => MkdirStep(fs, t, names, stops);
    case Unlink(names) => UnlinkStep(fs, t, names);
    case Rmdir(names) => RmdirStep(fs, t, names);
    case Append(names, count) => AppendStep(fs, t, names, count, stops);
  }

  // ---------------------------------------------------------------- calls that leak

  /** A block that is marked used and belongs to no inode. */
  ghost predicate Lost(fs: Fs, x: Blk) {
    fs.v.Used(x) && !Taken(fs.nodes, fs.v.disk, x)
  }

  lemma LostIsUnsound(fs: Fs, x: Blk)
    requires Lost(fs, x)
    ensures !Sound(fs)
  {
    if t :| Rep(fs, t) {
      assert false;
    }
  }

  /** Sectors were written only at free places, so every other inode still has its blocks. */
  lemma StillOthers(nodes: map<nat, Dir>, v: Volume, disk': map<Blk, Sector>, m: nat)
    requires Store(nodes, v) && m in nodes
    requires forall x :: x in v.disk && v.Used(x) ==> x in disk' && disk'[x] == v.disk[x]
    ensures Blocks(nodes[m], disk') == Blocks(nodes[m], v.disk)
  {
    var v' := v.(disk := disk');
    forall b | b in Blocks(nodes[m], v.disk) && b in v.disk ensures b in disk' && disk'[b] == v.disk[b] {
      assert HasBlock(nodes, v.disk, m, b);
    }
    assert Shaped(nodes[m], v.disk);
    BlocksFrame(nodes[m], v, v');
  }

  /** p's table is dropped from p and nobody else ever had it. */
  lemma TableLost(nodes: map<nat, Dir>, v: Volume, p: nat, d': Dir, disk': map<Blk, Sector>, x: Blk)
    requires Store(nodes, v) && p in nodes && x in Blocks(nodes[p], v.disk) && x !in Blocks(d', disk')
    requires forall b :: b in v.disk && v.Used(b) ==> b in disk' && disk'[b] == v.disk[b]
    ensures !Taken(nodes[p := d'], disk', x)
  {
    var nodes' := nodes[p := d'];
    if m :| HasBlock(nodes', disk', m, x) {
      if m != p {
        StillOthers(nodes, v, disk', m);
        assert HasBlock(nodes, v.disk, m, x) && HasBlock(nodes, v.disk, p, x);
      }
    }
  }

  lemma ReplacedIsLost(nodes: map<nat, Dir>, v: Volume, p: nat, e: Slot)
    requires Store(nodes, v) && p in nodes && Valid(nodes[p], v) && e != Empty
    requires ReplacesTable(nodes[p], v, false) && Alloc(v).Some?
    ensures var r := Insert(nodes[p], v, e, false);
            var x := nodes[p].table;
            && r.v.Used(x) && !Taken(nodes[p := r.d], r.v.disk, x)
            && (forall b :: b in v.disk && v.Used(b) ==> b in r.v.disk && r.v.disk[b] == v.disk[b])
  {
    var r := ReplacedTable(nodes[p], v, e);
    TableLost(nodes, v, p, r.d, r.v.disk, nodes[p].table);
  }

  lemma ReplacedTable(d: Dir, v: Volume, e: Slot) returns (r: Insertion)
    requires Valid(d, v) && e != Empty && ReplacesTable(d, v, false) && Alloc(v).Some?
    ensures r == Insert(d, v, e, false)
    ensures r.v.Used(d.table) && d.table in Blocks(d, v.disk) && d.table !in Blocks(r.d, r.v.disk)
    ensures forall b :: b in v.disk && v.Used(b) ==> b in r.v.disk && r.v.disk[b] == v.disk[b]
  {
    r := Insert(d, v, e, false);
    if r.ok {
      ReplacedTableLeaks(d, v, e, false);
      var b, c := TableReplaced(d, v, e, false);
    } else {
      AllocIsFresh(v);
      assert r.v == v && r.d == d.(table := 0);
      DroppedTable(d, v);
    }
  }

  lemma DroppedTable(d: Dir, v: Volume)
    requires Valid(d, v) && d.table != 0
    ensures d.table in Blocks(d, v.disk) && d.table !in Blocks(d.(table := 0), v.disk)
  {
    var d' := d.(table := 0);
    forall j | 0 <= j < |View(d', v.disk)| ensures View(d', v.disk)[j] != d.table {
      ViewMember(d, v.disk, j);
    }
  }

  lemma CreateLoses(fs: Fs, t: Tree, names: seq<string>, stops: bool) returns (x: Blk)
    requires Rep(fs, t) && CleanNames(names) && AllShaped(fs) && Leaks(fs, Create(names), stops)
    requires SysCreate(fs, names, stops).Next?
    ensures Lost(SysCreate(fs, names, stops).value.fs, x) && x == fs.nodes[FsSearch(fs, names).parent].table
  {
    var p, a := ParentOf(fs, t, names);
    var n := FirstClear(fs.ibits);
    var e := EntryOf(a, Kid(n, false));
    AllocRoom(fs.v);
    CreateOutcome(fs, p, a, stops);
    ReplacedIsLost(fs.nodes, fs.v, p, e);
    x := fs.nodes[p].table;
    var r := Insert(fs.nodes[p], fs.v, e, false);
    NewNodeTakesNot(fs.nodes[p := r.d], r.v.disk, n, EmptyInode, x);
  }

  lemma NewNodeTakesNot(nodes: map<nat, Dir>, disk: map<Blk, Sector>, n: nat, d: Dir, x: Blk)
    requires !Taken(nodes, disk, x) && x !in Blocks(d, disk)
    ensures !Taken(nodes[n := d], disk, x)
  {
    var nodes' := nodes[n := d];
    forall m ensures HasBlock(nodes', disk, m, x) ==> HasBlock(nodes, disk, m, x) {
    }
  }

  lemma MkdirLoses(fs: Fs, t: Tree, names: seq<string>, stops: bool) returns (x: Blk)
    requires Rep(fs, t) && CleanNames(names) && AllShaped(fs) && Leaks(fs, Mkdir(names), stops)
    requires SysMkdir(fs, names, stops).Next?
    ensures Lost(SysMkdir(fs, names, stops).value.fs, x)
  {
    var p, a := ParentOf(fs, t, names);
    var n := FirstClear(fs.ibits);
    AllocRoom(fs.v);
    MkdirOutcome(fs, t, p, a, stops);
    AfterDots(fs.nodes[p], fs.v, n, p);
    var v2 := DotsPut(fs.v, n, p);
    AllocRoom(v2);
    if ReplacesTable(fs.nodes[p], v2, false) && Alloc(v2).Some? {
      x := MkdirReplaces(fs, t, p, a, stops);
    } else {
      x := MkdirFails(fs, t, p, a, stops);
    }
  }

  lemma MkdirReplaces(fs: Fs, t: Tree, p: nat, a: string, stops: bool) returns (x: Blk)
    requires CanInsert(fs, t, p, a) && InodeLeft(fs) && Alloc(fs.v).Some? && MakeDir(fs, p, a, stops).Next?
    requires var v2 := DotsPut(fs.v, FirstClear(fs.ibits), p);
             Shaped(fs.nodes[p], v2.disk) && ReplacesTable(fs.nodes[p], v2, false) && Alloc(v2).Some?
    ensures Lost(MakeDir(fs, p, a, stops).value.fs, x)
  {
    var n, b := FirstClear(fs.ibits), Alloc(fs.v).value.1;
    var v2 := DotsPut(fs.v, n, p);
    MakeDirUnfolds(fs, t, p, a, stops);
    FreeInode(fs, t);
    x := fs.nodes[p].table;
    ReplacedLost(fs.nodes, v2, WithDir(t, p, n), p, n, b, EntryOf(a, Kid(n, true)));
  }

  lemma ReplacedLost(nodes: map<nat, Dir>, v2: Volume, t1: Tree, p: nat, n: nat, b: Blk, e: Slot)
    requires Store(nodes[n := NewDir(b)], v2) && NodesRep(nodes[n := NewDir(b)], v2, t1) && p in t1.dirs
    requires p in nodes && n !in nodes && p != n && e != Empty && Shaped(nodes[p], v2.disk)
    requires ReplacesTable(nodes[p], v2, false) && Alloc(v2).Some?
    ensures var r := Insert(nodes[p], v2, e, false); var x := nodes[p].table;
            && r.v.Used(x) && !Taken(nodes[p := r.d], r.v.disk, x)
            && !Taken(nodes[p := r.d][n := NewDir(b)], r.v.disk, x)
  {
    var nodes1 := nodes[n := NewDir(b)];
    assert NodeRep(nodes1[p], v2, p, t1);
    ReplacedIsLost(nodes1, v2, p, e);
    var r := Insert(nodes[p], v2, e, false);
    assert nodes1[p := r.d] == nodes[p := r.d][n := NewDir(b)];
    FewerTakeNot(nodes[p := r.d], r.v.disk, n, NewDir(b), nodes[p].table);
  }

  lemma MkdirFails(fs: Fs, t: Tree, p: nat, a: string, stops: bool) returns (x: Blk)
    requires CanInsert(fs, t, p, a) && InodeLeft(fs) && Alloc(fs.v).Some?
    requires MakeDir(fs, p, a, stops).Next? && !MakeDir(fs, p, a, stops).value.ok
    requires var v2 := DotsPut(fs.v, FirstClear(fs.ibits), p);
             Shaped(fs.nodes[p], v2.disk) && !(ReplacesTable(fs.nodes[p], v2, false) && Alloc(v2).Some?)
    ensures Lost(MakeDir(fs, p, a, stops).value.fs, x)
  {
    var n := FirstClear(fs.ibits);
    x := Alloc(fs.v).value.1;
    var v2 := DotsPut(fs.v, n, p);
    MakeDirUnfolds(fs, t, p, a, stops);
    FreshNotRoot(fs, t);
    FreeInode(fs, t);
    NewDirAgain(fs.nodes, v2, WithDir(t, p, n), p, n, x, EntryOf(a, Kid(n, true)));
    SameNodes(fs, p);
    NewDirBlock(x, v2.disk);
    SectorLost(fs, t, n, v2, x);
  }

  lemma NewDirAgain(nodes: map<nat, Dir>, v2: Volume, t1: Tree, p: nat, n: nat, b: Blk, e: Slot)
    requires NodesRep(nodes[n := NewDir(b)], v2, t1) && p in t1.dirs && p in nodes && p != n && e != Empty
    requires Shaped(nodes[p], v2.disk) && !Insert(nodes[p], v2, e, false).ok
    requires !(ReplacesTable(nodes[p], v2, false) && Alloc(v2).Some?)
    ensures Insert(nodes[p], v2, e, false).d == nodes[p] && Insert(nodes[p], v2, e, false).v == v2
  {
    var nodes1 := nodes[n := NewDir(b)];
    assert NodeRep(nodes1[p], v2, p, t1);
    InsertFailsClean(nodes[p], v2, e);
  }

  lemma NewDirBlock(b: Blk, disk: map<Blk, Sector>)
    requires b != 0
    ensures b in Blocks(NewDir(b), disk)
  {
    assert View(NewDir(b), disk)[0] == b;
  }

  lemma FewerTakeNot(nodes: map<nat, Dir>, disk: map<Blk, Sector>, n: nat, d: Dir, x: Blk)
    requires n !in nodes && !Taken(nodes[n := d], disk, x)
    ensures !Taken(nodes, disk, x)
  {
    var nodes' := nodes[n := d];
    forall m ensures HasBlock(nodes, disk, m, x) ==> HasBlock(nodes', disk, m, x) {
    }
  }

  /** The sector of the new directory belongs to nobody once its inode is dropped. */
  lemma SectorLost(fs: Fs, t: Tree, n: nat, v2: Volume, b: Blk)
    requires Rep(fs, t) && n !in fs.nodes && Store(fs.nodes[n := NewDir(b)], v2)
    requires b != 0 && b in Blocks(NewDir(b), v2.disk)
    ensures v2.Used(b) && !Taken(fs.nodes, v2.disk, b)
  {
    var nodes1 := fs.nodes[n := NewDir(b)];
    assert HasBlock(nodes1, v2.disk, n, b);
    if m :| HasBlock(fs.nodes, v2.disk, m, b) {
      assert HasBlock(nodes1, v2.disk, m, b);
    }
  }

  /** Everything but inode n is as it was, so no tree can see a directory where there was none. */
  lemma {:induction false} StillDir(nodes: map<nat, Dir>, v: Volume, t: Tree, nodes': map<nat, Dir>, v': Volume, t': Tree, n: nat, m: nat)
    requires TreeInv(t) && Store(nodes, v) && NodesRep(nodes, v, t) && nodes.Keys == t.dirs.Keys + t.files
    requires TreeInv(t') && NodesRep(nodes', v', t') && nodes'.Keys == t'.dirs.Keys + t'.files && nodes'.Keys == nodes.Keys
    requires (forall k :: k in nodes && k != n ==> nodes'[k] == nodes[k]) && OnlyMarks(v, v')
    requires n in t.files && m in t'.dirs
    ensures m in t.dirs
    decreases t'.dirs[m].level
  {
    if m != 0 {
      UpIsDir(t', m);
      var p := t'.dirs[m].up;
      StillDir(nodes, v, t, nodes', v', t', n, p);
      SameKids(nodes[p], v, t, v', t', p, nodes, nodes');
      var a :| IsNameOf(t', p, a, m);
      assert Has(t, p, a) && KidOk(t, p, a);
    }
  }

  lemma SameKids(d: Dir, v: Volume, t: Tree, v': Volume, t': Tree, p: nat, nodes: map<nat, Dir>, nodes': map<nat, Dir>)
    requires Store(nodes, v) && NodesRep(nodes, v, t) && NodesRep(nodes', v', t') && OnlyMarks(v, v')
    requires p in nodes && p in nodes' && nodes[p] == nodes'[p] == d && p in t.dirs && p in t'.dirs
    ensures t.dirs[p].kids == t'.dirs[p].kids
  {
    assert NodeRep(d, v, p, t) && NodeRep(d, v', p, t');
    forall b | b in Blocks(d, v.disk) ensures v'.Used(b) {
      assert HasBlock(nodes, v.disk, p, b);
    }
    DirFrame(d, v, v', p, t.dirs[p]);
    DirDetermines(d, v', p, t.dirs[p], t'.dirs[p]);
  }

  lemma AppendUnsound(fs: Fs, t: Tree, names: seq<string>, count: nat)
    requires Rep(fs, t) && CleanNames(names) && AllShaped(fs) && Leaks(fs, Append(names, count), false)
    requires SysAppend(fs, names, count, false).Next?
    ensures !Sound(SysAppend(fs, names, count, false).value.fs)
  {
    var n := FileOf(fs, t, names);
    var d := fs.nodes[n];
    GrowSpoils(d, fs.v, count);
    GrowFailsInPlace(d, fs.v, count);
    var g := Grow(d, fs.v, count).value;
    var fs' := SysAppend(fs, names, count, false).value.fs;
    if t' :| Rep(fs', t') {
      if n in t'.dirs {
        StillDir(fs.nodes, fs.v, t, fs'.nodes, fs'.v, t', n, n);
      }
      assert NodeRep(fs'.nodes[n], fs'.v, n, t');
      var x :| g.v.Used(x) && !fs.v.Used(x) && x !in Blocks(g.d, g.v.disk) && g.v.disk == fs.v.disk;
      StrayIsLost(fs, n, g.d, g.v, x);
      LostIsUnsound(fs', x);
    }
  }

  lemma StrayIsLost(fs: Fs, n: nat, d': Dir, v': Volume, x: Blk)
    requires Store(fs.nodes, fs.v) && v'.Used(x) && !fs.v.Used(x) && x !in Blocks(d', v'.disk) && v'.disk == fs.v.disk
    ensures Lost(fs.(v := v', nodes := fs.nodes[n := d']), x)
  {
    var nodes' := fs.nodes[n := d'];
    if m :| HasBlock(nodes', v'.disk, m, x) {
      assert HasBlock(fs.nodes, fs.v.disk, m, x);
    }
  }

  /** A call that does not stop the machine keeps the bitmaps, the inodes and the tree in step exactly
      when it does not leak. */
  lemma StepKeepsIff(fs: Fs, t: Tree, e: Event, stops: bool)
    requires Rep(fs, t) && Legal(e) && AllShaped(fs) && Step(fs, e, stops).Next?
    ensures Sound(Step(fs, e, stops).value.fs) <==> !Leaks(fs, e, stops)
  {
    if !Leaks(fs, e, stops) {
      StepKeeps(fs, t, e, stops);
    } else {
      match e
      case Create(names) =>
        var x := CreateLoses(fs, t, names, stops);
        LostIsUnsound(SysCreate(fs, names, stops).value.fs, x);
      case Mkdir(names) =>
        var x := MkdirLoses(fs, t, names, stops);
        LostIsUnsound(SysMkdir(fs, names, stops).value.fs, x);
      case Append(names, count) =>
        AppendUnsound(fs, t, names, count);
      case _ =>
    }
  }

  // ---------------------------------------------------------------- runs

  /** Consecutive states of a run of calls none of which stops the machine or leaks. */
  ghost predicate IsRun(states: seq<Fs>, events: seq<Event>, stops: bool) {
    && |states| == |events| + 1
    && (forall i :: 0 <= i < |events| ==> RunStep(states[i], events[i], states[i + 1], stops))
  }

  ghost predicate RunStep(fs: Fs, e: Event, fs': Fs, stops: bool) {
    Legal(e) && AllShaped(fs) && !Leaks(fs, e, stops) && Step(fs, e, stops).Next? && Step(fs, e, stops).value.fs == fs'
  }

  /** Every state of every such run from a formatted partition is a tree rooted at inode 0 whose bitmaps
      say exactly what is in use. */
  lemma {:induction false} RunsAreSound(start: nat, secCnt: nat, stops: bool, states: seq<Fs>, events: seq<Event>, i: nat)
    requires secCnt > Format.USED_SECTS && Format.Plan(start, secCnt).bits >= 8
    requires states != [] && states[0] == Formatted(start, secCnt)
    requires IsRun(states, events, stops) && i < |states|
    ensures Sound(states[i])
  {
    if i == 0 {
      FormattedRep(start, secCnt);
    } else {
      RunsAreSound(start, secCnt, stops, states, events, i - 1);
      var t :| Rep(states[i - 1], t);
      assert RunStep(states[i - 1], events[i - 1], states[i], stops);
      StepKeeps(states[i - 1], t, events[i - 1], stops);
    }
  }

  /** What soundness says: an inode's bit is set iff plain names lead to it from the root, every inode but
      the root is named by exactly one entry, and a block's bit is set iff exactly one inode refers to it. */
  lemma SoundMeans(fs: Fs) returns (t: Tree)
    requires Sound(fs)
    ensures Rep(fs, t)
    ensures forall n :: 0 <= n < MAX_FILES ==> (fs.ibits[n] <==> Reached(t, n))
    ensures forall n :: n in fs.nodes && n != 0 ==> exists p, a :: OnlyName(fs, t, n, p, a)
    ensures forall b :: fs.v.Used(b) <==> exists n :: OnlyOwner(fs, n, b)
  {
    t :| Rep(fs, t);
    forall n | 0 <= n < MAX_FILES ensures fs.ibits[n] <==> Reached(t, n) {
      InUseIffReachable(t, n);
    }
    forall n | n in fs.nodes && n != 0 ensures exists p, a :: OnlyName(fs, t, n, p, a) {
      assert Named(t, n);
      var p, a :| Has(t, p, a) && KidOf(t, p, a).ino == n;
      NameIsOnly(fs, t, n, p, a);
    }
    forall b ensures fs.v.Used(b) <==> exists n :: OnlyOwner(fs, n, b) {
      OwnerOf(fs, t, b);
    }
  }

  lemma OwnerOf(fs: Fs, t: Tree, b: Blk)
    requires Rep(fs, t)
    ensures fs.v.Used(b) <==> exists n :: OnlyOwner(fs, n, b)
  {
    if fs.v.Used(b) {
      assert Taken(fs.nodes, fs.v.disk, b);
      var n :| HasBlock(fs.nodes, fs.v.disk, n, b);
      assert OnlyOwner(fs, n, b);
    }
  }

  /** Plain names lead from the root to n. */
  ghost predicate Reached(t: Tree, n: nat) {
    exists names :: Paths.Clean(names) && Walk(t, 0, names).Some? && Walk(t, 0, names).value.ino == n
  }

  lemma NameIsOnly(fs: Fs, t: Tree, n: nat, p: nat, a: string)
    requires Rep(fs, t) && n in fs.nodes && Has(t, p, a) && KidOf(t, p, a).ino == n
    ensures OnlyName(fs, t, n, p, a)
  {
    assert KidOk(t, p, a);
    assert NodeRep(fs.nodes[n], fs.v, n, t);
  }

  /** Entry a of p names n, no other entry does, and if n is a directory its ".." names p. */
  ghost predicate OnlyName(fs: Fs, t: Tree, n: nat, p: nat, a: string) {
    && Has(t, p, a) && KidOf(t, p, a).ino == n
    && (n in t.dirs ==> n in fs.nodes && Heads(fs.nodes[n], fs.v, n, p))
    && forall q, b :: Has(t, q, b) && KidOf(t, q, b).ino == n ==> q == p && b == a
  }

  ghost predicate OnlyOwner(fs: Fs, n: nat, b: Blk) {
    && HasBlock(fs.nodes, fs.v.disk, n, b)
    && forall m :: HasBlock(fs.nodes, fs.v.disk, m, b) ==> m == n
  }
}
