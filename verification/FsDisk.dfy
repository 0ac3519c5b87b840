/** The inode table on disk beside the inodes in memory: what each system call syncs, and when a later
    inode_open that misses the list of open inodes finds what the call left. */
module FsDisk {
  import opened Outcomes
  import opened BitSeq
  import opened Directory
  import opened DirInsert
  import opened DirDelete
  import opened DirEntries
  import opened FileGrowth
  import opened FsState
  import opened FileSystem
  import opened FsCalls
  import opened FsRuns
  import opened FsOutcomes
  import opened Tree
  import Format
  import T = InodeTable
  import L = FsLeakRun

  const WORD := 0x1_0000_0000

  /** Every sector has a 32-bit address. */
  predicate Addressable(v: Volume) {
    v.base + |v.bits| <= WORD
  }

  /** i_sectors. */
  function Sectors(d: Dir): seq<Blk> {
    d.direct + [d.table]
  }

  predicate Fits(d: Dir) {
    |d.direct| == DIRECT && d.size < WORD && forall b :: b in Sectors(d) ==> b < WORD
  }

  function OnDisk(n: nat, d: Dir): (r: T.Inode)
    requires n < MAX_FILES && Fits(d)
    ensures T.WellFormed(r) && r.no == n
  {
    T.Inode(n, d.size, 0, false, seq(13, k requires 0 <= k < 13 => Word(d, k)), 0, 0)
  }

  function Word(d: Dir, k: nat): T.u32
    requires Fits(d) && k < 13
  {
    assert Sectors(d)[k] in Sectors(d);
    Sectors(d)[k]
  }

  // ---------------------------------------------------------------- the table and the inodes

  /** The slot holds inode n as it is in memory. */
  ghost predicate SlotHolds(disk: seq<T.byte>, lba: nat, n: nat, d: Dir)
    requires T.HoldsTable(disk, lba) && n < MAX_FILES
  {
    Fits(d) && T.Load(disk, lba, n) == OnDisk(n, d)
  }

  ghost predicate SlotRight(fs: Fs, disk: seq<T.byte>, lba: nat, n: nat)
    requires T.HoldsTable(disk, lba) && n < MAX_FILES
  {
    if n in fs.nodes then SlotHolds(disk, lba, n, fs.nodes[n]) else T.Slot(disk, lba, n) == T.Zeros(T.INODE_SIZE)
  }

  /** Inodes in use are in their slots, and the other slots are zero. */
  ghost predicate Table(fs: Fs, disk: seq<T.byte>, lba: nat) {
    T.HoldsTable(disk, lba)
    && forall n {:trigger SlotRight(fs, disk, lba, n)} :: 0 <= n < MAX_FILES ==> SlotRight(fs, disk, lba, n)
  }

  // ---------------------------------------------------------------- what a call writes

  datatype Write = SyncNode(n: nat) | ClearSlot(n: nat)

  /** The inode_syncs of file_create, sys_mkdir, delete_dir_entry and file_write, and the inode_delete of
      inode_release; a call that fails gets to none of them. */
  function Writes(fs: Fs, e: Event, stops: bool): seq<Write>
    requires AllShaped(fs) && Step(fs, e, stops).Next?
  {
    if !Step(fs, e, stops).value.ok then []
    else
      match e
      case Create(names) => [SyncNode(FsSearch(fs, names).parent), SyncNode(FirstClear(fs.ibits))]
      case Mkdir(names) => [SyncNode(FsSearch(fs, names).parent), SyncNode(FirstClear(fs.ibits))]
      case Unlink(names) => [SyncNode(FsSearch(fs, names).parent), ClearSlot(FoundIno(fs, names))]
      case Rmdir(names) => [SyncNode(FsSearch(fs, names).parent), ClearSlot(FoundIno(fs, names))]
      case Append(names, _) => [SyncNode(FoundIno(fs, names))]
  }

  function FoundIno(fs: Fs, names: seq<string>): nat {
    var s := FsSearch(fs, names);
    if s.Found? then s.ino else 0
  }

  predicate CanWrite(fs: Fs, w: Write) {
    match w
    case SyncNode(n) => n in fs.nodes && n < MAX_FILES && Fits(fs.nodes[n])
    case ClearSlot(n) => n < MAX_FILES
  }

  /** One of them on the table; inode_sync with the number cut to a byte, as shipped, or whole. */
  function Written(disk: seq<T.byte>, lba: nat, fs: Fs, w: Write, shipped: bool): (r: seq<T.byte>)
    requires T.HoldsTable(disk, lba) && CanWrite(fs, w)
    ensures T.HoldsTable(r, lba)
  {
    match w
    case SyncNode(n) =>
      var r := T.Sync(disk, lba, OnDisk(n, fs.nodes[n]), shipped);
      assert T.SyncNumber(OnDisk(n, fs.nodes[n]), shipped) < T.MAX_FILES;
      T.SpliceSlots(disk, lba, T.SyncNumber(OnDisk(n, fs.nodes[n]), shipped), T.Encode(T.Pure(OnDisk(n, fs.nodes[n]))));
      r.value
    case ClearSlot(n) =>
      T.DeleteClearsSlot(disk, lba, n);
      T.Splice(disk, T.SlotAt(lba, n), T.Zeros(T.INODE_SIZE))
  }

  /** The slot a write goes to. */
  function Target(w: Write, shipped: bool): nat {
    if w.SyncNode? && shipped then w.n % 256 else w.n
  }

  /** It changes that slot alone, and an inode that goes to its own slot is there afterwards. */
  lemma WrittenIs(disk: seq<T.byte>, lba: nat, fs: Fs, w: Write, shipped: bool)
    requires T.HoldsTable(disk, lba) && CanWrite(fs, w)
    ensures var r := Written(disk, lba, fs, w, shipped);
            && (forall m :: 0 <= m < MAX_FILES && m != Target(w, shipped) ==> T.Slot(r, lba, m) == T.Slot(disk, lba, m))
            && (w.SyncNode? ==> Target(w, shipped) < MAX_FILES
                                && T.Load(r, lba, Target(w, shipped)) == OnDisk(w.n, fs.nodes[w.n]))
            && (w.ClearSlot? ==> T.Slot(r, lba, w.n) == T.Zeros(T.INODE_SIZE))
  {
    match w
    case SyncNode(n) =>
      var i := OnDisk(n, fs.nodes[n]);
      T.SpliceSlots(disk, lba, Target(w, shipped), T.Encode(T.Pure(i)));
      T.DecodeEncode(T.Pure(i));
    case ClearSlot(n) =>
      T.DeleteClearsSlot(disk, lba, n);
  }

  predicate CanWriteAll(fs: Fs, ws: seq<Write>) {
    forall i :: 0 <= i < |ws| ==> CanWrite(fs, ws[i])
  }

  function AllWritten(disk: seq<T.byte>, lba: nat, fs: Fs, ws: seq<Write>, shipped: bool): (r: seq<T.byte>)
    requires T.HoldsTable(disk, lba) && CanWriteAll(fs, ws)
    ensures T.HoldsTable(r, lba)
    decreases |ws|
  {
    if ws == [] then disk
    else
      assert CanWrite(fs, ws[0]) && forall i :: 0 <= i < |ws| - 1 ==> ws[1..][i] == ws[i + 1];
      AllWritten(Written(disk, lba, fs, ws[0], shipped), lba, fs, ws[1..], shipped)
  }

  predicate Concerns(ws: seq<Write>, n: nat) {
    exists i :: 0 <= i < |ws| && ws[i].n == n
  }

  /** No inode is written twice; what is synced is in use afterwards, and what is cleared is not. */
  ghost predicate Orderly(fs: Fs, ws: seq<Write>) {
    && CanWriteAll(fs, ws)
    && (forall i, j :: 0 <= i < j < |ws| ==> ws[i].n != ws[j].n)
    && (forall i :: 0 <= i < |ws| && ws[i].ClearSlot? ==> ws[i].n !in fs.nodes)
  }

  /** Every number that inode_sync gets fits in the byte it is kept in. */
  predicate SmallSyncs(ws: seq<Write>) {
    forall i :: 0 <= i < |ws| && ws[i].SyncNode? ==> ws[i].n < 256
  }

  lemma SameSlot(fs: Fs, disk: seq<T.byte>, disk': seq<T.byte>, lba: nat, n: nat)
    requires T.HoldsTable(disk, lba) && T.HoldsTable(disk', lba) && n < MAX_FILES
    requires T.Slot(disk', lba, n) == T.Slot(disk, lba, n)
    ensures SlotRight(fs, disk', lba, n) <==> SlotRight(fs, disk, lba, n)
  {
  }

  lemma ConcernsRest(ws: seq<Write>, n: nat)
    requires ws != []
    ensures Concerns(ws, n) <==> ws[0].n == n || Concerns(ws[1..], n)
  {
    if Concerns(ws, n) && ws[0].n != n {
      var i :| 0 <= i < |ws| && ws[i].n == n;
      assert ws[1..][i - 1].n == n;
    }
    if Concerns(ws[1..], n) {
      var i :| 0 <= i < |ws| - 1 && ws[1..][i].n == n;
      assert ws[i + 1].n == n;
    }
  }

  lemma OrderlyRest(fs: Fs, ws: seq<Write>, shipped: bool)
    requires ws != [] && Orderly(fs, ws) && (shipped ==> SmallSyncs(ws))
    ensures CanWriteAll(fs, ws[1..]) && Orderly(fs, ws[1..]) && (shipped ==> SmallSyncs(ws[1..]))
    ensures CanWrite(fs, ws[0]) && Target(ws[0], shipped) == ws[0].n && (ws[0].ClearSlot? ==> ws[0].n !in fs.nodes)
  {
    forall i | 0 <= i < |ws| - 1 ensures ws[1..][i] == ws[i + 1] {
    }
  }

  lemma WrittenRight(disk: seq<T.byte>, lba: nat, fs: Fs, w: Write, shipped: bool)
    requires T.HoldsTable(disk, lba) && CanWrite(fs, w) && Target(w, shipped) == w.n && (w.ClearSlot? ==> w.n !in fs.nodes)
    ensures SlotRight(fs, Written(disk, lba, fs, w, shipped), lba, w.n)
  {
    WrittenIs(disk, lba, fs, w, shipped);
  }

  /** When the syncs reach their slots, the table is right wherever it was right before or is written. */
  lemma {:induction false} WritesReach(disk: seq<T.byte>, lba: nat, fs: Fs, ws: seq<Write>, shipped: bool)
    requires T.HoldsTable(disk, lba) && Orderly(fs, ws) && (shipped ==> SmallSyncs(ws))
    requires forall n :: 0 <= n < MAX_FILES && !Concerns(ws, n) ==> SlotRight(fs, disk, lba, n)
    ensures Table(fs, AllWritten(disk, lba, fs, ws, shipped), lba)
    decreases |ws|
  {
    if ws != [] {
      OrderlyRest(fs, ws, shipped);
      assert CanWriteAll(fs, ws);
      hide Orderly, SlotRight, Concerns, CanWrite, SmallSyncs, Target, Written;
      var w, rest := ws[0], ws[1..];
      var r := Written(disk, lba, fs, w, shipped);
      WrittenIs(disk, lba, fs, w, shipped);
      forall n | 0 <= n < MAX_FILES && !Concerns(rest, n) ensures SlotRight(fs, r, lba, n) {
        ConcernsRest(ws, n);
        if n != w.n {
          SameSlot(fs, disk, r, lba, n);
        } else {
          WrittenRight(disk, lba, fs, w, shipped);
        }
      }
      WritesReach(r, lba, fs, rest, shipped);
    } else {
      NothingWritten(disk, lba, fs);
    }
  }

  lemma NothingWritten(disk: seq<T.byte>, lba: nat, fs: Fs)
    requires T.HoldsTable(disk, lba) && forall n :: 0 <= n < MAX_FILES && !Concerns([], n) ==> SlotRight(fs, disk, lba, n)
    ensures Table(fs, disk, lba)
  {
    hide SlotRight;
  }

  /** A number that does not fit leaves its own slot as it was. */
  lemma {:induction false} WritesMiss(disk: seq<T.byte>, lba: nat, fs: Fs, ws: seq<Write>, x: nat)
    requires T.HoldsTable(disk, lba) && CanWriteAll(fs, ws) && 256 <= x < MAX_FILES
    requires forall i :: 0 <= i < |ws| && ws[i].ClearSlot? ==> ws[i].n != x
    ensures T.Slot(AllWritten(disk, lba, fs, ws, true), lba, x) == T.Slot(disk, lba, x)
    decreases |ws|
  {
    if ws != [] {
      assert CanWrite(fs, ws[0]);
      WrittenIs(disk, lba, fs, ws[0], true);
      forall i | 0 <= i < |ws| - 1 ensures ws[1..][i] == ws[i + 1] {
      }
      WritesMiss(Written(disk, lba, fs, ws[0], true), lba, fs, ws[1..], x);
    }
  }

  lemma ZeroSlot(disk: seq<T.byte>, lba: nat, n: nat)
    requires T.HoldsTable(disk, lba) && n < MAX_FILES
    ensures T.Slot(disk, lba, n) == T.Zeros(T.INODE_SIZE) ==> T.Load(disk, lba, n).no == 0
  {
    var b, z := T.Slot(disk, lba, n), T.Zeros(T.INODE_SIZE);
    assert z[0] == 0 && z[1] == 0 && z[2] == 0 && z[3] == 0;
  }

  /** The slot of x does not hold what x is now. */
  lemma StaleSlot(fs: Fs, disk: seq<T.byte>, lba: nat, fs': Fs, disk': seq<T.byte>, x: nat)
    requires Table(fs, disk, lba) && T.HoldsTable(disk', lba) && 0 < x < MAX_FILES
    requires T.Slot(disk', lba, x) == T.Slot(disk, lba, x)
    requires x in fs'.nodes && (x in fs.nodes ==> Fits(fs.nodes[x]) && fs'.nodes[x].size != fs.nodes[x].size)
    ensures !Table(fs', disk', lba)
  {
    assert SlotRight(fs, disk, lba, x);
    if Table(fs', disk', lba) {
      assert SlotRight(fs', disk', lba, x);
      if x !in fs.nodes {
        ZeroSlot(disk, lba, x);
      }
    }
  }

  /** The slot of x % 256 holds inode x. */
  lemma ForeignSlot(fs: Fs, disk: seq<T.byte>, lba: nat, x: nat)
    requires T.HoldsTable(disk, lba) && 256 <= x < MAX_FILES && x in fs.nodes && Fits(fs.nodes[x])
    requires T.Load(disk, lba, x % 256) == OnDisk(x, fs.nodes[x])
    ensures !Table(fs, disk, lba)
  {
    ZeroSlot(disk, lba, x % 256);
    assert !SlotRight(fs, disk, lba, x % 256);
  }

  // ---------------------------------------------------------------- inodes fit

  lemma {:induction false} LiveSlotsBound(es: seq<Slot>)
    ensures |LiveSlots(es)| <= |es|
  {
    if es != [] {
      LiveSlotsBound(es[1..]);
    }
  }

  lemma {:induction false} LiveAllBound(disk: map<Blk, Sector>, blocks: seq<Blk>)
    requires forall b :: b in blocks ==> |LiveOf(disk, b)| <= PER_SECTOR
    ensures |LiveAll(disk, blocks)| <= PER_SECTOR * |blocks|
  {
    if blocks != [] {
      assert blocks[0] in blocks;
      LiveAllBound(disk, blocks[1..]);
    }
  }

  lemma DirSizeFits(d: Dir, v: Volume)
    requires Valid(d, v)
    ensures d.size < WORD
  {
    var blocks := View(d, v.disk);
    forall b | b in blocks ensures |LiveOf(v.disk, b)| <= PER_SECTOR {
      if b != 0 {
        assert SectorOk(v, b);
        LiveSlotsBound(v.disk[b].es);
      }
    }
    ViewMember(d, v.disk, 0);
    LiveAllBound(v.disk, blocks);
  }

  lemma NodeFits(fs: Fs, t: Tree, n: nat)
    requires Rep(fs, t) && Addressable(fs.v) && n in fs.nodes
    ensures Fits(fs.nodes[n]) && n < MAX_FILES
  {
    var d := fs.nodes[n];
    assert NodeRep(d, fs.v, n, t) && Shaped(d, fs.v.disk);
    forall b | b in Sectors(d) && b != 0 ensures b < WORD {
      if b in d.direct {
        var i :| 0 <= i < DIRECT && d.direct[i] == b;
        ViewMember(d, fs.v.disk, i);
      }
      assert HasBlock(fs.nodes, fs.v.disk, n, b);
    }
    if n in t.dirs {
      DirSizeFits(d, fs.v);
    }
  }

  // ---------------------------------------------------------------- which inodes a call changes

  /** Of inodes not written, none changed, came or went; those synced are in use afterwards, those cleared
      are not. */
  ghost predicate Moves(fs: Fs, fs': Fs, ws: seq<Write>) {
    && (forall n: nat {:trigger Concerns(ws, n)} :: !Concerns(ws, n) ==>
          (n in fs'.nodes <==> n in fs.nodes) && (n in fs.nodes ==> fs'.nodes[n] == fs.nodes[n]))
    && (forall i, j :: 0 <= i < j < |ws| ==> ws[i].n != ws[j].n)
    && (forall i :: 0 <= i < |ws| ==> ws[i].n < MAX_FILES && (ws[i].SyncNode? <==> ws[i].n in fs'.nodes))
  }

  /** What was there before and is synced has another size now. */
  ghost predicate Resized(fs: Fs, fs': Fs, ws: seq<Write>) {
    forall i :: 0 <= i < |ws| && ws[i].SyncNode? && ws[i].n in fs.nodes && ws[i].n in fs'.nodes ==>
      fs'.nodes[ws[i].n].size != fs.nodes[ws[i].n].size
  }

  lemma TwoWrites(w: Write, x: Write, n: nat)
    ensures Concerns([w, x], n) <==> n == w.n || n == x.n
  {
    assert [w, x][0] == w && [w, x][1] == x;
  }

  lemma OneWrite(w: Write, n: nat)
    ensures Concerns([w], n) <==> n == w.n
  {
    assert [w][0] == w;
  }

  lemma EntryMoves(fs: Fs, fs': Fs, p: nat, n: nat, d: Dir, e: Dir)
    requires fs'.nodes == fs.nodes[p := d][n := e] && p in fs.nodes && n !in fs.nodes && p < MAX_FILES && n < MAX_FILES
    requires d.size != fs.nodes[p].size
    ensures Moves(fs, fs', [SyncNode(p), SyncNode(n)]) && Resized(fs, fs', [SyncNode(p), SyncNode(n)])
  {
    forall m: nat ensures Concerns([SyncNode(p), SyncNode(n)], m) <==> m == p || m == n {
      TwoWrites(SyncNode(p), SyncNode(n), m);
    }
  }

  lemma InsertSize(d: Dir, v: Volume, e: Slot)
    requires Shaped(d, v.disk)
    ensures var r := Insert(d, v, e, false);
            r.v.base == v.base && |r.v.bits| == |v.bits| && (r.ok ==> r.d.size == d.size + ENTRY_SIZE)
  {
  }

  lemma CreateForm(fs: Fs, p: nat, a: string, stops: bool) returns (r: Insertion)
    requires p in fs.nodes && Shaped(fs.nodes[p], fs.v.disk)
    requires CreateFile(fs, p, a, stops).Next? && CreateFile(fs, p, a, stops).value.ok
    ensures InodeLeft(fs) && r == Insert(fs.nodes[p], fs.v, EntryOf(a, Kid(FirstClear(fs.ibits), false)), false) && r.ok
    ensures var n := FirstClear(fs.ibits);
            CreateFile(fs, p, a, stops).value.fs == Fs(r.v, fs.ibits[n := true], fs.nodes[p := r.d][n := EmptyInode])
  {
    r := Insert(fs.nodes[p], fs.v, EntryOf(a, Kid(FirstClear(fs.ibits), false)), false);
    hide Insert;
  }

  lemma MkdirForm(fs: Fs, p: nat, a: string, stops: bool) returns (v2: Volume, b: Blk, r: Insertion)
    requires p in fs.nodes && MakeDirOk(fs, p, a, stops)
    ensures InodeLeft(fs) && v2.base == fs.v.base && |v2.bits| == |fs.v.bits| && Shaped(fs.nodes[p], v2.disk)
    ensures r == Insert(fs.nodes[p], v2, EntryOf(a, Kid(FirstClear(fs.ibits), true)), false) && r.ok
    ensures var n := FirstClear(fs.ibits);
            MakeDir(fs, p, a, stops).value.fs == Fs(r.v, fs.ibits[n := true], fs.nodes[p := r.d][n := NewDir(b)])
  {
    b := Alloc(fs.v).value.1;
    v2 := DotsPut(fs.v, FirstClear(fs.ibits), p);
    r := Insert(fs.nodes[p], v2, EntryOf(a, Kid(FirstClear(fs.ibits), true)), false);
    hide Insert;
  }

  predicate MakeDirOk(fs: Fs, p: nat, a: string, stops: bool)
    requires p in fs.nodes
  {
    Shaped(fs.nodes[p], fs.v.disk) && MakeDir(fs, p, a, stops).Next? && MakeDir(fs, p, a, stops).value.ok
  }

  lemma NodesInRange(fs: Fs, t: Tree, p: nat)
    requires Rep(fs, t) && p in fs.nodes
    ensures p < MAX_FILES
  {
  }

  lemma CreateMoves(fs: Fs, t: Tree, names: seq<string>, stops: bool)
    requires Rep(fs, t) && CleanNames(names) && AllShaped(fs)
    requires Step(fs, Create(names), stops).Next? && Step(fs, Create(names), stops).value.ok
    ensures var fs' := Step(fs, Create(names), stops).value.fs; var ws := Writes(fs, Create(names), stops);
            Moves(fs, fs', ws) && Resized(fs, fs', ws) && fs'.v.base == fs.v.base && |fs'.v.bits| == |fs.v.bits|
  {
    hide Rep, FsSearch, CreateFile, Insert, Moves, Resized, FirstClear;
    var p, a := ParentOf(fs, t, names);
    var r := CreateForm(fs, p, a, stops);
    var n := FirstClear(fs.ibits);
    FreeInode(fs, t);
    NodesInRange(fs, t, p);
    InsertSize(fs.nodes[p], fs.v, EntryOf(a, Kid(n, false)));
    EntryMoves(fs, Step(fs, Create(names), stops).value.fs, p, n, r.d, EmptyInode);
  }

  lemma MkdirMoves(fs: Fs, t: Tree, names: seq<string>, stops: bool)
    requires Rep(fs, t) && CleanNames(names) && AllShaped(fs)
    requires Step(fs, Mkdir(names), stops).Next? && Step(fs, Mkdir(names), stops).value.ok
    ensures var fs' := Step(fs, Mkdir(names), stops).value.fs; var ws := Writes(fs, Mkdir(names), stops);
            Moves(fs, fs', ws) && Resized(fs, fs', ws) && fs'.v.base == fs.v.base && |fs'.v.bits| == |fs.v.bits|
  {
    hide Rep, FsSearch, MakeDir, Insert, Moves, Resized, FirstClear;
    var p, a := ParentOf(fs, t, names);
    var v2, b, r := MkdirForm(fs, p, a, stops);
    var n := FirstClear(fs.ibits);
    FreeInode(fs, t);
    NodesInRange(fs, t, p);
    InsertSize(fs.nodes[p], v2, EntryOf(a, Kid(n, true)));
    EntryMoves(fs, Step(fs, Mkdir(names), stops).value.fs, p, n, r.d, NewDir(b));
  }

  lemma {:induction false} FreeEachSame(v: Volume, blocks: seq<Blk>)
    requires FreeEach(v, blocks).Next?
    ensures FreeEach(v, blocks).value.base == v.base && |FreeEach(v, blocks).value.bits| == |v.bits|
    decreases |blocks|
  {
    if blocks != [] {
      FreeEachSame(if blocks[0] == 0 then v else v.Free(blocks[0]), blocks[1..]);
    }
  }

  lemma RemoveSize(fs: Fs, p: nat, n: nat)
    requires p in fs.nodes && n in fs.nodes && n < |fs.ibits| && Shaped(fs.nodes[p], fs.v.disk) && Remove(fs, p, n).Next?
    requires Delete(fs.nodes[p], fs.v, n).Next? && Delete(fs.nodes[p], fs.v, n).value.found
    ensures var fs' := Remove(fs, p, n).value; var x := Delete(fs.nodes[p], fs.v, n).value;
            && fs'.nodes == fs.nodes[p := x.d] - {n} && x.d.size + ENTRY_SIZE == fs.nodes[p].size
            && fs'.v.base == fs.v.base && |fs'.v.bits| == |fs.v.bits|
  {
    var x := Delete(fs.nodes[p], fs.v, n).value;
    var d := fs.nodes[n];
    DeleteSize(fs.nodes[p], fs.v, n);
    if d.table == 0 {
      FreeEachSame(x.v, d.direct);
    } else {
      FreeEachSame(x.v.Free(d.table), View(d, x.v.disk));
    }
  }

  lemma DeleteSize(d: Dir, v: Volume, ino: nat)
    requires Shaped(d, v.disk) && Delete(d, v, ino).Next?
    ensures var r := Delete(d, v, ino).value;
            && r.v.base == v.base && |r.v.bits| == |v.bits|
            && (r.found ==> r.d.size + ENTRY_SIZE == d.size)
  {
  }

  lemma CutMoves(fs: Fs, fs': Fs, p: nat, n: nat, d: Dir)
    requires fs'.nodes == fs.nodes[p := d] - {n} && p in fs.nodes && n in fs.nodes && p != n
    requires p < MAX_FILES && n < MAX_FILES && d.size != fs.nodes[p].size
    ensures Moves(fs, fs', [SyncNode(p), ClearSlot(n)]) && Resized(fs, fs', [SyncNode(p), ClearSlot(n)])
  {
    forall m: nat ensures Concerns([SyncNode(p), ClearSlot(n)], m) <==> m == p || m == n {
      TwoWrites(SyncNode(p), ClearSlot(n), m);
    }
  }

  lemma KidIsOther(fs: Fs, t: Tree, p: nat, a: string)
    requires Rep(fs, t) && Has(t, p, a)
    ensures p in fs.nodes && KidOf(t, p, a).ino in fs.nodes && KidOf(t, p, a).ino != p
  {
    assert KidOk(t, p, a);
  }

  lemma FindsKid(fs: Fs, t: Tree, p: nat, a: string)
    requires Rep(fs, t) && Has(t, p, a)
    ensures p in fs.nodes && Shaped(fs.nodes[p], fs.v.disk)
    ensures var r := Delete(fs.nodes[p], fs.v, KidOf(t, p, a).ino); r.Next? && r.value.found
  {
    KidsAreGood(t, p);
    var r := KidRemoved(fs.nodes, fs.v, t, p, a);
  }

  lemma RemoveMoves(fs: Fs, t: Tree, p: nat, a: string, n: nat)
    requires Rep(fs, t) && Has(t, p, a) && KidOf(t, p, a).ino == n && p in fs.nodes && n in fs.nodes && n < |fs.ibits|
    requires Shaped(fs.nodes[p], fs.v.disk) && Remove(fs, p, n).Next?
    ensures var fs' := Remove(fs, p, n).value; var ws := [SyncNode(p), ClearSlot(n)];
            Moves(fs, fs', ws) && Resized(fs, fs', ws) && fs'.v.base == fs.v.base && |fs'.v.bits| == |fs.v.bits|
  {
    hide Rep, Remove, Delete, Moves, Resized;
    KidIsOther(fs, t, p, a);
    FindsKid(fs, t, p, a);
    NodesInRange(fs, t, p);
    NodesInRange(fs, t, n);
    RemoveSize(fs, p, n);
    CutMoves(fs, Remove(fs, p, n).value, p, n, Delete(fs.nodes[p], fs.v, n).value.d);
  }

  lemma UnlinkMoves(fs: Fs, t: Tree, names: seq<string>, stops: bool)
    requires Rep(fs, t) && CleanNames(names) && AllShaped(fs)
    requires Step(fs, Unlink(names), stops).Next? && Step(fs, Unlink(names), stops).value.ok
    ensures var fs' := Step(fs, Unlink(names), stops).value.fs; var ws := Writes(fs, Unlink(names), stops);
            Moves(fs, fs', ws) && Resized(fs, fs', ws) && fs'.v.base == fs.v.base && |fs'.v.bits| == |fs.v.bits|
  {
    UnlinkStep(fs, t, names);
    SearchTree(fs, t, names);
    var s := FsSearch(fs, names);
    var a :| Has(t, s.parent, a) && KidOf(t, s.parent, a) == Kid(s.ino, s.isDir);
    hide Rep, Remove, Moves, Resized, FsSearch;
    RemoveMoves(fs, t, s.parent, a, s.ino);
  }

  lemma RmdirMoves(fs: Fs, t: Tree, names: seq<string>, stops: bool)
    requires Rep(fs, t) && CleanNames(names) && AllShaped(fs)
    requires Step(fs, Rmdir(names), stops).Next? && Step(fs, Rmdir(names), stops).value.ok
    ensures var fs' := Step(fs, Rmdir(names), stops).value.fs; var ws := Writes(fs, Rmdir(names), stops);
            Moves(fs, fs', ws) && Resized(fs, fs', ws) && fs'.v.base == fs.v.base && |fs'.v.bits| == |fs.v.bits|
  {
    RmdirStep(fs, t, names);
    SearchTree(fs, t, names);
    var s := FsSearch(fs, names);
    var a :| Has(t, s.parent, a) && KidOf(t, s.parent, a) == Kid(s.ino, s.isDir);
    hide Rep, Remove, Moves, Resized, FsSearch;
    RemoveMoves(fs, t, s.parent, a, s.ino);
  }

  // ---------------------------------------------------------------- appends

  /** file_write fails once the file's first block is in the inode in memory: nothing writes it to disk. */
  predicate Unsynced(fs: Fs, e: Event, stops: bool)
    requires AllShaped(fs)
  {
    e.Append? && !stops && Appendable(fs, e.names)
    && var d := fs.nodes[FsSearch(fs, e.names).ino];
    && d.size + e.count < BLOCK * MAX_BLOCKS && FirstNeed(d) == 1 == Room(fs.v) && Room(fs.v) < GrowNeed(d, e.count)
  }

  lemma AppendGrows(d: Dir, v: Volume, count: nat)
    requires FileInv(d, v) && v.Used(v.base) && Grow(d, v, count).Next?
    ensures var g := Grow(d, v, count).value; g.v.base == v.base && |g.v.bits| == |v.bits| && (g.ok ==> g.d.size == d.size)
  {
    GrowOutcome(d, v, count);
    if Grow(d, v, count).value.ok {
      AllocRoom(v);
      GrowKeeps(d, v, count);
    } else {
      GrowFailsInPlace(d, v, count);
    }
  }

  lemma AppendFailsWhole(d: Dir, v: Volume, count: nat)
    requires FileInv(d, v) && v.Used(v.base) && Grow(d, v, count).Next? && !Grow(d, v, count).value.ok
    requires !(d.size + count < BLOCK * MAX_BLOCKS && FirstNeed(d) < Room(v) < GrowNeed(d, count))
    ensures d.size + count < BLOCK * MAX_BLOCKS ==> Room(v) < GrowNeed(d, count)
    ensures if d.size + count < BLOCK * MAX_BLOCKS && FirstNeed(d) == 1 == Room(v)
            then var g := Grow(d, v, count).value.d; |g.direct| == DIRECT && g.direct[0] != 0 && d.direct[0] == 0
            else Grow(d, v, count).value.d == d
  {
    GrowOutcome(d, v, count);
    AllocRoom(v);
    if d.size + count < BLOCK * MAX_BLOCKS && Room(v) == FirstNeed(d) {
      BlocksForBound(d.size, count);
      var d1, v1 := FirstGrown(d, v);
      GrowUnfolds(d, v, count, d1, v1);
      ExtendOkIff(d1, v1, BlocksFor(d.size), BlocksFor(d.size + count));
      if d.direct[0] == 0 {
        AllocIsFresh(v);
      }
    }
  }

  lemma AppendMoves(fs: Fs, t: Tree, names: seq<string>, count: nat, stops: bool)
    requires Rep(fs, t) && CleanNames(names) && AllShaped(fs) && Step(fs, Append(names, count), stops).Next?
    ensures var r := Step(fs, Append(names, count), stops).value; var ws := Writes(fs, Append(names, count), stops);
            && r.fs.v.base == fs.v.base && |r.fs.v.bits| == |fs.v.bits|
            && (r.ok ==> Moves(fs, r.fs, ws) && (count > 0 ==> Resized(fs, r.fs, ws)))
  {
    if Appendable(fs, names) {
      var n := FileOf(fs, t, names);
      AppendGrows(fs.nodes[n], fs.v, count);
      NodesInRange(fs, t, n);
      forall m: nat ensures Concerns([SyncNode(n)], m) <==> m == n {
        OneWrite(SyncNode(n), m);
      }
    }
  }

  /** A call that fails and does not leak changes no inode, but for the block an append may have begun with. */
  lemma FailsWhole(fs: Fs, t: Tree, e: Event, stops: bool)
    requires Rep(fs, t) && Legal(e) && AllShaped(fs) && !Leaks(fs, e, stops)
    requires Step(fs, e, stops).Next? && !Step(fs, e, stops).value.ok
    ensures var fs' := Step(fs, e, stops).value.fs;
            && fs'.v.base == fs.v.base && |fs'.v.bits| == |fs.v.bits|
            && if Unsynced(fs, e, stops) then FirstTaken(fs, e, fs') else fs'.nodes == fs.nodes
  {
    match e
    case Create(names) => CreateOutcomeIff(fs, t, names, stops);
    case Mkdir(names) => MkdirOutcomeIff(fs, t, names, stops);
    case Unlink(names) =>
    case Rmdir(names) =>
    case Append(names, count) => AppendWhole(fs, t, names, count, stops);
  }

  /** The file now has a first block. */
  ghost predicate FirstTaken(fs: Fs, e: Event, fs': Fs) {
    && e.Append? && FsSearch(fs, e.names).Found?
    && var n := FsSearch(fs, e.names).ino;
    && n < MAX_FILES && n in fs.nodes && n in fs'.nodes
    && |fs.nodes[n].direct| == |fs'.nodes[n].direct| == DIRECT && fs.nodes[n].direct[0] != fs'.nodes[n].direct[0]
  }

  lemma AppendWhole(fs: Fs, t: Tree, names: seq<string>, count: nat, stops: bool)
    requires Rep(fs, t) && CleanNames(names) && AllShaped(fs) && !Leaks(fs, Append(names, count), stops)
    requires SysAppend(fs, names, count, stops).Next? && !SysAppend(fs, names, count, stops).value.ok
    ensures var fs' := SysAppend(fs, names, count, stops).value.fs;
            && fs'.v.base == fs.v.base && |fs'.v.bits| == |fs.v.bits|
            && if Unsynced(fs, Append(names, count), stops) then FirstTaken(fs, Append(names, count), fs') else fs'.nodes == fs.nodes
  {
    if Appendable(fs, names) {
      var n := FileOf(fs, t, names);
      var d := fs.nodes[n];
      NodesInRange(fs, t, n);
      GrowOutcome(d, fs.v, count);
      AppendGrows(d, fs.v, count);
      AppendFailsWhole(d, fs.v, count);
    }
  }

  // ---------------------------------------------------------------- one call and the table

  lemma StepMoves(fs: Fs, t: Tree, e: Event, stops: bool)
    requires Rep(fs, t) && Legal(e) && AllShaped(fs) && Step(fs, e, stops).Next? && Step(fs, e, stops).value.ok
    ensures var fs' := Step(fs, e, stops).value.fs; var ws := Writes(fs, e, stops);
            && fs'.v.base == fs.v.base && |fs'.v.bits| == |fs.v.bits|
            && Moves(fs, fs', ws) && (e.Append? && e.count == 0 ==> |ws| == 1) && (!(e.Append? && e.count == 0) ==> Resized(fs, fs', ws))
  {
    match e
    case Create(names) => CreateMoves(fs, t, names, stops);
    case Mkdir(names) => MkdirMoves(fs, t, names, stops);
    case Unlink(names) => UnlinkMoves(fs, t, names, stops);
    case Rmdir(names) => RmdirMoves(fs, t, names, stops);
    case Append(names, count) => AppendMoves(fs, t, names, count, stops);
  }

  lemma MovesOrderly(fs: Fs, fs': Fs, t': Tree, ws: seq<Write>)
    requires Moves(fs, fs', ws) && Rep(fs', t') && Addressable(fs'.v)
    ensures Orderly(fs', ws)
  {
    forall i | 0 <= i < |ws| ensures CanWrite(fs', ws[i]) {
      if ws[i].SyncNode? {
        NodeFits(fs', t', ws[i].n);
      }
    }
  }

  lemma UnsyncedFails(fs: Fs, t: Tree, e: Event, stops: bool)
    requires Rep(fs, t) && Legal(e) && AllShaped(fs) && Step(fs, e, stops).Next? && Unsynced(fs, e, stops)
    ensures !Step(fs, e, stops).value.ok
  {
    var n := FileOf(fs, t, e.names);
    GrowOutcome(fs.nodes[n], fs.v, e.count);
  }

  /** Where nothing was written the slots are as right as before. */
  lemma RestRight(fs: Fs, fs': Fs, disk: seq<T.byte>, lba: nat, ws: seq<Write>)
    requires Table(fs, disk, lba) && Moves(fs, fs', ws)
    ensures forall n :: 0 <= n < MAX_FILES && !Concerns(ws, n) ==> SlotRight(fs', disk, lba, n)
  {
    forall n | 0 <= n < MAX_FILES && !Concerns(ws, n) ensures SlotRight(fs', disk, lba, n) {
      assert SlotRight(fs, disk, lba, n);
    }
  }

  /** Number x does not fit: its slot has not what it is now. */
  lemma ResizedMissing(fs: Fs, disk: seq<T.byte>, lba: nat, fs': Fs, ws: seq<Write>, i: nat)
    requires Table(fs, disk, lba) && Orderly(fs', ws) && Resized(fs, fs', ws) && CanWriteAll(fs', ws)
    requires i < |ws| && ws[i].SyncNode? && ws[i].n >= 256 && (ws[i].n in fs.nodes ==> Fits(fs.nodes[ws[i].n]))
    ensures !Table(fs', AllWritten(disk, lba, fs', ws, true), lba)
  {
    var x := ws[i].n;
    assert CanWrite(fs', ws[i]);
    OthersClear(fs', ws, i);
    var disk' := AllWritten(disk, lba, fs', ws, true);
    assert T.HoldsTable(disk', lba);
    hide Table, Orderly, AllWritten, CanWriteAll, Fits;
    WritesMiss(disk, lba, fs', ws, x);
    StaleSlot(fs, disk, lba, fs', disk', x);
  }

  lemma OthersClear(fs: Fs, ws: seq<Write>, i: nat)
    requires Orderly(fs, ws) && i < |ws| && ws[i].SyncNode?
    ensures forall j :: 0 <= j < |ws| && ws[j].ClearSlot? ==> ws[j].n != ws[i].n
  {
  }

  lemma AloneMissing(disk: seq<T.byte>, lba: nat, fs: Fs, w: Write)
    requires T.HoldsTable(disk, lba) && CanWriteAll(fs, [w]) && w.SyncNode? && w.n >= 256
    ensures !Table(fs, AllWritten(disk, lba, fs, [w], true), lba)
  {
    assert [w][0] == w && [w][1..] == [];
    assert CanWrite(fs, [w][0]);
    var disk' := Written(disk, lba, fs, w, true);
    assert AllWritten(disk, lba, fs, [w], true) == disk';
    hide Table;
    WrittenIs(disk, lba, fs, w, true);
    ForeignSlot(fs, disk', lba, w.n);
  }

  lemma SucceedsIff(fs: Fs, disk: seq<T.byte>, lba: nat, fs': Fs, ws: seq<Write>, shipped: bool)
    requires Table(fs, disk, lba) && Moves(fs, fs', ws) && Orderly(fs', ws) && CanWriteAll(fs', ws)
    requires (forall n :: n in fs.nodes ==> Fits(fs.nodes[n])) && (Resized(fs, fs', ws) || |ws| == 1)
    ensures Table(fs', AllWritten(disk, lba, fs', ws, shipped), lba) <==> (shipped ==> SmallSyncs(ws))
  {
    assert T.HoldsTable(disk, lba);
    hide Table, Moves, Orderly, AllWritten, CanWriteAll, Resized, Fits, SlotRight, Concerns;
    if shipped ==> SmallSyncs(ws) {
      RestRight(fs, fs', disk, lba, ws);
      WritesReach(disk, lba, fs', ws, shipped);
    } else {
      var i :| 0 <= i < |ws| && ws[i].SyncNode? && ws[i].n >= 256;
      if Resized(fs, fs', ws) {
        ResizedMissing(fs, disk, lba, fs', ws, i);
      } else {
        assert ws == [ws[0]];
        AloneMissing(disk, lba, fs', ws[0]);
      }
    }
  }

  lemma FirstTakenMissing(fs: Fs, disk: seq<T.byte>, lba: nat, e: Event, fs': Fs)
    requires Table(fs, disk, lba) && FirstTaken(fs, e, fs')
    ensures !Table(fs', disk, lba)
  {
    var n := FsSearch(fs, e.names).ino;
    assert SlotRight(fs, disk, lba, n);
    OnDiskFirst(n, fs.nodes[n]);
    OnDiskFirst(n, fs'.nodes[n]);
    assert !SlotRight(fs', disk, lba, n);
  }

  lemma OnDiskFirst(n: nat, d: Dir)
    requires n < MAX_FILES
    ensures Fits(d) ==> OnDisk(n, d).sectors[0] == d.direct[0]
  {
  }

  lemma SameTable(fs: Fs, disk: seq<T.byte>, lba: nat, fs': Fs)
    requires Table(fs, disk, lba) && fs'.nodes == fs.nodes
    ensures Table(fs', disk, lba)
  {
    forall n | 0 <= n < MAX_FILES ensures SlotRight(fs', disk, lba, n) {
      assert SlotRight(fs, disk, lba, n);
    }
  }

  /** What a call that succeeds writes can be written. */
  lemma StepOrderly(fs: Fs, t: Tree, e: Event, stops: bool)
    requires Rep(fs, t) && Legal(e) && AllShaped(fs) && Addressable(fs.v) && !Leaks(fs, e, stops) && Step(fs, e, stops).Next?
    ensures Orderly(Step(fs, e, stops).value.fs, Writes(fs, e, stops)) && Addressable(Step(fs, e, stops).value.fs.v)
  {
    hide Rep, Leaks, Orderly, Moves, Resized, FirstTaken, Unsynced, Legal;
    StepKeeps(fs, t, e, stops);
    var fs' := Step(fs, e, stops).value.fs;
    var t' :| Rep(fs', t');
    if Step(fs, e, stops).value.ok {
      StepMoves(fs, t, e, stops);
      MovesOrderly(fs, fs', t', Writes(fs, e, stops));
    } else {
      FailsWhole(fs, t, e, stops);
      NoWrites(fs');
    }
  }

  lemma NoWrites(fs: Fs)
    ensures Orderly(fs, [])
  {
  }

  /** The inode table keeps up with a call, in that whoever opens an inode afterwards gets what the call
      left, exactly when the call is no append that fails with its first block taken, and, as inode_sync
      was shipped, every number it is given is below 256. */
  lemma TableKeepsIff(fs: Fs, t: Tree, disk: seq<T.byte>, lba: nat, e: Event, stops: bool, shipped: bool)
    requires Rep(fs, t) && Legal(e) && AllShaped(fs) && Addressable(fs.v) && Table(fs, disk, lba)
    requires !Leaks(fs, e, stops) && Step(fs, e, stops).Next?
    ensures CanWriteAll(Step(fs, e, stops).value.fs, Writes(fs, e, stops))
    ensures Table(Step(fs, e, stops).value.fs, AllWritten(disk, lba, Step(fs, e, stops).value.fs, Writes(fs, e, stops), shipped), lba)
            <==> !Unsynced(fs, e, stops) && (shipped ==> SmallSyncs(Writes(fs, e, stops)))
  {
    StepOrderly(fs, t, e, stops);
    var fs', ws := Step(fs, e, stops).value.fs, Writes(fs, e, stops);
    assert CanWriteAll(fs', ws);
    hide Rep, Leaks, Orderly, Moves, Resized, FirstTaken, Unsynced, Legal, Table, SmallSyncs, Step;
    if Step(fs, e, stops).value.ok {
      if Unsynced(fs, e, stops) {
        UnsyncedFails(fs, t, e, stops);
      }
      StepMoves(fs, t, e, stops);
      forall n | n in fs.nodes ensures Fits(fs.nodes[n]) {
        NodeFits(fs, t, n);
      }
      SucceedsIff(fs, disk, lba, fs', ws, shipped);
    } else {
      FailsWhole(fs, t, e, stops);
      NoneSynced(ws);
      if Unsynced(fs, e, stops) {
        FirstTakenMissing(fs, disk, lba, e, fs');
      } else {
        SameTable(fs, disk, lba, fs');
      }
    }
  }

  lemma NoneSynced(ws: seq<Write>)
    requires ws == []
    ensures SmallSyncs(ws)
  {
  }

  /** Such an append: an empty file, one sector left, and more than that to write. */
  lemma OneSectorLeft(v: Volume, count: nat)
    requires v.base > 0 && v.Used(v.base) && Room(v) == 1 && BLOCK <= count < BLOCK * MAX_BLOCKS
    ensures var r := Grow(EmptyInode, v, count);
            r.Next? && !r.value.ok && |r.value.d.direct| == DIRECT && r.value.d.direct[0] != 0 && Room(v) < GrowNeed(EmptyInode, count)
  {
    EmptyFile(v);
    GrowOutcome(EmptyInode, v, count);
    AppendFailsWhole(EmptyInode, v, count);
  }

  // ---------------------------------------------------------------- runs

  predicate AllSmall(fs: Fs) {
    forall n :: n in fs.nodes ==> n < 256
  }

  /** A call that takes an inode takes one with a number below 256. */
  predicate TakesSmall(fs: Fs, e: Event, stops: bool)
    requires AllShaped(fs) && Step(fs, e, stops).Next?
  {
    (e.Create? || e.Mkdir?) && Step(fs, e, stops).value.ok ==> FirstClear(fs.ibits) < 256
  }

  lemma ParentInUse(fs: Fs, e: Event, stops: bool)
    requires AllShaped(fs) && Step(fs, e, stops).Next? && Step(fs, e, stops).value.ok
    ensures var ws := Writes(fs, e, stops);
            && ws != [] && ws[0].SyncNode? && ws[0].n in fs.nodes
            && (|ws| > 1 ==> |ws| == 2 && (ws[1].ClearSlot? || ((e.Create? || e.Mkdir?) && ws[1].n == FirstClear(fs.ibits))))
  {
    hide CreateFile, MakeDir, Remove, FsSearch, GrowScan;
  }

  lemma SmallStep(fs: Fs, t: Tree, e: Event, stops: bool)
    requires Rep(fs, t) && Legal(e) && AllShaped(fs) && !Leaks(fs, e, stops) && !Unsynced(fs, e, stops)
    requires Step(fs, e, stops).Next? && AllSmall(fs) && TakesSmall(fs, e, stops)
    ensures SmallSyncs(Writes(fs, e, stops)) && AllSmall(Step(fs, e, stops).value.fs)
  {
    var fs', ws := Step(fs, e, stops).value.fs, Writes(fs, e, stops);
    hide Rep, Legal, Leaks, Unsynced, Resized, Step, FirstClear;
    if Step(fs, e, stops).value.ok {
      ParentInUse(fs, e, stops);
      StepMoves(fs, t, e, stops);
      forall n | n in fs'.nodes ensures n < 256 {
        if Concerns(ws, n) {
          var i :| 0 <= i < |ws| && ws[i].n == n;
        }
      }
    } else {
      FailsWhole(fs, t, e, stops);
    }
  }

  /** One call of a run with the table: no leak, no append that loses its first block, and with the shipped
      inode_sync no inode number from 256 on. */
  ghost predicate DiskStep(fs: Fs, disk: seq<T.byte>, lba: nat, e: Event, fs': Fs, disk': seq<T.byte>, stops: bool, shipped: bool) {
    && RunStep(fs, e, fs', stops) && !Unsynced(fs, e, stops) && (shipped ==> TakesSmall(fs, e, stops))
    && T.HoldsTable(disk, lba) && CanWriteAll(fs', Writes(fs, e, stops))
    && disk' == AllWritten(disk, lba, fs', Writes(fs, e, stops), shipped)
  }

  ghost predicate IsDiskRun(states: seq<Fs>, disks: seq<seq<T.byte>>, lba: nat, events: seq<Event>, stops: bool, shipped: bool) {
    && |states| == |disks| == |events| + 1
    && forall i :: 0 <= i < |events| ==>
         DiskStep(states[i], disks[i], lba, events[i], states[i + 1], disks[i + 1], stops, shipped)
  }

  /** partition_format writes the root's inode and zeros. */
  ghost predicate FormattedTable(disk: seq<T.byte>, lba: nat, root: Dir) {
    && T.HoldsTable(disk, lba) && Fits(root) && T.Slot(disk, lba, 0) == T.Encode(OnDisk(0, root))
    && forall n :: 0 < n < MAX_FILES ==> T.Slot(disk, lba, n) == T.Zeros(T.INODE_SIZE)
  }

  /** A formatted partition whose sectors have 32-bit addresses. */
  predicate Formattable(start: nat, secCnt: nat) {
    secCnt > Format.USED_SECTS && Format.Plan(start, secCnt).bits >= 8 && Addressable(Formatted(start, secCnt).v)
  }

  ghost predicate InStep(fs: Fs, disk: seq<T.byte>, lba: nat, shipped: bool) {
    Sound(fs) && Addressable(fs.v) && Table(fs, disk, lba) && (shipped ==> AllSmall(fs))
  }

  lemma FormattedInStep(start: nat, secCnt: nat, disk: seq<T.byte>, lba: nat, shipped: bool)
    requires Formattable(start, secCnt) && FormattedTable(disk, lba, NewDir(Formatted(start, secCnt).v.base))
    ensures InStep(Formatted(start, secCnt), disk, lba, shipped)
  {
    hide Rep;
    FormattedRep(start, secCnt);
    RootAlone(start, secCnt);
    RootSlot(Formatted(start, secCnt), disk, lba);
  }

  lemma RootAlone(start: nat, secCnt: nat)
    requires secCnt > Format.USED_SECTS
    ensures var fs := Formatted(start, secCnt); fs.nodes == map[0 := NewDir(fs.v.base)]
  {
  }

  lemma RootSlot(fs: Fs, disk: seq<T.byte>, lba: nat)
    requires fs.nodes == map[0 := NewDir(fs.v.base)] && FormattedTable(disk, lba, NewDir(fs.v.base))
    ensures Table(fs, disk, lba) && AllSmall(fs)
  {
    hide T.Decode, T.Encode, T.Slot, T.Zeros, OnDisk, Fits, T.HoldsTable, NewDir;
    T.DecodeEncode(OnDisk(0, fs.nodes[0]));
  }

  lemma DiskStepKeeps(fs: Fs, disk: seq<T.byte>, lba: nat, e: Event, fs': Fs, disk': seq<T.byte>, stops: bool, shipped: bool)
    requires InStep(fs, disk, lba, shipped) && DiskStep(fs, disk, lba, e, fs', disk', stops, shipped)
    ensures InStep(fs', disk', lba, shipped)
  {
    var t :| Rep(fs, t);
    hide Rep, Legal, Leaks, Unsynced, Step, Table, SmallSyncs, AllWritten, TakesSmall, Writes;
    StepKeeps(fs, t, e, stops);
    StepOrderly(fs, t, e, stops);
    if shipped {
      SmallStep(fs, t, e, stops);
    }
    TableKeepsIff(fs, t, disk, lba, e, stops, shipped);
  }

  /** Every state of such a run is sound, and the inode table on disk has every inode as it is in memory: with
      inode_sync as shipped while the run takes no inode number from 256 on, and as meant for all of them. */
  lemma {:induction false} RunsKeepTable(start: nat, secCnt: nat, states: seq<Fs>, disks: seq<seq<T.byte>>, lba: nat,
                                         events: seq<Event>, stops: bool, shipped: bool, i: nat)
    requires Formattable(start, secCnt) && IsDiskRun(states, disks, lba, events, stops, shipped) && i < |states|
    requires states[0] == Formatted(start, secCnt) && FormattedTable(disks[0], lba, NewDir(states[0].v.base))
    ensures Sound(states[i]) && Table(states[i], disks[i], lba) && InStep(states[i], disks[i], lba, shipped)
  {
    hide Formattable, FormattedTable, DiskStep, Table, Sound;
    if i == 0 {
      FormattedInStep(start, secCnt, disks[0], lba, shipped);
    } else {
      RunsKeepTable(start, secCnt, states, disks, lba, events, stops, shipped, i - 1);
      assert DiskStep(states[i - 1], disks[i - 1], lba, events[i - 1], states[i], disks[i], stops, shipped);
      DiskStepKeeps(states[i - 1], disks[i - 1], lba, events[i - 1], states[i], disks[i], stops, shipped);
    }
  }

  /** What the file number 256 of a directory meets. */
  ghost predicate LosesNumber(fs: Fs, e: Event, stops: bool) {
    && AllShaped(fs) && Step(fs, e, stops).Next? && Step(fs, e, stops).value.ok
    && var fs' := Step(fs, e, stops).value.fs;
    && CanWriteAll(fs', Writes(fs, e, stops))
    && forall disk: seq<T.byte>, lba: nat {:trigger Table(fs, disk, lba)} :: Table(fs, disk, lba) ==>
         && Table(fs', AllWritten(disk, lba, fs', Writes(fs, e, stops), false), lba)
         && !Table(fs', AllWritten(disk, lba, fs', Writes(fs, e, stops), true), lba)
  }

  /** Create 255 files, and the next one gets inode 256: as shipped, its slot is not written. */
  lemma NumberTooLarge(start: nat, secCnt: nat, names: seq<string>, stops: bool)
    returns (states: seq<Fs>, events: seq<Event>)
    requires Formattable(start, secCnt) && L.Roomy(start, secCnt) && L.Usable(names)
    ensures IsRun(states, events, stops) && |events| == 255 && states[0] == Formatted(start, secCnt)
    ensures LosesNumber(states[255], Create([names[255]]), stops)
  {
    var t;
    states, events, t := L.Creates(start, secCnt, names, 255, stops);
    var fs', t' := L.CreateOne(states[255], t, names, 255, stops);
    L.NextInode(states[255], t, names, 255);
    RunAddressable(start, secCnt, stops, states, events, 255);
    NumberLost(states[255], t, names[255], stops, fs');
  }

  lemma NumberLost(fs: Fs, t: Tree, a: string, stops: bool, fs': Fs)
    requires Rep(fs, t) && RunStep(fs, Create([a]), fs', stops) && Step(fs, Create([a]), stops) == Next(Result(true, fs'))
    requires FirstClear(fs.ibits) == 256 && Addressable(fs.v)
    ensures LosesNumber(fs, Create([a]), stops)
  {
    var e := Create([a]);
    hide Rep, FirstClear, Step, SlotRight, AllWritten, Leaks;
    StepOrderly(fs, t, e, stops);
    var ws := Writes(fs, e, stops);
    assert ws[1] == SyncNode(256);
    forall disk: seq<T.byte>, lba: nat | Table(fs, disk, lba)
      ensures Table(fs', AllWritten(disk, lba, fs', ws, false), lba) && !Table(fs', AllWritten(disk, lba, fs', ws, true), lba)
    {
      TableKeepsIff(fs, t, disk, lba, e, stops, false);
      TableKeepsIff(fs, t, disk, lba, e, stops, true);
    }
  }

  lemma {:induction false} RunAddressable(start: nat, secCnt: nat, stops: bool, states: seq<Fs>, events: seq<Event>, i: nat)
    requires Formattable(start, secCnt) && states != [] && states[0] == Formatted(start, secCnt)
    requires IsRun(states, events, stops) && i < |states|
    ensures Addressable(states[i].v)
  {
    hide Rep, Leaks, Step, Legal;
    if i > 0 {
      RunAddressable(start, secCnt, stops, states, events, i - 1);
      RunsAreSound(start, secCnt, stops, states, events, i - 1);
      var t :| Rep(states[i - 1], t);
      assert RunStep(states[i - 1], events[i - 1], states[i], stops);
      StepOrderly(states[i - 1], t, events[i - 1], stops);
    }
  }
}
