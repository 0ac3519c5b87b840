/** A run of create and unlink from a formatted partition after which the next create puts a second index
    table in place of the root's.  An entry takes 24 bytes, a sector 21 of them: 272 files fill the twelve
    direct sectors and block 12 and start block 13, and unlinking the 21 of block 12 leaves a gap there. */
module FsLeakRun {
  import opened Outcomes
  import opened BitSeq
  import opened Directory
  import opened DirInsert
  import opened DirDelete
  import opened DirHeads
  import opened DirEntries
  import opened DirSlots
  import opened FileGrowth
  import opened FsState
  import opened FileSystem
  import opened FsCalls
  import opened FsRuns
  import opened FsRemovals
  import opened Tree
  import Format

  /** The files whose entries lie in the direct sectors, behind "." and "..". */
  const IN_DIRECT := 250
  const FILES := 272

  /** The names of the files; the last one is for the create that goes wrong. */
  predicate Usable(names: seq<string>) {
    && |names| == FILES + 1 && (forall a :: a in names ==> GoodName(a))
    && forall i, j :: 0 <= i < j < |names| ==> names[i] != names[j]
  }

  /** Of the first hi files, those from number 250 up to lo are gone. */
  predicate Present(i: int, lo: nat, hi: nat) {
    0 <= i < hi && (i < IN_DIRECT || i >= lo)
  }

  function SlotOfFile(names: seq<string>, lo: nat, hi: nat, p: nat): Slot
    requires hi <= |names|
  {
    if p == 0 then Dot(0) else if p == 1 then DotDot(0)
    else if Present(p - 2, lo, hi) then EntryOf(names[p - 2], Kid(p - 1, false)) else Empty
  }

  ghost predicate RootHolds(fs: Fs, names: seq<string>, lo: nat, hi: nat)
    requires hi <= |names| && AllShaped(fs) && 0 in fs.nodes
  {
    forall j: nat, l: nat {:trigger SlotAt(fs.nodes[0], fs.v, j, l)} :: j < MAX_BLOCKS && l < PER_SECTOR ==>
      SlotAt(fs.nodes[0], fs.v, j, l) == SlotOfFile(names, lo, hi, PER_SECTOR * j + l)
  }

  ghost predicate KidsAre(t: Tree, names: seq<string>, lo: nat, hi: nat)
    requires hi <= |names|
  {
    && 0 in t.dirs
    && forall i :: 0 <= i < |names| ==>
         (names[i] in t.dirs[0].kids <==> Present(i, lo, hi))
         && (Present(i, lo, hi) ==> t.dirs[0].kids[names[i]] == Kid(i + 1, false))
  }

  ghost predicate NodesAre(fs: Fs, lo: nat, hi: nat) {
    && (forall n: nat :: n in fs.nodes <==> n == 0 || Present(n - 1, lo, hi))
    && (forall n: nat :: Present(n - 1, lo, hi) ==> fs.nodes[n] == EmptyInode)
  }

  /** The first hi files have been created, and files 250 up to lo unlinked again. */
  ghost predicate Filled(fs: Fs, t: Tree, names: seq<string>, lo: nat, hi: nat) {
    && Usable(names) && IN_DIRECT <= lo <= FILES && hi <= FILES
    && Rep(fs, t) && AllShaped(fs) && NodesAre(fs, lo, hi) && KidsAre(t, names, lo, hi) && RootHolds(fs, names, lo, hi)
  }

  // ---------------------------------------------------------------- one create

  lemma NameFacts(fs: Fs, t: Tree, names: seq<string>, lo: nat, hi: nat, i: nat)
    requires Filled(fs, t, names, lo, hi) && i < |names|
    ensures CleanNames([names[i]])
    ensures FsSearch(fs, [names[i]]) == if Present(i, lo, hi) then Found(i + 1, 0, false, 1) else Missing(0, 1)
  {
    assert names[i] in names;
    OneGoodName(names[i]);
    RootLookup(t, names[i]);
    SearchTree(fs, t, [names[i]]);
  }

  /** The next inode, while nothing has been unlinked. */
  lemma NextInode(fs: Fs, t: Tree, names: seq<string>, hi: nat)
    requires Filled(fs, t, names, IN_DIRECT, hi)
    ensures FirstClear(fs.ibits) == hi + 1 && InodeLeft(fs)
  {
    assert hi + 1 !in fs.nodes;
    assert !fs.ibits[hi + 1];
    forall n | 0 <= n <= hi ensures fs.ibits[n] {
      assert n in fs.nodes;
    }
  }

  lemma RootIsDir(fs: Fs, t: Tree)
    requires Rep(fs, t)
    ensures 0 in fs.nodes && 0 in t.dirs && DirRep(fs.nodes[0], fs.v, 0, t.dirs[0]) && Shaped(fs.nodes[0], fs.v.disk)
    ensures GoodKids(t.dirs[0].kids)
  {
    assert NodeRep(fs.nodes[0], fs.v, 0, t);
    KidsAreGood(t, 0);
  }

  lemma Position(p: nat)
    ensures p == PER_SECTOR * (p / PER_SECTOR) + p % PER_SECTOR && p % PER_SECTOR < PER_SECTOR
  {
  }

  lemma PositionOf(j: nat, l: nat)
    requires l < PER_SECTOR
    ensures (PER_SECTOR * j + l) / PER_SECTOR == j && (PER_SECTOR * j + l) % PER_SECTOR == l
  {
  }

  lemma FirstFreeIs(fs: Fs, t: Tree, names: seq<string>, lo: nat, hi: nat, p: nat)
    requires Filled(fs, t, names, lo, hi) && 2 <= p < PER_SECTOR * MAX_BLOCKS && !Present(p - 2, lo, hi)
    requires forall i :: 0 <= i < p - 2 ==> Present(i, lo, hi)
    ensures FirstFree(fs.nodes[0], fs.v, p / PER_SECTOR, p % PER_SECTOR)
  {
    Position(p);
    forall j: nat, l: nat | j < MAX_BLOCKS && l < PER_SECTOR && PER_SECTOR * j + l < p
      ensures SlotAt(fs.nodes[0], fs.v, j, l) != Empty
    {
    }
  }

  /** While nothing has been unlinked, there is no gap with a table behind it. */
  lemma NoGapYet(fs: Fs, t: Tree, names: seq<string>, hi: nat)
    requires Filled(fs, t, names, IN_DIRECT, hi)
    ensures !ReplacesTable(fs.nodes[0], fs.v, false)
  {
    RootIsDir(fs, t);
    var d := fs.nodes[0];
    if ReplacesTable(d, fs.v, false) {
      var i, k := TableHolds(d, fs.v);
      FirstFreeIs(fs, t, names, IN_DIRECT, hi, hi + 2);
      Position(hi + 2);
      StopsAtFirstFree(d, fs.v, (hi + 2) / PER_SECTOR, (hi + 2) % PER_SECTOR);
      assert false;
    }
  }

  /** The insertion goes through and does not leak. */
  lemma InsertGoes(fs: Fs, t: Tree, names: seq<string>, hi: nat)
    requires Filled(fs, t, names, IN_DIRECT, hi) && hi < FILES && Room(fs.v) >= 2
    ensures var d := fs.nodes[0]; var e := EntryOf(names[hi], Kid(hi + 1, false)); var r := Insert(d, fs.v, e, false);
            && r.ok && !ReplacesTable(d, fs.v, false) && !ShortOf(d, fs.v, Room(fs.v), false)
            && Room(r.v) + 2 >= Room(fs.v)
            && Shaped(r.d, r.v.disk)
            && OneSlot(d, fs.v, r.d, r.v, (hi + 2) / PER_SECTOR, (hi + 2) % PER_SECTOR, e)
  {
    var d, e := fs.nodes[0], EntryOf(names[hi], Kid(hi + 1, false));
    RootIsDir(fs, t);
    NoGapYet(fs, t, names, hi);
    FirstFreeIs(fs, t, names, IN_DIRECT, hi, hi + 2);
    assert Valid(d, fs.v);
    Position(hi + 2);
    hide Filled, Valid, FirstFree, ReplacesTable, DirRep, OneSlot;
    StopsAtFirstFree(d, fs.v, (hi + 2) / PER_SECTOR, (hi + 2) % PER_SECTOR);
    InsertOkIff(d, fs.v, e, false);
    InsertRoom(d, fs.v, e);
    InsertFillsFirst(d, fs.v, e, (hi + 2) / PER_SECTOR, (hi + 2) % PER_SECTOR);
  }

  lemma CreateIsLegal(fs: Fs, a: string, r: Insertion, n: nat, stops: bool) returns (fs': Fs)
    requires AllShaped(fs) && 0 in fs.nodes && CleanNames([a]) && GoodName(a) && FsSearch(fs, [a]) == Missing(0, 1)
    requires n == FirstClear(fs.ibits) && InodeLeft(fs) && r == Insert(fs.nodes[0], fs.v, EntryOf(a, Kid(n, false)), false)
    requires r.ok && !ReplacesTable(fs.nodes[0], fs.v, false) && !ShortOf(fs.nodes[0], fs.v, Room(fs.v), false)
    ensures fs' == Fs(r.v, fs.ibits[n := true], fs.nodes[0 := r.d][n := EmptyInode])
    ensures CreateFile(fs, 0, a, stops) == Next(Result(true, fs')) && RunStep(fs, Create([a]), fs', stops)
    ensures Step(fs, Create([a]), stops) == Next(Result(true, fs'))
  {
    hide FsSearch, Insert, ReplacesTable, ShortOf, CleanNames, FirstClear, CountClear;
    fs' := Fs(r.v, fs.ibits[n := true], fs.nodes[0 := r.d][n := EmptyInode]);
  }

  lemma NewName(fs: Fs, t: Tree, names: seq<string>, hi: nat)
    requires Filled(fs, t, names, IN_DIRECT, hi) && hi < FILES
    ensures hi < |names| && GoodName(names[hi]) && CanInsert(fs, t, 0, names[hi])
    ensures 0 in fs.nodes && Shaped(fs.nodes[0], fs.v.disk)
  {
    assert names[hi] in names;
  }

  /** file_create in the root directory. */
  lemma CreateGoes(fs: Fs, t: Tree, names: seq<string>, hi: nat, stops: bool) returns (fs': Fs)
    requires Filled(fs, t, names, IN_DIRECT, hi) && hi < FILES && Room(fs.v) >= 2
    ensures var r := Insert(fs.nodes[0], fs.v, EntryOf(names[hi], Kid(hi + 1, false)), false);
            && hi + 1 < |fs.ibits|
            && fs' == Fs(r.v, fs.ibits[hi + 1 := true], fs.nodes[0 := r.d][hi + 1 := EmptyInode])
            && Rep(fs', AddFile(t, 0, names[hi], hi + 1)) && AllShaped(fs')
    ensures RunStep(fs, Create([names[hi]]), fs', stops) && Step(fs, Create([names[hi]]), stops) == Next(Result(true, fs'))
  {
    hide Rep, CanInsert, ReplacesTable, ShortOf, FsSearch, OneSlot, RootHolds, KidsAre, NodesAre, Usable, Insert, CreateFile,
      RunStep, CountClear, FirstClear, CleanNames, GoodName;
    NewName(fs, t, names, hi);
    var a := names[hi];
    NameFacts(fs, t, names, IN_DIRECT, hi, hi);
    NextInode(fs, t, names, hi);
    InsertGoes(fs, t, names, hi);
    var r := Insert(fs.nodes[0], fs.v, EntryOf(a, Kid(hi + 1, false)), false);
    fs' := CreateIsLegal(fs, a, r, hi + 1, stops);
    CreateKeeps(fs, t, 0, a, stops);
    RepShaped(fs', AddFile(t, 0, a, hi + 1));
  }

  lemma CreateOne(fs: Fs, t: Tree, names: seq<string>, hi: nat, stops: bool) returns (fs': Fs, t': Tree)
    requires Filled(fs, t, names, IN_DIRECT, hi) && hi < FILES && Room(fs.v) >= 2
    ensures Filled(fs', t', names, IN_DIRECT, hi + 1) && Room(fs'.v) + 2 >= Room(fs.v)
    ensures RunStep(fs, Create([names[hi]]), fs', stops) && Step(fs, Create([names[hi]]), stops) == Next(Result(true, fs'))
  {
    assert Usable(names) && NodesAre(fs, IN_DIRECT, hi) && KidsAre(t, names, IN_DIRECT, hi);
    fs' := CreateGoes(fs, t, names, hi, stops);
    InsertGoes(fs, t, names, hi);
    t' := AddFile(t, 0, names[hi], hi + 1);
    MoreHeld(fs, names, hi, fs');
    MoreKids(t, names, hi);
    MoreNodes(fs, hi, fs');
    hide Rep, RunStep, OneSlot, AllShaped, RootHolds, KidsAre, NodesAre, Usable;
  }

  lemma MoreKids(t: Tree, names: seq<string>, hi: nat)
    requires Usable(names) && hi < FILES && KidsAre(t, names, IN_DIRECT, hi)
    ensures KidsAre(AddFile(t, 0, names[hi], hi + 1), names, IN_DIRECT, hi + 1)
  {
  }

  lemma MoreNodes(fs: Fs, hi: nat, fs': Fs)
    requires NodesAre(fs, IN_DIRECT, hi) && 0 in fs'.nodes
    requires fs'.nodes == fs.nodes[0 := fs'.nodes[0]][hi + 1 := EmptyInode]
    ensures NodesAre(fs', IN_DIRECT, hi + 1)
  {
  }

  lemma MoreHeld(fs: Fs, names: seq<string>, hi: nat, fs': Fs)
    requires AllShaped(fs) && AllShaped(fs') && 0 in fs.nodes && 0 in fs'.nodes && hi < |names|
    requires RootHolds(fs, names, IN_DIRECT, hi)
    requires OneSlot(fs.nodes[0], fs.v, fs'.nodes[0], fs'.v, (hi + 2) / PER_SECTOR, (hi + 2) % PER_SECTOR,
                     EntryOf(names[hi], Kid(hi + 1, false)))
    ensures RootHolds(fs', names, IN_DIRECT, hi + 1)
  {
    Position(hi + 2);
    forall j: nat, l: nat | j < MAX_BLOCKS && l < PER_SECTOR
      ensures SlotAt(fs'.nodes[0], fs'.v, j, l) == SlotOfFile(names, IN_DIRECT, hi + 1, PER_SECTOR * j + l)
    {
      PositionOf(j, l);
      assert SlotAt(fs.nodes[0], fs.v, j, l) == SlotOfFile(names, IN_DIRECT, hi, PER_SECTOR * j + l);
    }
  }

  // ---------------------------------------------------------------- one unlink

  lemma NoBlocks(v: Volume)
    ensures Release(EmptyInode, v) == Next(v)
  {
    NothingToFree(v, EmptyInode.direct);
  }

  lemma {:induction false} NothingToFree(v: Volume, blocks: seq<Blk>)
    requires forall i :: 0 <= i < |blocks| ==> blocks[i] == 0
    ensures FreeEach(v, blocks) == Next(v)
    decreases |blocks|
  {
    if blocks != [] {
      NothingToFree(v, blocks[1..]);
    }
  }

  /** The entry of file i is the only one with its inode number. */
  lemma NamedAt(fs: Fs, t: Tree, names: seq<string>, lo: nat, hi: nat, i: nat)
    requires Filled(fs, t, names, lo, hi) && Present(i, lo, hi)
    ensures OnlyNamedAt(fs.nodes[0], fs.v, i + 1, (i + 2) / PER_SECTOR, (i + 2) % PER_SECTOR)
    ensures CountNames(Live(fs.nodes[0], fs.v), i + 1) <= 1
  {
    RootIsDir(fs, t);
    KidIsOnlyOne(Live(fs.nodes[0], fs.v), 0, t.dirs[0], names[i]);
    Position(i + 2);
    forall j: nat, l: nat | j < MAX_BLOCKS && l < PER_SECTOR
      ensures Names(SlotAt(fs.nodes[0], fs.v, j, l), i + 1) <==> j == (i + 2) / PER_SECTOR && l == (i + 2) % PER_SECTOR
    {
      PositionOf(j, l);
      var p := PER_SECTOR * j + l;
      assert SlotAt(fs.nodes[0], fs.v, j, l) == SlotOfFile(names, lo, hi, p);
      PlainFile(names, lo, hi, p);
    }
  }

  lemma PlainFile(names: seq<string>, lo: nat, hi: nat, p: nat)
    requires Usable(names) && hi <= FILES
    ensures Plain(SlotOfFile(names, lo, hi, p)) <==> p >= 2 && Present(p - 2, lo, hi)
    ensures p >= 2 && Present(p - 2, lo, hi) ==> SlotOfFile(names, lo, hi, p).ino == p - 1
  {
    if p >= 2 && Present(p - 2, lo, hi) {
      assert names[p - 2] in names;
    }
  }

  lemma FileThere(fs: Fs, t: Tree, names: seq<string>, lo: nat, hi: nat, i: nat)
    requires Filled(fs, t, names, lo, hi) && Present(i, lo, hi)
    ensures i < |names| && Has(t, 0, names[i]) && KidOf(t, 0, names[i]) == Kid(i + 1, false)
    ensures 0 in fs.nodes && i + 1 in fs.nodes && fs.nodes[i + 1] == EmptyInode && Rep(fs, t) && AllShaped(fs)
    ensures Valid(fs.nodes[0], fs.v) && DotsFirst(fs.nodes[0], fs.v)
  {
    RootIsDir(fs, t);
  }

  /** delete_dir_entry and inode_release of a file without sectors. */
  lemma RemoveIs(fs: Fs, t: Tree, names: seq<string>, lo: nat, hi: nat, i: nat) returns (fs': Fs)
    requires Filled(fs, t, names, lo, hi) && Present(i, lo, hi)
    ensures i + 1 in fs.nodes && i + 1 < |fs.ibits| && Remove(fs, 0, i + 1) == Next(fs')
    ensures Has(t, 0, names[i]) && Rep(fs', Cut(t, 0, names[i])) && AllShaped(fs')
    ensures 0 in fs'.nodes && fs'.nodes == fs.nodes[0 := fs'.nodes[0]] - {i + 1}
    ensures OneSlot(fs.nodes[0], fs.v, fs'.nodes[0], fs'.v, (i + 2) / PER_SECTOR, (i + 2) % PER_SECTOR, Empty)
    ensures Room(fs'.v) >= Room(fs.v)
  {
    hide Filled, Rep, OnlyNamedAt, OneSlot, Valid, DotsFirst, Release, Delete, CountClear, CountNames;
    FileThere(fs, t, names, lo, hi, i);
    NamedAt(fs, t, names, lo, hi, i);
    Position(i + 2);
    RemoveKeeps(fs, t, 0, names[i]);
    DeleteClearsOne(fs.nodes[0], fs.v, i + 1, (i + 2) / PER_SECTOR, (i + 2) % PER_SECTOR);
    var x := Delete(fs.nodes[0], fs.v, i + 1).value;
    NoBlocks(x.v);
    fs' := Remove(fs, 0, i + 1).value;
    RepShaped(fs', Cut(t, 0, names[i]));
    DeleteRoom(fs.nodes[0], fs.v, i + 1);
  }

  lemma {:induction false} ClearedCounts(bits: seq<bool>, i: nat)
    requires i < |bits|
    ensures CountClear(bits[i := false]) >= CountClear(bits)
  {
    if i > 0 {
      ClearedCounts(bits[1..], i - 1);
      assert bits[i := false][1..] == bits[1..][i - 1 := false];
    } else {
      assert bits[0 := false][1..] == bits[1..];
    }
  }

  lemma FreeRoom(v: Volume, b: Blk)
    requires v.base <= b < v.base + |v.bits|
    ensures Room(v.Free(b)) >= Room(v)
  {
    ClearedCounts(v.bits, b - v.base);
  }

  lemma DeleteRoom(d: Dir, v: Volume, ino: nat)
    requires Shaped(d, v.disk) && Delete(d, v, ino).Next?
    ensures Room(Delete(d, v, ino).value.v) >= Room(v)
  {
    var blocks := View(d, v.disk);
    var i := FoundAt(v, blocks, ino, 0);
    if i < MAX_BLOCKS && v.base <= blocks[i] < v.base + |v.bits| {
      FreeRoom(v, blocks[i]);
      if v.base <= d.table < v.base + |v.bits| {
        FreeRoom(v.Free(blocks[i]), d.table);
      }
    }
  }

  /** The first of the files of block 12 that is still there is unlinked. */
  lemma UnlinkOne(fs: Fs, t: Tree, names: seq<string>, lo: nat, stops: bool) returns (fs': Fs, t': Tree)
    requires Filled(fs, t, names, lo, FILES) && lo < FILES
    ensures Filled(fs', t', names, lo + 1, FILES) && Room(fs'.v) >= Room(fs.v)
    ensures RunStep(fs, Unlink([names[lo]]), fs', stops)
  {
    assert Usable(names) && NodesAre(fs, lo, FILES) && KidsAre(t, names, lo, FILES) && RootHolds(fs, names, lo, FILES);
    fs' := RemoveIs(fs, t, names, lo, FILES, lo);
    NameFacts(fs, t, names, lo, FILES, lo);
    t' := Cut(t, 0, names[lo]);
    UnlinkIsLegal(fs, names[lo], lo + 1, fs', stops);
    FewerKids(t, names, lo);
    FewerNodes(fs, lo, fs');
    FewerHeld(fs, names, lo, fs');
    hide Rep, RunStep, OneSlot, AllShaped, RootHolds, KidsAre, NodesAre, Usable;
  }

  lemma UnlinkIsLegal(fs: Fs, a: string, n: nat, fs': Fs, stops: bool)
    requires AllShaped(fs) && 0 in fs.nodes && n in fs.nodes && n < |fs.ibits| && n != 0 && CleanNames([a])
    requires FsSearch(fs, [a]) == Found(n, 0, false, 1) && Remove(fs, 0, n) == Next(fs')
    ensures RunStep(fs, Unlink([a]), fs', stops)
  {
    hide FsSearch, Remove, CleanNames;
  }

  lemma FewerKids(t: Tree, names: seq<string>, lo: nat)
    requires Usable(names) && IN_DIRECT <= lo < FILES && KidsAre(t, names, lo, FILES) && Has(t, 0, names[lo])
    ensures KidsAre(Cut(t, 0, names[lo]), names, lo + 1, FILES)
  {
  }

  lemma FewerNodes(fs: Fs, lo: nat, fs': Fs)
    requires NodesAre(fs, lo, FILES) && IN_DIRECT <= lo < FILES && 0 in fs'.nodes
    requires fs'.nodes == fs.nodes[0 := fs'.nodes[0]] - {lo + 1}
    ensures NodesAre(fs', lo + 1, FILES)
  {
  }

  lemma FewerHeld(fs: Fs, names: seq<string>, lo: nat, fs': Fs)
    requires AllShaped(fs) && AllShaped(fs') && 0 in fs.nodes && 0 in fs'.nodes && FILES <= |names|
    requires RootHolds(fs, names, lo, FILES) && IN_DIRECT <= lo < FILES
    requires OneSlot(fs.nodes[0], fs.v, fs'.nodes[0], fs'.v, (lo + 2) / PER_SECTOR, (lo + 2) % PER_SECTOR, Empty)
    ensures RootHolds(fs', names, lo + 1, FILES)
  {
    Position(lo + 2);
    forall j: nat, l: nat | j < MAX_BLOCKS && l < PER_SECTOR
      ensures SlotAt(fs'.nodes[0], fs'.v, j, l) == SlotOfFile(names, lo + 1, FILES, PER_SECTOR * j + l)
    {
      PositionOf(j, l);
      assert SlotAt(fs.nodes[0], fs.v, j, l) == SlotOfFile(names, lo, FILES, PER_SECTOR * j + l);
    }
  }

  // ---------------------------------------------------------------- the run

  lemma FormattedIsFilled(start: nat, secCnt: nat, names: seq<string>)
    requires secCnt > Format.USED_SECTS && Format.Plan(start, secCnt).bits >= 8 && Usable(names)
    ensures Filled(Formatted(start, secCnt), Fresh(), names, IN_DIRECT, 0)
    ensures Room(Formatted(start, secCnt).v) >= Format.Plan(start, secCnt).bits - 1
  {
    var fs := Formatted(start, secCnt);
    FormattedRep(start, secCnt);
    FormattedBits(start, secCnt);
    RepShaped(fs, Fresh());
    forall i | 1 <= i < |fs.v.bits| ensures !fs.v.bits[i] {
      assert !fs.v.Used(fs.v.base + i);
    }
    AllClear(fs.v.bits[1..]);
    assert View(fs.nodes[0], fs.v.disk)[0] == fs.v.base;
    assert RootHolds(fs, names, IN_DIRECT, 0);
  }

  lemma {:induction false} AllClear(bits: seq<bool>)
    requires forall i :: 0 <= i < |bits| ==> !bits[i]
    ensures CountClear(bits) == |bits|
  {
    if bits != [] {
      AllClear(bits[1..]);
    }
  }

  /** The partition has room for what the run needs; no create takes more than two sectors. */
  const BLOCKS_WANTED := 2 * FILES + 8

  predicate Roomy(start: nat, secCnt: nat) {
    secCnt > Format.USED_SECTS && Format.Plan(start, secCnt).bits >= BLOCKS_WANTED
  }

  /** A run from the formatted partition; after i calls, fewer than 272, the first i files are there. */
  ghost predicate Run(start: nat, secCnt: nat, states: seq<Fs>, events: seq<Event>, stops: bool) {
    Roomy(start, secCnt) && IsRun(states, events, stops) && states != [] && states[0] == Formatted(start, secCnt)
  }

  lemma OneMore(start: nat, secCnt: nat, states: seq<Fs>, events: seq<Event>, e: Event, fs': Fs, stops: bool)
    requires Run(start, secCnt, states, events, stops) && RunStep(states[|events|], e, fs', stops)
    ensures Run(start, secCnt, states + [fs'], events + [e], stops)
  {
    hide RunStep, Roomy;
    var states', events' := states + [fs'], events + [e];
    forall i | 0 <= i < |events'| ensures RunStep(states'[i], events'[i], states'[i + 1], stops) {
      if i < |events| {
        assert RunStep(states[i], events[i], states[i + 1], stops);
      }
    }
  }

  lemma {:induction false} Creates(start: nat, secCnt: nat, names: seq<string>, hi: nat, stops: bool)
    returns (states: seq<Fs>, events: seq<Event>, t: Tree)
    requires Roomy(start, secCnt) && Usable(names) && hi <= FILES
    ensures Run(start, secCnt, states, events, stops) && |events| == hi
    ensures Filled(states[hi], t, names, IN_DIRECT, hi) && Room(states[hi].v) + 2 * hi >= BLOCKS_WANTED - 1
  {
    hide Filled, RunStep, Usable;
    if hi == 0 {
      FormattedIsFilled(start, secCnt, names);
      states, events, t := [Formatted(start, secCnt)], [], Fresh();
    } else {
      UsableLength(names);
      states, events, t := Creates(start, secCnt, names, hi - 1, stops);
      var fs', t' := CreateOne(states[hi - 1], t, names, hi - 1, stops);
      OneMore(start, secCnt, states, events, Create([names[hi - 1]]), fs', stops);
      states, events, t := states + [fs'], events + [Create([names[hi - 1]])], t';
    }
  }

  lemma UsableLength(names: seq<string>)
    requires Usable(names)
    ensures |names| == FILES + 1
  {
  }

  lemma {:induction false} Unlinks(start: nat, secCnt: nat, names: seq<string>, lo: nat, stops: bool)
    returns (states: seq<Fs>, events: seq<Event>, t: Tree)
    requires Roomy(start, secCnt) && Usable(names) && IN_DIRECT <= lo <= FILES
    ensures Run(start, secCnt, states, events, stops) && |events| == FILES + lo - IN_DIRECT
    ensures Filled(states[|events|], t, names, lo, FILES) && Room(states[|events|].v) >= 2
  {
    hide Filled, RunStep, Usable;
    if lo == IN_DIRECT {
      states, events, t := Creates(start, secCnt, names, FILES, stops);
    } else {
      UsableLength(names);
      states, events, t := Unlinks(start, secCnt, names, lo - 1, stops);
      var fs', t' := UnlinkOne(states[|events|], t, names, lo - 1, stops);
      OneMore(start, secCnt, states, events, Unlink([names[lo - 1]]), fs', stops);
      states, events, t := states + [fs'], events + [Unlink([names[lo - 1]])], t';
    }
  }

  /** With block 12 empty again and block 13 not, the root has a gap where its table would be replaced. */
  lemma GapThere(fs: Fs, t: Tree, names: seq<string>)
    requires Filled(fs, t, names, FILES - 1, FILES)
    ensures ReplacesTable(fs.nodes[0], fs.v, false) && ReplacesTable(fs.nodes[0], fs.v, true)
  {
    RootIsDir(fs, t);
    FirstFreeIs(fs, t, names, FILES - 1, FILES, PER_SECTOR * DIRECT);
    Position(PER_SECTOR * DIRECT);
    assert SlotAt(fs.nodes[0], fs.v, DIRECT + 1, 0) == SlotOfFile(names, FILES - 1, FILES, FILES + 1);
    GapAtTwelve(fs.nodes[0], fs.v, DIRECT + 1, 0);
  }

  lemma LeaksThere(fs: Fs, t: Tree, names: seq<string>, stops: bool)
    requires Filled(fs, t, names, FILES - 1, FILES) && Room(fs.v) >= 2
    ensures Leaks(fs, Create([names[FILES]]), stops) && !Stops(fs, Create([names[FILES]]), stops)
    ensures CleanNames([names[FILES]])
  {
    GapThere(fs, t, names);
    NameFacts(fs, t, names, FILES - 1, FILES, FILES);
    assert IN_DIRECT + 1 !in fs.nodes;
    assert !fs.ibits[IN_DIRECT + 1];
  }

  /** On any partition with room: create 272 files in the root directory and unlink those numbered 250 to
      270.  No call of this run leaks or stops; every state of it is sound.  The next create succeeds, and
      the root's old index table is then marked used while no inode refers to it. */
  lemma CreateReplacesTable(start: nat, secCnt: nat, names: seq<string>, stops: bool)
    returns (states: seq<Fs>, events: seq<Event>, fs': Fs)
    requires Roomy(start, secCnt) && Usable(names)
    ensures IsRun(states, events, stops) && |events| == FILES + 21 && states[0] == Formatted(start, secCnt)
    ensures var fs := states[|events|];
            && Sound(fs) && AllShaped(fs) && Legal(Create([names[FILES]])) && Leaks(fs, Create([names[FILES]]), stops)
            && Step(fs, Create([names[FILES]]), stops) == Next(Result(true, fs')) && !Sound(fs')
            && 0 in fs.nodes && Lost(fs', fs.nodes[0].table)
  {
    var t;
    states, events, t := Unlinks(start, secCnt, names, FILES - 1, stops);
    var fs := states[|events|];
    fs' := LosesTable(fs, t, names, stops);
  }

  lemma LosesTable(fs: Fs, t: Tree, names: seq<string>, stops: bool) returns (fs': Fs)
    requires Filled(fs, t, names, FILES - 1, FILES) && Room(fs.v) >= 2
    ensures Sound(fs) && AllShaped(fs) && Legal(Create([names[FILES]])) && Leaks(fs, Create([names[FILES]]), stops)
    ensures Step(fs, Create([names[FILES]]), stops) == Next(Result(true, fs')) && !Sound(fs')
    ensures 0 in fs.nodes && Lost(fs', fs.nodes[0].table)
  {
    assert AllShaped(fs) && Rep(fs, t) && 0 in fs.nodes;
    NameFacts(fs, t, names, FILES - 1, FILES, FILES);
    LeaksThere(fs, t, names, stops);
    hide Filled, Rep, FsSearch, Leaks, Lost, CleanNames;
    fs' := StillSucceeds(fs, t, names, stops);
    var x := CreateLoses(fs, t, [names[FILES]], stops);
    LostIsUnsound(fs', x);
  }

  lemma StillSucceeds(fs: Fs, t: Tree, names: seq<string>, stops: bool) returns (fs': Fs)
    requires Filled(fs, t, names, FILES - 1, FILES) && Room(fs.v) >= 2
    ensures Step(fs, Create([names[FILES]]), stops) == Next(Result(true, fs'))
  {
    var a := names[FILES];
    assert a in names && AllShaped(fs) && 0 in fs.nodes;
    NameFacts(fs, t, names, FILES - 1, FILES, FILES);
    LeaksThere(fs, t, names, stops);
    GapThere(fs, t, names);
    InsertOkIff(fs.nodes[0], fs.v, EntryOf(a, Kid(FirstClear(fs.ibits), false)), false);
    hide Filled, FsSearch, Insert, ReplacesTable;
    CreateOutcome(fs, 0, a, stops);
    fs' := SysCreate(fs, [a], stops).value.fs;
  }

  // ---------------------------------------------------------------- the shipped insertion

  lemma TableInUse(fs: Fs, t: Tree, names: seq<string>)
    requires Filled(fs, t, names, IN_DIRECT, IN_DIRECT + 1)
    ensures 0 in fs.nodes && Valid(fs.nodes[0], fs.v) && ReplacesTable(fs.nodes[0], fs.v, true)
  {
    RootIsDir(fs, t);
    var d := fs.nodes[0];
    Position(IN_DIRECT + 3);
    FirstFreeIs(fs, t, names, IN_DIRECT, IN_DIRECT + 1, IN_DIRECT + 3);
    StopsAtFirstFree(d, fs.v, DIRECT, 1);
    BlockSlots(d, fs.v, DIRECT);
    ViewMember(d, fs.v.disk, DIRECT);
    ShippedStops(d, fs.v);
  }

  /** Without the table loaded, 251 files are enough: the entry of the next one is written, and the directory
      has no more entries than before. */
  lemma ShippedLosesFile(start: nat, secCnt: nat, names: seq<string>, stops: bool)
    returns (states: seq<Fs>, events: seq<Event>, r: Insertion)
    requires Roomy(start, secCnt) && Usable(names)
    ensures IsRun(states, events, stops) && |events| == IN_DIRECT + 1 && states[0] == Formatted(start, secCnt)
    ensures var fs := states[|events|];
            && AllShaped(fs) && 0 in fs.nodes
            && r == Insert(fs.nodes[0], fs.v, EntryOf(names[IN_DIRECT + 1], Kid(IN_DIRECT + 2, false)), true)
            && r.ok && |Live(r.d, r.v)| <= |Live(fs.nodes[0], fs.v)|
  {
    var t;
    states, events, t := Creates(start, secCnt, names, IN_DIRECT + 1, stops);
    var fs := states[|events|];
    assert AllShaped(fs);
    TableInUse(fs, t, names);
    hide Filled, Valid, ReplacesTable, Live, AllShaped, IsRun, RunStep;
    var e := EntryOf(names[IN_DIRECT + 1], Kid(IN_DIRECT + 2, false));
    r := Insert(fs.nodes[0], fs.v, e, true);
    InsertFailsReplacing(fs.nodes[0], fs.v, e, true);
    ShippedInsertLosesEntries(fs.nodes[0], fs.v, e);
  }

  // ---------------------------------------------------------------- names

  function Numbered(i: nat): string
    requires i <= FILES
  {
    [('a' as int + i / 26) as char, ('a' as int + i % 26) as char]
  }

  /** There are such names. */
  lemma NamesExist()
    ensures Usable(seq(FILES + 1, i requires 0 <= i <= FILES => Numbered(i)))
  {
    var names := seq(FILES + 1, i requires 0 <= i <= FILES => Numbered(i));
    forall i | 0 <= i <= FILES ensures GoodName(Numbered(i)) {
    }
    forall i, j | 0 <= i < j < |names| ensures names[i] != names[j] {
      assert Numbered(i)[0] != Numbered(j)[0] || Numbered(i)[1] != Numbered(j)[1];
    }
  }
}
