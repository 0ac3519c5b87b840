/** The system calls that change the tree, and when one of them stops the machine. */
module FsCalls {
  import opened Outcomes
  import opened BitSeq
  import opened Directory
  import opened DirInsert
  import opened DirEntries
  import opened FileGrowth
  import opened FsState
  import opened FileSystem
  import opened Tree

  /** The names are the components of a washed path. */
  datatype Event =
    | Create(names: seq<string>)
    | Mkdir(names: seq<string>)
    | Unlink(names: seq<string>)
    | Rmdir(names: seq<string>)
    | Append(names: seq<string>, count: nat)

  predicate AllShaped(fs: Fs) {
    forall n | n in fs.nodes :: Shaped(fs.nodes[n], fs.v.disk)
  }

  predicate HasNode(fs: Fs, n: nat) {
    n in fs.nodes && n < |fs.ibits|
  }

  /** sys_open with O_CREAT, lines 397-445. */
  function SysCreate(fs: Fs, names: seq<string>, stops: bool): Outcome<Result>
    requires AllShaped(fs)
  {
    match FsSearch(fs, names)
    case Found(_, _, _, _) => Next(Result(false, fs))
    case Missing(p, depth) =>
      if depth != |names| || p !in fs.nodes then Next(Result(false, fs))
      else CreateFile(fs, p, names[depth - 1], stops)
  }

  function SysMkdir(fs: Fs, names: seq<string>, stops: bool): Outcome<Result>
    requires AllShaped(fs)
  {
    match FsSearch(fs, names)
    case Found(_, _, _, _) => Next(Result(false, fs))
    case Missing(p, depth) =>
      if depth != |names| || p !in fs.nodes then Next(Result(false, fs))
      else MakeDir(fs, p, names[depth - 1], stops)
  }

  function SysUnlink(fs: Fs, names: seq<string>): Outcome<Result>
    requires AllShaped(fs)
  {
    match FsSearch(fs, names)
    case Missing(_, _) => Next(Result(false, fs))
    case Found(n, p, isDir, _) =>
      if n == 0 then Halted
      else if isDir || p !in fs.nodes || !HasNode(fs, n) then Next(Result(false, fs))
      else
        var fs' :- Remove(fs, p, n);
        Next(Result(true, fs'))
  }

  /** The assertion of dir_remove fails. */
  predicate MoreSectors(d: Dir) {
    d.table != 0 || exists i :: 1 <= i < |d.direct| && d.direct[i] != 0
  }

  /** sys_rmdir and dir_remove: the file type is never looked at, only the size. */
  function SysRmdir(fs: Fs, names: seq<string>): Outcome<Result>
    requires AllShaped(fs)
  {
    match FsSearch(fs, names)
    case Missing(_, _) => Next(Result(false, fs))
    case Found(n, p, _, _) =>
      if n == 0 then Halted
      else if p !in fs.nodes || !HasNode(fs, n) || fs.nodes[n].size != 2 * ENTRY_SIZE then Next(Result(false, fs))
      else if MoreSectors(fs.nodes[n]) then Halted
      else
        var fs' :- Remove(fs, p, n);
        Next(Result(true, fs'))
  }

  /** The partition after a file_write to inode n: i_size only moves when the sectors are there, and what
      was taken before a failure is not given back. */
  function AfterGrowth(fs: Fs, n: nat, count: nat, g: Growth): Result {
    if g.ok then Result(true, fs.(v := g.v, nodes := fs.nodes[n := g.d.(size := g.d.size + count)]))
    else Result(false, fs.(v := g.v, nodes := fs.nodes[n := g.d]))
  }

  /** Opening an existing file and one file_write. */
  function SysAppend(fs: Fs, names: seq<string>, count: nat, stops: bool): Outcome<Result>
    requires AllShaped(fs)
  {
    match FsSearch(fs, names)
    case Missing(_, _) => Next(Result(false, fs))
    case Found(n, _, isDir, depth) =>
      if isDir || depth != |names| || n !in fs.nodes then Next(Result(false, fs))
      else
        var g :- GrowScan(fs.nodes[n], fs.v, count, stops);
        Next(AfterGrowth(fs, n, count, g))
  }

  /** `stops` says which bitmap_scan the calls run on: the shipped one stops the machine on a full map,
      the other answers -1. */
  function Step(fs: Fs, e: Event, stops: bool): Outcome<Result>
    requires AllShaped(fs)
  {
    match e
    case Create(names) => SysCreate(fs, names, stops)
    case Mkdir(names) => SysMkdir(fs, names, stops)
    case Unlink(names) => SysUnlink(fs, names)
    case Rmdir(names) => SysRmdir(fs, names)
    case Append(names, count) => SysAppend(fs, names, count, stops)
  }

  // ---------------------------------------------------------------- when a call stops, when it leaks

  /** Only the last name is missing. */
  predicate Creatable(fs: Fs, names: seq<string>) {
    var s := FsSearch(fs, names);
    s.Missing? && s.depth == |names| && s.parent in fs.nodes
  }

  predicate Appendable(fs: Fs, names: seq<string>) {
    var s := FsSearch(fs, names);
    s.Found? && !s.isDir && s.depth == |names| && s.ino in fs.nodes
  }

  predicate InodeLeft(fs: Fs) {
    FirstClear(fs.ibits) < |fs.ibits|
  }

  /** The calls that stop the machine: removing the root; an append that makes the file exactly 71680 bytes
      and gets its first sector; and, with the shipped scan, whatever finds a bitmap full. */
  ghost predicate Stops(fs: Fs, e: Event, stops: bool)
    requires AllShaped(fs)
  {
    match e
    case Create(names) =>
      && stops && Creatable(fs, names)
      && (!InodeLeft(fs) || ShortOf(fs.nodes[FsSearch(fs, names).parent], fs.v, Room(fs.v), false))
    case Mkdir(names) =>
      && stops && Creatable(fs, names)
      && (!InodeLeft(fs) || Room(fs.v) == 0
          || ShortOf(fs.nodes[FsSearch(fs, names).parent], fs.v, Room(fs.v) - 1, false))
    case Unlink(names) => names == []
    case Rmdir(names) => names == []
    case Append(names, count) =>
      && Appendable(fs, names)
      && var d := fs.nodes[FsSearch(fs, names).ino];
      if d.size + count == BLOCK * MAX_BLOCKS then stops || Room(fs.v) >= FirstNeed(d)
      else d.size + count < BLOCK * MAX_BLOCKS && stops && Room(fs.v) < GrowNeed(d, count)
  }

  /** The calls after which sectors are marked used that no inode refers to, or an inode no longer fits its
      size: an entry in a gap at block 12 of a directory that has an index table; a sys_mkdir whose entry
      finds no place; an append that runs out of sectors after the first block. */
  ghost predicate Leaks(fs: Fs, e: Event, stops: bool)
    requires AllShaped(fs)
  {
    match e
    case Create(names) =>
      && Creatable(fs, names) && InodeLeft(fs)
      && ReplacesTable(fs.nodes[FsSearch(fs, names).parent], fs.v, false) && Room(fs.v) >= (if stops then 2 else 1)
    case Mkdir(names) =>
      && Creatable(fs, names) && InodeLeft(fs) && Room(fs.v) >= 1
      && var d, left := fs.nodes[FsSearch(fs, names).parent], Room(fs.v) - 1;
      || DirFull(d, fs.v)
      || (!stops && ShortOf(d, fs.v, left, false))
      || (ReplacesTable(d, fs.v, false) && left >= 2)
    case Append(names, count) =>
      && !stops && Appendable(fs, names)
      && var d := fs.nodes[FsSearch(fs, names).ino];
      && d.size + count < BLOCK * MAX_BLOCKS && FirstNeed(d) < Room(fs.v) < GrowNeed(d, count)
    case _ => false
  }

  predicate CleanNames(names: seq<string>) {
    forall s :: s in names ==> GoodName(s)
  }

  ghost predicate Legal(e: Event) {
    match e
    case Create(names) => CleanNames(names)
    case Mkdir(names) => CleanNames(names)
    case Unlink(names) => CleanNames(names)
    case Rmdir(names) => CleanNames(names)
    case Append(names, _) => CleanNames(names)
  }

  /** Some tree describes the partition. */
  ghost predicate Sound(fs: Fs) {
    exists t :: Rep(fs, t)
  }

  lemma RepShaped(fs: Fs, t: Tree)
    requires Rep(fs, t)
    ensures AllShaped(fs)
  {
    forall n | n in fs.nodes ensures Shaped(fs.nodes[n], fs.v.disk) {
    }
  }

  /** search_file as the tree sees it. */
  lemma SearchTree(fs: Fs, t: Tree, names: seq<string>)
    requires Rep(fs, t) && CleanNames(names) && names != []
    ensures FsSearch(fs, names) == SearchLoop(t, 0, 0, 0, names, 0)
    ensures match FsSearch(fs, names)
            case Found(n, q, isDir, _) => n != 0 && exists a :: Has(t, q, a) && KidOf(t, q, a) == Kid(n, isDir)
            case Missing(q, d) =>
              q in t.dirs && 0 < d <= |names| && (d == |names| ==> names[d - 1] !in t.dirs[q].kids)
  {
    SearchAgrees(fs, t, 0, 0, 0, names, 0);
    SearchParent(t, 0, 0, 0, names, 0);
  }

  /** Where a new entry would go. */
  lemma ParentOf(fs: Fs, t: Tree, names: seq<string>) returns (p: nat, a: string)
    requires Rep(fs, t) && CleanNames(names) && Creatable(fs, names)
    ensures p == FsSearch(fs, names).parent && names != [] && a == names[|names| - 1] && CanInsert(fs, t, p, a)
    ensures p in fs.nodes && Shaped(fs.nodes[p], fs.v.disk) && NodeRep(fs.nodes[p], fs.v, p, t) && Valid(fs.nodes[p], fs.v)
  {
    SearchTree(fs, t, names);
    p, a := FsSearch(fs, names).parent, names[|names| - 1];
    assert a in names;
    assert NodeRep(fs.nodes[p], fs.v, p, t);
  }

  /** The file an append is about. */
  lemma FileOf(fs: Fs, t: Tree, names: seq<string>) returns (n: nat)
    requires Rep(fs, t) && CleanNames(names) && Appendable(fs, names)
    ensures n == FsSearch(fs, names).ino && n in fs.nodes && n in t.files && n !in t.dirs && n != 0
    ensures Shaped(fs.nodes[n], fs.v.disk) && FileInv(fs.nodes[n], fs.v) && fs.v.Used(fs.v.base)
  {
    SearchTree(fs, t, names);
    var s := FsSearch(fs, names);
    n := s.ino;
    var a :| Has(t, s.parent, a) && KidOf(t, s.parent, a) == Kid(s.ino, s.isDir);
    assert KidOk(t, s.parent, a);
    assert NodeRep(fs.nodes[n], fs.v, n, t);
    NotRootBlock(fs.nodes, fs.v, t, n);
  }

  // ---------------------------------------------------------------- a sector taken for "." and ".."

  lemma {:induction false} StopFrame(v: Volume, v': Volume, blocks: seq<Blk>, i: nat)
    requires i <= |blocks| && forall b :: b in blocks && b != 0 ==> HasRoom(v', b) == HasRoom(v, b)
    ensures StopAt(v', blocks, i) == StopAt(v, blocks, i)
    decreases |blocks| - i
  {
    if i < |blocks| {
      assert blocks[i] in blocks;
      StopFrame(v, v', blocks, i + 1);
    }
  }

  /** It is none of the parent's, so the entry goes where it would have gone before. */
  lemma AfterDots(d: Dir, v: Volume, n: nat, p: nat)
    requires Valid(d, v) && Room(v) > 0
    ensures Alloc(v).Some? && Shaped(d, DotsPut(v, n, p).disk)
    ensures var v2 := DotsPut(v, n, p);
            && Room(v2) == Room(v) - 1 && DirFull(d, v2) == DirFull(d, v)
            && ReplacesTable(d, v2, false) == ReplacesTable(d, v, false)
            && forall room :: ShortOf(d, v2, room, false) == ShortOf(d, v, room, false)
  {
    AllocRoom(v);
    AllocIsFresh(v);
    var v2 := DotsPut(v, n, p);
    assert View(d, v2.disk) == View(d, v.disk);
    forall b | b in View(d, v.disk) && b != 0 ensures HasRoom(v2, b) == HasRoom(v, b) {
      assert SectorOk(v, b);
    }
    StopFrame(v, v2, View(d, v.disk), 0);
    DirFullIff(d, v);
    DirFullIff(d, v2);
  }

  /** sys_mkdir from the allocation of the inode on. */
  lemma MkdirOutcome(fs: Fs, t: Tree, p: nat, a: string, stops: bool)
    requires CanInsert(fs, t, p, a) && p in fs.nodes && Valid(fs.nodes[p], fs.v) && InodeLeft(fs) && Room(fs.v) > 0
    ensures var d, left := fs.nodes[p], Room(fs.v) - 1;
            && MakeDir(fs, p, a, stops).Halted? == (stops && ShortOf(d, fs.v, left, false))
            && (MakeDir(fs, p, a, stops).Next? ==>
                  MakeDir(fs, p, a, stops).value.ok == !(DirFull(d, fs.v) || ShortOf(d, fs.v, left, false)))
  {
    AfterDots(fs.nodes[p], fs.v, FirstClear(fs.ibits), p);
    MakeDirUnfolds(fs, t, p, a, stops);
    var v2 := DotsPut(fs.v, FirstClear(fs.ibits), p);
    InsertOkIff(fs.nodes[p], v2, EntryOf(a, Kid(FirstClear(fs.ibits), true)), false);
    DirFullIff(fs.nodes[p], v2);
  }

  lemma CreateOutcome(fs: Fs, p: nat, a: string, stops: bool)
    requires p in fs.nodes && Shaped(fs.nodes[p], fs.v.disk) && |a| <= NAME_ROOM
    ensures CreateFile(fs, p, a, stops).Halted? == (stops && (!InodeLeft(fs) || ShortOf(fs.nodes[p], fs.v, Room(fs.v), false)))
  {
  }

  // ---------------------------------------------------------------- what a call stops on

  lemma CreateHalts(fs: Fs, t: Tree, names: seq<string>, stops: bool)
    requires Rep(fs, t) && CleanNames(names) && AllShaped(fs)
    ensures SysCreate(fs, names, stops).Halted? <==> Stops(fs, Create(names), stops)
  {
    if Creatable(fs, names) {
      var p, a := ParentOf(fs, t, names);
      CreateOutcome(fs, p, a, stops);
    }
  }

  lemma MkdirHalts(fs: Fs, t: Tree, names: seq<string>, stops: bool)
    requires Rep(fs, t) && CleanNames(names) && AllShaped(fs)
    ensures SysMkdir(fs, names, stops).Halted? <==> Stops(fs, Mkdir(names), stops)
  {
    if Creatable(fs, names) {
      var p, a := ParentOf(fs, t, names);
      AllocRoom(fs.v);
      if InodeLeft(fs) && Room(fs.v) > 0 {
        MkdirOutcome(fs, t, p, a, stops);
      }
    }
  }

  lemma AppendHalts(fs: Fs, t: Tree, names: seq<string>, count: nat, stops: bool)
    requires Rep(fs, t) && CleanNames(names) && AllShaped(fs)
    ensures SysAppend(fs, names, count, stops).Halted? <==> Stops(fs, Append(names, count), stops)
  {
    if Appendable(fs, names) {
      var n := FileOf(fs, t, names);
      GrowOutcome(fs.nodes[n], fs.v, count);
    }
  }

  lemma UnlinkStep(fs: Fs, t: Tree, names: seq<string>)
    requires Rep(fs, t) && CleanNames(names) && AllShaped(fs)
    ensures SysUnlink(fs, names).Halted? <==> names == []
    ensures names != [] ==> Sound(SysUnlink(fs, names).value.fs)
  {
    if names != [] {
      SearchTree(fs, t, names);
      var s := FsSearch(fs, names);
      if s.Found? && !s.isDir {
        var a :| Has(t, s.parent, a) && KidOf(t, s.parent, a) == Kid(s.ino, s.isDir);
        RemoveKeeps(fs, t, s.parent, a);
      }
    }
    assert Rep(fs, t);
  }

  lemma RmdirStep(fs: Fs, t: Tree, names: seq<string>)
    requires Rep(fs, t) && CleanNames(names) && AllShaped(fs)
    ensures SysRmdir(fs, names).Halted? <==> names == []
    ensures names != [] ==> Sound(SysRmdir(fs, names).value.fs)
  {
    if names != [] {
      SearchTree(fs, t, names);
      var s := FsSearch(fs, names);
      if s.Found? && HasNode(fs, s.ino) && fs.nodes[s.ino].size == 2 * ENTRY_SIZE {
        var a := RmdirRemoves(fs, t, names);
      }
    }
    assert Rep(fs, t);
  }

  /** Whatever sys_rmdir finds with a size of two entries is removed. */
  lemma RmdirRemoves(fs: Fs, t: Tree, names: seq<string>) returns (a: string)
    requires Rep(fs, t) && CleanNames(names) && AllShaped(fs) && names != []
    requires var s := FsSearch(fs, names); s.Found? && HasNode(fs, s.ino) && fs.nodes[s.ino].size == 2 * ENTRY_SIZE
    ensures var s := FsSearch(fs, names);
            && Has(t, s.parent, a) && KidOf(t, s.parent, a) == Kid(s.ino, s.isDir)
            && (s.isDir ==> s.ino in t.dirs && t.dirs[s.ino].kids == map[])
            && SysRmdir(fs, names).Next? && SysRmdir(fs, names).value.ok
            && Rep(SysRmdir(fs, names).value.fs, Cut(t, s.parent, a))
  {
    SearchTree(fs, t, names);
    var s := FsSearch(fs, names);
    a :| Has(t, s.parent, a) && KidOf(t, s.parent, a) == Kid(s.ino, s.isDir);
    SmallNode(fs, t, s.ino, s.isDir, s.parent, a);
    RemoveKeeps(fs, t, s.parent, a);
  }

  /** What rmdir sees as empty has one sector: an empty directory, or a regular file of 48 bytes. */
  lemma SmallNode(fs: Fs, t: Tree, n: nat, isDir: bool, p: nat, a: string)
    requires Rep(fs, t) && Has(t, p, a) && KidOf(t, p, a) == Kid(n, isDir)
    requires n in fs.nodes && fs.nodes[n].size == 2 * ENTRY_SIZE
    ensures fs.nodes[n].table == 0 && |fs.nodes[n].direct| == DIRECT
    ensures forall i :: 1 <= i < DIRECT ==> fs.nodes[n].direct[i] == 0
    ensures isDir ==> n in t.dirs && t.dirs[n].kids == map[]
  {
    assert KidOk(t, p, a);
    var d := fs.nodes[n];
    assert NodeRep(d, fs.v, n, t);
    if isDir {
      EmptyIffNoKids(d, fs.v, n, t.dirs[n]);
      NoKidsOneSector(d, fs.v, n, t.dirs[n]);
    } else {
      SmallFile(d, fs.v);
    }
  }

  lemma SmallFile(d: Dir, v: Volume)
    requires FileInv(d, v) && d.size == 2 * ENTRY_SIZE
    ensures d.table == 0 && forall i :: 1 <= i < DIRECT ==> d.direct[i] == 0
  {
    forall i | 1 <= i < DIRECT ensures d.direct[i] == 0 {
      ViewMember(d, v.disk, i);
    }
  }

  /** No call stops the machine for any other reason: in particular no assertion of delete_dir_entry,
      dir_remove or inode_release ever fires. */
  lemma HaltsIff(fs: Fs, t: Tree, e: Event, stops: bool)
    requires Rep(fs, t) && Legal(e) && AllShaped(fs)
    ensures Step(fs, e, stops).Halted? <==> Stops(fs, e, stops)
  {
    match e
    case Create(names) => CreateHalts(fs, t, names, stops);
    case Mkdir(names) => MkdirHalts(fs, t, names, stops);
    case Unlink(names) => UnlinkStep(fs, t, names);
    case Rmdir(names) => RmdirStep(fs, t, names);
    case Append(names, count) => AppendHalts(fs, t, names, count, stops);
  }
}
