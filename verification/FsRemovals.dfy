/** What sys_rmdir and sys_unlink take away: neither sys_rmdir nor dir_remove looks at the type of the inode,
    and neither call compares the depth that was searched with the depth of the path. */
module FsRemovals {
  import opened Outcomes
  import opened BitSeq
  import opened Directory
  import opened DirInsert
  import opened DirEntries
  import opened FileGrowth
  import opened FsState
  import opened FileSystem
  import opened FsCalls
  import opened FsRuns
  import opened Tree
  import Format

  // ---------------------------------------------------------------- sys_rmdir on a regular file

  ghost predicate EmptyDirAt(t: Tree, p: nat, a: string) {
    && Has(t, p, a) && KidOf(t, p, a).isDir
    && KidOf(t, p, a).ino in t.dirs && t.dirs[KidOf(t, p, a).ino].kids == map[]
  }

  /** fs' is the partition with one empty directory fewer. */
  ghost predicate LostEmptyDir(t: Tree, fs': Fs) {
    exists p, a :: EmptyDirAt(t, p, a) && Rep(fs', Cut(t, p, a))
  }

  predicate FindsSmallFile(fs: Fs, names: seq<string>) {
    var s := FsSearch(fs, names);
    s.Found? && !s.isDir && HasNode(fs, s.ino) && fs.nodes[s.ino].size == 2 * ENTRY_SIZE
  }

  /** sys_rmdir removes nothing but an empty directory exactly when what it finds is not a regular file of
      48 bytes, the size of a directory without children. */
  lemma RmdirOnlyDirsIff(fs: Fs, t: Tree, names: seq<string>)
    requires Rep(fs, t) && CleanNames(names) && AllShaped(fs) && names != []
    ensures SysRmdir(fs, names).Next?
    ensures (SysRmdir(fs, names).value.ok ==> LostEmptyDir(t, SysRmdir(fs, names).value.fs))
            <==> !FindsSmallFile(fs, names)
  {
    RmdirStep(fs, t, names);
    var s := FsSearch(fs, names);
    if s.Found? && HasNode(fs, s.ino) && fs.nodes[s.ino].size == 2 * ENTRY_SIZE {
      var a := RmdirRemoves(fs, t, names);
      if s.isDir {
        assert EmptyDirAt(t, s.parent, a);
      } else {
        NotADir(t, s.parent, a, SysRmdir(fs, names).value.fs);
      }
    }
  }

  lemma NotADir(t: Tree, p: nat, a: string, fs': Fs)
    requires TreeInv(t) && Has(t, p, a) && !KidOf(t, p, a).isDir && Rep(fs', Cut(t, p, a))
    ensures !LostEmptyDir(t, fs')
  {
    assert KidOk(t, p, a);
    var n := KidOf(t, p, a).ino;
    assert n !in Cut(t, p, a).dirs.Keys + Cut(t, p, a).files;
    forall q, b | EmptyDirAt(t, q, b) ensures n in Cut(t, q, b).dirs.Keys + Cut(t, q, b).files {
    }
  }

  lemma RootLookup(t: Tree, a: string)
    requires TreeInv(t) && GoodName(a)
    ensures SearchLoop(t, 0, 0, 0, [a], 0)
            == if a !in t.dirs[0].kids then Missing(0, 1)
               else if t.dirs[0].kids[a].isDir then Found(t.dirs[0].kids[a].ino, 0, true, 1)
               else Found(t.dirs[0].kids[a].ino, 0, false, 1)
  {
    assert [a][1..] == [];
    if a in t.dirs[0].kids {
      assert Has(t, 0, a) && KidOk(t, 0, a);
    }
  }

  lemma OneGoodName(a: string)
    requires GoodName(a)
    ensures CleanNames([a])
  {
  }

  /** On a freshly formatted partition: create a file in the root directory, write 48 bytes to it, and
      sys_rmdir removes it. */
  lemma RmdirTakesFile(start: nat, secCnt: nat, a: string, stops: bool) returns (fs1: Fs, fs2: Fs, fs3: Fs)
    requires secCnt > Format.USED_SECTS && Format.Plan(start, secCnt).bits >= 8 && GoodName(a)
    ensures AllShaped(Formatted(start, secCnt)) && AllShaped(fs1) && AllShaped(fs2)
    ensures Step(Formatted(start, secCnt), Create([a]), stops) == Next(Result(true, fs1))
    ensures Step(fs1, Append([a], 48), stops) == Next(Result(true, fs2))
    ensures FindsSmallFile(fs2, [a]) && Step(fs2, Rmdir([a]), stops) == Next(Result(true, fs3))
  {
    fs1 := CreateAtRoot(start, secCnt, a, stops);
    var t := AddFile(Fresh(), 0, a, 1);
    fs2 := AppendAtRoot(fs1, t, a, 1, stops);
    fs3 := RmdirAtRoot(fs2, t, a, 1, stops);
  }

  lemma RmdirAtRoot(fs2: Fs, t: Tree, a: string, n: nat, stops: bool) returns (fs3: Fs)
    requires Rep(fs2, t) && AllShaped(fs2) && GoodName(a) && Has(t, 0, a) && KidOf(t, 0, a) == Kid(n, false)
    requires HasNode(fs2, n) && fs2.nodes[n].size == 48
    ensures FindsSmallFile(fs2, [a]) && Step(fs2, Rmdir([a]), stops) == Next(Result(true, fs3))
  {
    RootLookup(t, a);
    OneGoodName(a);
    SearchTree(fs2, t, [a]);
    var b := RmdirRemoves(fs2, t, [a]);
    fs3 := SysRmdir(fs2, [a]).value.fs;
  }

  lemma CreateAtRoot(start: nat, secCnt: nat, a: string, stops: bool) returns (fs1: Fs)
    requires secCnt > Format.USED_SECTS && Format.Plan(start, secCnt).bits >= 8 && GoodName(a)
    ensures var fs := Formatted(start, secCnt);
            && AllShaped(fs) && AllShaped(fs1) && Step(fs, Create([a]), stops) == Next(Result(true, fs1))
            && Rep(fs1, AddFile(Fresh(), 0, a, 1)) && Room(fs1.v) > 0
            && 1 in fs1.nodes && fs1.nodes[1] == EmptyInode
  {
    var fs, t := Formatted(start, secCnt), Fresh();
    FormattedRep(start, secCnt);
    FormattedBits(start, secCnt);
    RepShaped(fs, t);
    OneGoodName(a);
    RootLookup(t, a);
    SearchTree(fs, t, [a]);
    var p, a' := ParentOf(fs, t, [a]);
    assert !fs.ibits[1] && FirstClear(fs.ibits) == 1;
    assert !fs.v.bits[1] by {
      assert !fs.v.Used(fs.v.base + 1);
    }
    AllocRoom(fs.v);
    RootHasRoom(fs.v);
    assert StopAt(fs.v, View(fs.nodes[0], fs.v.disk), 0) == 0;
    CreateOutcome(fs, 0, a, stops);
    fs1 := CreateFile(fs, 0, a, stops).value.fs;
    CreateKeeps(fs, t, 0, a, stops);
    RepShaped(fs1, AddFile(t, 0, a, 1));
  }

  lemma RootHasRoom(v: Volume)
    requires v.base > 0 && v.disk == map[v.base := Slots(DotSlots(0, 0))]
    ensures HasRoom(v, v.base) && View(NewDir(v.base), v.disk)[0] == v.base
  {
    assert DotSlots(0, 0)[2] == Empty;
  }

  lemma AppendAtRoot(fs1: Fs, t: Tree, a: string, n: nat, stops: bool) returns (fs2: Fs)
    requires Rep(fs1, t) && AllShaped(fs1) && GoodName(a) && Room(fs1.v) > 0
    requires Has(t, 0, a) && KidOf(t, 0, a) == Kid(n, false) && n in fs1.nodes && fs1.nodes[n] == EmptyInode
    ensures Step(fs1, Append([a], 48), stops) == Next(Result(true, fs2))
    ensures Rep(fs2, t) && AllShaped(fs2) && HasNode(fs2, n) && fs2.nodes[n].size == 48
  {
    OneGoodName(a);
    RootLookup(t, a);
    SearchTree(fs1, t, [a]);
    var m := FileOf(fs1, t, [a]);
    fs2 := WrittenOnce(fs1, t, n);
  }

  lemma WrittenOnce(fs1: Fs, t: Tree, n: nat) returns (fs2: Fs)
    requires Rep(fs1, t) && Room(fs1.v) > 0 && n in t.files && n in fs1.nodes && fs1.nodes[n] == EmptyInode
    requires FileInv(fs1.nodes[n], fs1.v) && fs1.v.Used(fs1.v.base)
    ensures Grow(fs1.nodes[n], fs1.v, 48).Next? && Grow(fs1.nodes[n], fs1.v, 48).value.ok
    ensures AfterGrowth(fs1, n, 48, Grow(fs1.nodes[n], fs1.v, 48).value) == Result(true, fs2)
    ensures Rep(fs2, t) && AllShaped(fs2) && HasNode(fs2, n) && fs2.nodes[n].size == 48
  {
    var g := FirstWrite(fs1.nodes[n], fs1.v);
    AppendKeeps(fs1, t, n, 48);
    fs2 := AfterGrowth(fs1, n, 48, g).fs;
    RepShaped(fs2, t);
  }

  lemma FirstWrite(d: Dir, v: Volume) returns (g: Growth)
    requires d == EmptyInode && FileInv(d, v) && v.Used(v.base) && Room(v) > 0
    ensures Grow(d, v, 48) == Next(g) && g.ok && g.d.size == 0
  {
    AllocRoom(v);
    GrowOutcome(d, v, 48);
    GrowKeeps(d, v, 48);
    g := Grow(d, v, 48).value;
  }

  // ---------------------------------------------------------------- behind a regular file

  /** sys_unlink and sys_rmdir on a path that goes on behind a regular file do to the file what they would
      do on the file's own path; for sys_unlink that is to remove it. */
  lemma UnlinkThroughFile(fs: Fs, t: Tree, front: seq<string>, rest: seq<string>) returns (p: nat, a: string)
    requires Rep(fs, t) && AllShaped(fs) && CleanNames(front + rest) && front != [] && LeadsToFile(t, 0, front)
    ensures SysUnlink(fs, front + rest) == SysUnlink(fs, front) && SysRmdir(fs, front + rest) == SysRmdir(fs, front)
    ensures Has(t, p, a) && KidOf(t, p, a) == Walk(t, 0, front).value
    ensures var r := SysUnlink(fs, front + rest); r.Next? && r.value.ok && Rep(r.value.fs, Cut(t, p, a))
  {
    FoundThrough(fs, t, front, rest);
    var s := FsSearch(fs, front);
    p := s.parent;
    a :| Has(t, p, a) && KidOf(t, p, a) == Kid(s.ino, s.isDir);
    RemoveKeeps(fs, t, p, a);
  }

  lemma FoundThrough(fs: Fs, t: Tree, front: seq<string>, rest: seq<string>)
    requires Rep(fs, t) && CleanNames(front + rest) && front != [] && LeadsToFile(t, 0, front)
    ensures var s := FsSearch(fs, front);
            && FsSearch(fs, front + rest) == s && s.Found? && s.ino != 0
            && Kid(s.ino, s.isDir) == Walk(t, 0, front).value
            && exists a :: Has(t, s.parent, a) && KidOf(t, s.parent, a) == Kid(s.ino, s.isDir)
  {
    forall s | s in front ensures s in front + rest {
    }
    SearchTree(fs, t, front);
    SearchTree(fs, t, front + rest);
    LoopStopsAtFile(t, 0, 0, 0, front, rest, 0);
    LoopStopsAtFile(t, 0, 0, 0, front, [], 0);
    assert front + [] == front;
  }
}
