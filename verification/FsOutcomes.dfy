/** What each system call answers and does, in terms of where its path leads in the tree. */
module FsOutcomes {
  import opened Outcomes
  import opened BitSeq
  import opened Directory
  import opened DirInsert
  import opened DirDelete
  import opened DirEntries
  import opened FileGrowth
  import opened FsState
  import opened FileSystem
  import opened FsCalls
  import opened FsRuns
  import opened Tree

  // ---------------------------------------------------------------- search_file and Walk

  function Front(names: seq<string>): seq<string>
    requires names != []
  {
    names[..|names| - 1]
  }

  function Last(names: seq<string>): string
    requires names != []
  {
    names[|names| - 1]
  }

  /** All names but the last lead to a directory. */
  predicate HasPlace(t: Tree, p: nat, names: seq<string>) {
    names != [] && var k := Walk(t, p, Front(names)); k.Some? && k.value.isDir && k.value.ino in t.dirs
  }

  /** That directory. */
  function Place(t: Tree, p: nat, names: seq<string>): nat
    requires HasPlace(t, p, names)
  {
    Walk(t, p, Front(names)).value.ino
  }

  /** There is a directory for the last name, and the name is new in it. */
  predicate NewName(t: Tree, p: nat, names: seq<string>) {
    HasPlace(t, p, names) && Last(names) !in t.dirs[Place(t, p, names)].kids
  }

  lemma {:induction false} MissingLast(t: Tree, p: nat, parent: nat, last: nat, names: seq<string>, depth: nat)
    requires TreeInv(t) && p in t.dirs && names != [] && Plains(names)
    ensures var r := SearchLoop(t, p, parent, last, names, depth);
            && (r.Missing? && r.depth == depth + |names| <==> NewName(t, p, names))
            && (NewName(t, p, names) ==> r.parent == Place(t, p, names))
    decreases names
  {
    var a := names[0];
    assert a in names && forall s :: s in names[1..] ==> s in names;
    if |names| > 1 {
      assert Front(names)[0] == a && Front(names)[1..] == Front(names[1..]);
      if a in t.dirs[p].kids && t.dirs[p].kids[a].isDir {
        var n := t.dirs[p].kids[a].ino;
        LookupIsDir(t, p, a);
        MissingLast(t, n, p, n, names[1..], depth + 1);
        assert Last(names) == Last(names[1..]);
      }
    }
  }

  /** The first k names lead to inode n, which the last of them names in its directory. */
  predicate LeadsTo(t: Tree, p: nat, names: seq<string>, k: nat, parent: nat, kid: Kid) {
    && 0 < k <= |names|
    && Walk(t, p, names[..k]) == Some(kid) && Walk(t, p, names[..k - 1]) == Some(Kid(parent, true))
    && Has(t, parent, names[k - 1]) && KidOf(t, parent, names[k - 1]) == kid
  }

  lemma {:induction false} FoundLeads(t: Tree, p: nat, parent: nat, last: nat, names: seq<string>, depth: nat) returns (k: nat)
    requires TreeInv(t) && p in t.dirs && names != [] && Plains(names) && SearchLoop(t, p, parent, last, names, depth).Found?
    ensures var r := SearchLoop(t, p, parent, last, names, depth);
            LeadsTo(t, p, names, k, r.parent, Kid(r.ino, r.isDir)) && (r.isDir ==> k == |names|)
    decreases names
  {
    var a := names[0];
    assert a in names && forall s :: s in names[1..] ==> s in names;
    var kid := KidOf(t, p, a);
    if kid.isDir {
      LookupIsDir(t, p, a);
    }
    if kid.isDir && |names| > 1 {
      k := FoundLeads(t, kid.ino, p, kid.ino, names[1..], depth + 1);
      assert names[..k + 1][0] == a && names[..k + 1][1..] == names[1..][..k];
      assert names[..k][0] == a && names[..k][1..] == names[1..][..k - 1];
      k := k + 1;
    } else {
      k := 1;
      assert names[..1] == [a] && [a][1..] == [];
    }
  }

  lemma CleanIsPlain(names: seq<string>)
    requires CleanNames(names)
    ensures Plains(names)
  {
  }

  /** The calls see a new name exactly where the tree has a directory for it and lacks it. */
  lemma CreatableIff(fs: Fs, t: Tree, names: seq<string>)
    requires Rep(fs, t) && CleanNames(names)
    ensures Creatable(fs, names) <==> NewName(t, 0, names)
    ensures Creatable(fs, names) ==> FsSearch(fs, names).parent == Place(t, 0, names)
  {
    if names != [] {
      SearchTree(fs, t, names);
      CleanIsPlain(names);
      MissingLast(t, 0, 0, 0, names, 0);
    }
  }

  lemma FoundAt(fs: Fs, t: Tree, names: seq<string>) returns (k: nat)
    requires Rep(fs, t) && CleanNames(names) && names != [] && FsSearch(fs, names).Found?
    ensures var s := FsSearch(fs, names);
            LeadsTo(t, 0, names, k, s.parent, Kid(s.ino, s.isDir)) && (s.isDir ==> k == |names|) && s.ino != 0
  {
    SearchTree(fs, t, names);
    CleanIsPlain(names);
    k := FoundLeads(t, 0, 0, 0, names, 0);
  }

  /** Behind a regular file the search stops, so what k names lead to is what is found. */
  lemma FileIsFound(fs: Fs, t: Tree, names: seq<string>, k: nat)
    requires Rep(fs, t) && CleanNames(names) && FileAt(t, 0, names, k)
    ensures var s := FsSearch(fs, names); s.Found? && Walk(t, 0, names[..k]) == Some(Kid(s.ino, s.isDir))
  {
    SearchTree(fs, t, names);
    assert names == names[..k] + names[k..];
    LoopStopsAtFile(t, 0, 0, 0, names[..k], names[k..], 0);
  }

  lemma FileAtOnce(t: Tree, names: seq<string>, j: nat, k: nat)
    requires FileAt(t, 0, names, j) && FileAt(t, 0, names, k)
    ensures j == k
  {
    var a, b := if j < k then j else k, if j < k then k else j;
    if a < b {
      assert names[..b] == names[..a] + names[a..b];
      LoopStopsAtFile(t, 0, 0, 0, names[..a], names[a..b], 0);
    }
  }

  // ---------------------------------------------------------------- what stays

  /** Inode m and the blocks it names, one by one, are as before. */
  ghost predicate Untouched(fs: Fs, fs': Fs, m: nat) {
    && m in fs.nodes && m in fs'.nodes && fs'.nodes[m] == fs.nodes[m]
    && View(fs'.nodes[m], fs'.v.disk) == View(fs.nodes[m], fs.v.disk)
  }

  ghost predicate OnlyThese(fs: Fs, fs': Fs, ns: set<nat>) {
    forall m {:trigger Untouched(fs, fs', m)} :: m in fs.nodes && m !in ns ==> Untouched(fs, fs', m)
  }

  lemma RehousedLeaves(nodes: map<nat, Dir>, v: Volume, p: nat, d': Dir, v': Volume, m: nat)
    requires Store(nodes, v) && Rehoused(nodes, v, p, d', v') && m in nodes && m != p
    ensures View(nodes[m], v'.disk) == View(nodes[m], v.disk)
  {
    OthersKept(nodes, v, p, d', v', m);
    BlocksFrame(nodes[m], v, v');
  }

  lemma OthersUntouched(fs: Fs, nodes: map<nat, Dir>, v: Volume, p: nat, d': Dir, v': Volume, fs': Fs, ns: set<nat>)
    requires Store(nodes, v) && Rehoused(nodes, v, p, d', v') && fs'.v.disk == v'.disk && p in ns
    requires forall m {:trigger fs.nodes[m]} :: m in fs.nodes && m !in ns ==>
               && m in nodes && nodes[m] == fs.nodes[m] && View(fs.nodes[m], v.disk) == View(fs.nodes[m], fs.v.disk)
               && m in fs'.nodes && fs'.nodes[m] == fs.nodes[m]
    ensures OnlyThese(fs, fs', ns)
  {
    hide Store, Rehoused, View;
    forall m | m in fs.nodes && m !in ns ensures Untouched(fs, fs', m) {
      assert nodes[m] == fs.nodes[m];
      RehousedLeaves(nodes, v, p, d', v', m);
    }
  }

  lemma CreateUnfolds(fs: Fs, p: nat, a: string, stops: bool)
    requires p in fs.nodes && Shaped(fs.nodes[p], fs.v.disk) && CreateFile(fs, p, a, stops).Next? && CreateFile(fs, p, a, stops).value.ok
    ensures var n := FirstClear(fs.ibits); var r := Insert(fs.nodes[p], fs.v, EntryOf(a, Kid(n, false)), false);
            r.ok && n < |fs.ibits| && CreateFile(fs, p, a, stops).value.fs == Fs(r.v, fs.ibits[n := true], fs.nodes[p := r.d][n := EmptyInode])
  {
    hide Insert, FirstClear;
  }

  lemma CreateLeaves(fs: Fs, t: Tree, p: nat, a: string, stops: bool)
    requires CanInsert(fs, t, p, a) && p in t.dirs && p in fs.nodes && Shaped(fs.nodes[p], fs.v.disk) && !ReplacesTable(fs.nodes[p], fs.v, false)
    requires NodeRep(fs.nodes[p], fs.v, p, t)
    requires CreateFile(fs, p, a, stops).Next? && CreateFile(fs, p, a, stops).value.ok
    ensures var n, fs' := FirstClear(fs.ibits), CreateFile(fs, p, a, stops).value.fs;
            && OnlyThese(fs, fs', {p}) && n in fs'.nodes && fs'.nodes[n] == EmptyInode && n < |fs.ibits| && fs'.ibits == fs.ibits[n := true]
  {
    hide Insert, Rehoused, Rep, CreateFile, NodeRep, ReplacesTable, View, OnlyThese, FirstClear;
    var n, fs' := FirstClear(fs.ibits), CreateFile(fs, p, a, stops).value.fs;
    var e := EntryOf(a, Kid(n, false));
    CreateUnfolds(fs, p, a, stops);
    FreeInode(fs, t);
    EntryRehouses(t, p, fs.v, fs.nodes, e);
    var r := Insert(fs.nodes[p], fs.v, e, false);
    StoreOf(fs, t);
    OthersUntouched(fs, fs.nodes, fs.v, p, r.d, r.v, fs', {p});
  }

  lemma StoreOf(fs: Fs, t: Tree)
    requires Rep(fs, t)
    ensures Store(fs.nodes, fs.v)
  {
  }

  lemma EntryRehouses(t: Tree, p: nat, v: Volume, nodes: map<nat, Dir>, e: Slot)
    requires p in t.dirs && p in nodes && NodeRep(nodes[p], v, p, t) && e != Empty
    requires Shaped(nodes[p], v.disk) && !ReplacesTable(nodes[p], v, false) && Insert(nodes[p], v, e, false).ok
    ensures var r := Insert(nodes[p], v, e, false); Rehoused(nodes, v, p, r.d, r.v)
  {
    InsertRefines(nodes[p], v, e, false);
    hide Insert, ReplacesTable;
    InsertRehouses(nodes, v, p, e, Insert(nodes[p], v, e, false));
  }

  lemma NodeRepOf(nodes: map<nat, Dir>, v: Volume, t: Tree, p: nat)
    requires NodesRep(nodes, v, t) && p in nodes
    ensures NodeRep(nodes[p], v, p, t)
  {
  }

  lemma MkdirLeaves(fs: Fs, t: Tree, p: nat, a: string, stops: bool)
    requires CanInsert(fs, t, p, a) && p in t.dirs && p in fs.nodes && FirstClear(fs.ibits) < |fs.ibits| && Alloc(fs.v).Some?
    requires Shaped(fs.nodes[p], fs.v.disk)
    requires MakeDir(fs, p, a, stops).Next? && MakeDir(fs, p, a, stops).value.ok
    requires Shaped(fs.nodes[p], DotsPut(fs.v, FirstClear(fs.ibits), p).disk)
    requires !ReplacesTable(fs.nodes[p], DotsPut(fs.v, FirstClear(fs.ibits), p), false)
    ensures var n, fs' := FirstClear(fs.ibits), MakeDir(fs, p, a, stops).value.fs;
            && OnlyThese(fs, fs', {p}) && n in fs'.nodes && fs'.nodes[n].size == 2 * ENTRY_SIZE && fs'.ibits == fs.ibits[n := true]
  {
    hide Insert, Rehoused, Rep, CanInsert, MakeDir, NodeRep, EntryForDir, NodesRep, ReplacesTable, View, OnlyThese, FirstClear, DotsPut,
         Store, Alloc;
    var n, fs' := FirstClear(fs.ibits), MakeDir(fs, p, a, stops).value.fs;
    var b, v2 := Alloc(fs.v).value.1, DotsPut(fs.v, n, p);
    var nodes1 := fs.nodes[n := NewDir(b)];
    MakeDirUnfolds(fs, t, p, a, stops);
    EntryForDirFacts(fs, t, p, a, n, v2, b, stops);
    NodeRepOf(nodes1, v2, WithDir(t, p, n), p);
    assert nodes1[p] == fs.nodes[p];
    var e := EntryOf(a, Kid(n, true));
    EntryRehouses(WithDir(t, p, n), p, v2, nodes1, e);
    var r := Insert(fs.nodes[p], v2, e, false);
    forall m {:trigger fs.nodes[m]} | m in fs.nodes ensures View(fs.nodes[m], v2.disk) == View(fs.nodes[m], fs.v.disk) {
      DotsLeave(fs, t, p, n, m);
    }
    OthersUntouched(fs, nodes1, v2, p, r.d, r.v, fs', {p});
  }

  /** The sector for "." and ".." was nobody's. */
  lemma DotsLeave(fs: Fs, t: Tree, p: nat, n: nat, m: nat)
    requires Rep(fs, t) && Alloc(fs.v).Some? && m in fs.nodes
    ensures View(fs.nodes[m], DotsPut(fs.v, n, p).disk) == View(fs.nodes[m], fs.v.disk)
  {
    AllocIsFresh(fs.v);
    forall b | b in Blocks(fs.nodes[m], fs.v.disk) ensures fs.v.Used(b) {
      assert HasBlock(fs.nodes, fs.v.disk, m, b);
    }
    assert Shaped(fs.nodes[m], fs.v.disk);
    BlocksFrame(fs.nodes[m], fs.v, DotsPut(fs.v, n, p));
  }

  lemma RemoveLeaves(fs: Fs, t: Tree, p: nat, a: string)
    requires Rep(fs, t) && Has(t, p, a) && p in fs.nodes
    requires KidOf(t, p, a).isDir ==> KidOf(t, p, a).ino in t.dirs && t.dirs[KidOf(t, p, a).ino].kids == map[]
    ensures var n := KidOf(t, p, a).ino;
            && n in fs.nodes && n < |fs.ibits| && Shaped(fs.nodes[p], fs.v.disk) && Remove(fs, p, n).Next?
            && var fs' := Remove(fs, p, n).value;
            OnlyThese(fs, fs', {p, n}) && n !in fs'.nodes && fs'.ibits == fs.ibits[n := false]
  {
    hide Rep, Remove, Rehoused, OnlyThese, View, Store;
    RemoveKeeps(fs, t, p, a);
    var n := KidOf(t, p, a).ino;
    var x := EntryGoes(fs, t, p, a);
    var fs' := Remove(fs, p, n).value;
    RemoveUnfolds(fs, p, n);
    StoreOf(fs, t);
    OthersUntouched(fs, fs.nodes, fs.v, p, x.d, x.v, fs', {p, n});
  }

  lemma EntryGoes(fs: Fs, t: Tree, p: nat, a: string) returns (x: Deletion)
    requires Rep(fs, t) && Has(t, p, a) && p in fs.nodes
    ensures Shaped(fs.nodes[p], fs.v.disk) && Delete(fs.nodes[p], fs.v, KidOf(t, p, a).ino) == Next(x)
    ensures Rehoused(fs.nodes, fs.v, p, x.d, x.v)
  {
    KidsAreGood(t, p);
    x := KidRemoved(fs.nodes, fs.v, t, p, a);
  }

  lemma RemoveUnfolds(fs: Fs, p: nat, n: nat)
    requires p in fs.nodes && n in fs.nodes && n < |fs.ibits| && Shaped(fs.nodes[p], fs.v.disk) && Remove(fs, p, n).Next?
    ensures Delete(fs.nodes[p], fs.v, n).Next?
    ensures var x, fs' := Delete(fs.nodes[p], fs.v, n).value, Remove(fs, p, n).value;
            && fs'.v.disk == x.v.disk && fs'.ibits == fs.ibits[n := false] && fs'.nodes == fs.nodes[p := x.d] - {n}
  {
    ReleaseWrites(fs.nodes[n], Delete(fs.nodes[p], fs.v, n).value.v);
    hide Delete, Release;
  }

  /** inode_release writes no sector. */
  lemma ReleaseWrites(d: Dir, v: Volume)
    ensures Release(d, v).Next? ==> Release(d, v).value.disk == v.disk
  {
    FreeEachWrites(v, d.direct);
    if v.base < d.table < v.base + |v.bits| {
      FreeEachWrites(v.Free(d.table), View(d, v.disk));
    }
  }

  lemma {:induction false} FreeEachWrites(v: Volume, blocks: seq<Blk>)
    ensures FreeEach(v, blocks).Next? ==> FreeEach(v, blocks).value.disk == v.disk
    decreases blocks
  {
    if blocks != [] && FreeEach(v, blocks).Next? {
      FreeEachWrites(if blocks[0] == 0 then v else v.Free(blocks[0]), blocks[1..]);
    }
  }

  /** fs' is the partition without the name that the first k names end in and without its inode; of the other
      inodes only that of its directory can be different. */
  ghost predicate CutOff(fs: Fs, t: Tree, names: seq<string>, k: nat, fs': Fs) {
    && 0 < k <= |names| && Walk(t, 0, names[..k - 1]).Some?
    && var p, a := Walk(t, 0, names[..k - 1]).value.ino, names[k - 1];
    && Has(t, p, a) && Rep(fs', Cut(t, p, a))
    && var n := KidOf(t, p, a).ino;
    && OnlyThese(fs, fs', {p, n}) && n !in fs'.nodes && n < |fs.ibits| && fs'.ibits == fs.ibits[n := false]
  }

  // ---------------------------------------------------------------- sys_unlink

  lemma KidOfFile(fs: Fs, t: Tree, p: nat, a: string)
    requires Rep(fs, t) && Has(t, p, a)
    ensures p in fs.nodes && HasNode(fs, KidOf(t, p, a).ino)
  {
    assert KidOk(t, p, a);
  }

  lemma UnlinkCuts(fs: Fs, t: Tree, names: seq<string>, k: nat)
    requires Rep(fs, t) && AllShaped(fs) && FsSearch(fs, names).Found? && !FsSearch(fs, names).isDir && FsSearch(fs, names).ino != 0
    requires var s := FsSearch(fs, names); LeadsTo(t, 0, names, k, s.parent, Kid(s.ino, s.isDir))
    ensures SysUnlink(fs, names).Next? && SysUnlink(fs, names).value.ok && CutOff(fs, t, names, k, SysUnlink(fs, names).value.fs)
  {
    hide Remove, Rep, FsSearch, OnlyThese;
    var p := FsSearch(fs, names).parent;
    KidOfFile(fs, t, p, names[k - 1]);
    RemoveKeeps(fs, t, p, names[k - 1]);
    RemoveLeaves(fs, t, p, names[k - 1]);
  }

  /** sys_unlink succeeds exactly when the path, or what stands in front of the rest of it, leads to a
      regular file; it is that file's name that goes.  In every other case nothing changes. */
  lemma UnlinkOutcome(fs: Fs, t: Tree, names: seq<string>)
    requires Rep(fs, t) && CleanNames(names) && AllShaped(fs) && names != []
    ensures SysUnlink(fs, names).Next?
    ensures var r := SysUnlink(fs, names).value;
            && (r.ok <==> exists k :: FileAt(t, 0, names, k))
            && (forall k :: FileAt(t, 0, names, k) ==> CutOff(fs, t, names, k, r.fs))
            && (!r.ok ==> r.fs == fs)
  {
    hide Rep, Remove, AllShaped, CutOff;
    if FsSearch(fs, names).Found? && !FsSearch(fs, names).isDir {
      var k := FoundAt(fs, t, names);
      UnlinkCuts(fs, t, names, k);
      forall j | FileAt(t, 0, names, j) ensures j == k {
        FileAtOnce(t, names, j, k);
      }
      assert FileAt(t, 0, names, k);
    } else {
      forall k | FileAt(t, 0, names, k) ensures false {
        FileIsFound(fs, t, names, k);
      }
      if FsSearch(fs, names).Found? {
        var k := FoundAt(fs, t, names);
      }
    }
  }

  // ---------------------------------------------------------------- sys_rmdir

  /** What sys_rmdir takes: an empty directory, or a regular file of 48 bytes. */
  ghost predicate Removable(fs: Fs, t: Tree, names: seq<string>, k: nat) {
    && 0 < k <= |names| && Walk(t, 0, names[..k]).Some?
    && var kid := Walk(t, 0, names[..k]).value;
    if kid.isDir then k == |names| && kid.ino in t.dirs && t.dirs[kid.ino].kids == map[]
    else kid.ino in fs.nodes && fs.nodes[kid.ino].size == 2 * ENTRY_SIZE
  }

  lemma RmdirCuts(fs: Fs, t: Tree, names: seq<string>, k: nat)
    requires Rep(fs, t) && CleanNames(names) && AllShaped(fs) && names != []
    requires var s := FsSearch(fs, names);
             && s.Found? && HasNode(fs, s.ino) && fs.nodes[s.ino].size == 2 * ENTRY_SIZE
             && LeadsTo(t, 0, names, k, s.parent, Kid(s.ino, s.isDir))
    ensures SysRmdir(fs, names).Next? && SysRmdir(fs, names).value.ok && CutOff(fs, t, names, k, SysRmdir(fs, names).value.fs)
  {
    hide Remove, Rep, FsSearch, OnlyThese, CleanNames;
    var s := FsSearch(fs, names);
    var a := RmdirRemoves(fs, t, names);
    OneName(fs, t, s.parent, a, names[k - 1]);
    KidOfFile(fs, t, s.parent, a);
    RemoveLeaves(fs, t, s.parent, a);
  }

  lemma OneName(fs: Fs, t: Tree, p: nat, a: string, b: string)
    requires Rep(fs, t) && Has(t, p, a) && Has(t, p, b) && KidOf(t, p, a).ino == KidOf(t, p, b).ino
    ensures a == b
  {
  }

  lemma NodeOfKid(fs: Fs, t: Tree, p: nat, a: string)
    requires Rep(fs, t) && Has(t, p, a)
    ensures var k := KidOf(t, p, a);
            && HasNode(fs, k.ino) && k.ino != 0
            && if k.isDir then k.ino in t.dirs && (fs.nodes[k.ino].size == 2 * ENTRY_SIZE <==> t.dirs[k.ino].kids == map[])
               else k.ino in t.files
  {
    var k := KidOf(t, p, a);
    assert KidOk(t, p, a);
    assert NodeRep(fs.nodes[k.ino], fs.v, k.ino, t);
    if k.isDir {
      EmptyIffNoKids(fs.nodes[k.ino], fs.v, k.ino, t.dirs[k.ino]);
    }
  }

  lemma RemovableOnce(fs: Fs, t: Tree, names: seq<string>, j: nat, k: nat)
    requires Removable(fs, t, names, j) && 0 < k <= |names| && Walk(t, 0, names[..k]).Some?
    requires Walk(t, 0, names[..k]).value.isDir ==> k == |names|
    ensures j == k
  {
    var x, y := Walk(t, 0, names[..j]).value, Walk(t, 0, names[..k]).value;
    if !x.isDir && !y.isDir {
      FileAtOnce(t, names, j, k);
    } else if j < k {
      assert names[..k] == names[..j] + names[j..k];
      LoopStopsAtFile(t, 0, 0, 0, names[..j], names[j..k], 0);
    } else if k < j {
      assert names[..j] == names[..k] + names[k..j];
      LoopStopsAtFile(t, 0, 0, 0, names[..k], names[k..j], 0);
    }
  }

  /** sys_rmdir succeeds exactly on an empty directory or a regular file of 48 bytes, the file also with more
      behind it in the path; it is that name that goes.  In every other case nothing changes. */
  lemma RmdirOutcome(fs: Fs, t: Tree, names: seq<string>)
    requires Rep(fs, t) && CleanNames(names) && AllShaped(fs) && names != []
    ensures SysRmdir(fs, names).Next?
    ensures var r := SysRmdir(fs, names).value;
            && (r.ok <==> exists k :: Removable(fs, t, names, k))
            && (forall k :: Removable(fs, t, names, k) ==> CutOff(fs, t, names, k, r.fs))
            && (!r.ok ==> r.fs == fs)
  {
    RmdirStep(fs, t, names);
    hide Rep, Remove, AllShaped, CutOff;
    var s := FsSearch(fs, names);
    if s.Found? {
      var k := FoundAt(fs, t, names);
      NodeOfKid(fs, t, s.parent, names[k - 1]);
      forall j | Removable(fs, t, names, j) ensures j == k {
        RemovableOnce(fs, t, names, j, k);
      }
      if fs.nodes[s.ino].size == 2 * ENTRY_SIZE {
        RmdirCuts(fs, t, names, k);
        assert Removable(fs, t, names, k);
      }
    } else {
      forall k | Removable(fs, t, names, k) ensures false {
        MissingNotThere(fs, t, names, k);
      }
    }
  }

  lemma MissingNotThere(fs: Fs, t: Tree, names: seq<string>, k: nat)
    requires Rep(fs, t) && CleanNames(names) && Removable(fs, t, names, k)
    ensures FsSearch(fs, names).Found?
  {
    if Walk(t, 0, names[..k]).value.isDir {
      SearchTree(fs, t, names);
      assert names[..k] == names;
      SearchFollowsWalk(t, 0, 0, 0, names, 0);
    } else {
      FileIsFound(fs, t, names, k);
    }
  }

  // ---------------------------------------------------------------- sys_open with O_CREAT, sys_mkdir

  /** fs' has one file more, under that name and empty, with the lowest inode number that was free; of the
      other inodes only that of its directory can be different. */
  ghost predicate CreatedIn(fs: Fs, t: Tree, p: nat, a: string, fs': Fs)
    requires p in t.dirs
  {
    var n := FirstClear(fs.ibits);
    && n < |fs.ibits| && !t.InUse(n) && Rep(fs', AddFile(t, p, a, n)) && n in fs'.nodes && fs'.nodes[n].size == 0
    && OnlyThese(fs, fs', {p}) && fs'.ibits == fs.ibits[n := true]
  }

  ghost predicate MadeIn(fs: Fs, t: Tree, p: nat, a: string, fs': Fs)
    requires p in t.dirs
  {
    var n := FirstClear(fs.ibits);
    && n < |fs.ibits| && !t.InUse(n) && Rep(fs', AddDir(t, p, a, n)) && n in fs'.nodes && fs'.nodes[n].size == 2 * ENTRY_SIZE
    && OnlyThese(fs, fs', {p}) && fs'.ibits == fs.ibits[n := true]
  }

  lemma SplitCanInsert(fs: Fs, t: Tree, p: nat, a: string)
    requires CanInsert(fs, t, p, a)
    ensures p in t.dirs && |a| <= NAME_ROOM
  {
  }

  lemma CreateOk(fs: Fs, p: nat, a: string, stops: bool)
    requires p in fs.nodes && Shaped(fs.nodes[p], fs.v.disk) && CreateFile(fs, p, a, stops).Next? && InodeLeft(fs)
    ensures CreateFile(fs, p, a, stops).value.ok <==> Insertable(fs.nodes[p], fs.v, false)
  {
    InsertOkIff(fs.nodes[p], fs.v, EntryOf(a, Kid(FirstClear(fs.ibits), false)), false);
    hide Insert, Insertable, FirstClear;
  }

  /** sys_open with O_CREAT succeeds exactly when the names before the last lead to a directory without that
      name, an inode is left, and the directory has a place for an entry or can get one.  Then the file is
      there under that name, with an inode that nobody had, and nothing else is different; a failure changes
      nothing.  Both leave out the calls that replace an index table. */
  lemma CreateOutcomeIff(fs: Fs, t: Tree, names: seq<string>, stops: bool)
    requires Rep(fs, t) && CleanNames(names) && AllShaped(fs) && SysCreate(fs, names, stops).Next?
    ensures var r := SysCreate(fs, names, stops).value;
            && (r.ok <==> && NewName(t, 0, names) && InodeLeft(fs)
                          && Place(t, 0, names) in fs.nodes && Insertable(fs.nodes[Place(t, 0, names)], fs.v, false))
            && (!Leaks(fs, Create(names), stops) ==>
                  if r.ok then CreatedIn(fs, t, Place(t, 0, names), Last(names), r.fs) else r.fs == fs)
  {
    hide Rep, FsSearch, CanInsert, NodeRep, Valid, FirstClear, CountClear, Insertable, NewName, AllShaped, CreateFile, InsertScan,
         ReplacesTable;
    CreatableIff(fs, t, names);
    if Creatable(fs, names) {
      var p, a := ParentOf(fs, t, names);
      if InodeLeft(fs) {
        SplitCanInsert(fs, t, p, a);
        CreateOk(fs, p, a, stops);
        FreeInode(fs, t);
        if !Leaks(fs, Create(names), stops) {
          CreateDoes(fs, t, p, a, stops);
        }
      } else {
        NoInode(fs, p, a, stops);
      }
    }
  }

  lemma NoInode(fs: Fs, p: nat, a: string, stops: bool)
    requires p in fs.nodes && Shaped(fs.nodes[p], fs.v.disk) && !InodeLeft(fs)
    ensures CreateFile(fs, p, a, stops).Next? ==> CreateFile(fs, p, a, stops).value == Result(false, fs)
  {
  }

  lemma CreateDoes(fs: Fs, t: Tree, p: nat, a: string, stops: bool)
    requires CanInsert(fs, t, p, a) && Shaped(fs.nodes[p], fs.v.disk) && p in t.dirs && InodeLeft(fs) && CreateFile(fs, p, a, stops).Next?
    requires !(ReplacesTable(fs.nodes[p], fs.v, false) && Room(fs.v) >= if stops then 2 else 1)
    ensures var r := CreateFile(fs, p, a, stops).value;
            if r.ok then CreatedIn(fs, t, p, a, r.fs) else r.fs == fs
  {
    CreateOutcome(fs, p, a, stops);
    InsertOkIff(fs.nodes[p], fs.v, EntryOf(a, Kid(FirstClear(fs.ibits), false)), false);
    AllocRoom(fs.v);
    if CreateFile(fs, p, a, stops).value.ok {
      CreateKeeps(fs, t, p, a, stops);
      assert NodeRep(fs.nodes[p], fs.v, p, t);
      CreateLeaves(fs, t, p, a, stops);
      FreeInode(fs, t);
    } else {
      CreateFails(fs, t, p, a, stops);
    }
  }

  /** sys_mkdir likewise, with one free sector more for "." and "..".  Here it is also a failure for want of a
      place for the entry that loses something, the new sector. */
  lemma MkdirOutcomeIff(fs: Fs, t: Tree, names: seq<string>, stops: bool)
    requires Rep(fs, t) && CleanNames(names) && AllShaped(fs) && SysMkdir(fs, names, stops).Next?
    ensures var r := SysMkdir(fs, names, stops).value;
            && (r.ok <==> && NewName(t, 0, names) && InodeLeft(fs) && Room(fs.v) > 0
                          && Place(t, 0, names) in fs.nodes && !DirFull(fs.nodes[Place(t, 0, names)], fs.v)
                          && !ShortOf(fs.nodes[Place(t, 0, names)], fs.v, Room(fs.v) - 1, false))
            && (!Leaks(fs, Mkdir(names), stops) ==>
                  if r.ok then MadeIn(fs, t, Place(t, 0, names), Last(names), r.fs) else r.fs == fs)
  {
    hide Rep, FsSearch, CanInsert, NodeRep, Valid, FirstClear, CountClear, ShortOf, NewName, AllShaped, MakeDir, InsertScan,
         ReplacesTable, DirFull;
    CreatableIff(fs, t, names);
    AllocRoom(fs.v);
    if Creatable(fs, names) {
      var p, a := ParentOf(fs, t, names);
      if InodeLeft(fs) && Room(fs.v) > 0 {
        MkdirOutcome(fs, t, p, a, stops);
        FreeInode(fs, t);
        if !Leaks(fs, Mkdir(names), stops) && MakeDir(fs, p, a, stops).value.ok {
          MkdirDoes(fs, t, p, a, stops);
        }
      } else {
        NoInodeOrSector(fs, p, a, stops);
      }
    }
  }

  lemma MkdirDoes(fs: Fs, t: Tree, p: nat, a: string, stops: bool)
    requires CanInsert(fs, t, p, a) && p in fs.nodes && p in t.dirs && Shaped(fs.nodes[p], fs.v.disk) && Valid(fs.nodes[p], fs.v)
    requires Room(fs.v) > 0 && InodeLeft(fs) && !t.InUse(FirstClear(fs.ibits))
    requires MakeDir(fs, p, a, stops).Next? && MakeDir(fs, p, a, stops).value.ok
    requires !(ReplacesTable(fs.nodes[p], fs.v, false) && Room(fs.v) - 1 >= 2) && !ShortOf(fs.nodes[p], fs.v, Room(fs.v) - 1, false)
    ensures MadeIn(fs, t, p, a, MakeDir(fs, p, a, stops).value.fs)
  {
    hide Rep, CanInsert, MakeDir, Valid, DotsPut, CountClear, OnlyThese;
    AllocRoom(fs.v);
    AfterDots(fs.nodes[p], fs.v, FirstClear(fs.ibits), p);
    MakeDirKeeps(fs, t, p, a, stops);
    MkdirLeaves(fs, t, p, a, stops);
  }

  lemma NoInodeOrSector(fs: Fs, p: nat, a: string, stops: bool)
    requires p in fs.nodes && Shaped(fs.nodes[p], fs.v.disk) && (!InodeLeft(fs) || Alloc(fs.v).None?)
    ensures MakeDir(fs, p, a, stops).Next? ==> MakeDir(fs, p, a, stops).value == Result(false, fs)
  {
  }

  // ---------------------------------------------------------------- opening a file and writing to it

  lemma AppendableIff(fs: Fs, t: Tree, names: seq<string>)
    requires Rep(fs, t) && CleanNames(names)
    ensures Appendable(fs, names) <==> LeadsToFile(t, 0, names)
    ensures Appendable(fs, names) ==> FsSearch(fs, names).ino == Walk(t, 0, names).value.ino
  {
    assert names[..|names|] == names;
    if LeadsToFile(t, 0, names) {
      assert FileAt(t, 0, names, |names|);
      FileIsFound(fs, t, names, |names|);
    }
    if names != [] && FsSearch(fs, names).Found? && !FsSearch(fs, names).isDir {
      var k := FoundAt(fs, t, names);
      FileDepth(fs, t, names, k);
      var s := FsSearch(fs, names);
      NodeOfKid(fs, t, s.parent, names[k - 1]);
      if LeadsToFile(t, 0, names) {
        FileAtOnce(t, names, k, |names|);
      }
    }
  }

  lemma {:induction false} DepthOfFile(t: Tree, p: nat, parent: nat, last: nat, front: seq<string>, rest: seq<string>, depth: nat)
    requires front != [] && LeadsToFile(t, p, front)
    ensures var r := SearchLoop(t, p, parent, last, front + rest, depth); r.Found? && r.depth == depth + |front|
    decreases front
  {
    var k := Lookup(t, p, front[0]).value;
    assert (front + rest)[1..] == front[1..] + rest;
    if k.isDir {
      assert Walk(t, p, front) == Walk(t, k.ino, front[1..]);
      DepthOfFile(t, k.ino, p, k.ino, front[1..], rest, depth + 1);
    }
  }

  lemma FileDepth(fs: Fs, t: Tree, names: seq<string>, k: nat)
    requires Rep(fs, t) && CleanNames(names) && FileAt(t, 0, names, k)
    ensures FsSearch(fs, names).Found? && FsSearch(fs, names).depth == k
  {
    SearchTree(fs, t, names);
    assert names == names[..k] + names[k..];
    DepthOfFile(t, 0, 0, 0, names[..k], names[k..], 0);
  }

  /** Opening a file and writing count bytes succeeds exactly when the path leads to a regular file, the size
      stays below 71680, and the sectors are there.  Then that file is longer by count, has the blocks for
      it, and the tree, the inodes and all other files are as they were. */
  lemma AppendOutcomeIff(fs: Fs, t: Tree, names: seq<string>, count: nat, stops: bool)
    requires Rep(fs, t) && CleanNames(names) && AllShaped(fs) && SysAppend(fs, names, count, stops).Next?
    ensures var r := SysAppend(fs, names, count, stops).value;
            && (r.ok <==> && LeadsToFile(t, 0, names) && Walk(t, 0, names).value.ino in fs.nodes
                          && var d := fs.nodes[Walk(t, 0, names).value.ino];
                          d.size + count < BLOCK * MAX_BLOCKS && Room(fs.v) >= GrowNeed(d, count))
            && (r.ok ==>
                  && Rep(r.fs, t) && r.fs.ibits == fs.ibits
                  && var n := Walk(t, 0, names).value.ino;
                  && n in r.fs.nodes && r.fs.nodes[n].size == fs.nodes[n].size + count
                  && OnlyThese(fs, r.fs, {n}) && InPlace(fs.nodes[n], fs.v, r.fs.nodes[n], r.fs.v)
                  && r.fs.nodes.Keys == fs.nodes.Keys)
  {
    hide Rep, FsSearch, AllShaped, Grow, FileInv, LeadsToFile, GrowNeed, CountClear;
    AppendableIff(fs, t, names);
    if Appendable(fs, names) {
      var n := FileOf(fs, t, names);
      AppendRest(fs, t, n, count);
    }
  }

  lemma AppendRest(fs: Fs, t: Tree, n: nat, count: nat)
    requires Rep(fs, t) && n in t.files && n in fs.nodes && Shaped(fs.nodes[n], fs.v.disk)
    requires FileInv(fs.nodes[n], fs.v) && fs.v.Used(fs.v.base) && Grow(fs.nodes[n], fs.v, count).Next?
    ensures var d, g := fs.nodes[n], Grow(fs.nodes[n], fs.v, count).value;
            && (g.ok <==> d.size + count < BLOCK * MAX_BLOCKS && Room(fs.v) >= GrowNeed(d, count))
            && (g.ok ==> g.d.size == d.size
                         && var fs' := AfterGrowth(fs, n, count, g).fs;
                         Rep(fs', t) && OnlyThese(fs, fs', {n}) && InPlace(d, fs.v, fs'.nodes[n], fs'.v))
  {
    hide Rep, Grow, FileInv, CountClear, BlocksFor, InPlace, OnlyThese;
    GrowOutcome(fs.nodes[n], fs.v, count);
    if Grow(fs.nodes[n], fs.v, count).value.ok {
      AllocRoom(fs.v);
      GrowKeeps(fs.nodes[n], fs.v, count);
      AppendKeeps(fs, t, n, count);
      AppendLeaves(fs, t, n, count);
    }
  }

  lemma AppendLeaves(fs: Fs, t: Tree, n: nat, count: nat)
    requires Rep(fs, t) && n in t.files && n in fs.nodes && Shaped(fs.nodes[n], fs.v.disk)
    requires Grow(fs.nodes[n], fs.v, count).Next? && Grow(fs.nodes[n], fs.v, count).value.ok
    requires var g := Grow(fs.nodes[n], fs.v, count).value; InPlace(fs.nodes[n], fs.v, g.d, g.v)
    ensures var fs' := AfterGrowth(fs, n, count, Grow(fs.nodes[n], fs.v, count).value).fs;
            OnlyThese(fs, fs', {n}) && InPlace(fs.nodes[n], fs.v, fs'.nodes[n], fs'.v)
  {
    var g := FileGrows(fs, t, n, count);
    StoreOf(fs, t);
    hide Rep, Grow, OnlyThese, Rehoused;
    OthersUntouched(fs, fs.nodes, fs.v, n, g.d.(size := g.d.size + count), g.v, AfterGrowth(fs, n, count, g).fs, {n});
  }

  lemma FileGrows(fs: Fs, t: Tree, n: nat, count: nat) returns (g: Growth)
    requires Rep(fs, t) && n in t.files && n in fs.nodes && Shaped(fs.nodes[n], fs.v.disk)
    requires Grow(fs.nodes[n], fs.v, count).Next? && Grow(fs.nodes[n], fs.v, count).value.ok
    ensures g == Grow(fs.nodes[n], fs.v, count).value
    ensures Rehoused(fs.nodes, fs.v, n, g.d.(size := g.d.size + count), g.v)
  {
    g := FileGrew(fs.nodes, fs.v, t, n, count);
  }
}
