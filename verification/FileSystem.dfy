/** search_file, sys_mkdir, sys_unlink, sys_rmdir (fs/fs.c), file_create and file_write (fs/file.c) and
    dir_remove (fs/dir.c) over the sectors, and what they do to the tree.  inode_sync stores what it is
    given; InodeTable says for which inode numbers the shipped one does. */
module FileSystem {
  import opened Outcomes
  import opened BitSeq
  import opened Directory
  import opened DirInsert
  import opened DirDelete
  import opened DirRead
  import opened DirEntries
  import opened FileGrowth
  import opened FsState
  import opened Tree

  // ---------------------------------------------------------------- search_file

  /** The loop at lines 315-364 over the sectors.  A slot that is neither directory nor file changes
      nothing but dir_e. */
  function SearchSectors(fs: Fs, p: nat, parent: nat, last: nat, names: seq<string>, depth: nat): Found
    decreases names
  {
    if names == [] || p !in fs.nodes then Found(last, parent, true, depth)
    else
      match Search(fs.v, View(fs.nodes[p], fs.v.disk), names[0])
      case None => Missing(p, depth + 1)
      case Some(Empty) => SearchSectors(fs, p, parent, 0, names[1..], depth + 1)
      case Some(Entry(_, ino, isDir)) =>
        if isDir then SearchSectors(fs, ino, p, ino, names[1..], depth + 1)
        else Found(ino, p, false, depth + 1)
  }

  function FsSearch(fs: Fs, names: seq<string>): Found {
    if names == [] then Found(0, 0, true, 0) else SearchSectors(fs, 0, 0, 0, names, 0)
  }

  lemma KidsAreGood(t: Tree, p: nat)
    requires TreeInv(t) && p in t.dirs
    ensures GoodKids(t.dirs[p].kids)
  {
    forall a | a in t.dirs[p].kids ensures GoodName(a) {
      assert Has(t, p, a) && KidOk(t, p, a);
    }
    forall a, b | a in t.dirs[p].kids && b in t.dirs[p].kids && t.dirs[p].kids[a].ino == t.dirs[p].kids[b].ino
      ensures a == b
    {
      assert Has(t, p, a) && Has(t, p, b) && KidOf(t, p, a).ino == KidOf(t, p, b).ino;
    }
  }

  /** search_file over the sectors is search_file over the tree. */
  lemma {:induction false} SearchAgrees(fs: Fs, t: Tree, p: nat, parent: nat, last: nat, names: seq<string>, depth: nat)
    requires Rep(fs, t) && p in t.dirs && forall s :: s in names ==> s != ""
    ensures SearchSectors(fs, p, parent, last, names, depth) == SearchLoop(t, p, parent, last, names, depth)
    decreases names
  {
    if names != [] {
      assert names[0] in names && forall s :: s in names[1..] ==> s in names;
      assert NodeRep(fs.nodes[p], fs.v, p, t);
      KidsAreGood(t, p);
      SearchIsLookup(fs.nodes[p], fs.v, p, t.dirs[p], names[0]);
      assert LookupIn(p, t.dirs[p], names[0]) == Lookup(t, p, names[0]);
      match Lookup(t, p, names[0])
      case None =>
      case Some(k) =>
        if k.isDir {
          LookupIsDir(t, p, names[0]);
          SearchAgrees(fs, t, k.ino, p, k.ino, names[1..], depth + 1);
        }
    }
  }

  predicate Plains(names: seq<string>) {
    forall s :: s in names ==> s != "" && s != "." && s != ".."
  }

  /** On plain names, what is found is a child of the parent that is reported, and a last name that is
      missing is missing from the parent that is reported. */
  lemma {:induction false} SearchParent(t: Tree, p: nat, parent: nat, last: nat, names: seq<string>, depth: nat)
    requires TreeInv(t) && p in t.dirs && names != [] && Plains(names)
    ensures match SearchLoop(t, p, parent, last, names, depth)
            case Found(n, q, isDir, _) => n != 0 && exists a :: Has(t, q, a) && KidOf(t, q, a) == Kid(n, isDir)
            case Missing(q, d) =>
              q in t.dirs && depth < d <= depth + |names|
              && (d == depth + |names| ==> names[|names| - 1] !in t.dirs[q].kids)
    decreases names
  {
    var a := names[0];
    assert a in names && forall s :: s in names[1..] ==> s in names;
    if a in t.dirs[p].kids {
      assert Has(t, p, a) && KidOk(t, p, a);
      var k := KidOf(t, p, a);
      if k.isDir && |names| > 1 {
        SearchParent(t, k.ino, p, k.ino, names[1..], depth + 1);
      }
    }
  }

  // ---------------------------------------------------------------- the operations

  datatype Result = Result(ok: bool, fs: Fs)

  const EmptyInode := Dir(Zeros(DIRECT), 0, 0)

  /** file_create: an inode, then the name's length is asserted, then an entry in directory p; on failure
      the inode bit is cleared again.  With `stops`, as shipped, the scan of a full bitmap stops the machine
      instead of answering -1. */
  function CreateFile(fs: Fs, p: nat, a: string, stops: bool): Outcome<Result>
    requires p in fs.nodes && Shaped(fs.nodes[p], fs.v.disk)
  {
    var n := FirstClear(fs.ibits);
    if n == |fs.ibits| then (if stops then Halted else Next(Result(false, fs)))
    else if |a| > NAME_ROOM then Halted
    else
      var r :- InsertScan(fs.nodes[p], fs.v, EntryOf(a, Kid(n, false)), false, stops);
      if !r.ok then Next(Result(false, fs.(v := r.v, nodes := fs.nodes[p := r.d])))
      else Next(Result(true, Fs(r.v, fs.ibits[n := true], fs.nodes[p := r.d][n := EmptyInode])))
  }

  /** sys_mkdir from line 690: an inode, a sector for "." and "..", the assertion on the name, the entry.
      When the entry cannot be added, the new sector stays allocated. */
  function MakeDir(fs: Fs, p: nat, a: string, stops: bool): Outcome<Result>
    requires p in fs.nodes && Shaped(fs.nodes[p], fs.v.disk)
  {
    var n := FirstClear(fs.ibits);
    if n == |fs.ibits| then (if stops then Halted else Next(Result(false, fs)))
    else
      match Alloc(fs.v)
      case None => if stops then Halted else Next(Result(false, fs))
      case Some((v1, b)) =>
        if b <= fs.v.base then Halted
        else
          var v2 := v1.Put(b, Slots(DotSlots(n, p)));
          if !Shaped(fs.nodes[p], v2.disk) || |a| > NAME_ROOM then Halted
          else
            var r :- InsertScan(fs.nodes[p], v2, EntryOf(a, Kid(n, true)), false, stops);
            if !r.ok then Next(Result(false, fs.(v := r.v, nodes := fs.nodes[p := r.d])))
            else Next(Result(true, Fs(r.v, fs.ibits[n := true], fs.nodes[p := r.d][n := NewDir(b)])))
  }

  /** delete_dir_entry and inode_release. */
  function Remove(fs: Fs, p: nat, n: nat): Outcome<Fs>
    requires p in fs.nodes && n in fs.nodes && n < |fs.ibits| && Shaped(fs.nodes[p], fs.v.disk)
  {
    var x :- Delete(fs.nodes[p], fs.v, n);
    var v' :- Release(fs.nodes[n], x.v);
    Next(Fs(v', fs.ibits[n := false], fs.nodes[p := x.d] - {n}))
  }

  // ---------------------------------------------------------------- creating a file

  lemma InsertRehouses(nodes: map<nat, Dir>, v: Volume, p: nat, e: Slot, r: Insertion)
    requires p in nodes && Inserted(nodes[p], v, e, r)
    ensures Rehoused(nodes, v, p, r.d, r.v)
  {
  }

  ghost predicate CanInsert(fs: Fs, t: Tree, p: nat, a: string) {
    Rep(fs, t) && p in t.dirs && a !in t.dirs[p].kids && GoodName(a)
  }

  function WithKid(t: Tree, p: nat, a: string, k: Kid): Tree
    requires p in t.dirs
  {
    t.(dirs := Linked(t, p, a, k))
  }

  /** The entry is in the parent; nothing else has changed. */
  lemma EntryAdded(nodes: map<nat, Dir>, v: Volume, t: Tree, p: nat, a: string, k: Kid)
    requires Store(nodes, v) && NodesRep(nodes, v, t)
    requires p in t.dirs && p in nodes && a !in t.dirs[p].kids && GoodName(a) && GoodKids(t.dirs[p].kids)
    requires Shaped(nodes[p], v.disk) && !ReplacesTable(nodes[p], v, false)
    requires Insert(nodes[p], v, EntryOf(a, k), false).ok
    ensures var r := Insert(nodes[p], v, EntryOf(a, k), false);
            && Store(nodes[p := r.d], r.v) && NodesRep(nodes[p := r.d], r.v, WithKid(t, p, a, k))
            && |r.d.direct| == |nodes[p].direct| == DIRECT && r.d.direct[0] == nodes[p].direct[0] && r.v.base == v.base
  {
    assert NodeRep(nodes[p], v, p, t);
    InsertAddsKid(nodes[p], v, p, t.dirs[p], a, k);
    var r := Insert(nodes[p], v, EntryOf(a, k), false);
    InsertRehouses(nodes, v, p, EntryOf(a, k), r);
    RehousedRep(nodes, v, t, p, r.d, r.v, WithKid(t, p, a, k));
  }

  lemma NewFileRep(nodes: map<nat, Dir>, v: Volume, t: Tree, n: nat, t': Tree)
    requires Store(nodes, v) && NodesRep(nodes, v, t) && v.base > 0
    requires n !in nodes && n !in t'.dirs && forall m :: m in nodes ==> SameNode(t, t', m)
    ensures Store(nodes[n := EmptyInode], v) && NodesRep(nodes[n := EmptyInode], v, t')
  {
    EmptyFile(v);
    RehousedRep(nodes, v, t, n, EmptyInode, v, t');
  }

  lemma FreeInode(fs: Fs, t: Tree)
    requires Rep(fs, t) && FirstClear(fs.ibits) < |fs.ibits|
    ensures var n := FirstClear(fs.ibits); n !in fs.nodes && !t.InUse(n) && n < MAX_FILES && n != 0
  {
    assert 0 in fs.nodes;
  }

  lemma BitsAdd(ibits: seq<bool>, nodes: map<nat, Dir>, n: nat, nodes': map<nat, Dir>)
    requires BitsRep(ibits, nodes) && n < MAX_FILES && nodes'.Keys == nodes.Keys + {n}
    ensures BitsRep(ibits[n := true], nodes')
  {
  }

  /** A successful file_create adds a file to the tree. */
  lemma CreateKeeps(fs: Fs, t: Tree, p: nat, a: string, stops: bool)
    requires CanInsert(fs, t, p, a)
    requires Shaped(fs.nodes[p], fs.v.disk) && !ReplacesTable(fs.nodes[p], fs.v, false)
    requires CreateFile(fs, p, a, stops).Next? && CreateFile(fs, p, a, stops).value.ok
    ensures Rep(CreateFile(fs, p, a, stops).value.fs, AddFile(t, p, a, FirstClear(fs.ibits)))
  {
    var n := FirstClear(fs.ibits);
    var k := Kid(n, false);
    var fs' := CreateFile(fs, p, a, stops).value.fs;
    var t' := AddFile(t, p, a, n);
    var r := Insert(fs.nodes[p], fs.v, EntryOf(a, k), false);
    FreeInode(fs, t);
    KidsAreGood(t, p);
    EntryAdded(fs.nodes, fs.v, t, p, a, k);
    NewFileRep(fs.nodes[p := r.d], r.v, WithKid(t, p, a, k), n, t');
    AddFileKeeps(t, p, a, n);
    OneMoreRep(fs, t, r.v, n, fs'.nodes, t');
  }

  // ---------------------------------------------------------------- creating a directory

  /** The sector with "." and ".." belongs to the new inode. */
  lemma NewDirAdded(nodes: map<nat, Dir>, v: Volume, t: Tree, n: nat, p: nat, t': Tree)
    requires Store(nodes, v) && NodesRep(nodes, v, t) && v.base > 0 && Alloc(v).Some?
    requires n !in nodes && n in t'.dirs && t'.dirs[n].kids == map[] && t'.dirs[n].up == p
    requires forall m :: m in nodes ==> SameNode(t, t', m)
    ensures var (v1, b) := Alloc(v).value; var v2 := v1.Put(b, Slots(DotSlots(n, p)));
            && Store(nodes[n := NewDir(b)], v2) && NodesRep(nodes[n := NewDir(b)], v2, t')
            && v2.base == v.base && b >= v.base && !v.Used(b)
  {
    AllocIsFresh(v);
    var (v1, b) := Alloc(v).value;
    var v2 := v1.Put(b, Slots(DotSlots(n, p)));
    assert v2.Used(b) by {
      assert v1.Used(b);
    }
    NewDirRep(v2, b, n, p, t'.dirs[n].level);
    assert t'.dirs[n] == Folder(map[], p, t'.dirs[n].level);
    assert forall x :: v2.Used(x) <==> v1.Used(x);
    RehousedRep(nodes, v, t, n, NewDir(b), v2, t');
  }

  function WithDir(t: Tree, p: nat, n: nat): Tree
    requires p in t.dirs
  {
    t.(dirs := t.dirs[n := Folder(map[], p, t.dirs[p].level + 1)])
  }

  /** The sector for "." and "..", written. */
  function DotsPut(v: Volume, n: nat, p: nat): Volume
    requires Alloc(v).Some?
  {
    Alloc(v).value.0.Put(Alloc(v).value.1, Slots(DotSlots(n, p)))
  }

  lemma FreshNotRoot(fs: Fs, t: Tree)
    requires Rep(fs, t) && Alloc(fs.v).Some?
    ensures Alloc(fs.v).value.1 > fs.v.base
  {
    AllocIsFresh(fs.v);
    ViewMember(fs.nodes[0], fs.v.disk, 0);
    assert HasBlock(fs.nodes, fs.v.disk, 0, fs.v.base);
  }

  /** What is left of a sys_mkdir once the sector is there. */
  function EntryForDir(fs: Fs, p: nat, a: string, n: nat, v2: Volume, b: Blk, stops: bool): Outcome<Result>
    requires p in fs.nodes && Shaped(fs.nodes[p], v2.disk) && n < |fs.ibits|
  {
    var r :- InsertScan(fs.nodes[p], v2, EntryOf(a, Kid(n, true)), false, stops);
    Next(if !r.ok then Result(false, fs.(v := r.v, nodes := fs.nodes[p := r.d]))
         else Result(true, Fs(r.v, fs.ibits[n := true], fs.nodes[p := r.d][n := NewDir(b)])))
  }

  lemma MakeDirUnfolds(fs: Fs, t: Tree, p: nat, a: string, stops: bool)
    requires CanInsert(fs, t, p, a) && FirstClear(fs.ibits) < |fs.ibits| && Alloc(fs.v).Some?
    ensures var n := FirstClear(fs.ibits); var b := Alloc(fs.v).value.1; var v2 := DotsPut(fs.v, n, p);
            && Store(fs.nodes[n := NewDir(b)], v2) && NodesRep(fs.nodes[n := NewDir(b)], v2, WithDir(t, p, n))
            && Shaped(fs.nodes[p], v2.disk) && p != n && v2.base == fs.v.base
            && MakeDir(fs, p, a, stops) == EntryForDir(fs, p, a, n, v2, b, stops)
  {
    var n := FirstClear(fs.ibits);
    FreeInode(fs, t);
    FreshNotRoot(fs, t);
    NewDirAdded(fs.nodes, fs.v, t, n, p, WithDir(t, p, n));
    assert fs.nodes[n := NewDir(Alloc(fs.v).value.1)][p] == fs.nodes[p];
  }

  lemma EntryForDirFacts(fs: Fs, t: Tree, p: nat, a: string, n: nat, v2: Volume, b: Blk, stops: bool)
    requires CanInsert(fs, t, p, a) && n == FirstClear(fs.ibits) < |fs.ibits| && Shaped(fs.nodes[p], v2.disk)
    requires EntryForDir(fs, p, a, n, v2, b, stops).Next? && EntryForDir(fs, p, a, n, v2, b, stops).value.ok
    ensures var r := Insert(fs.nodes[p], v2, EntryOf(a, Kid(n, true)), false);
            && r.ok
            && EntryForDir(fs, p, a, n, v2, b, stops).value.fs == Fs(r.v, fs.ibits[n := true], fs.nodes[p := r.d][n := NewDir(b)])
    ensures Rep(fs, t) && TreeInv(t) && p in t.dirs && p in fs.nodes && a !in t.dirs[p].kids && GoodName(a)
    ensures n !in fs.nodes && !t.InUse(n) && n < MAX_FILES && n != 0
    ensures fs.nodes.Keys == t.dirs.Keys + t.files && p != n
  {
    FreeInode(fs, t);
    hide Insert;
  }

  lemma EntryForDirRep(fs: Fs, t: Tree, p: nat, a: string, n: nat, v2: Volume, b: Blk)
    requires CanInsert(fs, t, p, a) && v2.base == fs.v.base && p in fs.nodes && p != n
    requires TreeInv(t) && n !in fs.nodes && !t.InUse(n) && n < |fs.ibits| && n < MAX_FILES && n != 0
    requires Store(fs.nodes[n := NewDir(b)], v2) && NodesRep(fs.nodes[n := NewDir(b)], v2, WithDir(t, p, n))
    requires Shaped(fs.nodes[p], v2.disk) && !ReplacesTable(fs.nodes[p], v2, false)
    requires Insert(fs.nodes[p], v2, EntryOf(a, Kid(n, true)), false).ok
    ensures var r := Insert(fs.nodes[p], v2, EntryOf(a, Kid(n, true)), false);
            Rep(Fs(r.v, fs.ibits[n := true], fs.nodes[p := r.d][n := NewDir(b)]), AddDir(t, p, a, n))
  {
    hide Store, NodesRep, RootFirst, ReplacesTable, Insert, TreeInv;
    var r := EntryForDirStores(fs, t, p, a, n, v2, b);
    AddDirKeeps(t, p, a, n);
    OneMoreRep(fs, t, r.v, n, fs.nodes[p := r.d][n := NewDir(b)], AddDir(t, p, a, n));
  }

  lemma EntryForDirKeeps(fs: Fs, t: Tree, p: nat, a: string, n: nat, v2: Volume, b: Blk, stops: bool)
    requires CanInsert(fs, t, p, a) && n == FirstClear(fs.ibits) < |fs.ibits| && v2.base == fs.v.base
    requires Store(fs.nodes[n := NewDir(b)], v2) && NodesRep(fs.nodes[n := NewDir(b)], v2, WithDir(t, p, n))
    requires Shaped(fs.nodes[p], v2.disk) && !ReplacesTable(fs.nodes[p], v2, false)
    requires EntryForDir(fs, p, a, n, v2, b, stops).Next? && EntryForDir(fs, p, a, n, v2, b, stops).value.ok
    ensures Rep(EntryForDir(fs, p, a, n, v2, b, stops).value.fs, AddDir(t, p, a, n))
  {
    hide Rep, Store, NodesRep, ReplacesTable, Insert, FirstClear;
    EntryForDirFacts(fs, t, p, a, n, v2, b, stops);
    EntryForDirRep(fs, t, p, a, n, v2, b);
  }

  lemma EntryForDirStores(fs: Fs, t: Tree, p: nat, a: string, n: nat, v2: Volume, b: Blk) returns (r: Insertion)
    requires CanInsert(fs, t, p, a) && p in fs.nodes && p != n && n !in fs.nodes && n !in t.dirs && n != 0
    requires Store(fs.nodes[n := NewDir(b)], v2) && NodesRep(fs.nodes[n := NewDir(b)], v2, WithDir(t, p, n))
    requires Shaped(fs.nodes[p], v2.disk) && !ReplacesTable(fs.nodes[p], v2, false) && v2.base == fs.v.base
    requires Insert(fs.nodes[p], v2, EntryOf(a, Kid(n, true)), false).ok
    ensures r == Insert(fs.nodes[p], v2, EntryOf(a, Kid(n, true)), false)
    ensures var nodes' := fs.nodes[p := r.d][n := NewDir(b)];
            Store(nodes', r.v) && NodesRep(nodes', r.v, AddDir(t, p, a, n)) && RootFirst(nodes', r.v) && r.v.base > 0
  {
    KidsAreGood(t, p);
    r := DirEntryAdded(fs.nodes, v2, t, p, a, n, b);
  }

  lemma OneMoreRep(fs: Fs, t: Tree, v': Volume, n: nat, nodes': map<nat, Dir>, t': Tree)
    requires Rep(fs, t) && TreeInv(t') && Store(nodes', v') && NodesRep(nodes', v', t') && n < MAX_FILES
    requires nodes'.Keys == fs.nodes.Keys + {n} && t'.dirs.Keys + t'.files == t.dirs.Keys + t.files + {n}
    requires RootFirst(nodes', v') && v'.base > 0
    ensures Rep(Fs(v', fs.ibits[n := true], nodes'), t')
  {
    BitsAdd(fs.ibits, fs.nodes, n, nodes');
  }

  /** A successful sys_mkdir adds an empty directory to the tree. */
  lemma MakeDirKeeps(fs: Fs, t: Tree, p: nat, a: string, stops: bool)
    requires CanInsert(fs, t, p, a) && MakeDir(fs, p, a, stops).Next? && MakeDir(fs, p, a, stops).value.ok
    requires Alloc(fs.v).Some? && Shaped(fs.nodes[p], DotsPut(fs.v, FirstClear(fs.ibits), p).disk)
    requires !ReplacesTable(fs.nodes[p], DotsPut(fs.v, FirstClear(fs.ibits), p), false)
    ensures Rep(MakeDir(fs, p, a, stops).value.fs, AddDir(t, p, a, FirstClear(fs.ibits)))
  {
    var n := FirstClear(fs.ibits);
    MakeDirUnfolds(fs, t, p, a, stops);
    EntryForDirKeeps(fs, t, p, a, n, DotsPut(fs.v, n, p), Alloc(fs.v).value.1, stops);
  }

  lemma DirEntryAdded(nodes: map<nat, Dir>, v2: Volume, t: Tree, p: nat, a: string, n: nat, b: Blk) returns (r: Insertion)
    requires p in t.dirs && p in nodes && p != n && n !in nodes && n !in t.dirs
    requires Store(nodes[n := NewDir(b)], v2) && NodesRep(nodes[n := NewDir(b)], v2, WithDir(t, p, n))
    requires a !in t.dirs[p].kids && GoodName(a) && GoodKids(t.dirs[p].kids)
    requires Shaped(nodes[p], v2.disk) && !ReplacesTable(nodes[p], v2, false)
    requires Insert(nodes[p], v2, EntryOf(a, Kid(n, true)), false).ok
    ensures r == Insert(nodes[p], v2, EntryOf(a, Kid(n, true)), false)
    ensures var nodes' := nodes[p := r.d][n := NewDir(b)];
            && Store(nodes', r.v) && NodesRep(nodes', r.v, AddDir(t, p, a, n))
            && |r.d.direct| == |nodes[p].direct| == DIRECT && r.d.direct[0] == nodes[p].direct[0] && r.v.base == v2.base
  {
    var nodes1 := nodes[n := NewDir(b)];
    r := Insert(nodes[p], v2, EntryOf(a, Kid(n, true)), false);
    EntryAdded(nodes1, v2, WithDir(t, p, n), p, a, Kid(n, true));
    assert nodes1[p := r.d] == nodes[p := r.d][n := NewDir(b)];
    assert WithKid(WithDir(t, p, n), p, a, Kid(n, true)) == AddDir(t, p, a, n);
  }

  // ---------------------------------------------------------------- removing

  lemma DeleteRehouses(nodes: map<nat, Dir>, v: Volume, p: nat, e: Slot, d': Dir, v': Volume)
    requires p in nodes && Store(nodes, v) && Deleted(nodes[p], v, e, d', v')
    ensures Rehoused(nodes, v, p, d', v')
  {
    forall x | x in Blocks(nodes[p], v.disk) ensures v.Used(x) {
      assert HasBlock(nodes, v.disk, p, x);
    }
  }

  function WithoutKid(t: Tree, p: nat, a: string): Tree
    requires p in t.dirs
  {
    t.(dirs := t.dirs[p := t.dirs[p].(kids := t.dirs[p].kids - {a})])
  }

  /** The entry is gone from the parent; the inode it named is still there. */
  lemma EntryRemoved(nodes: map<nat, Dir>, v: Volume, t: Tree, p: nat, a: string) returns (r: Deletion)
    requires Store(nodes, v) && NodesRep(nodes, v, t)
    requires p in t.dirs && p in nodes && a in t.dirs[p].kids && GoodKids(t.dirs[p].kids)
    ensures Shaped(nodes[p], v.disk) && Delete(nodes[p], v, t.dirs[p].kids[a].ino) == Next(r) && r.found
    ensures Store(nodes[p := r.d], r.v) && NodesRep(nodes[p := r.d], r.v, WithoutKid(t, p, a))
    ensures |r.d.direct| == |nodes[p].direct| == DIRECT && r.d.direct[0] == nodes[p].direct[0]
    ensures r.v.base == v.base
  {
    r := KidRemoved(nodes, v, t, p, a);
    AfterRemoval(nodes, v, t, p, a, r.d, r.v);
  }

  lemma AfterRemoval(nodes: map<nat, Dir>, v: Volume, t: Tree, p: nat, a: string, d': Dir, v': Volume)
    requires Store(nodes, v) && NodesRep(nodes, v, t) && p in t.dirs
    requires NodeRep(d', v', p, WithoutKid(t, p, a)) && Rehoused(nodes, v, p, d', v')
    ensures Store(nodes[p := d'], v') && NodesRep(nodes[p := d'], v', WithoutKid(t, p, a)) && v'.base == v.base
  {
    RehousedRep(nodes, v, t, p, d', v', WithoutKid(t, p, a));
  }

  lemma KidRemoved(nodes: map<nat, Dir>, v: Volume, t: Tree, p: nat, a: string) returns (r: Deletion)
    requires Store(nodes, v) && NodesRep(nodes, v, t)
    requires p in t.dirs && p in nodes && a in t.dirs[p].kids && GoodKids(t.dirs[p].kids)
    ensures Shaped(nodes[p], v.disk) && Delete(nodes[p], v, t.dirs[p].kids[a].ino) == Next(r) && r.found
    ensures NodeRep(r.d, r.v, p, WithoutKid(t, p, a)) && Rehoused(nodes, v, p, r.d, r.v)
    ensures |r.d.direct| == |nodes[p].direct| == DIRECT && r.d.direct[0] == nodes[p].direct[0]
  {
    assert NodeRep(nodes[p], v, p, t);
    DeleteRemovesKid(nodes[p], v, p, t.dirs[p], a);
    r := Delete(nodes[p], v, t.dirs[p].kids[a].ino).value;
    DeleteRehouses(nodes, v, p, EntryOf(a, t.dirs[p].kids[a]), r.d, r.v);
  }

  lemma BitsRemove(ibits: seq<bool>, nodes: map<nat, Dir>, n: nat, nodes': map<nat, Dir>)
    requires BitsRep(ibits, nodes) && n in nodes && nodes'.Keys == nodes.Keys - {n}
    ensures BitsRep(ibits[n := false], nodes')
  {
  }

  /** Removing a file or an empty directory stops nowhere and cuts exactly that child off. */
  lemma RemoveKeeps(fs: Fs, t: Tree, p: nat, a: string)
    requires Rep(fs, t) && Has(t, p, a)
    requires KidOf(t, p, a).isDir ==> t.dirs[KidOf(t, p, a).ino].kids == map[]
    ensures var n := KidOf(t, p, a).ino;
            && n in fs.nodes && n < |fs.ibits| && Shaped(fs.nodes[p], fs.v.disk)
            && Remove(fs, p, n).Next? && Rep(Remove(fs, p, n).value, Cut(t, p, a))
  {
    var n := KidOf(t, p, a).ino;
    assert KidOk(t, p, a);
    KidsAreGood(t, p);
    var x := EntryRemoved(fs.nodes, fs.v, t, p, a);
    var nodes1 := fs.nodes[p := x.d];
    var t1 := WithoutKid(t, p, a);
    NotRootBlock(nodes1, x.v, t1, n);
    ReleaseGivesBlocks(nodes1[n], x.v);
    assert p != n by {
      assert KidOf(t, p, a).isDir ==> t.dirs[n].level == t.dirs[p].level + 1;
    }
    var v' := Release(fs.nodes[n], x.v).value;
    DroppedRep(nodes1, x.v, t1, n, v', Cut(t, p, a));
    CutKeeps(t, p, a);
    var fs' := Remove(fs, p, n).value;
    assert fs'.nodes.Keys == fs.nodes.Keys - {n};
    BitsRemove(fs.ibits, fs.nodes, n, fs'.nodes);
    assert Cut(t, p, a).dirs.Keys + Cut(t, p, a).files == fs.nodes.Keys - {n};
  }
}
