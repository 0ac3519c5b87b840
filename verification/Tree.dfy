/** What a directory tree is to search_file and sys_getcwd (fs/fs.c): named children and "..".  The
    file-system model shows that its sectors always hold such a tree. */
module Tree {
  import opened Outcomes
  import opened Paths

  datatype Kid = Kid(ino: nat, isDir: bool)

  /** `up` is the inode that ".." names; `level` is the distance from the root, kept for the proofs. */
  datatype Folder = Folder(kids: map<string, Kid>, up: nat, level: nat)

  datatype Tree = Tree(dirs: map<nat, Folder>, files: set<nat>) {
    predicate InUse(n: nat) {
      n in dirs || n in files
    }
  }

  /** Entries hold 16 characters; shorter names are stored with their terminating 0. */
  const NAME_ROOM := 16

  predicate GoodName(s: string) {
    Component(s) && s != "." && s != ".." && |s| < NAME_ROOM
  }

  predicate Has(t: Tree, p: nat, a: string) {
    p in t.dirs && a in t.dirs[p].kids
  }

  function KidOf(t: Tree, p: nat, a: string): Kid
    requires Has(t, p, a)
  {
    t.dirs[p].kids[a]
  }

  predicate KidOk(t: Tree, p: nat, a: string)
    requires Has(t, p, a)
  {
    var k := KidOf(t, p, a);
    && GoodName(a) && k.ino != 0
    && if k.isDir then k.ino in t.dirs && t.dirs[k.ino].up == p && t.dirs[k.ino].level == t.dirs[p].level + 1
       else k.ino in t.files
  }

  ghost predicate NamedOnce(t: Tree) {
    forall p, a, q, b :: Has(t, p, a) && Has(t, q, b) && KidOf(t, p, a).ino == KidOf(t, q, b).ino ==> p == q && a == b
  }

  ghost predicate Named(t: Tree, n: nat) {
    exists p, a :: Has(t, p, a) && KidOf(t, p, a).ino == n
  }

  /** The directories and files form a tree rooted at inode 0. */
  ghost predicate TreeInv(t: Tree) {
    && 0 in t.dirs && t.dirs[0].up == 0 && t.dirs[0].level == 0
    && (forall n :: n in t.files ==> n !in t.dirs)
    && (forall p, a :: Has(t, p, a) ==> KidOk(t, p, a))
    && NamedOnce(t)
    && (forall n :: t.InUse(n) && n != 0 ==> Named(t, n))
  }

  // ---------------------------------------------------------------- changing the tree

  function Fresh(): Tree {
    Tree(map[0 := Folder(map[], 0, 0)], {})
  }

  lemma FreshIsTree()
    ensures TreeInv(Fresh())
  {
  }

  function Linked(t: Tree, p: nat, a: string, k: Kid): map<nat, Folder>
    requires p in t.dirs
  {
    t.dirs[p := t.dirs[p].(kids := t.dirs[p].kids[a := k])]
  }

  function AddFile(t: Tree, p: nat, a: string, n: nat): Tree
    requires p in t.dirs
  {
    Tree(Linked(t, p, a, Kid(n, false)), t.files + {n})
  }

  function AddDir(t: Tree, p: nat, a: string, n: nat): Tree
    requires p in t.dirs
  {
    Tree(Linked(t, p, a, Kid(n, true))[n := Folder(map[], p, t.dirs[p].level + 1)], t.files)
  }

  function Cut(t: Tree, p: nat, a: string): Tree
    requires Has(t, p, a)
  {
    var n := KidOf(t, p, a).ino;
    Tree(t.dirs[p := t.dirs[p].(kids := t.dirs[p].kids - {a})] - {n}, t.files - {n})
  }

  lemma {:induction false} AddFileKeeps(t: Tree, p: nat, a: string, n: nat)
    requires TreeInv(t) && p in t.dirs && a !in t.dirs[p].kids && GoodName(a) && !t.InUse(n)
    ensures TreeInv(AddFile(t, p, a, n))
  {
    AddKeepsNames(t, AddFile(t, p, a, n), p, a, n);
  }

  lemma AddDirKeeps(t: Tree, p: nat, a: string, n: nat)
    requires TreeInv(t) && p in t.dirs && a !in t.dirs[p].kids && GoodName(a) && !t.InUse(n)
    ensures TreeInv(AddDir(t, p, a, n))
  {
    AddKeepsNames(t, AddDir(t, p, a, n), p, a, n);
  }

  lemma AddKeepsNames(t: Tree, t': Tree, p: nat, a: string, n: nat)
    requires TreeInv(t) && p in t.dirs && a !in t.dirs[p].kids && !t.InUse(n)
    requires forall q, b :: Has(t', q, b) <==> Has(t, q, b) || (q == p && b == a)
    requires forall q, b :: Has(t, q, b) ==> KidOf(t', q, b) == KidOf(t, q, b)
    requires Has(t', p, a) && KidOf(t', p, a).ino == n
    requires forall m :: t'.InUse(m) <==> t.InUse(m) || m == n
    ensures NamedOnce(t')
    ensures forall m :: t'.InUse(m) && m != 0 ==> Named(t', m)
  {
    forall q, b | Has(t, q, b) ensures KidOf(t, q, b).ino != n {
      assert KidOk(t, q, b);
    }
    forall m | t'.InUse(m) && m != 0 ensures Named(t', m) {
      if m != n {
        assert Named(t, m);
        var q, b :| Has(t, q, b) && KidOf(t, q, b).ino == m;
        assert Has(t', q, b) && KidOf(t', q, b).ino == m;
      }
    }
  }

  /** Only files and empty directories are cut off. */
  lemma CutKeeps(t: Tree, p: nat, a: string)
    requires TreeInv(t) && Has(t, p, a)
    requires KidOf(t, p, a).isDir ==> t.dirs[KidOf(t, p, a).ino].kids == map[]
    ensures TreeInv(Cut(t, p, a))
  {
    var t' := Cut(t, p, a);
    var n := KidOf(t, p, a).ino;
    assert KidOk(t, p, a);
    forall q, b ensures Has(t', q, b) <==> Has(t, q, b) && !(q == p && b == a) && q != n {
    }
    forall q, b | Has(t', q, b) ensures KidOk(t', q, b) {
      assert KidOk(t, q, b) && KidOf(t', q, b) == KidOf(t, q, b);
      assert KidOf(t, q, b).ino != n;
    }
    forall m | t'.InUse(m) && m != 0 ensures Named(t', m) {
      assert Named(t, m);
      var q, b :| Has(t, q, b) && KidOf(t, q, b).ino == m;
      assert q != n;
      assert Has(t', q, b) && KidOf(t', q, b).ino == m;
    }
  }

  // ---------------------------------------------------------------- walking

  /** What search_dir_entry finds, "." and ".." included. */
  function Lookup(t: Tree, p: nat, a: string): Option<Kid>
    requires p in t.dirs
  {
    if a == "." then Some(Kid(p, true))
    else if a == ".." then Some(Kid(t.dirs[p].up, true))
    else if a in t.dirs[p].kids then Some(t.dirs[p].kids[a])
    else None
  }

  /** The inode a list of components leads to, all but the last being directories. */
  function Walk(t: Tree, p: nat, names: seq<string>): Option<Kid>
    decreases names
  {
    if p !in t.dirs then None
    else if names == [] then Some(Kid(p, true))
    else
      match Lookup(t, p, names[0])
      case None => None
      case Some(k) =>
        if k.isDir then Walk(t, k.ino, names[1..])
        else if |names| == 1 then Some(k)
        else None
  }

  lemma {:induction false} WalkConcat(t: Tree, p: nat, a: seq<string>, b: seq<string>, q: nat)
    requires Walk(t, p, a) == Some(Kid(q, true))
    ensures Walk(t, p, a + b) == Walk(t, q, b)
    decreases a
  {
    if a == [] {
      assert a + b == b;
    } else {
      assert (a + b)[1..] == a[1..] + b;
      var k := Lookup(t, p, a[0]).value;
      if k.isDir {
        WalkConcat(t, k.ino, a[1..], b, q);
      }
    }
  }

  predicate IsNameOf(t: Tree, p: nat, a: string, n: nat) {
    Has(t, p, a) && KidOf(t, p, a) == Kid(n, true) && GoodName(a)
  }

  lemma UpIsDir(t: Tree, n: nat)
    requires TreeInv(t) && n in t.dirs && n != 0
    ensures exists a :: IsNameOf(t, t.dirs[n].up, a, n)
    ensures t.dirs[n].up in t.dirs && t.dirs[n].level == t.dirs[t.dirs[n].up].level + 1
  {
    assert Named(t, n);
    var p, a :| Has(t, p, a) && KidOf(t, p, a).ino == n;
    assert KidOk(t, p, a);
    assert IsNameOf(t, t.dirs[n].up, a, n);
  }

  /** The name of directory n in its parent. */
  ghost function NameOfDir(t: Tree, n: nat): (a: string)
    requires TreeInv(t) && n in t.dirs && n != 0
    ensures IsNameOf(t, t.dirs[n].up, a, n)
  {
    UpIsDir(t, n);
    var a :| IsNameOf(t, t.dirs[n].up, a, n);
    a
  }

  /** The components from the root down to directory n. */
  ghost function PathTo(t: Tree, n: nat): (names: seq<string>)
    requires TreeInv(t) && n in t.dirs
    ensures Clean(names)
    decreases t.dirs[n].level
  {
    if n == 0 then []
    else
      UpIsDir(t, n);
      PathTo(t, t.dirs[n].up) + [NameOfDir(t, n)]
  }

  lemma {:induction false} PathLeads(t: Tree, n: nat)
    requires TreeInv(t) && n in t.dirs
    ensures Walk(t, 0, PathTo(t, n)) == Some(Kid(n, true))
    decreases t.dirs[n].level
  {
    if n != 0 {
      UpIsDir(t, n);
      PathLeads(t, t.dirs[n].up);
      WalkConcat(t, 0, PathTo(t, t.dirs[n].up), [NameOfDir(t, n)], t.dirs[n].up);
    }
  }

  /** No other list of plain components leads there. */
  lemma {:induction false} PathIsUnique(t: Tree, names: seq<string>, n: nat)
    requires TreeInv(t) && Clean(names) && Walk(t, 0, names) == Some(Kid(n, true))
    ensures n in t.dirs && names == PathTo(t, n)
  {
    WalkStays(t, 0, names);
    if names != [] {
      var front, a := names[..|names| - 1], names[|names| - 1];
      assert names == front + [a];
      assert a in names && forall s :: s in front ==> s in names;
      var q := WalkFront(t, 0, front, a);
      WalkConcat(t, 0, front, [a], q);
      LookupPlain(t, q, a, n);
      PathIsUnique(t, front, q);
      assert NameOfDir(t, n) == a;
    } else {
      assert PathTo(t, 0) == [];
    }
  }

  lemma LookupPlain(t: Tree, q: nat, a: string, n: nat)
    requires TreeInv(t) && a != "." && a != ".." && Walk(t, q, [a]) == Some(Kid(n, true))
    ensures Has(t, q, a) && KidOf(t, q, a) == Kid(n, true) && n != 0
    ensures n in t.dirs && t.dirs[n].up == q
  {
    assert Has(t, q, a);
    assert KidOk(t, q, a);
    assert Walk(t, KidOf(t, q, a).ino, [a][1..]) == Some(Kid(n, true));
  }

  lemma {:induction false} WalkStays(t: Tree, p: nat, names: seq<string>)
    requires TreeInv(t) && Walk(t, p, names).Some?
    ensures var k := Walk(t, p, names).value; if k.isDir then k.ino in t.dirs else k.ino in t.files
    decreases names
  {
    if names != [] {
      var k := Lookup(t, p, names[0]).value;
      if k.isDir {
        WalkStays(t, k.ino, names[1..]);
      } else {
        assert KidOk(t, p, names[0]);
      }
    }
  }

  /** A walk of one more step passes through a directory. */
  lemma {:induction false} WalkFront(t: Tree, p: nat, front: seq<string>, a: string) returns (q: nat)
    requires Walk(t, p, front + [a]).Some?
    ensures Walk(t, p, front) == Some(Kid(q, true)) && q in t.dirs
    decreases front
  {
    if front == [] {
      q := p;
    } else {
      assert (front + [a])[1..] == front[1..] + [a];
      q := WalkFront(t, Lookup(t, p, front[0]).value.ino, front[1..], a);
    }
  }

  /** An inode is in use iff some plain path from the root leads to it. */
  lemma InUseIffReachable(t: Tree, n: nat)
    requires TreeInv(t)
    ensures t.InUse(n) <==> exists names :: Clean(names) && Walk(t, 0, names).Some? && Walk(t, 0, names).value.ino == n
  {
    if t.InUse(n) {
      var names := SomePath(t, n);
    }
    if names :| Clean(names) && Walk(t, 0, names).Some? && Walk(t, 0, names).value.ino == n {
      WalkStays(t, 0, names);
    }
  }

  lemma SomePath(t: Tree, n: nat) returns (names: seq<string>)
    requires TreeInv(t) && t.InUse(n)
    ensures Clean(names) && Walk(t, 0, names).Some? && Walk(t, 0, names).value.ino == n
  {
    if n in t.dirs {
      PathLeads(t, n);
      names := PathTo(t, n);
    } else {
      assert Named(t, n);
      var p, a :| Has(t, p, a) && KidOf(t, p, a).ino == n;
      assert KidOk(t, p, a);
      PathLeads(t, p);
      WalkConcat(t, 0, PathTo(t, p), [a], p);
      names := PathTo(t, p) + [a];
    }
  }

  // ---------------------------------------------------------------- search_file

  /** parent is the inode of searched_record->parent_dir, depth the number of names in searched_path. */
  datatype Found = Found(ino: nat, parent: nat, isDir: bool, depth: nat) | Missing(parent: nat, depth: nat)

  /** The loop at lines 315-364; `last` is dir_e.i_no and `parent` is parent_inode_no. */
  function SearchLoop(t: Tree, p: nat, parent: nat, last: nat, names: seq<string>, depth: nat): Found
    decreases names
  {
    if names == [] || p !in t.dirs then Found(last, parent, true, depth)
    else
      match Lookup(t, p, names[0])
      case None => Missing(p, depth + 1)
      case Some(k) =>
        if k.isDir then SearchLoop(t, k.ino, p, k.ino, names[1..], depth + 1)
        else Found(k.ino, p, false, depth + 1)
  }

  predicate IsRootPath(path: string) {
    path == "/" || path == "/." || path == "/.."
  }

  /** `junk` is what dir_e.i_no holds before anything is looked up. */
  function SearchFile(t: Tree, path: string, junk: nat, shipped: bool): Found
    requires path != ""
  {
    if IsRootPath(path) then Found(0, 0, true, 0)
    else SearchLoop(t, 0, 0, junk, Names(path, shipped), 0)
  }

  lemma {:induction false} SearchFollowsWalk(t: Tree, p: nat, parent: nat, last: nat, names: seq<string>, depth: nat)
    requires TreeInv(t) && p in t.dirs && names != [] && Walk(t, p, names).Some?
    ensures var r := SearchLoop(t, p, parent, last, names, depth);
            r.Found? && Kid(r.ino, r.isDir) == Walk(t, p, names).value
    decreases names
  {
    var k := Lookup(t, p, names[0]).value;
    if k.isDir && |names| > 1 {
      SearchFollowsWalk(t, k.ino, p, k.ino, names[1..], depth + 1);
    }
  }

  lemma SearchIsWalk(t: Tree, path: string, junk: nat, shipped: bool)
    requires TreeInv(t) && path != "" && (path == "/" || Names(path, shipped) != [])
    requires Walk(t, 0, Names(path, shipped)).Some?
    ensures var r := SearchFile(t, path, junk, shipped);
            r.Found? && Kid(r.ino, r.isDir) == Walk(t, 0, Names(path, shipped)).value
  {
    if path == "/" {
      NamesOfRender([], shipped);
    } else if IsRootPath(path) {
      DotNames(path, shipped);
    } else {
      SearchFollowsWalk(t, 0, 0, junk, Names(path, shipped), 0);
    }
  }

  lemma DotNames(path: string, shipped: bool)
    requires path == "/." || path == "/.."
    ensures Names(path, shipped) == [path[1..]]
  {
    NamesOfRender([path[1..]], shipped);
    JoinOne(path[1..]);
  }

  /** Folding "." and ".." away does not change where a resolving path leads. */
  lemma {:induction false} FoldKeepsWalk(t: Tree, stack: seq<string>, p: nat, names: seq<string>)
    requires TreeInv(t) && p in t.dirs && stack == PathTo(t, p)
    requires Walk(t, p, names).Some? && forall s :: s in names ==> Component(s)
    ensures Walk(t, 0, FoldFrom(stack, names)) == Walk(t, p, names)
    decreases names
  {
    PathLeads(t, p);
    if names != [] {
      var a := names[0];
      var k := Lookup(t, p, a).value;
      if a == ".." {
        UpPath(t, p);
        FoldKeepsWalk(t, Step(stack, a), k.ino, names[1..]);
      } else if a == "." || k.isDir {
        if a != "." {
          DownPath(t, p, a);
        }
        FoldKeepsWalk(t, Step(stack, a), k.ino, names[1..]);
      } else {
        WalkConcat(t, 0, stack, [a], p);
        assert names[1..] == [];
      }
    }
  }

  lemma UpPath(t: Tree, p: nat)
    requires TreeInv(t) && p in t.dirs
    ensures t.dirs[p].up in t.dirs && PathTo(t, t.dirs[p].up) == Step(PathTo(t, p), "..")
  {
    if p != 0 {
      UpIsDir(t, p);
      var up := PathTo(t, t.dirs[p].up);
      assert PathTo(t, p) == up + [NameOfDir(t, p)];
      assert (up + [NameOfDir(t, p)])[..|up|] == up;
    }
  }

  lemma DownPath(t: Tree, p: nat, a: string)
    requires TreeInv(t) && Has(t, p, a) && KidOf(t, p, a).isDir
    ensures KidOf(t, p, a).ino in t.dirs && PathTo(t, KidOf(t, p, a).ino) == PathTo(t, p) + [a]
  {
    var n := KidOf(t, p, a).ino;
    assert KidOk(t, p, a);
    assert NameOfDir(t, n) == a;
  }

  /** search_file finds the same inode for a path and for what wash_path makes of it. */
  lemma WashedSearchAgrees(t: Tree, path: string, junk: nat, shipped: bool)
    requires TreeInv(t) && path != "" && (path == "/" || Names(path, shipped) != [])
    requires Walk(t, 0, Names(path, shipped)).Some?
    ensures var raw := SearchFile(t, path, junk, shipped);
            var washed := SearchFile(t, Wash(path, shipped), junk, shipped);
            raw.Found? && washed.Found? && raw.ino == washed.ino && raw.isDir == washed.isDir
  {
    NamesAreComponents(path, shipped);
    NamesOfWash(path, shipped);
    FoldKeepsWalk(t, [], 0, Names(path, shipped));
    SearchIsWalk(t, path, junk, shipped);
    WashedIsRootOrNamed(path, shipped);
    SearchIsWalk(t, Wash(path, shipped), junk, shipped);
  }

  lemma WashedIsRootOrNamed(path: string, shipped: bool)
    requires path != ""
    ensures Wash(path, shipped) == "/" || Names(Wash(path, shipped), shipped) != []
  {
    NamesOfWash(path, shipped);
  }

  /** A path of slashes alone, other than "/" itself, looks nothing up: the result is whatever dir_e held. */
  lemma SlashesFindJunk(t: Tree, path: string, junk: nat, shipped: bool)
    requires path != "" && path != "/" && Names(path, shipped) == []
    ensures SearchFile(t, path, junk, shipped) == Found(junk, 0, true, 0)
  {
    if IsRootPath(path) {
      DotNames(path, shipped);
    }
  }

  /** Where a list of plain names is found by search_file. */
  lemma SearchClean(t: Tree, names: seq<string>, junk: nat, shipped: bool)
    requires Clean(names)
    ensures SearchFile(t, Render(names), junk, shipped)
            == if names == [] then Found(0, 0, true, 0) else SearchLoop(t, 0, 0, junk, names, 0)
  {
    NamesOfRender(names, shipped);
    assert names == [] || names[0] in names;
    if names == [] {
      NamesOfRender([], shipped);
    } else if IsRootPath(Render(names)) {
      if Render(names) != "/" {
        DotNames(Render(names), shipped);
      } else {
        NamesOfRender([], shipped);
      }
    }
  }

  predicate LeadsToFile(t: Tree, p: nat, names: seq<string>) {
    Walk(t, p, names).Some? && !Walk(t, p, names).value.isDir
  }

  /** search_file stops at a regular file and answers the same whatever follows it in the path. */
  lemma FileHidesTheRest(t: Tree, front: seq<string>, rest: seq<string>, junk: nat, shipped: bool)
    requires TreeInv(t) && front != [] && Clean(front + rest) && LeadsToFile(t, 0, front)
    ensures var r := SearchFile(t, Render(front + rest), junk, shipped);
            r.Found? && Kid(r.ino, r.isDir) == Walk(t, 0, front).value
    ensures Clean(front) && SearchFile(t, Render(front + rest), junk, shipped) == SearchFile(t, Render(front), junk, shipped)
  {
    forall s | s in front ensures s in front + rest {
    }
    SearchClean(t, front + rest, junk, shipped);
    SearchClean(t, front, junk, shipped);
    LoopStopsAtFile(t, 0, 0, junk, front, rest, 0);
  }

  lemma {:induction false} LoopStopsAtFile(t: Tree, p: nat, parent: nat, last: nat, front: seq<string>, rest: seq<string>, depth: nat)
    requires front != [] && LeadsToFile(t, p, front)
    ensures var r := SearchLoop(t, p, parent, last, front + rest, depth);
            r.Found? && Kid(r.ino, r.isDir) == Walk(t, p, front).value
    ensures SearchLoop(t, p, parent, last, front + rest, depth) == SearchLoop(t, p, parent, last, front, depth)
    ensures rest != [] ==> Walk(t, p, front + rest).None?
    decreases front
  {
    var k := Lookup(t, p, front[0]).value;
    assert (front + rest)[1..] == front[1..] + rest;
    if k.isDir {
      assert Walk(t, p, front) == Walk(t, k.ino, front[1..]);
      LoopStopsAtFile(t, k.ino, p, k.ino, front[1..], rest, depth + 1);
    }
  }

  /** The first k names lead to a regular file. */
  ghost predicate FileAt(t: Tree, p: nat, names: seq<string>, k: int) {
    0 < k <= |names| && LeadsToFile(t, p, names[..k])
  }

  /** Something is found although the path leads nowhere exactly when it continues behind a regular file. */
  lemma FoundPastFileIff(t: Tree, names: seq<string>, junk: nat, shipped: bool)
    requires TreeInv(t) && Clean(names)
    ensures SearchFile(t, Render(names), junk, shipped).Found? && Walk(t, 0, names).None?
            <==> exists k :: k < |names| && FileAt(t, 0, names, k)
  {
    SearchClean(t, names, junk, shipped);
    if k :| k < |names| && FileAt(t, 0, names, k) {
      assert names == names[..k] + names[k..];
      LoopStopsAtFile(t, 0, 0, junk, names[..k], names[k..], 0);
    }
    if names != [] && SearchLoop(t, 0, 0, junk, names, 0).Found? && Walk(t, 0, names).None? {
      var k := FoundPastFile(t, 0, 0, junk, names, 0);
    }
  }

  lemma {:induction false} FoundPastFile(t: Tree, p: nat, parent: nat, last: nat, names: seq<string>, depth: nat) returns (k: nat)
    requires TreeInv(t) && p in t.dirs && SearchLoop(t, p, parent, last, names, depth).Found? && Walk(t, p, names).None?
    ensures k < |names| && FileAt(t, p, names, k)
    decreases names
  {
    var kid := Lookup(t, p, names[0]).value;
    if kid.isDir {
      LookupIsDir(t, p, names[0]);
      k := FoundPastFile(t, kid.ino, p, kid.ino, names[1..], depth + 1);
      assert names[..k + 1][1..] == names[1..][..k];
      k := k + 1;
    } else {
      k := 1;
      assert names[..1] == [names[0]];
    }
  }

  lemma LookupIsDir(t: Tree, p: nat, a: string)
    requires TreeInv(t) && p in t.dirs && Lookup(t, p, a).Some? && Lookup(t, p, a).value.isDir
    ensures Lookup(t, p, a).value.ino in t.dirs
  {
    if a == ".." {
      UpPath(t, p);
    } else if a != "." {
      assert Has(t, p, a) && KidOk(t, p, a);
    }
  }

  /** A directory is only found where the path leads to it. */
  lemma {:induction false} DirFoundIsWalk(t: Tree, p: nat, parent: nat, last: nat, names: seq<string>, depth: nat)
    requires TreeInv(t) && p in t.dirs && (names == [] ==> last == p)
    requires SearchLoop(t, p, parent, last, names, depth).Found? && SearchLoop(t, p, parent, last, names, depth).isDir
    ensures Walk(t, p, names) == Some(Kid(SearchLoop(t, p, parent, last, names, depth).ino, true))
    decreases names
  {
    if names != [] {
      var kid := Lookup(t, p, names[0]).value;
      LookupIsDir(t, p, names[0]);
      DirFoundIsWalk(t, kid.ino, p, kid.ino, names[1..], depth + 1);
    }
  }

  /** What sys_getcwd writes is the only washed path that search_file takes back to the directory. */
  lemma CwdRoundTrip(t: Tree, c: nat, junk: nat, shipped: bool, other: seq<string>)
    requires TreeInv(t) && c in t.dirs
    ensures var r := SearchFile(t, Render(PathTo(t, c)), junk, shipped);
            r.Found? && r.ino == c && r.isDir
    ensures Clean(other) ==>
              var r := SearchFile(t, Render(other), junk, shipped);
              r.Found? && r.isDir && r.ino == c ==> Render(other) == Render(PathTo(t, c))
  {
    PathLeads(t, c);
    SearchClean(t, PathTo(t, c), junk, shipped);
    if PathTo(t, c) != [] {
      SearchFollowsWalk(t, 0, 0, junk, PathTo(t, c), 0);
    }
    if Clean(other) {
      SearchClean(t, other, junk, shipped);
      var r := SearchFile(t, Render(other), junk, shipped);
      if r.Found? && r.isDir && r.ino == c {
        if other != [] {
          DirFoundIsWalk(t, 0, 0, junk, other, 0);
        }
        PathIsUnique(t, other, c);
      }
    }
  }
}
