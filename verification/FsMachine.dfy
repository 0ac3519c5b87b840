/** The mounted partition as one object that the calls of fs/fs.c and fs/file.c update in place. */
module FsMachine {
  import opened Outcomes
  import opened BitSeq
  import opened Directory
  import opened DirDelete
  import opened DirRead
  import opened DirHeads
  import opened DirEntries
  import opened FileGrowth
  import opened FsState
  import opened FileSystem
  import opened FsCalls
  import opened FsRuns
  import opened Tree
  import Paths
  import Format
  import DirHandle
  import FileHandle

  // ---------------------------------------------------------------- naming a directory upwards

  /** The first slot with inode number c, cleared slots having number 0. */
  function FirstIno(es: seq<Slot>, c: nat): (k: nat)
    ensures k <= |es|
    ensures k < |es| ==> InoOf(es[k]) == c
    ensures forall j :: 0 <= j < k ==> InoOf(es[j]) != c
  {
    if es == [] || InoOf(es[0]) == c then 0 else 1 + FirstIno(es[1..], c)
  }

  function InoOf(e: Slot): nat {
    if e.Empty? then 0 else e.ino
  }

  /** get_child_dir_name: the name in the first slot that holds c, whatever its type. */
  function ChildName(v: Volume, blocks: seq<Blk>, c: nat): Option<string> {
    if blocks == [] then None
    else
      var es := SlotsOf(v, blocks[0]);
      var k := FirstIno(es, c);
      if k < |es| then Some(NameOf(es[k])) else ChildName(v, blocks[1..], c)
  }

  lemma NoInoInLive(es: seq<Slot>, c: nat)
    requires FirstIno(es, c) == |es|
    ensures forall e :: e in LiveSlots(es) ==> e.Entry? && e.ino != c
  {
    forall e | e in LiveSlots(es) ensures e.Entry? && e.ino != c {
      LiveSlotsMember(es, e);
      var k :| 0 <= k < |es| && es[k] == e;
    }
  }

  lemma {:induction false} ChildAmong(v: Volume, blocks: seq<Blk>, c: nat)
    requires c != 0
    ensures match ChildName(v, blocks, c)
            case Some(a) => exists e :: e in LiveAll(v.disk, blocks) && e.Entry? && e.ino == c && NameOf(e) == a
            case None => forall e :: e in LiveAll(v.disk, blocks) ==> e.Entry? && e.ino != c
  {
    if blocks != [] {
      var es := SlotsOf(v, blocks[0]);
      var k := FirstIno(es, c);
      LiveOfIsSlots(v, blocks[0]);
      ChildAmong(v, blocks[1..], c);
      if k < |es| {
        LiveSlotsMember(es, es[k]);
        assert es[k] in LiveAll(v.disk, blocks);
      } else {
        NoInoInLive(es, c);
        if ChildName(v, blocks[1..], c).Some? {
          var e :| e in LiveAll(v.disk, blocks[1..]) && e.Entry? && e.ino == c && NameOf(e) == ChildName(v, blocks[1..], c).value;
          assert e in LiveAll(v.disk, blocks);
        }
      }
    }
  }

  lemma ChildLive(d: Dir, v: Volume, c: nat, x: Slot) returns (e: Slot)
    requires c != 0 && x in Live(d, v) && x.Entry? && x.ino == c
    ensures e in Live(d, v) && e.Entry? && e.ino == c && ChildName(v, View(d, v.disk), c) == Some(NameOf(e))
  {
    var blocks := View(d, v.disk);
    hide NameOf, ChildName, View, LiveAll;
    ChildAmong(v, blocks, c);
    match ChildName(v, blocks, c)
    case Some(a) =>
      e :| e in LiveAll(v.disk, blocks) && e.Entry? && e.ino == c && NameOf(e) == a;
    case None =>
      e := x;
  }

  /** "." and ".." of its parent carry other numbers than a subdirectory. */
  lemma OnlyChild(live: seq<Slot>, p: nat, f: Folder, a: string, n: nat, e: Slot)
    requires Holds(live, p, f) && GoodKids(f.kids) && a in f.kids && f.kids[a] == Kid(n, true) && p != n && f.up != n
    requires e in live && e.Entry? && e.ino == n
    ensures e == EntryOf(a, Kid(n, true)) && NameOf(e) == a
  {
    HoldsMember(live, p, f, e);
    EntriesMember(f.kids, e);
  }

  /** The name of a subdirectory is the one found. */
  lemma ChildNameIs(fs: Fs, t: Tree, n: nat)
    requires Rep(fs, t) && n in t.dirs && n != 0
    ensures var p := t.dirs[n].up;
            p in fs.nodes && ChildName(fs.v, View(fs.nodes[p], fs.v.disk), n) == Some(NameOfDir(t, n))
  {
    UpIsDir(t, n);
    var p, a := t.dirs[n].up, NameOfDir(t, n);
    var d := fs.nodes[p];
    assert NodeRep(d, fs.v, p, t) && TreeInv(t);
    NotOwnGrandparent(t, n);
    KidsAreGood(t, p);
    hide Rep, TreeInv, Live, View, ChildName, NameOf, GoodKids;
    HoldsMember(Live(d, fs.v), p, t.dirs[p], EntryOf(a, Kid(n, true)));
    EntriesMember(t.dirs[p].kids, EntryOf(a, Kid(n, true)));
    var e := ChildLive(d, fs.v, n, EntryOf(a, Kid(n, true)));
    OnlyChild(Live(d, fs.v), p, t.dirs[p], a, n, e);
  }

  lemma NotOwnGrandparent(t: Tree, n: nat)
    requires TreeInv(t) && n in t.dirs && n != 0
    ensures t.dirs[n].up in t.dirs && t.dirs[n].up != n && t.dirs[t.dirs[n].up].up != n
  {
    UpIsDir(t, n);
    var p := t.dirs[n].up;
    if p != 0 {
      UpIsDir(t, p);
    }
  }

  lemma WashedPath(names: seq<string>)
    requires CleanNames(names)
    ensures Paths.Names(Paths.Render(names), false) == names && Paths.Clean(names)
    ensures IsRootPath(Paths.Render(names)) <==> names == []
  {
    Paths.NamesOfRender(names, false);
    var path := Paths.Render(names);
    if path == "/." || path == "/.." {
      DotNames(path, false);
      DotIsNotClean(names, path[1..]);
    } else if path == "/" {
      Paths.NamesOfRender([], false);
    }
  }

  lemma DotIsNotClean(names: seq<string>, dot: string)
    requires names == [dot] && (dot == "." || dot == "..")
    ensures !CleanNames(names)
  {
    assert names[0] in names;
  }

  lemma LastNameIs(path: string, names: seq<string>)
    requires CleanNames(names) && names != [] && path == Paths.Render(names)
    ensures exists i :: 0 <= i < |path| && path[i] == '/'
    ensures path[Paths.LastSlash(path) + 1..] == names[|names| - 1]
  {
    Paths.RenderedTop(names);
    CutBehind(path, Paths.Join(names[..|names| - 1]), names[|names| - 1], Paths.LastSlash(path));
  }

  lemma CutBehind(path: string, front: string, last: string, slash: nat)
    requires path == front + "/" + last && slash == |front|
    ensures path[slash + 1..] == last
  {
  }

  /** What search_file finds can be removed: it is a child, and stays readable while its entry goes. */
  lemma FoundIsKid(fs: Fs, t: Tree, names: seq<string>)
    requires Rep(fs, t) && CleanNames(names) && FsSearch(fs, names).Found? && FsSearch(fs, names).ino != 0
    ensures var s := FsSearch(fs, names);
            && s.parent in fs.nodes && s.ino in fs.nodes && s.ino < |fs.ibits| && Shaped(fs.nodes[s.parent], fs.v.disk)
            && (var r := Delete(fs.nodes[s.parent], fs.v, s.ino);
                r.Next? ==> Shaped(fs.nodes[s.ino], r.value.v.disk))
  {
    SearchTree(fs, t, names);
    var s := FsSearch(fs, names);
    var p, n := s.parent, s.ino;
    var a :| Has(t, p, a) && KidOf(t, p, a) == Kid(n, s.isDir);
    assert KidOk(t, p, a);
    KidsAreGood(t, p);
    var x := EntryRemoved(fs.nodes, fs.v, t, p, a);
    var nodes1 := fs.nodes[p := x.d];
    assert Shaped(nodes1[n], x.v.disk);
    assert p != n by {
      assert KidOf(t, p, a).isDir ==> t.dirs[n].level == t.dirs[p].level + 1;
    }
  }

  /** The number in slot 1 of the first sector. */
  lemma DotDotIs(fs: Fs, t: Tree, n: nat)
    requires Rep(fs, t) && n in t.dirs
    ensures n in fs.nodes && |fs.nodes[n].direct| == DIRECT && fs.nodes[n].direct[0] >= fs.v.base
    ensures HeadSlots(SlotsOf(fs.v, fs.nodes[n].direct[0]), n, t.dirs[n].up) && t.dirs[n].up < MAX_FILES
  {
    assert NodeRep(fs.nodes[n], fs.v, n, t);
    FirstIsView(fs.nodes[n], fs.v);
    if n != 0 {
      UpIsDir(t, n);
    }
  }

  /** What one turn of sys_getcwd's loop finds. */
  lemma OneLevelUp(fs: Fs, t: Tree, n: nat)
    requires Rep(fs, t) && n in t.dirs && n != 0
    ensures n in fs.nodes && |fs.nodes[n].direct| == DIRECT && fs.nodes[n].direct[0] >= fs.v.base
    ensures HeadSlots(SlotsOf(fs.v, fs.nodes[n].direct[0]), n, t.dirs[n].up) && t.dirs[n].up < MAX_FILES
    ensures var p := t.dirs[n].up;
            && p in t.dirs && p in fs.nodes && Shaped(fs.nodes[p], fs.v.disk) && t.dirs[n].level > t.dirs[p].level
            && ChildName(fs.v, View(fs.nodes[p], fs.v.disk), n) == Some(NameOfDir(t, n))
            && PathTo(t, n) == PathTo(t, p) + [NameOfDir(t, n)]
  {
    DotDotIs(fs, t, n);
    UpIsDir(t, n);
    ChildNameIs(fs, t, n);
    RepShaped(fs, t);
  }

  class Partition {
    var v: Volume
    var ibits: seq<bool>
    var nodes: map<nat, Dir>

    ghost function F(): Fs
      reads this
    {
      Fs(v, ibits, nodes)
    }

    /** partition_format and mount_partition; the ones that pad the bitmap are left off. */
    constructor (start: nat, secCnt: nat)
      requires secCnt > Format.USED_SECTS
      ensures F() == Formatted(start, secCnt)
    {
      var p := Format.Plan(start, secCnt);
      v := Volume(p.dataStart, seq(Allocatable(p.bits), i requires 0 <= i => Format.InitialBit(p.bits, i)),
                  map[p.dataStart := Slots(DotSlots(0, 0))]);
      ibits := seq(MAX_FILES, i requires 0 <= i => i == 0);
      nodes := map[0 := NewDir(p.dataStart)];
    }

    /** One search_dir_entry. */
    method Lookup(p: nat, name: string) returns (e: Option<Slot>)
      requires p in nodes && Shaped(nodes[p], v.disk)
      ensures e == Search(v, View(nodes[p], v.disk), name)
    {
      var h := new DirHandle.Handle(v, nodes[p]);
      e := h.SearchDirEntry(name);
    }

    method SearchFile(path: string, junk: nat, shipped: bool) returns (r: Found)
      requires AllShaped(F()) && path != ""
      ensures r == if IsRootPath(path) then Found(0, 0, true, 0)
                   else SearchSectors(F(), 0, 0, junk, Paths.Names(path, shipped), 0)
    {
      if path == "/" || path == "/." || path == "/.." {
        return Found(0, 0, true, 0);
      }
      var p, parent, last, depth := 0, 0, junk, 0;
      var name, rest := Paths.PathParse(path, shipped);
      ghost var left := Paths.Names(path, shipped);
      while name != "" && p in nodes
        invariant rest.Some? ==> rest.value != ""
        invariant left == if name == "" then [] else [name] + if rest.None? then [] else Paths.Names(rest.value, shipped)
        invariant SearchSectors(F(), 0, 0, junk, Paths.Names(path, shipped), 0)
                  == SearchSectors(F(), p, parent, last, left, depth)
        decreases |left|
      {
        var e := Lookup(p, name);
        if e.None? {
          return Missing(p, depth + 1);
        }
        assert left[0] == name;
        left := left[1..];
        name := "";
        if rest.Some? {
          name, rest := Paths.PathParse(rest.value, shipped);
        }
        depth := depth + 1;
        match e.value
        case Empty =>
          last := 0;
        case Entry(_, ino, isDir) =>
          if !isDir {
            return Found(ino, p, false, depth);
          }
          parent, p, last := p, ino, ino;
      }
      return Found(last, parent, true, depth);
    }

    // -------------------------------------------------------------- creating and removing

    /** file_create, with its rollback. */
    method FileCreate(p: nat, a: string, stops: bool) returns (r: Outcome<bool>)
      requires p in nodes && Shaped(nodes[p], v.disk)
      modifies this
      ensures Returns(CreateFile(old(F()), p, a, stops), r)
    {
      var n := FirstClear(ibits);
      if n == |ibits| {
        return if stops then Halted else Next(false);
      }
      ghost var bits0 := ibits;
      ibits := ibits[n := true];
      if |a| > NAME_ROOM {
        return Halted;
      }
      var h := new DirHandle.Handle(v, nodes[p]);
      r := h.SyncDirEntry(Entry(a, n, false), false, stops);
      if r.Halted? {
        return;
      }
      v, nodes := Volume(h.base, h.bits, h.disk), nodes[p := Dir(h.direct, h.table, h.size)];
      if !r.value {
        ibits := ibits[n := false];
        assert ibits == bits0;
        return;
      }
      nodes := nodes[n := Dir(Zeros(DIRECT), 0, 0)];
    }

    /** sys_mkdir from line 690. */
    method MakeDirectory(p: nat, a: string, stops: bool) returns (r: Outcome<bool>)
      requires p in nodes && Shaped(nodes[p], v.disk)
      modifies this
      ensures Returns(MakeDir(old(F()), p, a, stops), r)
    {
      var n := FirstClear(ibits);
      if n == |ibits| {
        return if stops then Halted else Next(false);
      }
      ghost var bits0 := ibits;
      ibits := ibits[n := true];
      var h := new DirHandle.Handle(v, nodes[p]);
      var got := h.BlockBitmapAlloc(stops);
      if got.Halted? {
        return Halted;
      }
      var lba := got.value;
      if lba.None? {
        ibits := ibits[n := false];
        assert ibits == bits0;
        return Next(false);
      }
      if lba.value <= h.base {
        return Halted;
      }
      h.disk := h.disk[lba.value := Slots(DotSlots(n, p))];
      if !Shaped(nodes[p], h.disk) || |a| > NAME_ROOM {
        return Halted;
      }
      r := h.SyncDirEntry(Entry(a, n, true), false, stops);
      if r.Halted? {
        return;
      }
      v, nodes := Volume(h.base, h.bits, h.disk), nodes[p := Dir(h.direct, h.table, h.size)];
      if r.value {
        nodes := nodes[n := NewDir(lba.value)];
      } else {
        ibits := ibits[n := false];
        assert ibits == bits0;
      }
    }

    /** delete_dir_entry and inode_release. */
    method RemoveEntry(p: nat, n: nat) returns (r: Outcome<()>)
      requires p in nodes && n in nodes && n < |ibits| && AllShaped(F())
      requires Delete(nodes[p], v, n).Next? ==> Shaped(nodes[n], Delete(nodes[p], v, n).value.v.disk)
      modifies this
      ensures match Remove(old(F()), p, n)
              case Halted => r == Halted
              case Next(fs') => r == Next(()) && F() == fs'
    {
      var h := new DirHandle.Handle(v, nodes[p]);
      var found := h.DeleteDirEntry(n);
      if found.Halted? {
        return Halted;
      }
      var d := nodes[n];
      var g := new FileHandle.Handle(Volume(h.base, h.bits, h.disk), d);
      var freed := g.InodeRelease();
      if freed.Halted? {
        return Halted;
      }
      v := Volume(g.base, g.bits, g.disk);
      nodes := nodes[p := Dir(h.direct, h.table, h.size)] - {n};
      ibits := ibits[n := false];
      return Next(());
    }

    // -------------------------------------------------------------- the calls

    /** search_file on a washed path. */
    method SearchWashed(path: string, ghost names: seq<string>) returns (r: Found)
      requires AllShaped(F()) && CleanNames(names) && path == Paths.Render(names)
      ensures r == FsSearch(F(), names)
    {
      WashedPath(names);
      r := SearchFile(path, 0, false);
    }

    /** strrchr(path, '/') + 1. */
    method LastName(path: string, ghost names: seq<string>) returns (a: string)
      requires CleanNames(names) && names != [] && path == Paths.Render(names)
      ensures a == names[|names| - 1]
    {
      LastNameIs(path, names);
      a := path[Paths.LastSlash(path) + 1..];
    }

    /** Lines 397-445: sys_open of a file that is to be created. */
    method SysOpenCreate(path: string, stops: bool, ghost names: seq<string>, ghost t: Tree) returns (r: Outcome<bool>)
      requires Rep(F(), t) && CleanNames(names) && path == Paths.Render(names)
      modifies this
      ensures Returns(SysCreate(old(F()), names, stops), r)
    {
      RepShaped(F(), t);
      WashedPath(names);
      var depth := Paths.PathDepthCnt(path, false);
      var found := SearchWashed(path, names);
      if found.Found? || found.depth != depth || found.parent !in nodes {
        return Next(false);
      }
      var a := LastName(path, names);
      r := FileCreate(found.parent, a, stops);
    }

    method SysMkdir(path: string, stops: bool, ghost names: seq<string>, ghost t: Tree) returns (r: Outcome<bool>)
      requires Rep(F(), t) && CleanNames(names) && path == Paths.Render(names)
      modifies this
      ensures Returns(FsCalls.SysMkdir(old(F()), names, stops), r)
    {
      RepShaped(F(), t);
      WashedPath(names);
      var depth := Paths.PathDepthCnt(path, false);
      var found := SearchWashed(path, names);
      if found.Found? || found.depth != depth || found.parent !in nodes {
        return Next(false);
      }
      var a := LastName(path, names);
      r := MakeDirectory(found.parent, a, stops);
    }

    /** The growth of one file_write. */
    method FileWrite(n: nat, count: nat, stops: bool) returns (r: Outcome<bool>)
      requires n in nodes && Shaped(nodes[n], v.disk)
      modifies this
      ensures match GrowScan(old(nodes[n]), old(v), count, stops)
              case Halted => r == Halted
              case Next(g) => var x := AfterGrowth(old(F()), n, count, g); r == Next(x.ok) && F() == x.fs
    {
      var h := new FileHandle.Handle(v, nodes[n]);
      r := h.GrowBy(count, stops);
      if r.Halted? {
        return;
      }
      v := Volume(h.base, h.bits, h.disk);
      nodes := nodes[n := Dir(h.direct, h.table, if r.value then h.size + count else h.size)];
    }

    /** sys_open of an existing file and the growth that one sys_write makes; the bytes themselves are
        FileHandle's. */
    method SysAppend(path: string, count: nat, stops: bool, ghost names: seq<string>, ghost t: Tree) returns (r: Outcome<bool>)
      requires Rep(F(), t) && CleanNames(names) && path == Paths.Render(names)
      modifies this
      ensures Returns(FsCalls.SysAppend(old(F()), names, count, stops), r)
    {
      RepShaped(F(), t);
      WashedPath(names);
      var depth := Paths.PathDepthCnt(path, false);
      var found := SearchWashed(path, names);
      if found.Missing? || found.isDir || found.depth != depth || found.ino !in nodes {
        return Next(false);
      }
      r := FileWrite(found.ino, count, stops);
    }

    method SysUnlink(path: string, ghost names: seq<string>, ghost t: Tree) returns (r: Outcome<bool>)
      requires Rep(F(), t) && CleanNames(names) && path == Paths.Render(names)
      modifies this
      ensures Returns(FsCalls.SysUnlink(old(F()), names), r)
    {
      RepShaped(F(), t);
      var found := SearchWashed(path, names);
      if found.Missing? {
        return Next(false);
      }
      if found.ino == 0 {
        return Halted;
      }
      if found.isDir {
        return Next(false);
      }
      FoundIsKid(F(), t, names);
      var gone := RemoveEntry(found.parent, found.ino);
      return if gone.Halted? then Halted else Next(true);
    }

    /** Lines 531-537 of dir.c. */
    method LooksBeyondFirst(d: Dir) returns (more: bool)
      ensures more == MoreSectors(d)
    {
      var i := 1;
      while i < |d.direct|
        invariant 1 <= i && forall k :: 1 <= k < i && k < |d.direct| ==> d.direct[k] == 0
      {
        if d.direct[i] != 0 {
          return true;
        }
        i := i + 1;
      }
      more := d.table != 0;
    }

    /** sys_rmdir with dir_is_empty and dir_remove. */
    method SysRmdir(path: string, ghost names: seq<string>, ghost t: Tree) returns (r: Outcome<bool>)
      requires Rep(F(), t) && CleanNames(names) && path == Paths.Render(names)
      modifies this
      ensures Returns(FsCalls.SysRmdir(old(F()), names), r)
    {
      RepShaped(F(), t);
      var found := SearchWashed(path, names);
      if found.Missing? {
        return Next(false);
      }
      if found.ino == 0 {
        return Halted;
      }
      FoundIsKid(F(), t, names);
      var d := nodes[found.ino];
      if d.size != 2 * ENTRY_SIZE {
        return Next(false);
      }
      var more := LooksBeyondFirst(d);
      if more {
        return Halted;
      }
      var gone := RemoveEntry(found.parent, found.ino);
      return if gone.Halted? then Halted else Next(true);
    }

    /** The call did what the function says. */
    ghost predicate Returns(o: Outcome<Result>, r: Outcome<bool>)
      reads this
    {
      match o
      case Halted => r == Halted
      case Next(x) => r == Next(x.ok) && F() == x.fs
    }

    // -------------------------------------------------------------- sys_getcwd

    method GetParentDirInodeNr(c: nat) returns (p: Outcome<nat>)
      requires c in nodes && |nodes[c].direct| == DIRECT
      ensures var es := SlotsOf(v, nodes[c].direct[0]);
              p == if nodes[c].direct[0] >= v.base && |es| > 1 && es[1].Entry? && es[1].isDir && es[1].ino < MAX_FILES
                   then Next(es[1].ino) else Halted
    {
      var lba := nodes[c].direct[0];
      var es := SlotsOf(v, lba);
      if lba >= v.base && |es| > 1 && es[1].Entry? && es[1].isDir && es[1].ino < MAX_FILES {
        return Next(es[1].ino);
      }
      return Halted;
    }

    method GetChildDirName(p: nat, c: nat) returns (name: Option<string>)
      requires p in nodes && Shaped(nodes[p], v.disk)
      ensures name == ChildName(v, View(nodes[p], v.disk), c)
    {
      var all := View(nodes[p], v.disk);
      var i := 0;
      while i < |all|
        invariant i <= |all| && ChildName(v, all, c) == ChildName(v, all[i..], c)
      {
        var es := SlotsOf(v, all[i]);
        var k := 0;
        while k < |es| && InoOf(es[k]) != c
          invariant k <= |es| && forall j :: 0 <= j < k ==> InoOf(es[j]) != c
        {
          k := k + 1;
        }
        assert k == FirstIno(es, c);
        if k < |es| {
          return Some(NameOf(es[k]));
        }
        assert all[i..][1..] == all[i + 1..];
        i := i + 1;
      }
      return None;
    }

    /** One turn of the loop: the parent of `child`, and its name appended.  Neither the assertion on ".."
        nor the failure to find a name can come up. */
    method Climb(child: nat, reversed: string, ghost t: Tree) returns (parent: nat, longer: string)
      requires Rep(F(), t) && child in t.dirs && child != 0
      ensures parent == t.dirs[child].up && parent in t.dirs && t.dirs[child].level > t.dirs[parent].level
      ensures PathTo(t, child) == PathTo(t, parent) + [NameOfDir(t, child)]
      ensures longer == reversed + "/" + NameOfDir(t, child)
    {
      OneLevelUp(F(), t, child);
      var up := GetParentDirInodeNr(child);
      parent := up.value;
      var name := GetChildDirName(parent, child);
      longer := reversed + "/" + name.value;
    }

    /** On a partition that holds the tree t, sys_getcwd ends, and writes the path of directory c. */
    method SysGetcwd(c: nat, ghost t: Tree) returns (path: Outcome<string>)
      requires Rep(F(), t) && c in t.dirs
      ensures path == Next(Paths.Render(PathTo(t, c)))
    {
      if c == 0 {
        return Next("/");
      }
      var child, reversed := c, "";
      ghost var below: seq<string> := [];
      while child != 0
        invariant child in t.dirs && reversed == Paths.Join(Backwards(below))
        invariant PathTo(t, c) == PathTo(t, child) + below
        invariant Paths.Clean(below)
        decreases t.dirs[child].level
      {
        ghost var name := NameOfDir(t, child);
        ghost var front := PathTo(t, t.dirs[child].up);
        child, reversed := Climb(child, reversed, t);
        Reassociate(front, name, below);
        BackwardsCons(name, below);
        below := [name] + below;
      }
      assert PathTo(t, c) == below;
      var buf := Reassemble(reversed, below);
      assert below != [];
      return Next(buf);
    }

    /** Lines 1027-1036: the path is rebuilt from the last slash backwards. */
    method Reassemble(reversed: string, ghost names: seq<string>) returns (buf: string)
      requires Paths.Clean(names) && reversed == Paths.Join(Backwards(names))
      ensures buf == Paths.Join(names)
    {
      buf := "";
      var left := reversed;
      ghost var done, todo := [], names;
      while left != ""
        invariant names == done + todo && Paths.Clean(todo)
        invariant buf == Paths.Join(done) && left == Paths.Join(Backwards(todo))
        decreases |todo|
      {
        assert todo != [];
        FirstIsLast(todo);
        var slash := Paths.LastSlash(left);
        buf := buf + left[slash..];
        left := left[..slash];
        Paths.JoinConcat(done, [todo[0]]);
        Paths.JoinOne(todo[0]);
        assert done + [todo[0]] + todo[1..] == names;
        done, todo := done + [todo[0]], todo[1..];
      }
      Paths.JoinEmpty(Backwards(todo));
      assert done == names;
    }
  }

  function Backwards(names: seq<string>): (r: seq<string>)
    ensures |r| == |names|
  {
    if names == [] then [] else Backwards(names[1..]) + [names[0]]
  }

  lemma Reassociate(a: seq<string>, x: string, b: seq<string>)
    ensures a + [x] + b == a + ([x] + b)
  {
  }

  lemma BackwardsCons(a: string, names: seq<string>)
    ensures Paths.Join(Backwards([a] + names)) == Paths.Join(Backwards(names)) + "/" + a
  {
    assert ([a] + names)[1..] == names;
    Paths.JoinConcat(Backwards(names), [a]);
    Paths.JoinOne(a);
  }

  /** The last component of the reversed string is the first name. */
  lemma FirstIsLast(names: seq<string>)
    requires names != [] && Paths.Clean(names)
    ensures var p := Paths.Join(Backwards(names)); var front := Paths.Join(Backwards(names[1..]));
            && p == front + "/" + names[0] && |front| < |p| && p[|front|] == '/'
            && Paths.LastSlash(p) == |front|
            && p[..|front|] == front && p[|front|..] == "/" + names[0]
  {
    assert names[0] in names;
    Paths.LastSlashOfJoin(Backwards(names[1..]), names[0]);
    CutAt(Paths.Join(Backwards(names[1..])), names[0]);
  }

  lemma CutAt(front: string, a: string)
    ensures var p := front + "/" + a; p[..|front|] == front && p[|front|..] == "/" + a
  {
  }
}
