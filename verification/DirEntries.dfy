/** One directory's sectors as a map from names to children. */
module DirEntries {
  import opened Outcomes
  import opened Directory
  import opened DirInsert
  import opened DirDelete
  import opened DirRead
  import opened DirHeads
  import opened Tree

  function EntryOf(a: string, k: Kid): Slot {
    Entry(a, k.ino, k.isDir)
  }

  ghost function Entries(kids: map<string, Kid>): set<Slot> {
    set a | a in kids :: EntryOf(a, kids[a])
  }

  ghost predicate GoodKids(kids: map<string, Kid>) {
    && (forall a :: a in kids ==> GoodName(a))
    && (forall a, b :: a in kids && b in kids && kids[a].ino == kids[b].ino ==> a == b)
  }

  /** The live entries are ".", ".." and one entry per child. */
  ghost predicate Holds(live: seq<Slot>, n: nat, f: Folder) {
    multiset(live) == multiset{Dot(n), DotDot(f.up)} + multiset(Entries(f.kids))
  }

  ghost predicate DirRep(d: Dir, v: Volume, n: nat, f: Folder) {
    && Valid(d, v) && DotsFirst(d, v) && Heads(d, v, n, f.up)
    && Holds(Live(d, v), n, f)
  }

  lemma HoldsMember(live: seq<Slot>, n: nat, f: Folder, e: Slot)
    requires Holds(live, n, f)
    ensures e in live <==> e == Dot(n) || e == DotDot(f.up) || e in Entries(f.kids)
  {
    assert e in live <==> e in multiset(live);
  }

  lemma EntriesMember(kids: map<string, Kid>, e: Slot)
    ensures e in Entries(kids) <==> e.Entry? && e.name in kids && e == EntryOf(e.name, kids[e.name])
  {
  }

  // ---------------------------------------------------------------- looking up

  function KidOfSlot(e: Option<Slot>): Option<Kid> {
    match e
    case Some(Entry(_, ino, isDir)) => Some(Kid(ino, isDir))
    case _ => None
  }

  function LookupIn(n: nat, f: Folder, a: string): Option<Kid> {
    if a == "." then Some(Kid(n, true))
    else if a == ".." then Some(Kid(f.up, true))
    else if a in f.kids then Some(f.kids[a])
    else None
  }

  /** search_dir_entry is lookup in the map. */
  lemma SearchIsLookup(d: Dir, v: Volume, n: nat, f: Folder, a: string)
    requires DirRep(d, v, n, f) && GoodKids(f.kids) && a != ""
    ensures KidOfSlot(Search(v, View(d, v.disk), a)) == LookupIn(n, f, a)
    ensures Search(v, View(d, v.disk), a).Some? <==> LookupIn(n, f, a).Some?
  {
    SearchFindsLive(d, v, a);
    var live := Live(d, v);
    match Search(v, View(d, v.disk), a)
    case Some(e) =>
      HoldsMember(live, n, f, e);
      EntriesMember(f.kids, e);
    case None =>
      HoldsMember(live, n, f, Dot(n));
      HoldsMember(live, n, f, DotDot(f.up));
      if a in f.kids {
        HoldsMember(live, n, f, EntryOf(a, f.kids[a]));
        EntriesMember(f.kids, EntryOf(a, f.kids[a]));
      }
  }

  lemma EntriesDetermine(a: map<string, Kid>, b: map<string, Kid>)
    requires Entries(a) == Entries(b)
    ensures a == b
  {
    forall s ensures s in a <==> s in b {
      if s in a {
        EntriesMember(a, EntryOf(s, a[s]));
        EntriesMember(b, EntryOf(s, a[s]));
      }
      if s in b {
        EntriesMember(b, EntryOf(s, b[s]));
        EntriesMember(a, EntryOf(s, b[s]));
      }
    }
    forall s | s in a ensures a[s] == b[s] {
      EntriesMember(a, EntryOf(s, a[s]));
      EntriesMember(b, EntryOf(s, a[s]));
    }
  }

  /** The sectors determine the children. */
  lemma DirDetermines(d: Dir, v: Volume, n: nat, f: Folder, g: Folder)
    requires DirRep(d, v, n, f) && DirRep(d, v, n, g)
    ensures f.kids == g.kids && f.up == g.up
  {
    assert DotDot(f.up) == DotDot(g.up);
    hide Valid, DotsFirst, Heads, Live, Entries;
    SameRest(multiset{Dot(n), DotDot(f.up)}, Entries(f.kids), Entries(g.kids));
    EntriesDetermine(f.kids, g.kids);
  }

  lemma SameRest(dots: multiset<Slot>, a: set<Slot>, b: set<Slot>)
    requires dots + multiset(a) == dots + multiset(b)
    ensures a == b
  {
    forall e ensures e in a <==> e in b {
      assert (dots + multiset(a))[e] == dots[e] + multiset(a)[e];
      assert (dots + multiset(b))[e] == dots[e] + multiset(b)[e];
    }
  }

  // ---------------------------------------------------------------- adding an entry

  lemma EntriesAdd(kids: map<string, Kid>, a: string, k: Kid)
    requires a !in kids
    ensures Entries(kids[a := k]) == Entries(kids) + {EntryOf(a, k)} && EntryOf(a, k) !in Entries(kids)
    ensures multiset(Entries(kids[a := k])) == multiset(Entries(kids)) + multiset{EntryOf(a, k)}
  {
    var more := kids[a := k];
    forall e ensures e in Entries(more) <==> e in Entries(kids) || e == EntryOf(a, k) {
      EntriesMember(kids, e);
      EntriesMember(more, e);
    }
  }

  lemma HoldsAdd(live: seq<Slot>, live': seq<Slot>, n: nat, f: Folder, a: string, k: Kid)
    requires Holds(live, n, f) && a !in f.kids && multiset(live') == multiset(live) + multiset{EntryOf(a, k)}
    ensures Holds(live', n, f.(kids := f.kids[a := k]))
  {
    EntriesAdd(f.kids, a, k);
  }

  /** sync_dir_entry adds a child. */
  lemma InsertAddsKid(d: Dir, v: Volume, n: nat, f: Folder, a: string, k: Kid)
    requires DirRep(d, v, n, f) && a !in f.kids && GoodName(a)
    requires !ReplacesTable(d, v, false) && Insert(d, v, EntryOf(a, k), false).ok
    ensures var r := Insert(d, v, EntryOf(a, k), false);
            && DirRep(r.d, r.v, n, f.(kids := f.kids[a := k])) && Inserted(d, v, EntryOf(a, k), r)
            && r.d.direct[0] == d.direct[0]
  {
    var e := EntryOf(a, k);
    InsertRefines(d, v, e, false);
    InsertKeepsDots(d, v, e, false);
    InsertKeepsHeads(d, v, e, n, f.up);
    var r := Insert(d, v, e, false);
    HoldsAdd(Live(d, v), Live(r.d, r.v), n, f, a, k);
  }

  // ---------------------------------------------------------------- removing an entry

  lemma {:induction false} CountOnlyOne(es: seq<Slot>, ino: nat, e: Slot)
    requires Names(e, ino) && forall x :: x in es && Names(x, ino) ==> x == e
    ensures CountNames(es, ino) == multiset(es)[e]
  {
    if es != [] {
      assert es == [es[0]] + es[1..];
      assert multiset(es) == multiset{es[0]} + multiset(es[1..]);
      CountOnlyOne(es[1..], ino, e);
    }
  }

  lemma KidIsOnlyOne(live: seq<Slot>, n: nat, f: Folder, a: string)
    requires Holds(live, n, f) && GoodKids(f.kids) && a in f.kids
    ensures forall x :: x in live && Names(x, f.kids[a].ino) ==> x == EntryOf(a, f.kids[a])
    ensures CountNames(live, f.kids[a].ino) == 1
  {
    var e := EntryOf(a, f.kids[a]);
    forall x | x in live && Names(x, f.kids[a].ino) ensures x == e {
      HoldsMember(live, n, f, x);
      EntriesMember(f.kids, x);
    }
    EntriesMember(f.kids, e);
    assert multiset(live)[e] == 1;
    CountOnlyOne(live, f.kids[a].ino, e);
  }

  lemma HoldsRemove(live: seq<Slot>, live': seq<Slot>, n: nat, f: Folder, a: string)
    requires Holds(live, n, f) && a in f.kids && multiset(live) == multiset(live') + multiset{EntryOf(a, f.kids[a])}
    ensures Holds(live', n, f.(kids := f.kids - {a}))
  {
    var rest := f.kids - {a};
    EntriesAdd(rest, a, f.kids[a]);
    assert rest[a := f.kids[a]] == f.kids;
    CancelOne(multiset(live'), multiset{Dot(n), DotDot(f.up)} + multiset(Entries(rest)), EntryOf(a, f.kids[a]));
  }

  lemma CancelOne(x: multiset<Slot>, y: multiset<Slot>, e: Slot)
    requires x + multiset{e} == y + multiset{e}
    ensures x == y
  {
    assert x + multiset{e} - multiset{e} == x;
    assert y + multiset{e} - multiset{e} == y;
  }

  /** delete_dir_entry removes that child. */
  lemma DeleteRemovesKid(d: Dir, v: Volume, n: nat, f: Folder, a: string)
    requires DirRep(d, v, n, f) && GoodKids(f.kids) && a in f.kids
    ensures var r := Delete(d, v, f.kids[a].ino);
            && r.Next? && r.value.found
            && DirRep(r.value.d, r.value.v, n, f.(kids := f.kids - {a}))
            && Deleted(d, v, EntryOf(a, f.kids[a]), r.value.d, r.value.v)
            && r.value.d.direct[0] == d.direct[0]
  {
    var ino := f.kids[a].ino;
    KidIsOnlyOne(Live(d, v), n, f, a);
    var e := DeleteRefines(d, v, ino);
    assert e == EntryOf(a, f.kids[a]);
    DeleteKeepsDots(d, v, ino);
    DeleteKeepsHeads(d, v, ino, n, f.up);
    var r := Delete(d, v, ino).value;
    HoldsRemove(Live(d, v), Live(r.d, r.v), n, f, a);
  }

  // ---------------------------------------------------------------- emptiness

  /** dir_is_empty's size test means that there are no children. */
  lemma EmptyIffNoKids(d: Dir, v: Volume, n: nat, f: Folder)
    requires DirRep(d, v, n, f)
    ensures d.size == 2 * ENTRY_SIZE <==> f.kids == map[]
  {
    assert |Live(d, v)| == |multiset(Live(d, v))| == 2 + |Entries(f.kids)|;
    if a :| a in f.kids {
      assert EntryOf(a, f.kids[a]) in Entries(f.kids);
    }
  }

  /** dir_remove's assertion: an empty directory has its first sector only. */
  lemma NoKidsOneSector(d: Dir, v: Volume, n: nat, f: Folder)
    requires DirRep(d, v, n, f) && f.kids == map[]
    ensures d.table == 0 && forall i :: 1 <= i < DIRECT ==> d.direct[i] == 0
  {
    forall e | e in Live(d, v) ensures IsDot(e) {
      HoldsMember(Live(d, v), n, f, e);
      EntriesMember(f.kids, e);
    }
    OnlyDotsOneSector(d, v);
  }

  // ---------------------------------------------------------------- a new directory

  function DotSlots(n: nat, up: nat): seq<Slot> {
    [Dot(n), DotDot(up)] + Blank()[2..]
  }

  function NewDir(b: Blk): Dir {
    Dir(Zeros(DIRECT)[0 := b], 0, 2 * ENTRY_SIZE)
  }

  lemma NewDirLive(v: Volume, b: Blk, n: nat, up: nat)
    requires b != 0 && b in v.disk && v.disk[b] == Slots(DotSlots(n, up))
    ensures LiveSlots(DotSlots(n, up)) == [Dot(n), DotDot(up)]
    ensures View(NewDir(b), v.disk) == [b] + Zeros(MAX_BLOCKS - 1)
    ensures Live(NewDir(b), v) == [Dot(n), DotDot(up)]
  {
    var es := DotSlots(n, up);
    assert es[1..][1..] == Blank()[2..];
    NoLiveInEmpties(Blank()[2..]);
    assert LiveSlots(es[1..]) == [DotDot(up)];
    var blocks := View(NewDir(b), v.disk);
    assert blocks == [b] + Zeros(MAX_BLOCKS - 1);
    LiveAllZeros(v.disk, blocks[1..]);
  }

  lemma NewDirRep(v: Volume, b: Blk, n: nat, up: nat, level: nat)
    requires v.base > 0 && b != 0 && v.Used(b) && b in v.disk && v.disk[b] == Slots(DotSlots(n, up))
    ensures DirRep(NewDir(b), v, n, Folder(map[], up, level))
    ensures Blocks(NewDir(b), v.disk) == {b}
  {
    NewDirLive(v, b, n, up);
    var d := NewDir(b);
    var blocks := View(d, v.disk);
    assert SectorOk(v, b);
    assert Dot(n) in LiveOf(v.disk, b);
    assert blocks[0] == b && forall i :: 1 <= i < MAX_BLOCKS ==> blocks[i] == 0;
    assert Entries(map[]) == {};
  }
}
