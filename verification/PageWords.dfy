/** The maps of PageAlloc as the words of memory: what page_table_add and page_table_pte_remove store stands
    for exactly what MapUser and Unmap say. */
module PageWords {
  import opened Outcomes
  import opened Paging
  import P = PageAlloc

  const PAGE := 0x1000
  /** Virtual pages and directory entries of the user half. */
  const USER_PAGES := 0xc0000
  const USER_TABLES := 768

  /** The address of frame n. */
  function At(base: nat, n: P.Frame): nat {
    base + PAGE * n
  }

  /** The address of a virtual page, and its entry of the directory. */
  function Page(vp: nat): nat {
    PAGE * vp
  }

  function Dir(vp: nat): nat {
    vp / P.ENTRIES
  }

  function Address(base: nat, f: Option<P.Frame>): Option<nat> {
    match f
    case None => None
    case Some(n) => Some(At(base, n))
  }

  ghost predicate SameTable(mem: Words, cr3: nat, m: P.Mem, base: nat, d: nat)
    requires m.active in m.spaces
  {
    var pd := m.spaces[m.active].pd;
    && (Present(Pde(mem, cr3, d)) <==> d in pd)
    && (d in pd ==> Frame(Pde(mem, cr3, d)) == At(base, pd[d]))
  }

  /** The address in an entry, 0 in one that was never written. */
  function EntryAddress(base: nat, f: Option<P.Frame>): nat {
    if f.None? then 0 else At(base, f.value)
  }

  /** The processor translates the page to the frame it is mapped to, and its entry, present or not, has the
      address of the frame it holds or last held. */
  ghost predicate SamePage(mem: Words, cr3: nat, m: P.Mem, base: nat, vp: nat)
    requires m.active in m.spaces
  {
    && Walk(mem, cr3, Page(vp)) == Address(base, m.Pte(m.active, vp))
    && (Dir(vp) in m.spaces[m.active].pd ==>
          Frame(mem(PteAddr(mem, cr3, Page(vp)))) == EntryAddress(base, m.Held(m.active, vp)))
  }

  /** Frame n, if it lies at this address, is in use. */
  ghost predicate AddressTaken(m: P.Mem, base: nat, address: nat) {
    forall n: nat {:trigger m.Taken(n)} :: address == At(base, n) ==> m.Taken(n)
  }

  ghost predicate EntryTaken(mem: Words, cr3: nat, m: P.Mem, base: nat, i: nat) {
    Present(Pde(mem, cr3, i)) ==> AddressTaken(m, base, Frame(Pde(mem, cr3, i)))
  }

  /** The user half of the directory at cr3 holds the running process's page tables, and its pages translate
      to the frames they are mapped to; frame n lies at base + 4096 * n.  The directory and the kernel's page
      tables lie outside the pools or in frames that are taken. */
  ghost predicate Represents(mem: Words, cr3: nat, m: P.Mem, base: nat) {
    && base % PAGE == 0 && m.active in m.spaces && SelfMapped(mem, cr3) && TablesApart(mem, cr3)
    && (forall d: nat {:trigger SameTable(mem, cr3, m, base, d)} :: d < USER_TABLES ==> SameTable(mem, cr3, m, base, d))
    && (forall vp: nat {:trigger SamePage(mem, cr3, m, base, vp)} :: vp < USER_PAGES ==> SamePage(mem, cr3, m, base, vp))
    && (forall i: nat {:trigger EntryTaken(mem, cr3, m, base, i)} ::
          USER_TABLES <= i < 1024 ==> EntryTaken(mem, cr3, m, base, i))
  }

  lemma UserPageIndex(vp: nat)
    requires vp < USER_PAGES
    ensures Page(vp) < 0xc0000000 && PdeIdx(Page(vp)) == Dir(vp) < USER_TABLES && (Page(vp)) / 0x1000 == vp
    ensures (Page(vp)) % 0x1000 == 0 && PteIdx(Page(vp)) == vp % P.ENTRIES
  {
    assert (Page(vp)) / 0x400000 == vp / 1024;
  }

  /** addr_v2p on the words is Held. */
  lemma HeldIsAddrV2p(mem: Words, cr3: nat, m: P.Mem, base: nat, vp: nat)
    requires Represents(mem, cr3, m, base) && vp < USER_PAGES
    ensures AddrV2p(mem, cr3, Page(vp)) == if Dir(vp) in m.spaces[m.active].pd
                                            then Some(EntryAddress(base, m.Held(m.active, vp))) else None
  {
    UserPageIndex(vp);
    assert SameTable(mem, cr3, m, base, Dir(vp)) && SamePage(mem, cr3, m, base, vp);
    PtePtrReachesPte(mem, cr3, Page(vp));
  }

  // ---------------------------------------------------------------- one entry of an existing table

  /** No directory entry changes. */
  lemma DirectoryStays(mem: Words, cr3: nat, va: nat, w: nat, i: nat)
    requires va < 0xc0000000 && SelfMapped(mem, cr3) && TablesApart(mem, cr3) && Present(mem(PdeAddr(cr3, va))) && i < 1024
    ensures Pde(Stored(mem, PteAddr(mem, cr3, va), w), cr3, i) == Pde(mem, cr3, i)
  {
    IndexBounds(va);
    EntryElsewhere(Frame(Pde(mem, cr3, PdeIdx(va))), PteIdx(va), cr3, i);
  }

  /** m' differs from m at page vp of the running process alone. */
  ghost predicate OnePage(m: P.Mem, m': P.Mem, vp: nat) {
    && m'.active == m.active && m'.spaces == m.spaces
    && (forall g {:trigger m'.Taken(g)} :: m.Taken(g) ==> m'.Taken(g))
    && forall vq: nat :: vq != vp ==> m'.Pte(m.active, vq) == m.Pte(m.active, vq) && m'.Held(m.active, vq) == m.Held(m.active, vq)
  }

  lemma StoredWord(mem: Words, cr3: nat, vp: nat, w: nat, vq: nat)
    requires vp < USER_PAGES && vq < USER_PAGES && SelfMapped(mem, cr3) && TablesApart(mem, cr3)
    requires Present(mem(PdeAddr(cr3, Page(vp))))
    ensures var mem' := Stored(mem, PteAddr(mem, cr3, Page(vp)), w);
            && Walk(mem', cr3, Page(vq))
               == (if vq != vp then Walk(mem, cr3, Page(vq)) else if Present(w) then Some(Frame(w)) else None)
            && (Present(mem(PdeAddr(cr3, Page(vq)))) ==>
                  mem'(PteAddr(mem', cr3, Page(vq))) == if vq == vp then w else mem(PteAddr(mem, cr3, Page(vq))))
  {
    UserPageIndex(vp);
    UserPageIndex(vq);
    StoreElsewhere(mem, cr3, Page(vp), w, Page(vq));
    hide TablesApart, SelfMapped;
  }

  lemma WordsOf(mem: Words, cr3: nat, m: P.Mem, base: nat, vp: nat)
    requires Represents(mem, cr3, m, base) && vp < USER_PAGES
    ensures SelfMapped(mem, cr3) && TablesApart(mem, cr3) && SamePage(mem, cr3, m, base, vp)
    ensures Present(mem(PdeAddr(cr3, Page(vp)))) <==> Dir(vp) in m.spaces[m.active].pd
  {
    UserPageIndex(vp);
    assert SameTable(mem, cr3, m, base, Dir(vp)) && SamePage(mem, cr3, m, base, vp);
  }

  lemma OneEntryPage(mem: Words, cr3: nat, m: P.Mem, m': P.Mem, base: nat, vp: nat, w: nat, vq: nat)
    requires Represents(mem, cr3, m, base) && vp < USER_PAGES && Dir(vp) in m.spaces[m.active].pd && vq < USER_PAGES
    requires OnePage(m, m', vp)
    requires Address(base, m'.Pte(m.active, vp)) == if Present(w) then Some(Frame(w)) else None
    requires EntryAddress(base, m'.Held(m.active, vp)) == Frame(w)
    ensures SamePage(Stored(mem, PteAddr(mem, cr3, Page(vp)), w), cr3, m', base, vq)
  {
    UserPageIndex(vp);
    UserPageIndex(vq);
    WordsOf(mem, cr3, m, base, vp);
    WordsOf(mem, cr3, m, base, vq);
    StoredWord(mem, cr3, vp, w, vq);
    hide P.Mem.Held, P.Mem.Pte, Represents, Walk, Stored, PteAddr, PdeAddr, Page, Frame, Present, Address, EntryAddress, Dir, SelfMapped, TablesApart;
  }

  /** Storing one entry of an existing table changes the model at that page alone. */
  lemma OneEntry(mem: Words, cr3: nat, m: P.Mem, m': P.Mem, base: nat, vp: nat, w: nat)
    requires Represents(mem, cr3, m, base) && vp < USER_PAGES && Dir(vp) in m.spaces[m.active].pd
    requires OnePage(m, m', vp)
    requires Address(base, m'.Pte(m.active, vp)) == if Present(w) then Some(Frame(w)) else None
    requires EntryAddress(base, m'.Held(m.active, vp)) == Frame(w)
    ensures Represents(Stored(mem, PteAddr(mem, cr3, Page(vp)), w), cr3, m', base)
  {
    hide P.Mem.Held, P.Mem.Pte;
    var va := Page(vp);
    var mem' := Stored(mem, PteAddr(mem, cr3, va), w);
    UserPageIndex(vp);
    assert SameTable(mem, cr3, m, base, Dir(vp));
    forall i: nat | i < 1024 ensures Pde(mem', cr3, i) == Pde(mem, cr3, i) {
      DirectoryStays(mem, cr3, va, w, i);
    }
    assert SelfMapped(mem', cr3) by {
      assert Pde(mem', cr3, 1023) == Pde(mem, cr3, 1023);
    }
    forall d: nat | d < USER_TABLES ensures SameTable(mem', cr3, m', base, d) {
      assert SameTable(mem, cr3, m, base, d);
    }
    forall vq: nat | vq < USER_PAGES ensures SamePage(mem', cr3, m', base, vq) {
      OneEntryPage(mem, cr3, m, m', base, vp, w, vq);
    }
    forall i: nat | USER_TABLES <= i < 1024 ensures EntryTaken(mem', cr3, m', base, i) {
      assert EntryTaken(mem, cr3, m, base, i);
    }
  }

  /** page_table_add into an existing table: the word stored is the entry of the new frame. */
  lemma AddToTable(mem: Words, cr3: nat, m: P.Mem, base: nat, vp: nat, f: P.Frame)
    requires Represents(mem, cr3, m, base) && P.Frames(m) && vp < USER_PAGES && Dir(vp) in m.spaces[m.active].pd
    requires m.Pte(m.active, vp).None?
    ensures P.MapUser(m, vp, f).Next?
    ensures Represents(Stored(mem, PteAddr(mem, cr3, Page(vp)), Entry(At(base, f))), cr3, P.MapUser(m, vp, f).value, base)
  {
    var m' := P.MapUser(m, vp, f).value;
    var t := m.spaces[m.active].pd[Dir(vp)];
    forall vq: nat ensures m'.Pte(m.active, vq) == if vq == vp then Some(f) else m.Pte(m.active, vq) {
      P.EntrySet(m, m', vp, t, f, P.UPage(m.active, vq));
      assert P.FrameOf(m', P.UPage(m.active, vq)) == m'.Pte(m.active, vq);
      assert P.FrameOf(m, P.UPage(m.active, vq)) == m.Pte(m.active, vq);
    }
    assert forall g :: m'.Taken(g) <==> m.Taken(g);
    EntryParts(At(base, f));
    OneEntry(mem, cr3, m, m', base, vp, Entry(At(base, f)));
  }

  lemma UnmapOnePage(m: P.Mem, vp: nat)
    requires P.Frames(m) && m.active in m.spaces
    ensures var m' := P.Unmap(m, vp);
            OnePage(m, m', vp) && m'.Pte(m.active, vp).None? && m'.Held(m.active, vp) == m.Held(m.active, vp)
  {
    var m' := P.Unmap(m, vp);
    P.UnmapFrame(m, vp);
    assert P.TablesDistinct(m);
    hide P.Unmap, P.Frames;
    forall vq: nat
      ensures m'.Pte(m.active, vq) == if vq == vp then None else m.Pte(m.active, vq)
      ensures m'.Held(m.active, vq) == m.Held(m.active, vq)
    {
      P.EntryCleared(m, vp, P.UPage(m.active, vq));
      assert P.FrameOf(m', P.UPage(m.active, vq)) == m'.Pte(m.active, vq);
      assert P.FrameOf(m, P.UPage(m.active, vq)) == m.Pte(m.active, vq);
    }
    assert forall g :: m'.Taken(g) <==> m.Taken(g);
  }

  lemma WordWithoutP(w: nat)
    requires Present(w)
    ensures w > 0 && !Present(w - 1) && Frame(w - 1) == Frame(w)
  {
    var q, r := w / PAGE, w % PAGE;
    assert w == 2 * (2048 * q) + r;
    assert r >= 1;
    assert w - 1 == PAGE * q + (r - 1);
    assert (w - 1) / PAGE == q;
  }

  /** page_table_pte_remove: the present bit is cleared and the address stays. */
  lemma RemoveRepresents(mem: Words, cr3: nat, m: P.Mem, base: nat, vp: nat)
    requires Represents(mem, cr3, m, base) && P.Frames(m) && vp < USER_PAGES && m.Pte(m.active, vp).Some?
    ensures var at := PteAddr(mem, cr3, Page(vp));
            && Present(mem(at))
            && Represents(Stored(mem, at, mem(at) - 1), cr3, P.Unmap(m, vp), base)
  {
    var at := PteAddr(mem, cr3, Page(vp));
    assert SamePage(mem, cr3, m, base, vp);
    UnmapOnePage(m, vp);
    WordWithoutP(mem(at));
    hide Represents, P.Unmap, OnePage, Page, Present, Frame;
    OneEntry(mem, cr3, m, P.Unmap(m, vp), base, vp, mem(at) - 1);
  }

  // ---------------------------------------------------------------- a new page table

  /** memset of the page at address `page`. */
  function Cleared(mem: Words, page: nat): Words {
    (a: nat) => if page <= a < page + PAGE then 0 else mem(a)
  }

  /** What page_table_add stores for a page without a table in directory entry d, before the entry itself. */
  function TableStored(mem: Words, cr3: nat, d: nat, page: nat): Words {
    Cleared(Stored(mem, cr3 + 4 * d, Entry(page)), page)
  }

  /** The memset goes through pte_ptr, whose page is the new table once the directory entry is stored. */
  lemma MemsetClearsTable(mem: Words, cr3: nat, va: nat, page: nat)
    requires va < 0xc0000000 && SelfMapped(mem, cr3) && page % PAGE == 0
    ensures Walk(Stored(mem, PdeAddr(cr3, va), Entry(page)), cr3, PtePtr(va) / PAGE * PAGE) == Some(page)
  {
    var mem1 := Stored(mem, PdeAddr(cr3, va), Entry(page));
    IndexBounds(va);
    EntryParts(page);
    EntryParts(cr3);
    PtePtrParts(va);
    var at := PtePtr(va) / PAGE * PAGE;
    IndexBounds(at);
    assert at / 0x400000 == PtePtr(va) / 0x400000 && at / 0x1000 == PtePtr(va) / 0x1000;
  }

  lemma OutsideTable(page: nat, frame: nat, e: nat)
    requires page % PAGE == 0 && frame % PAGE == 0 && frame != page && e < 1024
    ensures !(page <= frame + 4 * e < page + PAGE)
  {
    PageOfEntry(frame, e);
  }

  lemma InsideTable(page: nat, e: nat)
    requires e < 1024
    ensures page <= page + 4 * e < page + PAGE
  {
  }

  /** The new table lies in no page that the directory refers to. */
  lemma TableIsNew(mem: Words, cr3: nat, m: P.Mem, base: nat, t: P.Frame, i: nat)
    requires Represents(mem, cr3, m, base) && P.Frames(m) && !m.Taken(t) && i < 1024 && Present(Pde(mem, cr3, i))
    ensures Frame(Pde(mem, cr3, i)) != At(base, t)
  {
    if i < USER_TABLES {
      assert SameTable(mem, cr3, m, base, i);
      assert P.FrameOf(m, P.Table(m.active, i)) == Some(m.spaces[m.active].pd[i]);
    } else {
      assert EntryTaken(mem, cr3, m, base, i);
    }
  }

  lemma DirectoryAfter(mem: Words, cr3: nat, m: P.Mem, base: nat, d: nat, t: P.Frame, i: nat)
    requires Represents(mem, cr3, m, base) && P.Frames(m) && !m.Taken(t) && d < USER_TABLES && i < 1024
    ensures Pde(TableStored(mem, cr3, d, At(base, t)), cr3, i)
            == if i == d then Entry(At(base, t)) else Pde(mem, cr3, i)
  {
    EntryParts(cr3);
    TableIsNew(mem, cr3, m, base, t, 1023);
    OutsideTable(At(base, t), cr3, i);
  }

  /** The words of the tables that were there stay, and those of the new one are 0. */
  lemma WordAfter(mem: Words, cr3: nat, m: P.Mem, base: nat, d: nat, t: P.Frame, va: nat)
    requires Represents(mem, cr3, m, base) && P.Frames(m) && !m.Taken(t) && d < USER_TABLES && va < 0xc0000000
    requires PdeIdx(va) == d || Present(Pde(mem, cr3, PdeIdx(va)))
    ensures var mem' := TableStored(mem, cr3, d, At(base, t));
            mem'(PteAddr(mem', cr3, va)) == if PdeIdx(va) == d then 0 else mem(PteAddr(mem, cr3, va))
  {
    var i, page := PdeIdx(va), At(base, t);
    IndexBounds(va);
    DirectoryAfter(mem, cr3, m, base, d, t, i);
    EntryParts(page);
    InsideTable(page, PteIdx(va));
    if i != d {
      TableIsNew(mem, cr3, m, base, t, i);
      OutsideTable(page, Frame(Pde(mem, cr3, i)), PteIdx(va));
      EntryElsewhere(Frame(Pde(mem, cr3, i)), PteIdx(va), cr3, d);
    }
  }

  lemma ApartAfter(mem: Words, cr3: nat, m: P.Mem, base: nat, d: nat, t: P.Frame)
    requires Represents(mem, cr3, m, base) && P.Frames(m) && !m.Taken(t) && d < USER_TABLES
    ensures TablesApart(TableStored(mem, cr3, d, At(base, t)), cr3)
    ensures SelfMapped(TableStored(mem, cr3, d, At(base, t)), cr3)
  {
    var page := At(base, t);
    var mem' := TableStored(mem, cr3, d, page);
    EntryParts(page);
    EntryParts(cr3);
    forall i: nat | i < 1024
      ensures Pde(mem', cr3, i) == if i == d then Entry(page) else Pde(mem, cr3, i)
      ensures Present(Pde(mem, cr3, i)) ==> Frame(Pde(mem, cr3, i)) != page
    {
      DirectoryAfter(mem, cr3, m, base, d, t, i);
      if Present(Pde(mem, cr3, i)) {
        TableIsNew(mem, cr3, m, base, t, i);
      }
    }
    assert Pde(mem', cr3, 1023) == Pde(mem, cr3, 1023);
  }

  /** The directory entry and the cleared page are the model's new, empty page table. */
  lemma TableRepresents(mem: Words, cr3: nat, m: P.Mem, base: nat, d: nat, t: P.Frame, m': P.Mem)
    requires Represents(mem, cr3, m, base) && P.Frames(m) && !m.Taken(t) && d < USER_TABLES
    requires d !in m.spaces[m.active].pd && m' == P.AddTable(m, d, t).(kpool := m'.kpool, upool := m'.upool)
    requires forall g {:trigger m'.Taken(g)} :: m.Taken(g) ==> m'.Taken(g)
    ensures Represents(TableStored(mem, cr3, d, At(base, t)), cr3, m', base)
  {
    var page := At(base, t);
    var mem' := TableStored(mem, cr3, d, page);
    ApartAfter(mem, cr3, m, base, d, t);
    EntryParts(page);
    forall i: nat | i < USER_TABLES ensures SameTable(mem', cr3, m', base, i) {
      DirectoryAfter(mem, cr3, m, base, d, t, i);
      assert SameTable(mem, cr3, m, base, i);
    }
    forall vq: nat | vq < USER_PAGES ensures SamePage(mem', cr3, m', base, vq) {
      PageAfter(mem, cr3, m, base, d, t, m', vq);
    }
    forall i: nat | USER_TABLES <= i < 1024 ensures EntryTaken(mem', cr3, m', base, i) {
      DirectoryAfter(mem, cr3, m, base, d, t, i);
      assert EntryTaken(mem, cr3, m, base, i);
    }
  }

  lemma PageAfter(mem: Words, cr3: nat, m: P.Mem, base: nat, d: nat, t: P.Frame, m': P.Mem, vq: nat)
    requires Represents(mem, cr3, m, base) && P.Frames(m) && !m.Taken(t) && d < USER_TABLES && vq < USER_PAGES
    requires d !in m.spaces[m.active].pd && m' == P.AddTable(m, d, t).(kpool := m'.kpool, upool := m'.upool)
    ensures SamePage(TableStored(mem, cr3, d, At(base, t)), cr3, m', base, vq)
  {
    var i := Dir(vq);
    UserPageIndex(vq);
    DirectoryAfter(mem, cr3, m, base, d, t, i);
    EntryParts(At(base, t));
    assert SameTable(mem, cr3, m, base, i) && SamePage(mem, cr3, m, base, vq);
    hide Represents, P.Mem.Held, P.Mem.Pte, TableStored;
    HeldAfter(m, d, t, m', vq);
    if i == d || i in m.spaces[m.active].pd {
      WordAfter(mem, cr3, m, base, d, t, Page(vq));
    }
  }

  lemma HeldAfter(m: P.Mem, d: nat, t: P.Frame, m': P.Mem, vq: nat)
    requires P.Frames(m) && !m.Taken(t) && m.active in m.spaces
    requires d !in m.spaces[m.active].pd && m' == P.AddTable(m, d, t).(kpool := m'.kpool, upool := m'.upool)
    ensures m'.Pte(m.active, vq) == m.Pte(m.active, vq) && m'.Held(m.active, vq) == m.Held(m.active, vq)
    ensures Dir(vq) == d ==> m'.Held(m.active, vq).None?
  {
    var i := Dir(vq);
    if i in m.spaces[m.active].pd {
      assert P.FrameOf(m, P.Table(m.active, i)) == Some(m.spaces[m.active].pd[i]);
    }
  }

  /** The same in the model. */
  lemma NewTableSteps(m: P.Mem, vp: nat, f: P.Frame, pending: set<P.Use>)
    requires P.Inv(m, pending) && m.active in m.spaces && Dir(vp) !in m.spaces[m.active].pd
    requires P.Palloc(m, false).Next?
    ensures var (m1, t) := P.Palloc(m, false).value; var d := Dir(vp); var m2 := P.AddTable(m1, d, t);
            && !m.Taken(t) && P.Frames(m2) && d in m2.spaces[m2.active].pd && m2.active == m.active
            && m2 == P.AddTable(m, d, t).(kpool := m2.kpool, upool := m2.upool)
            && (forall g {:trigger m2.Taken(g)} :: m.Taken(g) ==> m2.Taken(g))
            && m2.Pte(m.active, vp).None? && P.MapUser(m, vp, f) == P.MapUser(m2, vp, f)
  {
    var (m1, t) := P.Palloc(m, false).value;
    P.PallocTakes(m, false);
    P.AddTableInv(m, Dir(vp), pending);
    P.TableThenMap(m, vp, f);
    hide P.Palloc, P.MapUser;
    HeldAfter(m, Dir(vp), t, P.AddTable(m1, Dir(vp), t), vp);
  }

  lemma AddWithTable(mem: Words, cr3: nat, m: P.Mem, base: nat, vp: nat, f: P.Frame, pending: set<P.Use>)
    requires Represents(mem, cr3, m, base) && P.Inv(m, pending) && vp < USER_PAGES
    requires Dir(vp) !in m.spaces[m.active].pd && P.Palloc(m, false).Next?
    ensures P.MapUser(m, vp, f).Next?
    ensures var mem' := TableStored(mem, cr3, Dir(vp), At(base, P.Palloc(m, false).value.1));
            Represents(Stored(mem', PteAddr(mem', cr3, Page(vp)), Entry(At(base, f))), cr3, P.MapUser(m, vp, f).value, base)
  {
    var (m1, t) := P.Palloc(m, false).value;
    var d := Dir(vp);
    var m2 := P.AddTable(m1, d, t);
    NewTableSteps(m, vp, f, pending);
    UserPageIndex(vp);
    hide Represents, P.Palloc, P.MapUser, P.AddTable, TableStored, PteAddr, Entry, Stored, P.Inv;
    TableRepresents(mem, cr3, m, base, d, t, m2);
    AddToTable(TableStored(mem, cr3, d, At(base, t)), cr3, m2, base, vp, f);
  }

  /** The words after page_table_add; `table` is the page that palloc gives when one is needed. */
  function PageTableAdd(mem: Words, cr3: nat, va: nat, frame: nat, table: nat): Words {
    var mem1 := if Present(mem(PdeAddr(cr3, va))) then mem else TableStored(mem, cr3, PdeIdx(va), table);
    Stored(mem1, PteAddr(mem1, cr3, va), Entry(frame))
  }

  lemma MapUserNext(m: P.Mem, vp: nat, f: P.Frame)
    requires m.active in m.spaces && P.MapUser(m, vp, f).Next?
    ensures m.Pte(m.active, vp).None?
    ensures Dir(vp) !in m.spaces[m.active].pd ==> P.Palloc(m, false).Next?
  {
  }

  /** page_table_add: with or without a page table to begin with, and then with a frame from palloc, its
      words stand for what MapUser says. */
  lemma AddRepresents(mem: Words, cr3: nat, m: P.Mem, base: nat, vp: nat, f: P.Frame, t: P.Frame, pending: set<P.Use>)
    requires Represents(mem, cr3, m, base) && P.Inv(m, pending) && vp < USER_PAGES && P.MapUser(m, vp, f).Next?
    requires Dir(vp) !in m.spaces[m.active].pd ==> P.Palloc(m, false).value.1 == t
    ensures Represents(PageTableAdd(mem, cr3, Page(vp), At(base, f), At(base, t)), cr3, P.MapUser(m, vp, f).value, base)
  {
    UserPageIndex(vp);
    assert SameTable(mem, cr3, m, base, Dir(vp));
    assert P.Frames(m);
    MapUserNext(m, vp, f);
    assert Present(mem(PdeAddr(cr3, Page(vp)))) <==> Dir(vp) in m.spaces[m.active].pd;
    assert m.active in m.spaces;
    hide Represents, SameTable, P.Inv, P.Frames, TableStored, PteAddr, PdeAddr, Entry, Stored, P.Palloc, P.MapUser, Present, At, Page, Dir;
    if Dir(vp) in m.spaces[m.active].pd {
      AddToTable(mem, cr3, m, base, vp, f);
    } else {
      AddWithTable(mem, cr3, m, base, vp, f, pending);
    }
  }

  // ---------------------------------------------------------------- a new directory

  /** What create_page_dir leaves stands for a process without pages; the kernel's tables and the new
      directory are in use. */
  lemma NewRepresents(mem: Words, cr3: nat, dir: nat, mem': Words, m: P.Mem, base: nat)
    requires DirectoryMade(mem, cr3, dir, mem') && dir % PAGE == 0 && base % PAGE == 0 && TablesApart(mem, cr3)
    requires forall i: nat {:trigger Pde(mem, cr3, i)} :: USER_TABLES <= i < 1023 && Present(Pde(mem, cr3, i)) ==>
               Frame(Pde(mem, cr3, i)) != dir
    requires forall i: nat {:trigger EntryTaken(mem, cr3, m, base, i)} ::
               USER_TABLES <= i < 1023 ==> EntryTaken(mem, cr3, m, base, i)
    requires AddressTaken(m, base, dir) && m.active in m.spaces && m.spaces[m.active].pd == map[]
    ensures Represents(mem', dir, m, base)
  {
    EntryParts(dir);
    forall i: nat | i < 1024
      ensures Pde(mem', dir, i) == if i == 1023 then Entry(dir) else if i >= USER_TABLES then Pde(mem, cr3, i) else 0
    {
    }
    assert Pde(mem', dir, 1023) == Entry(dir);
    forall vp: nat | vp < USER_PAGES ensures SamePage(mem', dir, m, base, vp) {
      UserPageIndex(vp);
      UserHalf(mem', dir, Page(vp));
    }
    forall i: nat | USER_TABLES <= i < 1024 ensures EntryTaken(mem', dir, m, base, i) {
      assert i < 1023 ==> EntryTaken(mem, cr3, m, base, i);
    }
  }
}
