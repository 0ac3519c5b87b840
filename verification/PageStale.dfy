/** What mfree_page does to a page that is not mapped: addr_v2p answers with the frame that the cleared
    entry still names, whoever has that frame by then. */
module PageStale {
  import opened Outcomes
  import opened BitSeq
  import opened PageAlloc
  import opened PageRuns
  import opened PagePools
  import opened Fork

  /** The frame that palloc gives to the next user page. */
  function NextFrame(m: Mem): Frame {
    m.ustart + FirstClear(m.upool)
  }

  // ---------------------------------------------------------------- one page taken, one page given back

  lemma OnePageRange(m: Mem, i: nat)
    requires m.active in m.spaces && USER_START + i < KERNEL_START - 1
    ensures MallocUserPages(m, i, 1) == MapOneUser(SetUserBits(m, m.active, i, 1, true), USER_START + i)
  {
    var m0 := SetUserBits(m, m.active, i, 1, true);
    if MapOneUser(m0, USER_START + i).Next? {
      MapOneUserRest(m0, USER_START + i);
      var m1 := MapOneUser(m0, USER_START + i).value;
      hide MapOneUser;
      assert MapUserRange(m1, USER_START + i + 1, 0) == Next(m1);
    }
  }

  /** The page is in the first free frame, and the pool has that frame less. */
  ghost predicate GotFirst(m: Mem, m': Mem, vp: nat) {
    && FirstClear(m.upool) < |m.upool| && m'.upool == m.upool[FirstClear(m.upool) := true]
    && m'.ustart == m.ustart && m'.active == m.active && m'.active in m'.spaces
    && vp / ENTRIES in m'.spaces[m'.active].pd && m'.Pte(m.active, vp) == Some(NextFrame(m))
  }

  lemma MapGetsFirst(m: Mem, vp: nat)
    requires m.active in m.spaces && MapOneUser(m, vp).Next?
    ensures GotFirst(m, MapOneUser(m, vp).value, vp)
  {
    var (m1, f) := Palloc(m, true).value;
    hide FirstClear;
    assert m1 == m.(upool := m.upool[FirstClear(m.upool) := true]) && f == NextFrame(m);
    MapSets(m1, vp, f);
    hide MapUser;
  }

  lemma MapSets(m: Mem, vp: nat, f: Frame)
    requires m.active in m.spaces && MapUser(m, vp, f).Next?
    ensures var m' := MapUser(m, vp, f).value;
            && m'.upool == m.upool && m'.ustart == m.ustart && m'.active == m.active && m'.active in m'.spaces
            && vp / ENTRIES in m'.spaces[m'.active].pd && m'.Pte(m.active, vp) == Some(f)
  {
    hide FirstClear;
  }

  lemma MallocGetsFirst(m: Mem, i: nat)
    requires m.active in m.spaces && MallocUserPages(m, i, 1).Next?
    ensures GotFirst(m, MallocUserPages(m, i, 1).value, USER_START + i)
  {
    OnePageRange(m, i);
    hide MapOneUser;
    MapGetsFirst(SetUserBits(m, m.active, i, 1, true), USER_START + i);
  }

  predicate SameTable(vp: nat, vq: nat) {
    vp / ENTRIES == vq / ENTRIES && vp != vq
  }

  /** Pages with the same page table as vp are as they were. */
  ghost predicate TableKept(m: Mem, m': Mem, vp: nat) {
    && m'.active == m.active
    && forall vq {:trigger SameTable(vp, vq)} :: SameTable(vp, vq) ==>
         m'.Pte(m.active, vq) == m.Pte(m.active, vq) && m'.Held(m.active, vq) == m.Held(m.active, vq)
  }

  lemma MapInPlace(m: Mem, vp: nat)
    requires m.active in m.spaces && vp / ENTRIES in m.spaces[m.active].pd && m.Pte(m.active, vp).None?
    requires FirstClear(m.upool) < |m.upool|
    ensures MapOneUser(m, vp).Next? && TableKept(m, MapOneUser(m, vp).value, vp)
  {
    var m' := MapOneUser(m, vp).value;
    forall vq | SameTable(vp, vq)
      ensures m'.Pte(m.active, vq) == m.Pte(m.active, vq) && m'.Held(m.active, vq) == m.Held(m.active, vq)
    {
      SamePage(vp, vq);
    }
  }

  lemma MallocInPlace(m: Mem, i: nat)
    requires m.active in m.spaces && m.Pte(m.active, USER_START + i).None? && USER_START + i < KERNEL_START - 1
    requires (USER_START + i) / ENTRIES in m.spaces[m.active].pd && FirstClear(m.upool) < |m.upool|
    ensures MallocUserPages(m, i, 1).Next? && TableKept(m, MallocUserPages(m, i, 1).value, USER_START + i)
  {
    var m0 := SetUserBits(m, m.active, i, 1, true);
    OnePageRange(m, i);
    hide MapOneUser;
    MapInPlace(m0, USER_START + i);
  }

  /** mfree_page of one page whose entry names frame f, mapped or not. */
  ghost predicate GaveBack(m: Mem, m': Mem, vp: nat, f: Frame) {
    && m.ustart <= f < m.ustart + |m.upool| && m'.upool == m.upool[f - m.ustart := false]
    && m'.ustart == m.ustart && m'.active == m.active && m.active in m.spaces && m'.active in m'.spaces
    && m'.spaces[m.active].pd == m.spaces[m.active].pd
    && m'.Pte(m.active, vp).None? && m'.Held(m.active, vp) == Some(f)
  }

  lemma FreeOneIs(m: Mem, vp: nat, f: Frame)
    requires m.active in m.spaces && vp >= USER_START
    requires m.Held(m.active, vp) == Some(f) && m.ustart <= f < m.ustart + |m.upool|
    ensures FreeUserPages(m, vp, 1) == Next(SetUserBits(Unmap(Pfree(m, f), vp), m.active, vp - USER_START, 1, false))
  {
    UnmapFrame(Pfree(m, f), vp);
    hide Unmap, Mem.Held;
    assert FreeUserRange(Unmap(Pfree(m, f), vp), vp + 1, 0, true) == Next(Unmap(Pfree(m, f), vp));
  }

  lemma PageFreed(m: Mem, m1: Mem, vp: nat, vq: nat)
    requires TablesDistinct(m) && m1 == m.(kpool := m1.kpool, upool := m1.upool)
    ensures Unmap(m1, vp).Pte(m.active, vq) == if vq == vp then None else m.Pte(m.active, vq)
    ensures Unmap(m1, vp).Held(m.active, vq) == m.Held(m.active, vq)
  {
    PoolsAside(m, m1);
    hide Unmap, Mem.Held;
    var u, m2 := UPage(m.active, vq), Unmap(m1, vp);
    EntryCleared(m1, vp, u);
    assert FrameOf(m2, u) == m2.Pte(m.active, vq) && FrameOf(m1, u) == m1.Pte(m.active, vq);
    assert FrameOf(m1, u) == FrameOf(m, u);
  }

  lemma BitsAside(m: Mem, i: nat)
    requires m.active in m.spaces
    ensures var m' := SetUserBits(m, m.active, i, 1, false);
            && m'.upool == m.upool && m'.ustart == m.ustart && m'.active == m.active && m'.active in m'.spaces
            && m'.spaces[m.active].pd == m.spaces[m.active].pd
            && (forall vq {:trigger m'.Pte(m.active, vq)} :: m'.Pte(m.active, vq) == m.Pte(m.active, vq))
            && (forall vq {:trigger m'.Held(m.active, vq)} :: m'.Held(m.active, vq) == m.Held(m.active, vq))
  {
  }

  lemma FreeGives(m: Mem, vp: nat, f: Frame)
    requires TablesDistinct(m) && m.active in m.spaces && vp >= USER_START
    requires m.Held(m.active, vp) == Some(f) && m.ustart <= f < m.ustart + |m.upool|
    ensures FreeUserPages(m, vp, 1).Next? && GaveBack(m, FreeUserPages(m, vp, 1).value, vp, f)
    ensures TableKept(m, FreeUserPages(m, vp, 1).value, vp)
  {
    hide Unmap, TablesDistinct, FreeUserPages, SetUserBits, Mem.Pte, Mem.Held;
    var m1 := Pfree(m, f);
    var m2 := Unmap(m1, vp);
    FreeOneIs(m, vp, f);
    UnmapFrame(m1, vp);
    BitsAside(m2, vp - USER_START);
    var m' := FreeUserPages(m, vp, 1).value;
    forall vq: nat
      ensures m'.Pte(m.active, vq) == if vq == vp then None else m.Pte(m.active, vq)
      ensures m'.Held(m.active, vq) == m.Held(m.active, vq)
    {
      PageFreed(m, m1, vp, vq);
    }
  }

  // ---------------------------------------------------------------- freeing the same page twice

  lemma OnePageIn(m: Mem, vp: nat)
    requires m.Pte(m.active, vp).Some? && Inv(m, {}) && m.active in m.spaces
    ensures NobodyElseHas(m, UserRange(m.active, vp, 1), HeldFrames(m, vp, 1))
    ensures m.Held(m.active, vp) == m.Pte(m.active, vp)
    ensures m.ustart <= m.Pte(m.active, vp).value < m.ustart + |m.upool|
    ensures TablesDistinct(m)
  {
    assert FrameOf(m, UPage(m.active, vp)) == m.Pte(m.active, vp);
    forall u | FrameOf(m, u).Some? && FrameOf(m, u).value in HeldFrames(m, vp, 1) ensures u in UserRange(m.active, vp, 1) {
      assert FrameOf(m, u) == FrameOf(m, UPage(m.active, vp));
      UserRangeMember(m.active, vp, 1, u);
    }
  }

  lemma MallocBits(m: Mem, i: nat)
    requires m.active in m.spaces && MallocUserPages(m, i, 1).Next?
    ensures var m' := MallocUserPages(m, i, 1).value;
            m'.active in m'.spaces && m'.spaces[m'.active].bits == Ranged(m.spaces[m.active].bits, i, 1, true)
  {
    OnePageRange(m, i);
    MapOneUserRest(SetUserBits(m, m.active, i, 1, true), USER_START + i);
    hide MapOneUser;
  }

  lemma FreeBits(m: Mem, vp: nat)
    requires m.active in m.spaces && vp >= USER_START && Inv(m, {}) && FreeUserPages(m, vp, 1).Next?
    ensures var m' := FreeUserPages(m, vp, 1).value;
            m'.active in m'.spaces && m'.spaces[m'.active].bits == Ranged(m.spaces[m.active].bits, vp - USER_START, 1, false)
  {
    FreeUserRangeIs(m, vp, 1, m.Held(m.active, vp).value >= m.ustart);
    hide FreeUserRange, Mem.Held;
  }

  /** Page i is allocated, as a step of a run. */
  ghost predicate Takes(m: Mem, i: nat, m': Mem) {
    && RunStep(m, UserPages(i, 1), m') && Inv(m', {}) && GotFirst(m, m', USER_START + i) && m.active in m.spaces
    && m'.spaces[m'.active].bits == Ranged(m.spaces[m.active].bits, i, 1, true)
  }

  lemma TakesPage(m: Mem, i: nat) returns (m': Mem)
    requires Inv(m, {}) && ClearRun(m, i, 1) && MallocUserPages(m, i, 1).Next?
    ensures Takes(m, i, m') && MallocUserPages(m, i, 1) == Next(m')
  {
    hide Inv, GotFirst, MallocUserPages;
    m' := MallocUserPages(m, i, 1).value;
    MallocUserPagesInv(m, i, 1);
    MallocGetsFirst(m, i);
    MallocBits(m, i);
  }

  /** Page i, which is mapped to f, is freed, as a step of a run. */
  ghost predicate Frees(m: Mem, i: nat, f: Frame, m': Mem) {
    && RunStep(m, FreeUser(USER_START + i, 1), m') && Inv(m', {}) && GaveBack(m, m', USER_START + i, f)
    && m'.spaces[m'.active].bits == Ranged(m.spaces[m.active].bits, i, 1, false)
  }

  lemma FreesPage(m: Mem, i: nat) returns (m': Mem)
    requires Inv(m, {}) && m.active in m.spaces && i < |m.spaces[m.active].bits|
    requires m.Pte(m.active, USER_START + i).Some?
    ensures Frees(m, i, m.Pte(m.active, USER_START + i).value, m')
  {
    hide Inv, GaveBack, Mem.Held, Mem.Pte, FreeUserPages, NobodyElseHas, TablesDistinct;
    OnePageIn(m, USER_START + i);
    FreeUserPagesInv(m, USER_START + i, 1);
    FreeGives(m, USER_START + i, m.Pte(m.active, USER_START + i).value);
    FreeBits(m, USER_START + i);
    m' := FreeUserPages(m, USER_START + i, 1).value;
  }

  /** Page a is not mapped, but its entry names the frame of page b, the first one that would be free. */
  ghost predicate Named(m: Mem, a: nat, b: nat, f: Frame) {
    && m.active in m.spaces && TablesDistinct(m) && (USER_START + a) / ENTRIES in m.spaces[m.active].pd
    && m.Pte(m.active, USER_START + a).None? && m.Held(m.active, USER_START + a) == Some(f)
    && m.Pte(m.active, USER_START + b) == Some(f)
    && m.ustart <= f < m.ustart + |m.upool| && FirstClear(m.upool[f - m.ustart := false]) == f - m.ustart
  }

  lemma TakenThenFreed(m: Mem, a: nat) returns (m1: Mem, m2: Mem)
    requires Inv(m, {}) && ClearRun(m, a, 1) && MallocUserPages(m, a, 1).Next?
    ensures Takes(m, a, m1) && Frees(m1, a, NextFrame(m), m2)
  {
    hide Inv, MallocUserPages, Legal, Step;
    m1 := TakesPage(m, a);
    m2 := FreesPage(m1, a);
  }

  lemma ClearIsUnmapped(m: Mem, i: nat)
    requires Inv(m, {}) && ClearRun(m, i, 1)
    ensures m.Pte(m.active, USER_START + i).None? && TablesDistinct(m)
  {
    var u := UPage(m.active, USER_START + i);
    assert BitOf(m, u) <==> FrameOf(m, u).Some? || u in {};
  }

  lemma PoolAgain(m: Mem, m1: Mem, m2: Mem, a: nat)
    requires GotFirst(m, m1, USER_START + a) && GaveBack(m1, m2, USER_START + a, NextFrame(m))
    ensures m2.upool == m.upool && m2.ustart == m.ustart && FirstClear(m2.upool) < |m2.upool|
    ensures NextFrame(m2) == NextFrame(m) && m2.active == m.active && m2.active in m2.spaces
    ensures (USER_START + a) / ENTRIES in m2.spaces[m2.active].pd
    ensures m2.Pte(m.active, USER_START + a).None? && m2.Held(m.active, USER_START + a) == Some(NextFrame(m))
  {
    hide FirstClear, Mem.Pte, Mem.Held;
    assert m2.upool == m.upool;
  }

  /** A page next to one that was freed gets that one's frame. */
  lemma ThenAnother(m2: Mem, a: nat, b: nat, f: Frame) returns (m3: Mem)
    requires Inv(m2, {}) && ClearRun(m2, b, 1) && SameTable(USER_START + b, USER_START + a)
    requires (USER_START + a) / ENTRIES in m2.spaces[m2.active].pd && FirstClear(m2.upool) < |m2.upool|
    requires f == NextFrame(m2) && m2.Pte(m2.active, USER_START + a).None? && m2.Held(m2.active, USER_START + a) == Some(f)
    ensures Takes(m2, b, m3) && Named(m3, a, b, f)
  {
    ClearIsUnmapped(m2, b);
    hide Inv, FirstClear, Mem.Held, Mem.Pte, MallocUserPages, RunStep, TablesDistinct;
    MallocInPlace(m2, b);
    m3 := TakesPage(m2, b);
    assert SameTable(USER_START + b, USER_START + a);
    assert m3.upool[f - m3.ustart := false] == m2.upool;
    StillInStep(m3);
  }

  lemma StillInStep(m: Mem)
    requires Inv(m, {})
    ensures TablesDistinct(m)
  {
  }

  /** Freeing page a again gives back the frame of page b, and allocating page a once more gives it to both. */
  lemma FreeAgain(m: Mem, a: nat, b: nat, f: Frame) returns (m1: Mem, m2: Mem)
    requires Named(m, a, b, f) && SameTable(USER_START + a, USER_START + b) && USER_START + a < KERNEL_START - 1
    ensures FreeUserPages(m, USER_START + a, 1) == Next(m1) && !Inv(m1, {}) && m1.active in m1.spaces
    ensures MallocUserPages(m1, a, 1) == Next(m2) && m2.active == m.active
    ensures m2.Pte(m.active, USER_START + a) == Some(f) && m2.Pte(m.active, USER_START + b) == Some(f)
  {
    hide Inv, FirstClear, TablesDistinct, Mem.Held, Mem.Pte, MallocUserPages, FreeUserPages;
    FreeGives(m, USER_START + a, f);
    m1 := FreeUserPages(m, USER_START + a, 1).value;
    assert SameTable(USER_START + a, USER_START + b);
    LostFrame(m1, USER_START + b, f);
    MallocInPlace(m1, a);
    MallocGetsFirst(m1, a);
    m2 := MallocUserPages(m1, a, 1).value;
  }

  lemma LostFrame(m: Mem, vp: nat, f: Frame)
    requires m.Pte(m.active, vp) == Some(f) && m.ustart <= f < m.ustart + |m.upool| && !m.upool[f - m.ustart]
    ensures !Inv(m, {})
  {
    assert FrameOf(m, UPage(m.active, vp)) == Some(f);
  }

  /** Two pages with one page table, neither of them allocated, and frames for them. */
  ghost predicate TwoPages(m: Mem, a: nat, b: nat) {
    ClearRun(m, a, 1) && ClearRun(m, b, 1) && SameTable(USER_START + a, USER_START + b) && PoolsCover(m, USER_START + a, 1)
  }

  /** From any state in step: allocate page a, free it, allocate page b next to it.  Freeing page a again now
      takes the frame from page b, and the next allocation of page a gives it to both. */
  lemma FreedTwiceShares(m: Mem, a: nat, b: nat) returns (m1: Mem, m2: Mem, m3: Mem, m4: Mem, m5: Mem)
    requires Inv(m, {}) && TwoPages(m, a, b)
    ensures RunStep(m, UserPages(a, 1), m1) && RunStep(m1, FreeUser(USER_START + a, 1), m2)
    ensures RunStep(m2, UserPages(b, 1), m3) && m3.active in m3.spaces && m3.active == m.active
    ensures m3.Pte(m.active, USER_START + a).None?
    ensures FreeUserPages(m3, USER_START + a, 1) == Next(m4) && !Inv(m4, {}) && m4.active in m4.spaces
    ensures MallocUserPages(m4, a, 1) == Next(m5) && m5.active == m.active
    ensures m5.Pte(m.active, USER_START + a).Some? && m5.Pte(m.active, USER_START + a) == m5.Pte(m.active, USER_START + b)
  {
    hide Inv, FirstClear, Mem.Held, Mem.Pte, MallocUserPages, FreeUserPages, RunStep, PoolsCover;
    MallocUserPagesIff(m, a, 1);
    m1, m2 := TakenThenFreed(m, a);
    PoolAgain(m, m1, m2, a);
    m3 := ThenAnother(m2, a, b, NextFrame(m));
    m4, m5 := FreeAgain(m3, a, b, NextFrame(m));
  }

  // ---------------------------------------------------------------- such a run from mem_init on

  /** Frames for a new process, its first page and the page table. */
  predicate RoomToStart(m: Mem) {
    |m.kbits| >= BITMAP_PAGES + 2 && CountClear(m.kpool) >= BITMAP_PAGES + 3 && CountClear(m.upool) >= 1
  }

  lemma ThreeTakings(m: Mem) returns (m1: Mem, m2: Mem, m3: Mem)
    requires Inv(m, {}) && RoomToStart(m) && forall i :: 0 <= i < |m.kbits| ==> !m.kbits[i]
    ensures GetKernelPages(m, 0, 1) == Next(m1) && GetKernelPages(m1, 1, BITMAP_PAGES) == Next(m2)
    ensures GetKernelPages(m2, BITMAP_PAGES + 1, 1) == Next(m3)
    ensures Inv(m3, {}) && CountClear(m3.kpool) >= 1 && m3.upool == m.upool && m3.spaces == m.spaces
  {
    hide Inv, GetKernelPages, CountClear;
    GetKernelPagesIff(m, 0, 1);
    m1 := GetKernelPages(m, 0, 1).value;
    GetKernelPagesIff(m1, 1, BITMAP_PAGES);
    m2 := GetKernelPages(m1, 1, BITMAP_PAGES).value;
    GetKernelPagesIff(m2, BITMAP_PAGES + 1, 1);
    m3 := GetKernelPages(m2, BITMAP_PAGES + 1, 1).value;
  }

  lemma OneTable(m: Mem, vp: nat)
    requires m.active in m.spaces && CountClear(m.kpool) >= 1 && CountClear(m.upool) >= 1
    ensures PoolsCover(m, vp, 1)
  {
    assert Missing(m, vp, 1) <= {vp / ENTRIES};
    if Missing(m, vp, 1) != {} {
      assert Missing(m, vp, 1) == {vp / ENTRIES};
    }
  }

  lemma NewProcess(k: Mem, s: Sid, pages: nat, a: nat, b: nat, m: Mem)
    requires CountClear(k.kpool) >= 1 && CountClear(k.upool) >= 1 && SameTable(USER_START + a, USER_START + b)
    requires USER_START + a < KERNEL_START - 1 && USER_START + b < KERNEL_START - 1 && a < pages && b < pages
    requires m == NewSpace(k, s, ClearBits(pages)).(active := s)
    ensures TwoPages(m, a, b)
  {
    hide CountClear;
    OneTable(m, USER_START + a);
    hide PoolsCover;
  }

  lemma Switched(m: Mem, s: Sid) returns (m': Mem)
    requires Inv(m, {})
    ensures RunStep(m, Switch(s), m') && m' == m.(active := s) && Inv(m', {})
  {
    m' := m.(active := s);
    RedirectInv(m, m', {});
  }

  /** Where the scans find room on an empty bitmap. */
  function Starts(): seq<nat> {
    [0, 1, BITMAP_PAGES + 1]
  }

  lemma ExecuteIs(m: Mem, s: Sid) returns (k: Mem)
    requires Inv(m, {}) && RoomToStart(m) && forall i :: 0 <= i < |m.kbits| ==> !m.kbits[i]
    ensures ExecuteSpace(m, s, Starts(), USER_PAGES) == Next(NewSpace(k, s, ClearBits(USER_PAGES)))
    ensures CountClear(k.kpool) >= 1 && k.upool == m.upool
  {
    hide Inv, GetKernelPages, CountClear, RoomToStart, ClearBits, NewSpace;
    var k1, k2;
    k1, k2, k := ThreeTakings(m);
  }

  lemma Executed(m: Mem, s: Sid) returns (k: Mem, m': Mem)
    requires Booted(m) && RoomToStart(m)
    ensures RunStep(m, Execute(s, Starts()), m') && Inv(m', {})
    ensures m' == NewSpace(k, s, ClearBits(USER_PAGES)) && CountClear(k.kpool) >= 1 && k.upool == m.upool
  {
    assert forall i :: 0 <= i < |m.kbits| ==> !m.kbits[i];
    hide Inv, CountClear, Legal, Booted, ClearBits, RoomToStart, NewSpace, ExecuteSpace;
    BootedInv(m);
    ExecuteLegal(m, s);
    k := ExecuteIs(m, s);
    m' := NewSpace(k, s, ClearBits(USER_PAGES));
    StepInv(m, Execute(s, Starts()));
  }

  lemma ExecuteLegal(m: Mem, s: Sid)
    requires Booted(m) && RoomToStart(m)
    ensures Legal(m, Execute(s, Starts()))
  {
    hide CountClear;
  }

  lemma ProcessStarts(m: Mem, s: Sid, a: nat, b: nat) returns (m1: Mem, m2: Mem)
    requires Booted(m) && RoomToStart(m) && SameTable(USER_START + a, USER_START + b)
    requires USER_START + a < KERNEL_START - 1 && USER_START + b < KERNEL_START - 1
    ensures RunStep(m, Execute(s, Starts()), m1) && RunStep(m1, Switch(s), m2)
    ensures Inv(m2, {}) && TwoPages(m2, a, b) && m2.active == s
  {
    hide Inv, RunStep, TwoPages, Booted, CountClear;
    var k;
    k, m1 := Executed(m, s);
    m2 := Switched(m1, s);
    NewProcess(k, s, USER_PAGES, a, b, m2);
  }

  /** For any two pages with one page table there is a run from mem_init on, of legal calls only, after which
      freeing a page that is not mapped any more puts both pages into one frame at the next allocation. */
  lemma FreedTwiceRun(m: Mem, s: Sid, a: nat, b: nat) returns (states: seq<Mem>, calls: seq<Call>, m': Mem, m'': Mem)
    requires Booted(m) && RoomToStart(m) && SameTable(USER_START + a, USER_START + b)
    requires USER_START + a < KERNEL_START - 1 && USER_START + b < KERNEL_START - 1
    ensures IsRun(states, calls) && |calls| == 5 && states[0] == m
    ensures states[5].active == s && s in states[5].spaces && states[5].Pte(s, USER_START + a).None?
    ensures FreeUserPages(states[5], USER_START + a, 1) == Next(m') && !Inv(m', {}) && m'.active in m'.spaces
    ensures MallocUserPages(m', a, 1) == Next(m'')
    ensures m''.Pte(s, USER_START + a).Some? && m''.Pte(s, USER_START + a) == m''.Pte(s, USER_START + b)
  {
    hide Inv, Mem.Pte, MallocUserPages, FreeUserPages, RunStep, TwoPages, RoomToStart;
    var m1, m2 := ProcessStarts(m, s, a, b);
    var m3, m4, m5;
    m3, m4, m5, m', m'' := FreedTwiceShares(m2, a, b);
    states := [m, m1, m2, m3, m4, m5];
    calls := [Execute(s, Starts()), Switch(s), UserPages(a, 1), FreeUser(USER_START + a, 1), UserPages(b, 1)];
    forall i | 0 <= i < |calls| ensures RunStep(states[i], calls[i], states[i + 1]) {
    }
  }
}
