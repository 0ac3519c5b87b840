/** How many free frames an allocation needs, and what becomes of malloc_page when palloc answers NULL
    instead of stopping the machine. */
module PagePools {
  import opened Outcomes
  import opened BitSeq
  import opened PageAlloc

  // ---------------------------------------------------------------- user pages

  /** The directory entries of the range that have no page table yet. */
  ghost function Missing(m: Mem, vp: nat, n: nat): set<nat>
    requires m.active in m.spaces
  {
    set i | vp <= i < vp + n && i / ENTRIES !in m.spaces[m.active].pd :: i / ENTRIES
  }

  /** The user pool has a frame for every page and the kernel pool one for every new page table. */
  ghost predicate PoolsCover(m: Mem, vp: nat, n: nat)
    requires m.active in m.spaces
  {
    CountClear(m.upool) >= n && CountClear(m.kpool) >= |Missing(m, vp, n)|
  }

  lemma PallocCounts(m: Mem, user: bool)
    ensures var pool := if user then m.upool else m.kpool;
            && (Palloc(m, user).Next? <==> CountClear(pool) > 0)
            && (Palloc(m, user).Next? ==>
                  var m1 := Palloc(m, user).value.0;
                  && CountClear(m1.upool) == CountClear(m.upool) - (if user then 1 else 0)
                  && CountClear(m1.kpool) == CountClear(m.kpool) - (if user then 0 else 1)
                  && m1 == m.(kpool := m1.kpool, upool := m1.upool))
  {
    FirstClearCounts(m.upool);
    FirstClearCounts(m.kpool);
  }

  lemma OneUserCounts(m: Mem, vp: nat)
    requires m.active in m.spaces && m.Pte(m.active, vp).None?
    ensures var pd := m.spaces[m.active].pd; var tables := if vp / ENTRIES in pd then 0 else 1;
            && (MapOneUser(m, vp).Next? <==> CountClear(m.upool) > 0 && CountClear(m.kpool) >= tables)
            && (MapOneUser(m, vp).Next? ==>
                  var m1 := MapOneUser(m, vp).value;
                  && CountClear(m1.upool) == CountClear(m.upool) - 1 && CountClear(m1.kpool) == CountClear(m.kpool) - tables
                  && m1.active == m.active && m1.active in m1.spaces
                  && m1.spaces[m.active].pd.Keys == pd.Keys + {vp / ENTRIES})
  {
    PallocCounts(m, true);
    hide Palloc;
    if Palloc(m, true).Next? {
      var mu := Palloc(m, true).value.0;
      PallocCounts(mu, false);
      assert mu.Pte(m.active, vp).None?;
    }
  }

  lemma MissingSplit(m: Mem, m1: Mem, vp: nat, n: nat)
    requires n > 0 && m.active in m.spaces && m1.active == m.active && m1.active in m1.spaces
    requires m1.spaces[m.active].pd.Keys == m.spaces[m.active].pd.Keys + {vp / ENTRIES}
    ensures vp / ENTRIES !in Missing(m1, vp + 1, n - 1)
    ensures Missing(m, vp, n) == Missing(m1, vp + 1, n - 1)
                                 + (if vp / ENTRIES in m.spaces[m.active].pd then {} else {vp / ENTRIES})
  {
    var rest := Missing(m1, vp + 1, n - 1);
    forall d ensures d in Missing(m, vp, n) <==>
        d in rest + (if vp / ENTRIES in m.spaces[m.active].pd then {} else {vp / ENTRIES})
    {
      if d in Missing(m, vp, n) {
        var i :| vp <= i < vp + n && i / ENTRIES == d && d !in m.spaces[m.active].pd;
        assert d != vp / ENTRIES ==> i != vp;
      }
      if d in rest {
        var i :| vp + 1 <= i < vp + n && i / ENTRIES == d && d !in m1.spaces[m.active].pd;
        assert d !in m.spaces[m.active].pd;
      }
    }
  }

  /** Unmapped pages of the running process whose bits are set already. */
  ghost predicate Waiting(m: Mem, vp: nat, n: nat, pending: set<Use>) {
    && Inv(m, pending) && m.active in m.spaces && UserRange(m.active, vp, n) <= pending
    && forall i :: vp <= i < vp + n ==> m.Pte(m.active, i).None?
  }

  lemma WaitingOn(m: Mem, vp: nat, n: nat, pending: set<Use>)
    requires n > 0 && Waiting(m, vp, n, pending) && MapOneUser(m, vp).Next?
    ensures Waiting(MapOneUser(m, vp).value, vp + 1, n - 1, pending - {UPage(m.active, vp)})
    ensures SameBits(m, MapOneUser(m, vp).value)
  {
    UserRangeSplit(m.active, vp, n);
    MapOneUserInv(m, vp, pending);
    var m1 := MapOneUser(m, vp).value;
    forall i | vp + 1 <= i < vp + 1 + (n - 1) ensures m1.Pte(m1.active, i).None? {
      assert FrameOf(m1, UPage(m.active, i)) == FrameOf(m, UPage(m.active, i));
    }
  }

  lemma MissingCounts(m: Mem, m1: Mem, vp: nat, n: nat)
    requires n > 0 && m.active in m.spaces && m1.active == m.active && m1.active in m1.spaces
    requires m1.spaces[m.active].pd.Keys == m.spaces[m.active].pd.Keys + {vp / ENTRIES}
    ensures |Missing(m, vp, n)|
            == |Missing(m1, vp + 1, n - 1)| + if vp / ENTRIES in m.spaces[m.active].pd then 0 else 1
  {
    MissingSplit(m, m1, vp, n);
  }

  /** One page of the run: what it takes, and what it leaves for the rest. */
  lemma OneOfRun(m: Mem, vp: nat, n: nat, pending: set<Use>)
    requires n > 0 && Waiting(m, vp, n, pending)
    ensures MapOneUser(m, vp).Halted? ==> CountClear(m.upool) == 0 || CountClear(m.kpool) < |Missing(m, vp, n)|
    ensures MapOneUser(m, vp).Next? ==>
              var m1 := MapOneUser(m, vp).value;
              && m1.active in m1.spaces && CountClear(m.upool) == CountClear(m1.upool) + 1
              && (CountClear(m.kpool) >= |Missing(m, vp, n)| <==> CountClear(m1.kpool) >= |Missing(m1, vp + 1, n - 1)|)
              && Waiting(m1, vp + 1, n - 1, pending - {UPage(m.active, vp)})
              && SameBits(m, m1) && m1.active == m.active
  {
    OneUserCounts(m, vp);
    if MapOneUser(m, vp).Next? {
      WaitingOn(m, vp, n, pending);
      hide Inv, SameBits, MapOneUser, Missing;
      MissingCounts(m, MapOneUser(m, vp).value, vp, n);
    } else if vp / ENTRIES !in m.spaces[m.active].pd {
      assert vp / ENTRIES in Missing(m, vp, n);
    }
  }

  lemma NoPages(m: Mem, vp: nat)
    requires m.active in m.spaces
    ensures Missing(m, vp, 0) == {}
  {
  }

  /** The loop of malloc_page runs through exactly when the pools cover its pages and the new tables. */
  lemma {:induction false} MapUserRangeIff(m: Mem, vp: nat, n: nat, pending: set<Use>)
    requires Waiting(m, vp, n, pending)
    ensures MapUserRange(m, vp, n).Next? <==> PoolsCover(m, vp, n)
    decreases n
  {
    hide MapOneUser, Missing, CountClear, SameBits, Inv;
    if n == 0 {
      NoPages(m, vp);
    } else {
      OneOfRun(m, vp, n, pending);
      if MapOneUser(m, vp).Next? {
        MapUserRangeIff(MapOneUser(m, vp).value, vp + 1, n - 1, pending - {UPage(m.active, vp)});
      }
    }
  }

  /** A clear run of the virtual bitmap, as the scan answers it. */
  ghost predicate ClearRun(m: Mem, start: nat, n: nat) {
    && m.active in m.spaces && start + n <= |m.spaces[m.active].bits| && USER_START + start < KERNEL_START - 1
    && forall i :: start <= i < start + n ==> !m.spaces[m.active].bits[i]
  }

  lemma ClearRunWaits(m: Mem, start: nat, n: nat)
    requires Inv(m, {}) && ClearRun(m, start, n)
    ensures Waiting(SetUserBits(m, m.active, start, n, true), USER_START + start, n,
                    UserRange(m.active, USER_START + start, n))
  {
    var us := UserRange(m.active, USER_START + start, n);
    var m0 := SetUserBits(m, m.active, start, n, true);
    SetUserBitsInv(m, m.active, start, n, {});
    assert {} + us == us;
    BitsOnly(m, m0);
    forall i | USER_START + start <= i < USER_START + start + n ensures m0.Pte(m0.active, i).None? {
      assert FrameOf(m0, UPage(m.active, i)) == FrameOf(m, UPage(m.active, i));
      assert BitOf(m, UPage(m.active, i)) <==> FrameOf(m, UPage(m.active, i)).Some? || UPage(m.active, i) in {};
    }
  }

  /** malloc_page goes through exactly when the pools cover the run and its new page tables. */
  lemma MallocUserPagesIff(m: Mem, start: nat, n: nat)
    requires Inv(m, {}) && ClearRun(m, start, n)
    ensures MallocUserPages(m, start, n).Next? <==> PoolsCover(m, USER_START + start, n)
  {
    var m0 := SetUserBits(m, m.active, start, n, true);
    ClearRunWaits(m, start, n);
    MapUserRangeIff(m0, USER_START + start, n, UserRange(m.active, USER_START + start, n));
    assert Missing(m0, USER_START + start, n) == Missing(m, USER_START + start, n);
  }

  // ---------------------------------------------------------------- a palloc that answers NULL

  /** malloc_page with a scan that answers -1 on a full pool: it returns NULL midway.  A page table that
      cannot be had still stops the machine here; the code would write a directory entry for address 0. */
  function MapOrNull(m: Mem, vp: nat, n: nat): Outcome<(Mem, bool)>
    requires m.active in m.spaces
    decreases n
  {
    if n == 0 then Next((m, true))
    else if FirstClear(m.upool) == |m.upool| then Next((m, false))
    else
      var m1 :- MapOneUser(m, vp);
      if m1.active !in m1.spaces then Halted else MapOrNull(m1, vp + 1, n - 1)
  }

  function MallocOrNull(m: Mem, start: nat, n: nat): Outcome<(Mem, bool)>
    requires m.active in m.spaces
  {
    if USER_START + start >= KERNEL_START - 1 then Halted
    else MapOrNull(SetUserBits(m, m.active, start, n, true), USER_START + start, n)
  }

  /** The frame a page has in the end, NULL or not. */
  ghost predicate LeftOut(m: Mem, o: Outcome<(Mem, bool)>, s: Sid, vp: nat) {
    o.Next? && !o.value.1 && FrameOf(o.value.0, UPage(s, vp)).None? && SameBits(m, o.value.0)
  }

  lemma {:induction false} DoneIfCovered(m: Mem, vp: nat, n: nat, pending: set<Use>)
    requires Waiting(m, vp, n, pending) && PoolsCover(m, vp, n)
    ensures MapUserRange(m, vp, n).Next? && MapOrNull(m, vp, n) == Next((MapUserRange(m, vp, n).value, true))
    decreases n
  {
    hide Missing, CountClear, SameBits, MapOneUser, FirstClear, Inv;
    if n > 0 {
      FirstClearCounts(m.upool);
      OneOfRun(m, vp, n, pending);
      DoneIfCovered(MapOneUser(m, vp).value, vp + 1, n - 1, pending - {UPage(m.active, vp)});
    }
  }

  lemma {:induction false} NullIfShort(m: Mem, vp: nat, n: nat, pending: set<Use>)
    requires Waiting(m, vp, n, pending) && CountClear(m.upool) < n && CountClear(m.kpool) >= |Missing(m, vp, n)|
    ensures LeftOut(m, MapOrNull(m, vp, n), m.active, vp + n - 1)
    decreases n
  {
    hide Missing, CountClear, SameBits, MapOneUser, FirstClear, Inv;
    FirstClearCounts(m.upool);
    if CountClear(m.upool) == 0 {
      LeftOutNow(m, vp + n - 1);
    } else {
      OneOfRun(m, vp, n, pending);
      var m1 := MapOneUser(m, vp).value;
      NullIfShort(m1, vp + 1, n - 1, pending - {UPage(m.active, vp)});
      LeftOutMore(m, m1, MapOrNull(m1, vp + 1, n - 1), m.active, vp + n - 1);
    }
  }

  lemma LeftOutMore(m: Mem, m1: Mem, o: Outcome<(Mem, bool)>, s: Sid, vp: nat)
    requires SameBits(m, m1) && LeftOut(m1, o, s, vp)
    ensures LeftOut(m, o, s, vp)
  {
    forall u ensures BitOf(o.value.0, u) == BitOf(m, u) {
      assert BitOf(o.value.0, u) == BitOf(m1, u);
    }
  }

  lemma LeftOutNow(m: Mem, vp: nat)
    requires m.Pte(m.active, vp).None?
    ensures LeftOut(m, Next((m, false)), m.active, vp)
  {
  }

  lemma LeftOutBreaks(m: Mem, start: nat, n: nat, o: Outcome<(Mem, bool)>)
    requires n > 0 && ClearRun(m, start, n)
    requires LeftOut(SetUserBits(m, m.active, start, n, true), o, m.active, USER_START + start + n - 1)
    ensures !Inv(o.value.0, {})
  {
    var m0, m', u := SetUserBits(m, m.active, start, n, true), o.value.0, UPage(m.active, USER_START + start + n - 1);
    assert BitOf(m', u) == BitOf(m0, u);
    assert BitOf(m0, u) && !(FrameOf(m', u).Some? || u in {});
  }

  /** NULL leaves virtual bits set without pages, which nobody takes back: bitmaps, tables and pools stay
      in step exactly when the user pool has a frame for every page. */
  lemma MallocOrNullKeepsIff(m: Mem, start: nat, n: nat)
    requires Inv(m, {}) && ClearRun(m, start, n) && CountClear(m.kpool) >= |Missing(m, USER_START + start, n)|
    ensures MallocOrNull(m, start, n).Next?
    ensures var (m', done) := MallocOrNull(m, start, n).value;
            && (done <==> CountClear(m.upool) >= n) && (Inv(m', {}) <==> CountClear(m.upool) >= n)
            && (done ==> MallocUserPages(m, start, n) == Next(m'))
  {
    var us := UserRange(m.active, USER_START + start, n);
    var m0 := SetUserBits(m, m.active, start, n, true);
    ClearRunWaits(m, start, n);
    assert Missing(m0, USER_START + start, n) == Missing(m, USER_START + start, n);
    if CountClear(m.upool) >= n {
      DoneIfCovered(m0, USER_START + start, n, us);
      MallocUserPagesInv(m, start, n);
    } else {
      NullIfShort(m0, USER_START + start, n, us);
      LeftOutBreaks(m, start, n, MallocOrNull(m, start, n));
    }
  }

  // ---------------------------------------------------------------- kernel pages

  lemma {:induction false} MapKernelRangeIff(m: Mem, k: nat, n: nat)
    requires forall i :: k <= i < k + n ==> i !in m.kmap
    ensures MapKernelRange(m, k, n).Next? <==> CountClear(m.kpool) >= n
    ensures MapKernelRange(m, k, n).Next? ==>
              var m' := MapKernelRange(m, k, n).value;
              && CountClear(m'.kpool) == CountClear(m.kpool) - n
              && m'.upool == m.upool && m'.kbits == m.kbits && m'.spaces == m.spaces && m'.active == m.active
    decreases n
  {
    if n > 0 {
      PallocCounts(m, false);
      if Palloc(m, false).Next? {
        PallocLeaves(m);
        hide Palloc;
        MapKernelRangeIff(MapOneKernel(m, k).value, k + 1, n - 1);
      }
    }
  }

  lemma PallocLeaves(m: Mem)
    requires Palloc(m, false).Next?
    ensures Palloc(m, false).value.0.upool == m.upool
  {
  }

  /** get_kernel_pages goes through exactly when the kernel pool has a frame for every page. */
  lemma GetKernelPagesIff(m: Mem, start: nat, n: nat)
    requires Inv(m, {}) && start + n <= |m.kbits| && forall i :: start <= i < start + n ==> !m.kbits[i]
    ensures GetKernelPages(m, start, n).Next? <==> CountClear(m.kpool) >= n
    ensures GetKernelPages(m, start, n).Next? ==>
              var m' := GetKernelPages(m, start, n).value;
              && Inv(m', {}) && CountClear(m'.kpool) == CountClear(m.kpool) - n
              && m'.upool == m.upool && m'.kbits == Ranged(m.kbits, start, n, true)
              && m'.spaces == m.spaces && m'.active == m.active
  {
    forall i | start <= i < start + n ensures i !in m.kmap {
      assert BitOf(m, KPage(i)) <==> FrameOf(m, KPage(i)).Some? || KPage(i) in {};
    }
    MapKernelRangeIff(SetKernelBits(m, start, n, true), start, n);
    if GetKernelPages(m, start, n).Next? {
      GetKernelPagesInv(m, start, n);
    }
  }
}
