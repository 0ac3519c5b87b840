/** sys_malloc and sys_free together with malloc_page and mfree_page: one kernel heap, one heap for each
    process, and the pages all of them live on. */
module HeapRuns {
  import opened Outcomes
  import opened Heap
  import P = PageAlloc

  /** K_HEAP_START as a page number. */
  const KERNEL_HEAP := 0xc0100

  /** None is the kernel's heap, Some(s) that of the process in space s. */
  type Owner = Option<P.Sid>

  function Base(o: Owner): nat {
    if o.None? then KERNEL_HEAP else P.USER_START
  }

  function UseOf(o: Owner, p: nat): P.Use
    requires p >= Base(o)
  {
    match o
    case None => P.KPage(p - KERNEL_HEAP)
    case Some(s) => P.UPage(s, p)
  }

  predicate InArena(h: Heap, a: nat, p: nat) {
    a in h.arenas && a <= p < a + PagesIn(h.arenas[a])
  }

  predicate MappedPage(m: P.Mem, o: Owner, p: nat) {
    p >= Base(o) && P.FrameOf(m, UseOf(o, p)).Some?
  }

  /** Every page of every arena is mapped. */
  ghost predicate OnPages(h: Heap, m: P.Mem, o: Owner) {
    forall a, p {:trigger InArena(h, a, p)} :: InArena(h, a, p) ==> MappedPage(m, o, p)
  }

  // ---------------------------------------------------------------- malloc_page and mfree_page

  function UserFrames(m: P.Mem, s: P.Sid, vp: nat, n: nat): set<P.Frame> {
    set i | vp <= i < vp + n && m.Pte(s, i).Some? :: m.Pte(s, i).value
  }

  /** malloc_page and the memset behind it; `start` is what the scan answered. */
  function MallocPage(m: P.Mem, o: Owner, start: nat, n: nat): Outcome<P.Mem>
    requires o.Some? ==> o.value == m.active && m.active in m.spaces
  {
    match o
    case None => P.GetKernelPages(m, start, n)
    case Some(s) =>
      var m1 :- P.MallocUserPages(m, start, n);
      Next(P.Zeroed(m1, UserFrames(m1, s, P.USER_START + start, n)))
  }

  function MfreePage(m: P.Mem, o: Owner, p: nat, n: nat): Outcome<P.Mem>
    requires p >= Base(o) && (o.Some? ==> o.value == m.active && m.active in m.spaces)
  {
    match o
    case None => P.FreeKernelPages(m, p - KERNEL_HEAP, n)
    case Some(_) => P.FreeUserPages(m, p, n)
  }

  ghost predicate SameSpaces(m: P.Mem, m': P.Mem) {
    P.Inv(m', {}) && m'.active == m.active && m'.spaces.Keys == m.spaces.Keys
  }

  /** Pages p..p+n of o were not mapped and now are; what was mapped still is. */
  ghost predicate Grows(m: P.Mem, m': P.Mem, o: Owner, p: nat, n: nat) {
    && SameSpaces(m, m') && p >= Base(o)
    && (forall i {:trigger UseOf(o, i)} :: p <= i < p + n ==>
          P.FrameOf(m, UseOf(o, i)).None? && P.FrameOf(m', UseOf(o, i)).Some?)
    && (forall w {:trigger P.FrameOf(m', w)} :: P.FrameOf(m, w).Some? ==> P.FrameOf(m', w).Some?)
  }

  predicate InRange(o: Owner, p: nat, n: nat, w: P.Use) {
    match o
    case None => w.KPage? && p <= w.k + KERNEL_HEAP < p + n
    case Some(s) => w.UPage? && w.s == s && p <= w.vp < p + n
  }

  /** Pages p..p+n of o are not mapped any more; everything else that was mapped still is. */
  ghost predicate Shrinks(m: P.Mem, m': P.Mem, o: Owner, p: nat, n: nat) {
    && SameSpaces(m, m')
    && forall w {:trigger P.FrameOf(m', w)} :: P.FrameOf(m', w) == if InRange(o, p, n, w) then None else P.FrameOf(m, w)
  }

  lemma KernelPagesGrow(m: P.Mem, start: nat, n: nat)
    requires P.Inv(m, {}) && start + n <= |m.kbits| && MallocPage(m, None, start, n).Next?
    ensures Grows(m, MallocPage(m, None, start, n).value, None, Base(None) + start, n)
  {
    hide P.GetKernelPages, P.Inv, P.KernelRange;
    var m' := MallocPage(m, None, start, n).value;
    var m1 := m'.(content := m.content);
    P.GetKernelPagesInv(m, start, n);
    P.ContentOnly(m', m1, {});
    forall w: P.Use ensures P.FrameOf(m', w) == P.FrameOf(m1, w) {
    }
    forall i | Base(None) + start <= i < Base(None) + start + n
      ensures P.FrameOf(m, UseOf(None, i)).None? && P.FrameOf(m', UseOf(None, i)).Some?
    {
      P.KernelRangeMember(start, n, UseOf(None, i));
      assert P.FrameOf(m1, UseOf(None, i)).Some?;
    }
  }

  lemma UserPagesGrow(m: P.Mem, s: P.Sid, start: nat, n: nat)
    requires P.Inv(m, {}) && s == m.active && m.active in m.spaces && start + n <= |m.spaces[m.active].bits|
    requires MallocPage(m, Some(s), start, n).Next?
    ensures Grows(m, MallocPage(m, Some(s), start, n).value, Some(s), Base(Some(s)) + start, n)
  {
    var o := Some(s);
    var m' := MallocPage(m, o, start, n).value;
    P.MallocUserPagesInv(m, start, n);
    var m1 := P.MallocUserPages(m, start, n).value;
    P.ContentOnly(m1, m', {});
    forall w: P.Use ensures P.FrameOf(m', w) == P.FrameOf(m1, w) {
    }
    forall i | Base(o) + start <= i < Base(o) + start + n
      ensures P.FrameOf(m, UseOf(o, i)).None? && P.FrameOf(m', UseOf(o, i)).Some?
    {
      P.UserRangeMember(s, Base(o) + start, n, UseOf(o, i));
      assert P.FrameOf(m1, UseOf(o, i)).Some?;
    }
  }

  lemma MallocPageGrows(m: P.Mem, o: Owner, start: nat, n: nat)
    requires P.Inv(m, {}) && (o.Some? ==> o.value == m.active && m.active in m.spaces)
    requires start + n <= if o.None? then |m.kbits| else |m.spaces[m.active].bits|
    requires MallocPage(m, o, start, n).Next?
    ensures Grows(m, MallocPage(m, o, start, n).value, o, Base(o) + start, n)
  {
    match o
    case None => KernelPagesGrow(m, start, n);
    case Some(s) => UserPagesGrow(m, s, start, n);
  }

  /** mfree_page of mapped pages fails no assertion. */
  lemma MfreePageShrinks(m: P.Mem, o: Owner, p: nat, n: nat)
    requires P.Inv(m, {}) && (o.Some? ==> o.value == m.active && m.active in m.spaces)
    requires n >= 1 && p >= Base(o) && forall i {:trigger MappedPage(m, o, i)} :: p <= i < p + n ==> MappedPage(m, o, i)
    ensures MfreePage(m, o, p, n).Next? && Shrinks(m, MfreePage(m, o, p, n).value, o, p, n)
  {
    match o
    case None =>
      var k := p - KERNEL_HEAP;
      forall i | k <= i < k + n ensures i in m.kmap {
        assert MappedPage(m, o, i + KERNEL_HEAP);
      }
      P.FreeKernelPagesInv(m, k, n);
      forall w ensures InRange(o, p, n, w) <==> w in P.KernelRange(k, n) {
        P.KernelRangeMember(k, n, w);
      }
    case Some(s) =>
      forall i | p <= i < p + n ensures m.Pte(m.active, i).Some? {
        assert MappedPage(m, o, i);
      }
      P.FreeUserPagesInv(m, p, n);
      forall w ensures InRange(o, p, n, w) <==> w in P.UserRange(s, p, n) {
        P.UserRangeMember(s, p, n, w);
      }
  }

  // ---------------------------------------------------------------- the pages of one heap

  lemma PageIsMapped(h: Heap, m: P.Mem, o: Owner, a: nat, p: nat)
    requires OnPages(h, m, o) && InArena(h, a, p)
    ensures MappedPage(m, o, p)
  {
  }

  /** Unmapped pages belong to no arena. */
  lemma UnmappedIsFresh(s: State, m: P.Mem, o: Owner, p: nat, n: nat)
    requires Inv(s) && OnPages(s.h, m, o) && n > 0 && p >= Base(o)
    requires forall i {:trigger UseOf(o, i)} :: p <= i < p + n ==> P.FrameOf(m, UseOf(o, i)).None?
    ensures FreshPages(s.h, p, n)
  {
    forall a | a in s.h.arenas ensures a + PagesIn(s.h.arenas[a]) <= p || p + n <= a {
      PagesPositive(s, a, -1);
      if p < a + PagesIn(s.h.arenas[a]) && a < p + n {
        var q := if a <= p then p else a;
        PageIsMapped(s.h, m, o, a, q);
      }
    }
  }

  lemma GrowsKeepsPages(h: Heap, m: P.Mem, m': P.Mem, o: Owner, p: nat, n: nat, q: Owner)
    requires OnPages(h, m, q) && Grows(m, m', o, p, n)
    ensures OnPages(h, m', q)
  {
    forall a, i | InArena(h, a, i) ensures MappedPage(m', q, i) {
      assert MappedPage(m, q, i) && P.FrameOf(m, UseOf(q, i)).Some?;
      assert P.FrameOf(m', UseOf(q, i)).Some?;
    }
  }

  /** Another heap's pages stay when pages of o go. */
  lemma ShrinksKeepsOthers(h: Heap, m: P.Mem, m': P.Mem, o: Owner, p: nat, n: nat, q: Owner)
    requires OnPages(h, m, q) && Shrinks(m, m', o, p, n) && q != o
    ensures OnPages(h, m', q)
  {
    forall a, i | InArena(h, a, i) ensures MappedPage(m', q, i) {
      assert MappedPage(m, q, i);
      assert P.FrameOf(m', UseOf(q, i)) == P.FrameOf(m, UseOf(q, i));
    }
  }

  /** The pages malloc_page is asked for. */
  function NeedPages(h: Heap, size: nat, pool: nat): nat
    requires |h.free| == DESCS
  {
    if !(0 < size < pool) then 0
    else if size > LARGEST then PagesFor(size)
    else if h.free[DescFor(size, 0)] == [] then 1
    else 0
  }

  /** An arena after sys_malloc is one from before with as many pages, or the new pages. */
  lemma MallocArenas(h: Heap, size: nat, pool: nat, page: Option<nat>, a: nat)
    requires |h.free| == DESCS && SysMalloc(h, size, pool, page).Next?
    requires a in SysMalloc(h, size, pool, page).value.0.arenas
    ensures var r := SysMalloc(h, size, pool, page).value.0.arenas[a];
            || (a in h.arenas && PagesIn(r) == PagesIn(h.arenas[a]))
            || (page == Some(a) && PagesIn(r) == NeedPages(h, size, pool))
  {
  }

  /** An arena after sys_free is one from before with as many pages. */
  lemma FreeArenas(h: Heap, x: Addr, a: nat)
    requires |h.free| == DESCS && SysFree(h, x).Next? && a in SysFree(h, x).value.arenas
    ensures a in h.arenas && PagesIn(SysFree(h, x).value.arenas[a]) == PagesIn(h.arenas[a])
  {
  }

  // ---------------------------------------------------------------- all heaps together

  datatype World = World(m: P.Mem, kernel: State, procs: map<P.Sid, State>) {
    predicate Has(o: Owner) {
      o.Some? ==> o.value in procs && o.value == m.active && m.active in m.spaces
    }

    function HeapOf(o: Owner): State
      requires Has(o)
    {
      if o.None? then kernel else procs[o.value]
    }

    function With(o: Owner, s: State): World {
      if o.None? then this.(kernel := s) else this.(procs := procs[o.value := s])
    }

    /** pool_size. */
    function Pool(o: Owner): nat {
      PAGE * if o.None? then |m.kpool| else |m.upool|
    }
  }

  ghost predicate HeapOk(w: World, o: Owner, s: State) {
    Inv(s) && OnPages(s.h, w.m, o)
  }

  ghost predicate WorldInv(w: World) {
    && P.Inv(w.m, {})
    && HeapOk(w, None, w.kernel)
    && (forall s {:trigger w.procs[s]} :: s in w.procs ==> s in w.m.spaces && HeapOk(w, Some(s), w.procs[s]))
  }

  /** `start` is what the scan for the pages answers, if it is asked. */
  datatype Call = Malloc(o: Owner, size: nat, start: Option<nat>) | Free(o: Owner, x: Addr) | Switch(s: P.Sid)

  /** A call is made by the running thread, a scan answers inside its bitmap, and only live addresses are
      freed. */
  ghost predicate Legal(w: World, c: Call) {
    match c
    case Malloc(o, size, start) =>
      && w.Has(o) && |w.HeapOf(o).h.free| == DESCS
      && (start.Some? ==> start.value + NeedPages(w.HeapOf(o).h, size, w.Pool(o))
                          <= if o.None? then |w.m.kbits| else |w.m.spaces[w.m.active].bits|)
    case Free(o, x) => w.Has(o) && |w.HeapOf(o).h.free| == DESCS && x in w.HeapOf(o).live
    case Switch(s) => s in w.procs
  }

  function MallocStep(w: World, o: Owner, size: nat, start: Option<nat>): Outcome<World>
    requires w.Has(o) && |w.HeapOf(o).h.free| == DESCS
  {
    var s := w.HeapOf(o);
    var n := NeedPages(s.h, size, w.Pool(o));
    var m1 :- if n > 0 && start.Some? then MallocPage(w.m, o, start.value, n) else Next(w.m);
    var (h', x) :- SysMalloc(s.h, size, w.Pool(o), if n > 0 && start.Some? then Some(Base(o) + start.value) else None);
    Next(w.(m := m1).With(o, State(h', if x.Some? then s.live[x.value := size] else s.live)))
  }

  /** The arena's pages go back when sys_free drops it. */
  function FreeStep(w: World, o: Owner, x: Addr): Outcome<World>
    requires w.Has(o) && |w.HeapOf(o).h.free| == DESCS
  {
    var s, a := w.HeapOf(o), PageOf(x);
    var h' :- SysFree(s.h, x);
    var m1 :- if a in h'.arenas then Next(w.m)
              else if a < Base(o) || a !in s.h.arenas then Halted
              else MfreePage(w.m, o, a, PagesIn(s.h.arenas[a]));
    Next(w.(m := m1).With(o, State(h', Freed(s, x))))
  }

  ghost function Step(w: World, c: Call): Outcome<World>
    requires Legal(w, c)
  {
    match c
    case Malloc(o, size, start) => MallocStep(w, o, size, start)
    case Free(o, x) => FreeStep(w, o, x)
    case Switch(s) => Next(w.(m := w.m.(active := s)))
  }

  /** Whoever the call was not for keeps its pages. */
  ghost predicate OthersKept(w: World, m': P.Mem, o: Owner) {
    forall q: Owner, h: Heap {:trigger OnPages(h, m', q)} :: q != o && OnPages(h, w.m, q) ==> OnPages(h, m', q)
  }

  lemma WorldAfter(w: World, o: Owner, m': P.Mem, s': State)
    requires WorldInv(w) && w.Has(o) && SameSpaces(w.m, m') && OthersKept(w, m', o)
    requires Inv(s') && OnPages(s'.h, m', o)
    ensures WorldInv(w.(m := m').With(o, s'))
  {
    var w' := w.(m := m').With(o, s');
    assert HeapOk(w, None, w.kernel);
    forall s | s in w'.procs ensures s in w'.m.spaces && HeapOk(w', Some(s), w'.procs[s]) {
      if Some(s) != o {
        assert w.procs[s] == w'.procs[s] && OnPages(w.procs[s].h, w.m, Some(s));
      }
    }
  }

  lemma HeapOkOf(w: World, o: Owner)
    requires WorldInv(w) && w.Has(o)
    ensures HeapOk(w, o, w.HeapOf(o)) && |w.HeapOf(o).h.free| == DESCS
  {
  }

  lemma LegalMalloc(w: World, o: Owner, size: nat, start: Option<nat>)
    requires WorldInv(w) && Legal(w, Malloc(o, size, start))
    ensures P.Inv(w.m, {}) && w.Has(o) && |w.HeapOf(o).h.free| == DESCS
    ensures start.Some? ==> start.value + NeedPages(w.HeapOf(o).h, size, w.Pool(o))
                            <= if o.None? then |w.m.kbits| else |w.m.spaces[w.m.active].bits|
  {
    hide P.Inv, Inv, NeedPages;
  }

  /** sys_malloc stops the machine only where malloc_page does; the pages it gets belong to no arena, and
      afterwards every arena again has its pages. */
  lemma MallocKeeps(w: World, o: Owner, size: nat, start: Option<nat>)
    requires WorldInv(w) && Legal(w, Malloc(o, size, start))
    ensures MallocStep(w, o, size, start).Next? ==> WorldInv(MallocStep(w, o, size, start).value)
    ensures MallocStep(w, o, size, start).Halted? ==>
              var n := NeedPages(w.HeapOf(o).h, size, w.Pool(o));
              n > 0 && start.Some? && MallocPage(w.m, o, start.value, n).Halted?
  {
    hide WorldInv, Legal, SysMalloc, NeedPages, P.Inv, Inv, MallocPage, HeapOk;
    LegalMalloc(w, o, size, start);
    var s, pool := w.HeapOf(o), w.Pool(o);
    var n := NeedPages(s.h, size, pool);
    if n > 0 && start.Some? {
      var p := Base(o) + start.value;
      if MallocPage(w.m, o, start.value, n).Next? {
        MallocPageGrows(w.m, o, start.value, n);
        MallocOnPages(w, o, size, p, MallocPage(w.m, o, start.value, n).value);
      }
    } else {
      NoPagesKeeps(w, o, size);
    }
  }

  lemma MallocPageOf(w: World, o: Owner, size: nat, start: Option<nat>)
    requires WorldInv(w) && Legal(w, Malloc(o, size, start)) && |w.HeapOf(o).h.free| == DESCS
    requires var n := NeedPages(w.HeapOf(o).h, size, w.Pool(o));
             n > 0 && start.Some? && MallocPage(w.m, o, start.value, n).Next?
    ensures FreshPages(w.HeapOf(o).h, Base(o) + start.value, NeedPages(w.HeapOf(o).h, size, w.Pool(o)))
  {
    hide WorldInv, Legal, NeedPages, P.Inv, MallocPage, HeapOk;
    LegalMalloc(w, o, size, start);
    var s, p, n := w.HeapOf(o), Base(o) + start.value, NeedPages(w.HeapOf(o).h, size, w.Pool(o));
    MallocPageGrows(w.m, o, start.value, n);
    UnmappedAreFresh(w, o, p, n, MallocPage(w.m, o, start.value, n).value);
  }

  lemma UnmappedAreFresh(w: World, o: Owner, p: nat, n: nat, m': P.Mem)
    requires WorldInv(w) && w.Has(o) && n > 0 && Grows(w.m, m', o, p, n)
    ensures FreshPages(w.HeapOf(o).h, p, n)
  {
    HeapOkOf(w, o);
    UnmappedIsFresh(w.HeapOf(o), w.m, o, p, n);
  }

  lemma HeapInvOf(w: World, o: Owner)
    requires WorldInv(w) && w.Has(o)
    ensures Inv(w.HeapOf(o)) && |w.HeapOf(o).h.free| == DESCS
  {
    HeapOkOf(w, o);
  }

  /** s' has one allocation more than s, of the size asked for. */
  ghost predicate OneMore(s: State, size: nat, s': State) {
    exists x: Addr {:trigger x in s'.live} :: x !in s.live && s'.live == s.live[x := size]
  }

  /** Only o's heap, by that allocation, and the pages can have changed. */
  ghost predicate HandedOut(w: World, o: Owner, size: nat, w': World)
    requires w.Has(o)
  {
    exists s' {:trigger w.With(o, s')} :: OneMore(w.HeapOf(o), size, s') && w' == w.With(o, s').(m := w'.m)
  }

  lemma Handing(w: World, o: Owner, size: nat, m': P.Mem, s': State, x: Addr)
    requires w.Has(o) && x !in w.HeapOf(o).live && s'.live == w.HeapOf(o).live[x := size]
    ensures HandedOut(w, o, size, w.(m := m').With(o, s'))
  {
    assert x in s'.live;
    assert w.(m := m').With(o, s') == w.With(o, s').(m := m');
  }

  /** sys_malloc in the whole machine: an address comes back exactly when malloc_page had the pages, or the
      list of the smallest size that fits has a block, and in that case no page is taken.  With NULL
      everything is as it was. */
  lemma MallocServedIff(w: World, o: Owner, size: nat, start: Option<nat>)
    requires WorldInv(w) && Legal(w, Malloc(o, size, start)) && MallocStep(w, o, size, start).Next?
    ensures var w', s := MallocStep(w, o, size, start).value, w.HeapOf(o);
            if Served(s.h, size, w.Pool(o), start)
            then HandedOut(w, o, size, w') else w' == w
    ensures (forall d: nat {:trigger BlockSize(d)} :: Smallest(d, size) ==> w.HeapOf(o).h.free[d] != []) && size <= LARGEST ==>
              MallocStep(w, o, size, start).value.m == w.m
  {
    hide WorldInv, Legal, SysMalloc, P.Inv, Inv, MallocPage, HeapOk, FreshPages;
    LegalMalloc(w, o, size, start);
    HeapInvOf(w, o);
    var s, pool := w.HeapOf(o), w.Pool(o);
    var n := NeedPages(s.h, size, pool);
    var page := if n > 0 && start.Some? then Some(Base(o) + start.value) else None;
    if page.Some? {
      MallocPageOf(w, o, size, start);
    }
    MallocInv(s, size, pool, page);
    MallocServesIff(s, size, pool, page);
    SameService(s.h, size, pool, start, page);
    var r := SysMalloc(s.h, size, pool, page).value;
    if r.1.Some? {
      Handing(w, o, size, MallocStep(w, o, size, start).value.m, State(r.0, s.live[r.1.value := size]), r.1.value);
    }
    assert w.With(o, s) == w;
  }

  lemma SameService(h: Heap, size: nat, pool: nat, start: Option<nat>, page: Option<nat>)
    requires |h.free| == DESCS && (page.Some? <==> NeedPages(h, size, pool) > 0 && start.Some?)
    ensures Served(h, size, pool, start) <==> Served(h, size, pool, page)
    ensures size <= LARGEST ==> Smallest(DescFor(size, 0), size)
  {
  }

  /** The pages that malloc_page hands to sys_malloc hold nothing of what their frames held before, and no
      frame that was in use is written. */
  lemma NewPagesAreZero(m: P.Mem, o: Owner, start: nat, n: nat)
    requires P.Inv(m, {}) && (o.Some? ==> o.value == m.active && m.active in m.spaces)
    requires start + n <= if o.None? then |m.kbits| else |m.spaces[m.active].bits|
    requires MallocPage(m, o, start, n).Next?
    ensures var m' := MallocPage(m, o, start, n).value;
            && (forall i {:trigger UseOf(o, i)} :: Base(o) + start <= i < Base(o) + start + n ==>
                  P.FrameOf(m', UseOf(o, i)).Some? && m'.ContentOf(P.FrameOf(m', UseOf(o, i)).value) == 0)
            && (forall f :: m.Taken(f) ==> m'.ContentOf(f) == m.ContentOf(f))
  {
    hide P.Inv, P.GetKernelPages, P.MallocUserPages;
    match o
    case None =>
      P.GetKernelPagesInv(m, start, n);
    case Some(s) =>
      P.MallocUserPagesInv(m, start, n);
      UserPagesZero(m, P.MallocUserPages(m, start, n).value, s, start, n);
  }

  lemma UserPagesZero(m: P.Mem, m1: P.Mem, s: P.Sid, start: nat, n: nat)
    requires P.MappedAll(m, m1, P.UserRange(s, P.USER_START + start, n))
    ensures var p := P.USER_START + start; var m' := P.Zeroed(m1, UserFrames(m1, s, p, n));
            && (forall i :: p <= i < p + n ==> m'.Pte(s, i).Some? && m'.ContentOf(m'.Pte(s, i).value) == 0)
            && (forall f :: m.Taken(f) ==> m'.ContentOf(f) == m.ContentOf(f))
  {
    var p := P.USER_START + start;
    var m' := P.Zeroed(m1, UserFrames(m1, s, p, n));
    forall i | p <= i < p + n
      ensures m'.Pte(s, i) == m1.Pte(s, i) && m1.Pte(s, i).Some? && !m.Taken(m1.Pte(s, i).value)
    {
      P.UserRangeMember(s, p, n, P.UPage(s, i));
      assert P.FrameOf(m1, P.UPage(s, i)).Some?;
    }
  }

  lemma NoPagesKeeps(w: World, o: Owner, size: nat)
    requires WorldInv(w) && w.Has(o) && |w.HeapOf(o).h.free| == DESCS
    ensures var s := w.HeapOf(o); var r := SysMalloc(s.h, size, w.Pool(o), None);
            r.Next? && WorldInv(w.(m := w.m).With(o, State(r.value.0, if r.value.1.Some? then s.live[r.value.1.value := size] else s.live)))
  {
    HeapOkOf(w, o);
    var s, pool := w.HeapOf(o), w.Pool(o);
    MallocInv(s, size, pool, None);
    SameArenasOn(s.h, SysMalloc(s.h, size, pool, None).value.0, w.m, o, size, pool);
    var (h', x) := SysMalloc(s.h, size, pool, None).value;
    WorldAfter(w, o, w.m, State(h', if x.Some? then s.live[x.value := size] else s.live));
  }

  lemma SameArenasOn(h: Heap, h': Heap, m: P.Mem, o: Owner, size: nat, pool: nat)
    requires |h.free| == DESCS && OnPages(h, m, o)
    requires SysMalloc(h, size, pool, None).Next? && h' == SysMalloc(h, size, pool, None).value.0
    ensures OnPages(h', m, o)
  {
    forall a, p | InArena(h', a, p) ensures MappedPage(m, o, p) {
      MallocArenas(h, size, pool, None, a);
      assert InArena(h, a, p);
    }
  }

  lemma MallocOnPages(w: World, o: Owner, size: nat, p: nat, m': P.Mem)
    requires WorldInv(w) && w.Has(o) && |w.HeapOf(o).h.free| == DESCS
    requires NeedPages(w.HeapOf(o).h, size, w.Pool(o)) > 0
    requires Grows(w.m, m', o, p, NeedPages(w.HeapOf(o).h, size, w.Pool(o)))
    ensures var s := w.HeapOf(o); var r := SysMalloc(s.h, size, w.Pool(o), Some(p));
            r.Next? && WorldInv(w.(m := m').With(o, State(r.value.0, if r.value.1.Some? then s.live[r.value.1.value := size] else s.live)))
  {
    HeapOkOf(w, o);
    var s, pool := w.HeapOf(o), w.Pool(o);
    var n := NeedPages(s.h, size, pool);
    UnmappedIsFresh(s, w.m, o, p, n);
    MallocInv(s, size, pool, Some(p));
    var (h', x) := SysMalloc(s.h, size, pool, Some(p)).value;
    forall a, i | InArena(h', a, i) ensures MappedPage(m', o, i) {
      MallocArenas(s.h, size, pool, Some(p), a);
      if a in s.h.arenas && PagesIn(h'.arenas[a]) == PagesIn(s.h.arenas[a]) {
        assert InArena(s.h, a, i);
        GrowsKeepsPages(s.h, w.m, m', o, p, n, o);
      } else {
        assert P.FrameOf(m', UseOf(o, i)).Some?;
      }
    }
    forall q: Owner, h: Heap | q != o && OnPages(h, w.m, q) ensures OnPages(h, m', q) {
      GrowsKeepsPages(h, w.m, m', o, p, n, q);
    }
    WorldAfter(w, o, m', State(h', if x.Some? then s.live[x.value := size] else s.live));
  }

  /** sys_free of a live address stops nowhere, neither in the heap nor in mfree_page: the arena's pages are
      mapped when they go back, and every other arena keeps its own. */
  lemma FreeKeeps(w: World, o: Owner, x: Addr)
    requires WorldInv(w) && Legal(w, Free(o, x))
    ensures FreeStep(w, o, x).Next? && WorldInv(FreeStep(w, o, x).value)
  {
    HeapOkOf(w, o);
    var s, a := w.HeapOf(o), PageOf(x);
    FreeInv(s, x);
    LiveInArena(s, x);
    var h' := SysFree(s.h, x).value;
    if a in h'.arenas {
      forall b, p | InArena(h', b, p) ensures MappedPage(w.m, o, p) {
        FreeArenas(s.h, x, b);
        assert InArena(s.h, b, p);
      }
      WorldAfter(w, o, w.m, State(h', Freed(s, x)));
    } else {
      ArenaGoes(w, o, x, h');
    }
  }

  lemma LiveInArena(s: State, x: Addr)
    requires Inv(s) && x in s.live
    ensures PageOf(x) in s.h.arenas && PagesIn(s.h.arenas[PageOf(x)]) > 0
  {
    assert Placed(s.h, x, s.live[x]);
    EndsInArena(s.h, x, s.live[x]);
    PagesPositive(s, PageOf(x), -1);
  }

  lemma ArenaGoes(w: World, o: Owner, x: Addr, h': Heap)
    requires WorldInv(w) && Legal(w, Free(o, x)) && SysFree(w.HeapOf(o).h, x) == Next(h') && PageOf(x) !in h'.arenas
    requires Inv(State(h', Freed(w.HeapOf(o), x)))
    ensures FreeStep(w, o, x).Next? && WorldInv(FreeStep(w, o, x).value)
  {
    HeapOkOf(w, o);
    var s, a := w.HeapOf(o), PageOf(x);
    LiveInArena(s, x);
    var n := PagesIn(s.h.arenas[a]);
    forall i | a <= i < a + n ensures MappedPage(w.m, o, i) {
      assert InArena(s.h, a, i);
    }
    assert MappedPage(w.m, o, a);
    MfreePageShrinks(w.m, o, a, n);
    var m' := MfreePage(w.m, o, a, n).value;
    forall b: nat, p: nat | InArena(h', b, p) ensures MappedPage(m', o, p) {
      FreeArenas(s.h, x, b);
      assert InArena(s.h, b, p) && MappedPage(w.m, o, p);
      assert a < b ==> a + n <= b;
      assert b < a ==> b + PagesIn(s.h.arenas[b]) <= a;
      assert P.FrameOf(m', UseOf(o, p)) == P.FrameOf(w.m, UseOf(o, p));
    }
    forall q: Owner, h: Heap | q != o && OnPages(h, w.m, q) ensures OnPages(h, m', q) {
      ShrinksKeepsOthers(h, w.m, m', o, a, n, q);
    }
    WorldAfter(w, o, m', State(h', Freed(s, x)));
  }

  lemma StepKeeps(w: World, c: Call)
    requires WorldInv(w) && Legal(w, c) && Step(w, c).Next?
    ensures WorldInv(Step(w, c).value)
  {
    match c
    case Malloc(o, size, start) => MallocKeeps(w, o, size, start);
    case Free(o, x) => FreeKeeps(w, o, x);
    case Switch(s) => SwitchKeeps(w, s);
  }

  lemma SwitchKeeps(w: World, s: P.Sid)
    requires WorldInv(w) && s in w.procs
    ensures WorldInv(w.(m := w.m.(active := s)))
  {
    var m' := w.m.(active := s);
    forall u: P.Use ensures P.FrameOf(m', u) == P.FrameOf(w.m, u) && P.BitOf(m', u) == P.BitOf(w.m, u) {
    }
    P.SameFramesInv(w.m, m');
    forall q: Owner, h: Heap | OnPages(h, w.m, q) ensures OnPages(h, m', q) {
      forall a, p | InArena(h, a, p) ensures MappedPage(m', q, p) {
        assert MappedPage(w.m, q, p);
      }
    }
    var w' := w.(m := m');
    assert HeapOk(w, None, w.kernel);
    forall r | r in w'.procs ensures r in w'.m.spaces && HeapOk(w', Some(r), w'.procs[r]) {
      assert w.procs[r] == w'.procs[r];
    }
  }

  // ---------------------------------------------------------------- runs

  /** Processes with empty heaps, on any state of the pages that PageRuns reaches. */
  ghost predicate Start(w: World) {
    && P.Inv(w.m, {}) && w.kernel == Empty()
    && forall s :: s in w.procs ==> s in w.m.spaces && w.procs[s] == Empty()
  }

  ghost predicate RunStep(w: World, c: Call, w': World) {
    Legal(w, c) && Step(w, c) == Next(w')
  }

  ghost predicate IsRun(worlds: seq<World>, calls: seq<Call>) {
    && |worlds| == |calls| + 1 && Start(worlds[0])
    && forall i :: 0 <= i < |calls| ==> RunStep(worlds[i], calls[i], worlds[i + 1])
  }

  lemma StartInv(w: World)
    requires Start(w)
    ensures WorldInv(w)
  {
    EmptyInv();
    forall s | s in w.procs ensures s in w.m.spaces && HeapOk(w, Some(s), w.procs[s]) {
    }
  }

  /** In every state of every run the pages, every heap, and the pages of every heap are in order; so no
      sys_free that comes next can stop the machine. */
  lemma {:induction false} RunsKeepWorld(worlds: seq<World>, calls: seq<Call>, i: nat)
    requires IsRun(worlds, calls) && i < |worlds|
    ensures WorldInv(worlds[i])
    ensures forall o, x :: Legal(worlds[i], Free(o, x)) ==> FreeStep(worlds[i], o, x).Next?
  {
    if i == 0 {
      StartInv(worlds[0]);
    } else {
      RunsKeepWorld(worlds, calls, i - 1);
      assert RunStep(worlds[i - 1], calls[i - 1], worlds[i]);
      StepKeeps(worlds[i - 1], calls[i - 1]);
    }
    forall o, x | Legal(worlds[i], Free(o, x)) ensures FreeStep(worlds[i], o, x).Next? {
      FreeKeeps(worlds[i], o, x);
    }
  }
}
