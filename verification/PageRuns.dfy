/** Runs of page allocations, frees, new processes and forks from mem_init on. */
module PageRuns {
  import opened Outcomes
  import opened PageAlloc
  import opened Fork

  /** `start` and `starts` are what bitmap_scan answered. */
  datatype Call =
    | KernelPages(start: nat, n: nat)
    | UserPages(start: nat, n: nat)
    | OnePage(vp: nat)
    | FreeKernel(k: nat, n: nat)
    | FreeUser(vp: nat, n: nat)
    | Execute(child: Sid, starts: seq<nat>)
    | ForkCall(child: Sid, starts: seq<nat>)
    | Switch(s: Sid)
    | Write(vp: nat, data: nat)

  /** A bitmap after bitmap_init. */
  function ClearBits(n: nat): (r: seq<bool>)
    ensures |r| == n && forall i :: 0 <= i < n ==> !r[i]
  {
    seq(n, i => false)
  }

  /** process_execute: the PCB, the virtual bitmap and the page directory of a new process. */
  function ExecuteSpace(m: Mem, child: Sid, starts: seq<nat>, pages: nat): Outcome<Mem>
    requires |starts| == 3
  {
    var m1 :- GetKernelPages(m, starts[0], 1);
    var m2 :- GetKernelPages(m1, starts[1], BITMAP_PAGES);
    var m3 :- GetKernelPages(m2, starts[2], 1);
    Next(NewSpace(m3, child, ClearBits(pages)))
  }

  /** The user area between USER_VADDR_START and 0xc0000000. */
  const USER_PAGES := KERNEL_START - USER_START

  function Step(m: Mem, c: Call): Outcome<Mem>
    requires Legal(m, c)
  {
    match c
    case KernelPages(start, n) => GetKernelPages(m, start, n)
    case UserPages(start, n) => MallocUserPages(m, start, n)
    case OnePage(vp) => GetAPage(m, vp)
    case FreeKernel(k, n) => FreeKernelPages(m, k, n)
    case FreeUser(vp, n) => FreeUserPages(m, vp, n)
    case Execute(child, starts) => ExecuteSpace(m, child, starts, USER_PAGES)
    case ForkCall(child, starts) => ForkSpace(m, child, starts)
    case Switch(s) => Next(m.(active := s))
    case Write(vp, data) =>
      if m.Pte(m.active, vp).None? then Halted
      else Next(m.(content := m.content[m.Pte(m.active, vp).value := data]))
  }

  /** Scans answer inside their bitmap, process numbers are new, and what a caller frees, mapped or not, has
      no frame in its entries that is by now somebody else's. */
  ghost predicate Legal(m: Mem, c: Call) {
    match c
    case KernelPages(start, n) => start + n <= |m.kbits|
    case UserPages(start, n) => m.active in m.spaces && start + n <= |m.spaces[m.active].bits|
    case OnePage(vp) => m.active in m.spaces && USER_START <= vp < USER_START + |m.spaces[m.active].bits|
    case FreeKernel(k, n) => k + n <= |m.kbits| && NobodyElseHas(m, KernelRange(k, n), KernelHeldFrames(m, k, n))
    case FreeUser(vp, n) =>
      && m.active in m.spaces && USER_START <= vp && vp + n <= USER_START + |m.spaces[m.active].bits|
      && NobodyElseHas(m, UserRange(m.active, vp, n), HeldFrames(m, vp, n))
    case Execute(child, starts) =>
      child !in m.spaces && |starts| == 3
      && starts[0] < |m.kbits| && starts[1] + BITMAP_PAGES <= |m.kbits| && starts[2] < |m.kbits|
    case ForkCall(child, starts) => m.active in m.spaces && child !in m.spaces && StartsOk(m, starts)
    case Switch(s) => true
    case Write(vp, data) => m.active in m.spaces
  }

  /** mem_pool_init: nothing allocated; frames may hold anything. */
  ghost predicate Booted(m: Mem) {
    && m.kmap == map[] && m.spaces == map[] && |m.kpool| <= m.ustart
    && (forall i :: 0 <= i < |m.kbits| ==> !m.kbits[i])
    && (forall i :: 0 <= i < |m.kpool| ==> !m.kpool[i])
    && (forall i :: 0 <= i < |m.upool| ==> !m.upool[i])
  }

  lemma BootedInv(m: Mem)
    requires Booted(m)
    ensures Inv(m, {})
  {
    forall u: Use ensures FrameOf(m, u).None? && !BitOf(m, u) {
    }
    forall f: Frame ensures !m.Taken(f) {
    }
  }

  lemma NoSetPages(s: Sid, bits: seq<bool>)
    requires forall i :: 0 <= i < |bits| ==> !bits[i]
    ensures SetPages(s, bits, 0) == {}
  {
    forall w ensures w !in SetPages(s, bits, 0) {
      SetPagesMember(s, bits, 0, w);
    }
  }

  lemma ExecuteInv(m: Mem, child: Sid, starts: seq<nat>, pages: nat)
    requires Inv(m, {}) && child !in m.spaces && |starts| == 3
    requires starts[0] < |m.kbits| && starts[1] + BITMAP_PAGES <= |m.kbits| && starts[2] < |m.kbits|
    requires ExecuteSpace(m, child, starts, pages).Next?
    ensures Inv(ExecuteSpace(m, child, starts, pages).value, {})
  {
    OneAside(m, starts[0], 1);
    var m1 := GetKernelPages(m, starts[0], 1).value;
    OneAside(m1, starts[1], BITMAP_PAGES);
    var m2 := GetKernelPages(m1, starts[1], BITMAP_PAGES).value;
    OneAside(m2, starts[2], 1);
    var m3 := GetKernelPages(m2, starts[2], 1).value;
    NewSpaceInv(m3, child, ClearBits(pages));
    NoSetPages(child, ClearBits(pages));
  }

  lemma StepInv(m: Mem, c: Call)
    requires Inv(m, {}) && Legal(m, c) && Step(m, c).Next?
    ensures Inv(Step(m, c).value, {})
  {
    match c
    case KernelPages(start, n) => GetKernelPagesInv(m, start, n);
    case UserPages(start, n) => MallocUserPagesInv(m, start, n);
    case OnePage(vp) => GetAPageInv(m, vp);
    case FreeKernel(k, n) => FreeKernelPagesKeepsIff(m, k, n);
    case FreeUser(vp, n) => FreeUserPagesKeepsIff(m, vp, n);
    case Execute(child, starts) => ExecuteInv(m, child, starts, USER_PAGES);
    case ForkCall(child, starts) => ForkClones(m, child, starts);
    case Switch(s) => RedirectInv(m, Step(m, c).value, {});
    case Write(vp, data) => RedirectInv(m, Step(m, c).value, {});
  }

  ghost predicate IsRun(states: seq<Mem>, calls: seq<Call>) {
    && |states| == |calls| + 1 && Booted(states[0])
    && (forall i :: 0 <= i < |calls| ==> RunStep(states[i], calls[i], states[i + 1]))
  }

  ghost predicate RunStep(m: Mem, c: Call, m': Mem) {
    Legal(m, c) && Step(m, c) == Next(m')
  }

  /** In every state of every run the bitmaps, the page tables and the pools agree. */
  lemma {:induction false} RunsKeepInv(states: seq<Mem>, calls: seq<Call>, i: nat)
    requires IsRun(states, calls) && i < |states|
    ensures Inv(states[i], {})
  {
    hide Inv, Booted, Legal, Step;
    if i == 0 {
      BootedInv(states[0]);
    } else {
      RunsKeepInv(states, calls, i - 1);
      assert RunStep(states[i - 1], calls[i - 1], states[i]);
      StepInv(states[i - 1], calls[i - 1]);
    }
  }

  /** What the invariant says page by page and frame by frame: in every space a virtual bit is set iff its
      page-table entry is present; no frame is mapped twice, in one space or in two; and a frame's pool bit
      is set iff it is exactly one of one user page, one kernel page and one page table. */
  lemma InvMeans(m: Mem)
    requires Inv(m, {})
    ensures forall s, i :: s in m.spaces && 0 <= i < |m.spaces[s].bits| ==>
              (m.spaces[s].bits[i] <==> m.Pte(s, USER_START + i).Some?)
    ensures forall k :: 0 <= k < |m.kbits| ==> (m.kbits[k] <==> k in m.kmap)
    ensures forall s, vp, r, vq :: m.Pte(s, vp).Some? && m.Pte(s, vp) == m.Pte(r, vq) ==> s == r && vp == vq
    ensures forall f :: m.Taken(f) <==> exists u :: OnlyUse(m, u, f)
  {
    forall s, i | s in m.spaces && 0 <= i < |m.spaces[s].bits|
      ensures m.spaces[s].bits[i] <==> m.Pte(s, USER_START + i).Some?
    {
      var u := UPage(s, USER_START + i);
      assert BitOf(m, u) <==> FrameOf(m, u).Some? || u in {};
    }
    forall k | 0 <= k < |m.kbits| ensures m.kbits[k] <==> k in m.kmap {
      assert BitOf(m, KPage(k)) <==> FrameOf(m, KPage(k)).Some? || KPage(k) in {};
    }
    forall s: Sid, vp: nat, r: Sid, vq: nat | m.Pte(s, vp).Some? && m.Pte(s, vp) == m.Pte(r, vq)
      ensures s == r && vp == vq
    {
      assert FrameOf(m, UPage(s, vp)) == FrameOf(m, UPage(r, vq));
    }
    forall f: Frame ensures m.Taken(f) <==> exists u :: OnlyUse(m, u, f) {
      if m.Taken(f) {
        assert Owned(m, f);
        var u :| FrameOf(m, u) == Some(f);
        assert OnlyUse(m, u, f);
      }
    }
  }

  ghost predicate OnlyUse(m: Mem, u: Use, f: Frame) {
    FrameOf(m, u) == Some(f) && forall w :: FrameOf(m, w) == Some(f) ==> w == u
  }

  // ---------------------------------------------------------------- what one call undoes

  /** Freeing a range just allocated restores every page, every virtual bit and every frame but those of
      new page tables. */
  lemma FreeUndoesMalloc(m: Mem, start: nat, n: nat)
    requires Inv(m, {}) && m.active in m.spaces && n >= 1 && start + n <= |m.spaces[m.active].bits|
    requires MallocUserPages(m, start, n).Next?
    ensures var m1 := MallocUserPages(m, start, n).value;
            && m1.active in m1.spaces && FreeUserPages(m1, USER_START + start, n).Next?
            && var m2 := FreeUserPages(m1, USER_START + start, n).value;
            && (forall u: Use {:trigger FrameOf(m2, u)} :: !u.Table? ==> FrameOf(m2, u) == FrameOf(m, u))
            && (forall u: Use {:trigger BitOf(m2, u)} :: BitOf(m2, u) == BitOf(m, u))
            && (forall f {:trigger m2.Taken(f)} :: m2.Taken(f) <==> m.Taken(f) || NewTable(m, m2, f))
  {
    MallocUserPagesInv(m, start, n);
    var m1 := MallocUserPages(m, start, n).value;
    var us := UserRange(m.active, USER_START + start, n);
    forall i | USER_START + start <= i < USER_START + start + n ensures m1.Pte(m.active, i).Some? {
      UserRangeMember(m.active, USER_START + start, n, UPage(m.active, i));
      assert FrameOf(m1, UPage(m.active, i)).Some?;
    }
    FreeUserPagesInv(m1, USER_START + start, n);
    Restored(m, m1, FreeUserPages(m1, USER_START + start, n).value, us, HeldFrames(m1, USER_START + start, n));
  }

  ghost predicate NewTable(m: Mem, m2: Mem, f: Frame) {
    exists u: Use :: u.Table? && FrameOf(m, u).None? && FrameOf(m2, u) == Some(f)
  }

  lemma Restored(m: Mem, m1: Mem, m2: Mem, us: set<Use>, fs: set<Frame>)
    requires Inv(m, {}) && Inv(m2, {}) && MappedAll(m, m1, us) && Freed(m1, m2, us, fs)
    ensures forall u: Use {:trigger FrameOf(m2, u)} :: !u.Table? ==> FrameOf(m2, u) == FrameOf(m, u)
    ensures forall u: Use {:trigger BitOf(m2, u)} :: BitOf(m2, u) == BitOf(m, u)
    ensures forall f {:trigger m2.Taken(f)} :: m2.Taken(f) <==> m.Taken(f) || NewTable(m, m2, f)
  {
    forall u: Use ensures !u.Table? ==> FrameOf(m2, u) == FrameOf(m, u) {
      assert u in us ==> FrameOf(m1, u).Some? && FrameOf(m, u).None?;
      assert u !in us && !u.Table? ==> FrameOf(m1, u) == FrameOf(m, u);
    }
    forall u: Use ensures BitOf(m2, u) == BitOf(m, u) {
      assert !u.Table? ==> (BitOf(m2, u) <==> FrameOf(m2, u).Some? || u in {});
      assert !u.Table? ==> (BitOf(m, u) <==> FrameOf(m, u).Some? || u in {});
    }
    forall f: Frame ensures m2.Taken(f) <==> m.Taken(f) || NewTable(m, m2, f) {
      RestoredFrame(m, m1, m2, us, fs, f);
    }
  }

  lemma RestoredFrame(m: Mem, m1: Mem, m2: Mem, us: set<Use>, fs: set<Frame>, f: Frame)
    requires Inv(m, {}) && Inv(m2, {}) && MappedAll(m, m1, us) && Freed(m1, m2, us, fs)
    requires forall u: Use {:trigger FrameOf(m2, u)} :: !u.Table? ==> FrameOf(m2, u) == FrameOf(m, u)
    ensures m2.Taken(f) <==> m.Taken(f) || NewTable(m, m2, f)
  {
    if m.Taken(f) {
      assert Owned(m, f);
      var u :| FrameOf(m, u) == Some(f);
      assert FrameOf(m1, u) == FrameOf(m, u);
      assert u in us ==> FrameOf(m1, u).Some? && FrameOf(m, u).None?;
      assert FrameOf(m2, u) == Some(f);
    }
    if m2.Taken(f) {
      assert Owned(m2, f);
      var u :| FrameOf(m2, u) == Some(f);
      if u.Table? && FrameOf(m, u).Some? {
        assert FrameOf(m1, u) == FrameOf(m, u);
        assert FrameOf(m2, u) == if u in us then None else FrameOf(m1, u);
      }
    }
  }
}
