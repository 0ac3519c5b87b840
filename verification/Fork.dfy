/** Address spaces: create_page_dir and create_user_vaddr_bitmap (userprog/process.c) and the copying
    part of fork (userprog/fork.c). */
module Fork {
  import opened Outcomes
  import opened PageAlloc

  /** Pages of a process's virtual bitmap, 94199 bytes. */
  const BITMAP_PAGES := 23

  /** A new page directory holds the kernel's entries and its own address only. */
  function NewSpace(m: Mem, s: Sid, bits: seq<bool>): Mem {
    m.(spaces := m.spaces[s := Space(bits, map[])])
  }

  /** One page: into the kernel buffer, to the child's page tables, into a fresh page, and back. */
  function CopyOne(m: Mem, child: Sid, buf: nat, vp: nat): Outcome<Mem>
    requires m.active in m.spaces && child in m.spaces
  {
    if m.Pte(m.active, vp).None? || buf !in m.kmap then Halted
    else
      var b := m.kmap[buf];
      var m1 := m.(content := m.content[b := m.ContentOf(m.Pte(m.active, vp).value)], active := child);
      var m2 :- MapOneUser(m1, vp);
      if m2.Pte(child, vp).None? then Halted
      else Next(m2.(content := m2.content[m2.Pte(child, vp).value := m2.ContentOf(b)], active := m.active))
  }

  /** copy_body_stack3 from bit i of the parent's bitmap on. */
  function CopyPages(m: Mem, child: Sid, buf: nat, bits: seq<bool>, i: nat): Outcome<Mem>
    requires m.active in m.spaces && child in m.spaces
    decreases |bits| - i
  {
    if i >= |bits| then Next(m)
    else if !bits[i] then CopyPages(m, child, buf, bits, i + 1)
    else
      var m1 :- CopyOne(m, child, buf, USER_START + i);
      if m1.active !in m1.spaces || child !in m1.spaces then Halted
      else CopyPages(m1, child, buf, bits, i + 1)
  }

  /** sys_fork up to the copied address space; `starts` are the answers of bitmap_scan for the child's
      PCB, the buffer, the child's bitmap and its page directory. */
  function ForkSpace(m: Mem, child: Sid, starts: seq<nat>): Outcome<Mem>
    requires m.active in m.spaces && |starts| == 4
  {
    var m1 :- GetKernelPages(m, starts[0], 1);
    var m2 :- GetKernelPages(m1, starts[1], 1);
    var m3 :- GetKernelPages(m2, starts[2], BITMAP_PAGES);
    var m4 :- GetKernelPages(m3, starts[3], 1);
    if m4.active !in m4.spaces then Halted
    else
      var bits := m4.spaces[m4.active].bits;
      var m5 := NewSpace(m4, child, bits);
      var m6 :- CopyPages(m5, child, starts[1], bits, 0);
      FreeKernelPages(m6, starts[1], 1)
  }

  // ---------------------------------------------------------------- a new space

  ghost function SetPages(s: Sid, bits: seq<bool>, i: nat): set<Use> {
    set vp | USER_START + i <= vp < USER_START + |bits| && bits[vp - USER_START] :: UPage(s, vp)
  }

  lemma SetPagesMember(s: Sid, bits: seq<bool>, i: nat, w: Use)
    ensures w in SetPages(s, bits, i) <==>
              w.UPage? && w.s == s && USER_START + i <= w.vp < USER_START + |bits| && bits[w.vp - USER_START]
  {
    if w.UPage? && w.s == s && USER_START + i <= w.vp < USER_START + |bits| && bits[w.vp - USER_START] {
      assert w == UPage(s, w.vp);
    }
  }

  lemma NewSpaceInv(m: Mem, s: Sid, bits: seq<bool>)
    requires Inv(m, {}) && s !in m.spaces
    ensures Inv(NewSpace(m, s, bits), SetPages(s, bits, 0)) && SameFrames(m, NewSpace(m, s, bits))
  {
    var m' := NewSpace(m, s, bits);
    forall w: Use ensures FrameOf(m', w) == FrameOf(m, w) {
    }
    SameFramesInv(m, m');
    forall w: Use | !w.Table? ensures BitOf(m', w) <==> FrameOf(m', w).Some? || w in SetPages(s, bits, 0) {
      SetPagesMember(s, bits, 0, w);
      assert BitOf(m, w) <==> FrameOf(m, w).Some? || w in {};
    }
    forall w: Use | w in SetPages(s, bits, 0) ensures !w.Table? {
      SetPagesMember(s, bits, 0, w);
    }
  }

  // ---------------------------------------------------------------- copying one page

  /** u gained a fresh frame with the given content; page tables may have been added; of all frames that
      were in use only the buffer b has other content. */
  ghost predicate Copied(m: Mem, m': Mem, u: Use, b: Frame, data: nat) {
    && FrameOf(m', u).Some? && !m.Taken(FrameOf(m', u).value) && m'.ContentOf(FrameOf(m', u).value) == data
    && Kept(m, m', {u}, b)
  }

  /** Everything in use stays in use for the same purpose and, `b` apart, with the same content. */
  ghost predicate Kept(m: Mem, m': Mem, us: set<Use>, b: Frame) {
    && (forall w: Use {:trigger FrameOf(m', w)} :: w !in us && !w.Table? ==> FrameOf(m', w) == FrameOf(m, w))
    && (forall w: Use {:trigger FrameOf(m', w)} :: FrameOf(m, w).Some? ==> FrameOf(m', w) == FrameOf(m, w))
    && (forall g {:trigger m'.Taken(g)} :: m.Taken(g) ==> m'.Taken(g))
    && (forall g {:trigger m'.ContentOf(g)} :: m.Taken(g) && g != b ==> m'.ContentOf(g) == m.ContentOf(g))
    && m'.active == m.active && m'.spaces.Keys == m.spaces.Keys
    && (forall s :: s in m.spaces ==> m'.spaces[s].bits == m.spaces[s].bits)
  }

  lemma RedirectInv(m: Mem, m': Mem, pending: set<Use>)
    requires Inv(m, pending) && m' == m.(content := m'.content, active := m'.active)
    ensures Inv(m', pending)
    ensures forall w {:trigger FrameOf(m', w)} :: FrameOf(m', w) == FrameOf(m, w)
    ensures forall g {:trigger m'.Taken(g)} :: m'.Taken(g) == m.Taken(g)
  {
    forall w: Use ensures BitOf(m', w) == BitOf(m, w) && FrameOf(m', w) == FrameOf(m, w) {
    }
    SameFramesInv(m, m');
  }

  lemma CopyOneInv(m: Mem, child: Sid, buf: nat, vp: nat, pending: set<Use>)
    requires Inv(m, pending) && m.active in m.spaces && child in m.spaces
    requires UPage(child, vp) in pending && CopyOne(m, child, buf, vp).Next?
    ensures buf in m.kmap && m.Pte(m.active, vp).Some?
    ensures var m' := CopyOne(m, child, buf, vp).value;
            && Inv(m', pending - {UPage(child, vp)})
            && Copied(m, m', UPage(child, vp), m.kmap[buf], m.ContentOf(m.Pte(m.active, vp).value))
  {
    var u, b, f := UPage(child, vp), m.kmap[buf], m.Pte(m.active, vp).value;
    var m1 := m.(content := m.content[b := m.ContentOf(f)], active := child);
    RedirectInv(m, m1, pending);
    MapOneUserInv(m1, vp, pending);
    var m2 := MapOneUser(m1, vp).value;
    var m' := CopyOne(m, child, buf, vp).value;
    RedirectInv(m2, m', pending - {u});
    assert FrameOf(m, KPage(buf)) == Some(b);
    assert m.Taken(b);
    assert FrameOf(m2, u) == m2.Pte(child, vp);
    assert FrameOf(m', u) == FrameOf(m2, u);
    CopyKeeps(m, m1, m2, m', u, b);
  }

  lemma CopyKeeps(m: Mem, m1: Mem, m2: Mem, m': Mem, u: Use, b: Frame)
    requires (forall w {:trigger FrameOf(m1, w)} :: FrameOf(m1, w) == FrameOf(m, w))
    requires (forall g {:trigger m1.Taken(g)} :: m1.Taken(g) == m.Taken(g))
    requires Mapped(m1, m2, u) && m1.spaces == m.spaces
    requires (forall w {:trigger FrameOf(m', w)} :: FrameOf(m', w) == FrameOf(m2, w))
    requires (forall g {:trigger m'.Taken(g)} :: m'.Taken(g) == m2.Taken(g))
    requires forall g: Frame :: g != b ==> m1.ContentOf(g) == m.ContentOf(g)
    requires forall g: Frame :: Some(g) != FrameOf(m2, u) ==> m'.ContentOf(g) == m2.ContentOf(g)
    requires m'.active == m.active && m'.spaces == m2.spaces
    ensures Kept(m, m', {u}, b)
  {
    forall w: Use ensures w !in {u} && !w.Table? ==> FrameOf(m', w) == FrameOf(m, w) {
      assert FrameOf(m1, w) == FrameOf(m, w) && FrameOf(m', w) == FrameOf(m2, w);
    }
    forall w: Use ensures FrameOf(m, w).Some? ==> FrameOf(m', w) == FrameOf(m, w) {
      assert FrameOf(m1, w) == FrameOf(m, w) && FrameOf(m', w) == FrameOf(m2, w);
    }
    forall g: Frame | m.Taken(g) ensures m'.Taken(g) && (g != b ==> m'.ContentOf(g) == m.ContentOf(g)) {
      assert m1.Taken(g) && m2.Taken(g);
      assert m1.ContentOf(g) == m2.ContentOf(g);
    }
  }

  // ---------------------------------------------------------------- copying all pages

  ghost predicate CopiedAll(m: Mem, m': Mem, child: Sid, b: Frame, bits: seq<bool>, i: nat) {
    && (forall j {:trigger bits[j]} :: i <= j < |bits| && bits[j] ==> PageCopied(m, m', child, USER_START + j))
    && Kept(m, m', SetPages(child, bits, i), b)
  }

  /** Page vp of the child is in a fresh frame with what the parent's page holds. */
  ghost predicate PageCopied(m: Mem, m': Mem, child: Sid, vp: nat) {
    && m.Pte(m.active, vp).Some? && FrameOf(m', UPage(child, vp)).Some?
    && var g := FrameOf(m', UPage(child, vp)).value;
    && !m.Taken(g) && m'.ContentOf(g) == m.ContentOf(m.Pte(m.active, vp).value)
  }

  lemma KeptTwice(m: Mem, m1: Mem, m2: Mem, us: set<Use>, vs: set<Use>, b: Frame)
    requires Kept(m, m1, us, b) && Kept(m1, m2, vs, b)
    ensures Kept(m, m2, us + vs, b)
  {
    forall w: Use ensures w !in us + vs && !w.Table? ==> FrameOf(m2, w) == FrameOf(m, w) {
      assert w !in us && !w.Table? ==> FrameOf(m1, w) == FrameOf(m, w);
    }
    forall w: Use ensures FrameOf(m, w).Some? ==> FrameOf(m2, w) == FrameOf(m, w) {
      assert FrameOf(m, w).Some? ==> FrameOf(m1, w) == FrameOf(m, w);
    }
    forall g: Frame | m.Taken(g) ensures m2.Taken(g) && (g != b ==> m2.ContentOf(g) == m.ContentOf(g)) {
      assert m1.Taken(g);
      assert g != b ==> m1.ContentOf(g) == m.ContentOf(g);
    }
  }

  lemma SetPagesStep(child: Sid, bits: seq<bool>, i: nat)
    requires i < |bits|
    ensures SetPages(child, bits, i)
            == SetPages(child, bits, i + 1) + (if bits[i] then {UPage(child, USER_START + i)} else {})
    ensures UPage(child, USER_START + i) !in SetPages(child, bits, i + 1)
  {
    forall w ensures w in SetPages(child, bits, i) <==>
        w in SetPages(child, bits, i + 1) + (if bits[i] then {UPage(child, USER_START + i)} else {}) {
      SetPagesMember(child, bits, i, w);
      SetPagesMember(child, bits, i + 1, w);
    }
    SetPagesMember(child, bits, i + 1, UPage(child, USER_START + i));
  }

  lemma EarlyCopied(m: Mem, m1: Mem, m2: Mem, child: Sid, vp: nat, vs: set<Use>, b: Frame)
    requires Frames(m1) && PageCopied(m, m1, child, vp) && m.Taken(b) && Kept(m1, m2, vs, b)
    ensures PageCopied(m, m2, child, vp)
  {
    var u := UPage(child, vp);
    assert FrameOf(m2, u) == FrameOf(m1, u);
    assert m1.Taken(FrameOf(m1, u).value);
  }

  lemma LateCopied(m: Mem, m1: Mem, m2: Mem, child: Sid, vp: nat, us: set<Use>, buf: nat, b: Frame)
    requires Frames(m) && Kept(m, m1, us, b) && PageCopied(m1, m2, child, vp)
    requires UPage(m.active, vp) !in us && FrameOf(m, KPage(buf)) == Some(b)
    ensures PageCopied(m, m2, child, vp)
  {
    var p := UPage(m.active, vp);
    assert FrameOf(m1, p) == m1.Pte(m1.active, vp);
    assert FrameOf(m1, p) == FrameOf(m, p);
    assert FrameOf(m, p) == m.Pte(m.active, vp);
    assert m.Taken(FrameOf(m, p).value) && FrameOf(m, p) != Some(b);
    var g := FrameOf(m2, UPage(child, vp)).value;
    assert m.Taken(g) ==> m1.Taken(g);
  }

  /** The loops of copy_body_stack3 copy exactly the pages whose bits are set, each into a frame of its
      own that was free, and leave everything else as it was, the active page directory included. */
  lemma {:induction false} CopyPagesInv(m: Mem, child: Sid, buf: nat, bits: seq<bool>, i: nat)
    requires Inv(m, SetPages(child, bits, i)) && m.active in m.spaces && child in m.spaces && child != m.active
    requires i <= |bits| && buf in m.kmap && CopyPages(m, child, buf, bits, i).Next?
    ensures var m' := CopyPages(m, child, buf, bits, i).value;
            Inv(m', {}) && CopiedAll(m, m', child, m.kmap[buf], bits, i)
    decreases |bits| - i
  {
    var b := m.kmap[buf];
    if i == |bits| {
      forall w ensures w !in SetPages(child, bits, i) {
        SetPagesMember(child, bits, i, w);
      }
      assert SetPages(child, bits, i) == {};
    } else {
      SetPagesStep(child, bits, i);
      var us := SetPages(child, bits, i + 1);
      if !bits[i] {
        assert SetPages(child, bits, i) == us;
        CopyPagesInv(m, child, buf, bits, i + 1);
      } else {
        var u := UPage(child, USER_START + i);
        CopyOneInv(m, child, buf, USER_START + i, SetPages(child, bits, i));
        var m1 := CopyOne(m, child, buf, USER_START + i).value;
        assert SetPages(child, bits, i) - {u} == us;
        assert FrameOf(m, KPage(buf)) == Some(b);
        assert FrameOf(m1, KPage(buf)) == Some(b);
        CopyPagesInv(m1, child, buf, bits, i + 1);
        CopyStep(m, m1, CopyPages(m, child, buf, bits, i).value, child, buf, b, bits, i);
      }
    }
  }

  lemma CopiedOne(m: Mem, m1: Mem, child: Sid, vp: nat, b: Frame)
    requires m.Pte(m.active, vp).Some?
    requires Copied(m, m1, UPage(child, vp), b, m.ContentOf(m.Pte(m.active, vp).value))
    ensures PageCopied(m, m1, child, vp) && Kept(m, m1, {UPage(child, vp)}, b)
  {
  }

  lemma BufferTaken(m: Mem, buf: nat, b: Frame)
    requires Frames(m) && FrameOf(m, KPage(buf)) == Some(b)
    ensures m.Taken(b)
  {
  }

  lemma CopyStep(m: Mem, m1: Mem, m2: Mem, child: Sid, buf: nat, b: Frame, bits: seq<bool>, i: nat)
    requires i < |bits| && bits[i] && Frames(m) && Frames(m1) && child != m.active
    requires FrameOf(m, KPage(buf)) == Some(b)
    requires m.Pte(m.active, USER_START + i).Some?
    requires Copied(m, m1, UPage(child, USER_START + i), b, m.ContentOf(m.Pte(m.active, USER_START + i).value))
    requires CopiedAll(m1, m2, child, b, bits, i + 1)
    ensures CopiedAll(m, m2, child, b, bits, i)
  {
    hide Kept, PageCopied, Frames, FrameOf, Copied;
    var u := UPage(child, USER_START + i);
    CopiedOne(m, m1, child, USER_START + i, b);
    BufferTaken(m, buf, b);
    SetPagesStep(child, bits, i);
    assert {u} + SetPages(child, bits, i + 1) == SetPages(child, bits, i);
    KeptTwice(m, m1, m2, {u}, SetPages(child, bits, i + 1), b);
    forall j {:trigger bits[j]} | i <= j < |bits| && bits[j] ensures PageCopied(m, m2, child, USER_START + j) {
      if j == i {
        EarlyCopied(m, m1, m2, child, USER_START + i, SetPages(child, bits, i + 1), b);
      } else {
        LateCopied(m, m1, m2, child, USER_START + j, {u}, buf, b);
      }
    }
  }

  // ---------------------------------------------------------------- fork

  /** What fork leaves of the parent's world: every page of every process is where it was with what it
      held, and the same page directory is active. */
  ghost predicate Undisturbed(m: Mem, m': Mem) {
    && m'.active == m.active
    && (forall s, vp {:trigger m'.Pte(s, vp)} :: s in m.spaces ==>
          m'.Pte(s, vp) == m.Pte(s, vp)
          && (m.Pte(s, vp).Some? ==> m'.ContentOf(m.Pte(s, vp).value) == m.ContentOf(m.Pte(s, vp).value)))
  }

  /** The child maps exactly the parent's pages, each to a frame that was free, with equal content. */
  ghost predicate Cloned(m: Mem, m': Mem, child: Sid) {
    && child in m'.spaces && m.active in m.spaces && m'.spaces[child].bits == m.spaces[m.active].bits
    && (forall vp {:trigger m'.Pte(child, vp)} ::
          && (m'.Pte(child, vp).Some? <==> m.Pte(m.active, vp).Some?)
          && (m'.Pte(child, vp).Some? ==>
                && !m.Taken(m'.Pte(child, vp).value)
                && m'.ContentOf(m'.Pte(child, vp).value) == m.ContentOf(m.Pte(m.active, vp).value)))
  }

  /** One get_kernel_pages seen from the processes. */
  lemma KernelPagesAside(m: Mem, start: nat, n: nat)
    requires Inv(m, {}) && start + n <= |m.kbits| && GetKernelPages(m, start, n).Next?
    ensures var m' := GetKernelPages(m, start, n).value;
            && Inv(m', {}) && m'.spaces == m.spaces && m'.active == m.active && |m'.kbits| == |m.kbits|
            && (forall i :: start <= i < start + n ==> i in m'.kmap && !m.Taken(m'.kmap[i]))
            && (forall k :: k in m.kmap ==> k in m'.kmap && m'.kmap[k] == m.kmap[k])
            && (forall s, vp {:trigger m'.Pte(s, vp)} :: m'.Pte(s, vp) == m.Pte(s, vp))
            && (forall g {:trigger m'.Taken(g)} :: m.Taken(g) ==> m'.Taken(g) && m'.ContentOf(g) == m.ContentOf(g))
  {
    GetKernelPagesInv(m, start, n);
    KernelBitsLength(SetKernelBits(m, start, n, true), start, n);
    MappedAside(m, GetKernelPages(m, start, n).value, start, n);
  }

  lemma MappedAside(m: Mem, m': Mem, start: nat, n: nat)
    requires MappedAll(m, m'.(content := m.content), KernelRange(start, n))
    requires forall i :: start <= i < start + n ==> i in m'.kmap
    ensures forall i :: start <= i < start + n ==> !m.Taken(m'.kmap[i])
    ensures forall k :: k in m.kmap ==> k in m'.kmap && m'.kmap[k] == m.kmap[k]
    ensures forall s, vp {:trigger m'.Pte(s, vp)} :: m'.Pte(s, vp) == m.Pte(s, vp)
    ensures forall g {:trigger m'.Taken(g)} :: m.Taken(g) ==> m'.Taken(g)
  {
    var m2 := m'.(content := m.content);
    forall s, vp ensures m'.Pte(s, vp) == m.Pte(s, vp) {
      KernelRangeMember(start, n, UPage(s, vp));
      assert FrameOf(m2, UPage(s, vp)) == FrameOf(m, UPage(s, vp));
    }
    forall k | k in m.kmap ensures k in m'.kmap && m'.kmap[k] == m.kmap[k] {
      assert FrameOf(m, KPage(k)) == Some(m.kmap[k]);
      assert FrameOf(m2, KPage(k)) == FrameOf(m, KPage(k));
    }
    forall i | start <= i < start + n ensures !m.Taken(m'.kmap[i]) {
      KernelRangeMember(start, n, KPage(i));
      assert FrameOf(m2, KPage(i)) == Some(m'.kmap[i]);
    }
    forall g: Frame | m.Taken(g) ensures m'.Taken(g) {
      assert m2.Taken(g);
    }
  }

  lemma {:induction false} KernelBitsLength(m: Mem, k: nat, n: nat)
    requires MapKernelRange(m, k, n).Next?
    ensures MapKernelRange(m, k, n).value.kbits == m.kbits
    decreases n
  {
    if n > 0 {
      KernelBitsLength(MapOneKernel(m, k).value, k + 1, n - 1);
    }
  }

  /** Kernel pages may have been added; nothing that was in use has changed. */
  ghost predicate Aside(m: Mem, m': Mem) {
    && Inv(m', {}) && m'.spaces == m.spaces && m'.active == m.active && |m'.kbits| == |m.kbits|
    && (forall k {:trigger FrameOf(m', KPage(k))} :: FrameOf(m, KPage(k)).Some? ==> FrameOf(m', KPage(k)) == FrameOf(m, KPage(k)))
    && (forall s, vp {:trigger m'.Pte(s, vp)} :: m'.Pte(s, vp) == m.Pte(s, vp))
    && (forall g {:trigger m'.Taken(g)} :: m.Taken(g) ==> m'.Taken(g) && m'.ContentOf(g) == m.ContentOf(g))
  }

  lemma OneAside(m: Mem, start: nat, n: nat)
    requires Inv(m, {}) && start + n <= |m.kbits| && GetKernelPages(m, start, n).Next?
    ensures Aside(m, GetKernelPages(m, start, n).value)
    ensures n > 0 ==> var m' := GetKernelPages(m, start, n).value; start in m'.kmap && !m.Taken(m'.kmap[start])
  {
    KernelPagesAside(m, start, n);
  }

  lemma AsideTwice(m: Mem, m1: Mem, m2: Mem)
    requires Aside(m, m1) && Aside(m1, m2)
    ensures Aside(m, m2)
  {
    forall k | FrameOf(m, KPage(k)).Some? ensures FrameOf(m2, KPage(k)) == FrameOf(m, KPage(k)) {
      assert FrameOf(m1, KPage(k)) == FrameOf(m, KPage(k));
    }
    forall s, vp ensures m2.Pte(s, vp) == m.Pte(s, vp) {
      assert m1.Pte(s, vp) == m.Pte(s, vp);
    }
    forall g: Frame | m.Taken(g) ensures m2.Taken(g) && m2.ContentOf(g) == m.ContentOf(g) {
      assert m1.Taken(g);
    }
  }

  /** The scans answered inside the kernel bitmap. */
  predicate StartsOk(m: Mem, starts: seq<nat>) {
    && |starts| == 4
    && starts[0] < |m.kbits| && starts[1] < |m.kbits| && starts[2] + BITMAP_PAGES <= |m.kbits| && starts[3] < |m.kbits|
  }

  /** The four allocations before the copying. */
  lemma ForkAllocates(m: Mem, starts: seq<nat>, child: Sid) returns (m4: Mem)
    requires Inv(m, {}) && m.active in m.spaces && StartsOk(m, starts) && ForkSpace(m, child, starts).Next?
    ensures Aside(m, m4) && starts[1] in m4.kmap && !m.Taken(m4.kmap[starts[1]])
    ensures var bits := m.spaces[m.active].bits; var m5 := NewSpace(m4, child, bits);
            var m6 := CopyPages(m5, child, starts[1], bits, 0);
            m6.Next? && ForkSpace(m, child, starts) == FreeKernelPages(m6.value, starts[1], 1)
  {
    var m1 := GetKernelPages(m, starts[0], 1).value;
    OneAside(m, starts[0], 1);
    var m2 := GetKernelPages(m1, starts[1], 1).value;
    OneAside(m1, starts[1], 1);
    var m3 := GetKernelPages(m2, starts[2], BITMAP_PAGES).value;
    OneAside(m2, starts[2], BITMAP_PAGES);
    m4 := GetKernelPages(m3, starts[3], 1).value;
    OneAside(m3, starts[3], 1);
    AsideTwice(m2, m3, m4);
    assert FrameOf(m2, KPage(starts[1])) == Some(m2.kmap[starts[1]]);
    assert FrameOf(m4, KPage(starts[1])) == FrameOf(m2, KPage(starts[1]));
    assert forall g: Frame :: m.Taken(g) ==> m1.Taken(g);
    AsideTwice(m1, m2, m4);
    AsideTwice(m, m1, m4);
  }

  /** Fork keeps the memory invariant, clones the address space and disturbs nobody. */
  lemma ForkClones(m: Mem, child: Sid, starts: seq<nat>)
    requires Inv(m, {}) && m.active in m.spaces && child !in m.spaces && StartsOk(m, starts)
    requires ForkSpace(m, child, starts).Next?
    ensures var m' := ForkSpace(m, child, starts).value;
            Inv(m', {}) && Cloned(m, m', child) && Undisturbed(m, m')
  {
    var m4 := ForkAllocates(m, starts, child);
    var bits, buf := m.spaces[m.active].bits, starts[1];
    var m5 := NewSpace(m4, child, bits);
    var m6, m' := ForkMiddle(m4, m5, child, bits, buf);
    ForkLeaves(m, m4, m5, m6, m', child, bits, buf);
    ForkCopies(m, m4, m5, m6, m', child, bits, buf);
  }

  /** From the new page directory to the freed buffer. */
  lemma ForkMiddle(m4: Mem, m5: Mem, child: Sid, bits: seq<bool>, buf: nat) returns (m6: Mem, m': Mem)
    requires Inv(m4, {}) && m4.active in m4.spaces && child !in m4.spaces && buf in m4.kmap
    requires m5 == NewSpace(m4, child, bits) && CopyPages(m5, child, buf, bits, 0).Next?
    ensures m6 == CopyPages(m5, child, buf, bits, 0).value
    ensures FreeKernelPages(m6, buf, 1) == Next(m') && Inv(m', {})
    ensures CopiedAll(m5, m6, child, m4.kmap[buf], bits, 0)
    ensures Freed(m6, m', KernelRange(buf, 1), KernelHeldFrames(m6, buf, 1)) && m'.spaces == m6.spaces
  {
    NewSpaceInv(m4, child, bits);
    CopyPagesInv(m5, child, buf, bits, 0);
    m6 := CopyPages(m5, child, buf, bits, 0).value;
    assert FrameOf(m5, KPage(buf)) == Some(m4.kmap[buf]);
    assert FrameOf(m6, KPage(buf)) == Some(m4.kmap[buf]);
    FreeKernelPagesInv(m6, buf, 1);
    m' := FreeKernelPages(m6, buf, 1).value;
  }

  lemma FreedPages(m6: Mem, m': Mem, buf: nat, s: Sid, vp: nat)
    requires Freed(m6, m', KernelRange(buf, 1), KernelHeldFrames(m6, buf, 1))
    ensures m'.Pte(s, vp) == m6.Pte(s, vp)
  {
    KernelRangeMember(buf, 1, UPage(s, vp));
    assert FrameOf(m', UPage(s, vp)) == FrameOf(m6, UPage(s, vp));
  }

  lemma ForkLeaves(m: Mem, m4: Mem, m5: Mem, m6: Mem, m': Mem, child: Sid, bits: seq<bool>, buf: nat)
    requires Frames(m) && Aside(m, m4) && child !in m.spaces && buf in m4.kmap && !m.Taken(m4.kmap[buf])
    requires m5 == NewSpace(m4, child, bits) && Kept(m5, m6, SetPages(child, bits, 0), m4.kmap[buf])
    requires Freed(m6, m', KernelRange(buf, 1), KernelHeldFrames(m6, buf, 1))
    ensures Undisturbed(m, m')
  {
    forall s, vp | s in m.spaces
      ensures m'.Pte(s, vp) == m.Pte(s, vp)
      ensures m.Pte(s, vp).Some? ==> m'.ContentOf(m.Pte(s, vp).value) == m.ContentOf(m.Pte(s, vp).value)
    {
      var u := UPage(s, vp);
      FreedPages(m6, m', buf, s, vp);
      SetPagesMember(child, bits, 0, u);
      assert FrameOf(m6, u) == FrameOf(m5, u);
      assert m5.Pte(s, vp) == m4.Pte(s, vp);
      assert m4.Pte(s, vp) == m.Pte(s, vp);
      if m.Pte(s, vp).Some? {
        assert FrameOf(m, u) == m.Pte(s, vp);
        var f := m.Pte(s, vp).value;
        assert m.Taken(f) && m4.Taken(f);
        assert m5.Taken(f);
        assert m6.ContentOf(f) == m5.ContentOf(f);
        assert m'.ContentOf(f) == m6.ContentOf(f);
      }
    }
  }

  lemma ForkCopies(m: Mem, m4: Mem, m5: Mem, m6: Mem, m': Mem, child: Sid, bits: seq<bool>, buf: nat)
    requires Inv(m, {}) && Aside(m, m4) && child !in m.spaces && m.active in m.spaces && bits == m.spaces[m.active].bits
    requires m5 == NewSpace(m4, child, bits) && buf in m4.kmap && CopiedAll(m5, m6, child, m4.kmap[buf], bits, 0)
    requires Freed(m6, m', KernelRange(buf, 1), KernelHeldFrames(m6, buf, 1)) && m'.spaces == m6.spaces && Inv(m', {})
    ensures Cloned(m, m', child)
  {
    forall vp: nat
      ensures m'.Pte(child, vp).Some? <==> m.Pte(m.active, vp).Some?
      ensures m'.Pte(child, vp).Some? ==>
                && !m.Taken(m'.Pte(child, vp).value)
                && m'.ContentOf(m'.Pte(child, vp).value) == m.ContentOf(m.Pte(m.active, vp).value)
    {
      var u, p := UPage(child, vp), UPage(m.active, vp);
      assert BitOf(m', u) <==> FrameOf(m', u).Some? || u in {};
      assert BitOf(m, p) <==> FrameOf(m, p).Some? || p in {};
      FreedPages(m6, m', buf, child, vp);
      if FrameOf(m', u).Some? {
        assert bits[vp - USER_START] && PageCopied(m5, m6, child, USER_START + (vp - USER_START));
        CopiedFrom(m, m4, m5, m6, child, bits, vp);
      }
    }
  }

  lemma CopiedFrom(m: Mem, m4: Mem, m5: Mem, m6: Mem, child: Sid, bits: seq<bool>, vp: nat)
    requires Frames(m) && Aside(m, m4) && child !in m.spaces && m.active in m.spaces
    requires m5 == NewSpace(m4, child, bits) && PageCopied(m5, m6, child, vp)
    ensures m.Pte(m.active, vp).Some? && !m.Taken(FrameOf(m6, UPage(child, vp)).value)
    ensures m6.ContentOf(FrameOf(m6, UPage(child, vp)).value) == m.ContentOf(m.Pte(m.active, vp).value)
  {
    var g := FrameOf(m6, UPage(child, vp)).value;
    assert m5.Pte(m.active, vp) == m4.Pte(m.active, vp);
    assert m4.Pte(m.active, vp) == m.Pte(m.active, vp);
    assert FrameOf(m, UPage(m.active, vp)) == m.Pte(m.active, vp);
    var f := m.Pte(m.active, vp).value;
    assert m.Taken(f) && m4.Taken(f);
    assert m5.Taken(g) == m4.Taken(g);
  }
}
