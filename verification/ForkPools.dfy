/** The kernel pages that fork and process_execute take, and what the pools must have for them to go through. */
module ForkPools {
  import opened Outcomes
  import opened BitSeq
  import opened PageAlloc
  import opened Fork
  import opened PagePools
  import PageRuns

  function Run(start: nat, n: nat): (r: set<nat>)
    ensures forall k :: k in r <==> start <= k < start + n
  {
    if n == 0 then {} else Run(start, n - 1) + {start + n - 1}
  }

  // ---------------------------------------------------------------- kernel pages, one run after the other

  /** Of the kernel pages exactly those in ks have become mapped, each to a frame that was free. */
  ghost predicate KernelGains(m: Mem, m': Mem, ks: set<nat>) {
    && (forall k {:trigger FrameOf(m', KPage(k))} ::
          if k in ks then FrameOf(m, KPage(k)).None? && FrameOf(m', KPage(k)).Some? && !m.Taken(FrameOf(m', KPage(k)).value)
          else FrameOf(m', KPage(k)) == FrameOf(m, KPage(k)))
    && |m'.kbits| == |m.kbits|
    && (forall g {:trigger m'.Taken(g)} :: m.Taken(g) ==> m'.Taken(g) && m'.ContentOf(g) == m.ContentOf(g))
  }

  /** That, and nothing else, for c frames of the kernel pool. */
  ghost predicate Gained(m: Mem, m': Mem, ks: set<nat>, c: nat) {
    && Inv(m', {}) && KernelGains(m, m', ks)
    && CountClear(m'.kpool) + c == CountClear(m.kpool)
    && m'.upool == m.upool && m'.spaces == m.spaces && m'.active == m.active
  }

  ghost predicate ClearRunAt(m: Mem, start: nat, n: nat) {
    start + n <= |m.kbits| && forall i :: start <= i < start + n ==> !m.kbits[i]
  }

  lemma RunGains(m: Mem, start: nat, n: nat)
    requires Inv(m, {}) && ClearRunAt(m, start, n)
    ensures GetKernelPages(m, start, n).Next? <==> CountClear(m.kpool) >= n
    ensures GetKernelPages(m, start, n).Next? ==> Gained(m, GetKernelPages(m, start, n).value, Run(start, n), n)
  {
    GetKernelPagesIff(m, start, n);
    if GetKernelPages(m, start, n).Next? {
      hide GetKernelPages;
      GetKernelPagesInv(m, start, n);
      MappedGains(m, GetKernelPages(m, start, n).value, start, n);
    }
  }

  lemma MappedGains(m: Mem, m': Mem, start: nat, n: nat)
    requires MappedAll(m, m'.(content := m.content), KernelRange(start, n)) && |m'.kbits| == |m.kbits|
    requires forall f :: m.Taken(f) ==> m'.ContentOf(f) == m.ContentOf(f)
    ensures KernelGains(m, m', Run(start, n))
  {
    var m1 := m'.(content := m.content);
    forall k ensures if k in Run(start, n) then FrameOf(m, KPage(k)).None? && FrameOf(m', KPage(k)).Some? && !m.Taken(FrameOf(m', KPage(k)).value)
                     else FrameOf(m', KPage(k)) == FrameOf(m, KPage(k))
    {
      KernelRangeMember(start, n, KPage(k));
      assert FrameOf(m1, KPage(k)) == FrameOf(m', KPage(k));
    }
    forall g: Frame | m.Taken(g) ensures m'.Taken(g) {
      assert m1.Taken(g);
    }
  }

  lemma GainsTwice(m: Mem, m1: Mem, m2: Mem, ks: set<nat>, ls: set<nat>)
    requires KernelGains(m, m1, ks) && KernelGains(m1, m2, ls)
    ensures KernelGains(m, m2, ks + ls)
  {
    forall k ensures if k in ks + ls then FrameOf(m, KPage(k)).None? && FrameOf(m2, KPage(k)).Some? && !m.Taken(FrameOf(m2, KPage(k)).value)
                     else FrameOf(m2, KPage(k)) == FrameOf(m, KPage(k))
    {
      assert k in ks ==> FrameOf(m1, KPage(k)).Some?;
      assert k !in ks ==> FrameOf(m1, KPage(k)) == FrameOf(m, KPage(k));
      if k in ls {
        var f := FrameOf(m2, KPage(k)).value;
        assert m.Taken(f) ==> m1.Taken(f);
      }
    }
    forall g: Frame | m.Taken(g) ensures m2.Taken(g) && m2.ContentOf(g) == m.ContentOf(g) {
      assert m1.Taken(g);
    }
  }

  lemma ClearLater(m: Mem, m1: Mem, ks: set<nat>, start: nat, n: nat)
    requires Inv(m, {}) && Inv(m1, {}) && KernelGains(m, m1, ks) && ClearRunAt(m, start, n) && ks !! Run(start, n)
    ensures ClearRunAt(m1, start, n)
  {
    forall i | start <= i < start + n ensures !m1.kbits[i] {
      assert i in Run(start, n);
      assert FrameOf(m1, KPage(i)) == FrameOf(m, KPage(i));
      assert BitOf(m, KPage(i)) <==> FrameOf(m, KPage(i)).Some? || KPage(i) in {};
      assert BitOf(m1, KPage(i)) <==> FrameOf(m1, KPage(i)).Some? || KPage(i) in {};
    }
  }

  /** One more get_kernel_pages after others. */
  lemma NextRun(m: Mem, m1: Mem, ks: set<nat>, c: nat, start: nat, n: nat)
    requires Inv(m, {}) && Gained(m, m1, ks, c) && ClearRunAt(m, start, n) && ks !! Run(start, n)
    ensures GetKernelPages(m1, start, n).Next? <==> CountClear(m.kpool) >= c + n
    ensures GetKernelPages(m1, start, n).Next? ==> Gained(m, GetKernelPages(m1, start, n).value, ks + Run(start, n), c + n)
  {
    hide Inv, KernelGains, ClearRunAt, CountClear, GetKernelPages;
    ClearLater(m, m1, ks, start, n);
    RunGains(m1, start, n);
    if GetKernelPages(m1, start, n).Next? {
      GainsTwice(m, m1, GetKernelPages(m1, start, n).value, ks, Run(start, n));
    }
  }

  /** Each scan answers with a run that is clear and that the scans before it have not taken. */
  ghost predicate ForkStarts(m: Mem, s: seq<nat>) {
    && |s| == 4
    && ClearRunAt(m, s[0], 1) && ClearRunAt(m, s[1], 1) && ClearRunAt(m, s[2], BITMAP_PAGES) && ClearRunAt(m, s[3], 1)
    && Run(s[0], 1) !! Run(s[1], 1) && Run(s[0], 1) + Run(s[1], 1) !! Run(s[2], BITMAP_PAGES)
    && Run(s[0], 1) + Run(s[1], 1) + Run(s[2], BITMAP_PAGES) !! Run(s[3], 1)
  }

  ghost predicate ExecuteStarts(m: Mem, s: seq<nat>) {
    && |s| == 3
    && ClearRunAt(m, s[0], 1) && ClearRunAt(m, s[1], BITMAP_PAGES) && ClearRunAt(m, s[2], 1)
    && Run(s[0], 1) !! Run(s[1], BITMAP_PAGES) && Run(s[0], 1) + Run(s[1], BITMAP_PAGES) !! Run(s[2], 1)
  }

  /** What fork asks the kernel pool for before it copies. */
  const FORK_PAGES := BITMAP_PAGES + 3

  lemma ForkTakes(m: Mem, child: Sid, s: seq<nat>) returns (m4: Mem)
    requires Inv(m, {}) && m.active in m.spaces && ForkStarts(m, s)
    ensures CountClear(m.kpool) < FORK_PAGES ==> ForkSpace(m, child, s).Halted?
    ensures CountClear(m.kpool) >= FORK_PAGES ==>
              && Gained(m, m4, Run(s[0], 1) + Run(s[1], 1) + Run(s[2], BITMAP_PAGES) + Run(s[3], 1), FORK_PAGES)
              && var bits := m.spaces[m.active].bits; var m6 := CopyPages(NewSpace(m4, child, bits), child, s[1], bits, 0);
              ForkSpace(m, child, s) == if m6.Halted? then Halted else FreeKernelPages(m6.value, s[1], 1)
  {
    hide Inv, ClearRunAt, KernelGains, CountClear, GetKernelPages, CopyPages, FreeKernelPages;
    m4 := m;
    RunGains(m, s[0], 1);
    if CountClear(m.kpool) >= FORK_PAGES {
      var m1 := GetKernelPages(m, s[0], 1).value;
      NextRun(m, m1, Run(s[0], 1), 1, s[1], 1);
      var m2 := GetKernelPages(m1, s[1], 1).value;
      NextRun(m, m2, Run(s[0], 1) + Run(s[1], 1), 2, s[2], BITMAP_PAGES);
      var m3 := GetKernelPages(m2, s[2], BITMAP_PAGES).value;
      NextRun(m, m3, Run(s[0], 1) + Run(s[1], 1) + Run(s[2], BITMAP_PAGES), BITMAP_PAGES + 2, s[3], 1);
      m4 := GetKernelPages(m3, s[3], 1).value;
    } else if CountClear(m.kpool) >= 1 {
      var m1 := GetKernelPages(m, s[0], 1).value;
      NextRun(m, m1, Run(s[0], 1), 1, s[1], 1);
      if CountClear(m.kpool) >= 2 {
        var m2 := GetKernelPages(m1, s[1], 1).value;
        NextRun(m, m2, Run(s[0], 1) + Run(s[1], 1), 2, s[2], BITMAP_PAGES);
        if CountClear(m.kpool) >= BITMAP_PAGES + 2 {
          var m3 := GetKernelPages(m2, s[2], BITMAP_PAGES).value;
          NextRun(m, m3, Run(s[0], 1) + Run(s[1], 1) + Run(s[2], BITMAP_PAGES), BITMAP_PAGES + 2, s[3], 1);
        }
      }
    }
  }

  // ---------------------------------------------------------------- the copying

  /** The child's page tables that the pages with set bits from bit i on still need. */
  ghost function TablesFrom(m: Mem, s: Sid, bits: seq<bool>, i: nat): set<nat>
    requires s in m.spaces
  {
    set j | i <= j < |bits| && bits[j] && (USER_START + j) / ENTRIES !in m.spaces[s].pd :: (USER_START + j) / ENTRIES
  }

  function CountSet(bits: seq<bool>, i: nat): nat
    decreases |bits| - i
  {
    if i >= |bits| then 0 else (if bits[i] then 1 else 0) + CountSet(bits, i + 1)
  }

  ghost predicate ToCopy(m: Mem, child: Sid, buf: nat, bits: seq<bool>, i: nat) {
    && Inv(m, SetPages(child, bits, i)) && m.active in m.spaces && child in m.spaces && child != m.active && buf in m.kmap
    && forall j {:trigger bits[j]} :: i <= j < |bits| && bits[j] ==>
         FrameOf(m, UPage(m.active, USER_START + j)).Some? && FrameOf(m, UPage(child, USER_START + j)).None?
  }

  /** What one page takes. */
  ghost predicate Takes(m: Mem, m1: Mem, child: Sid, d: nat)
    requires child in m.spaces
  {
    && CountClear(m.upool) == CountClear(m1.upool) + 1
    && CountClear(m.kpool) == CountClear(m1.kpool) + (if d in m.spaces[child].pd then 0 else 1)
    && child in m1.spaces && m1.spaces[child].pd.Keys == m.spaces[child].pd.Keys + {d}
  }

  lemma CopyOneCounts(m: Mem, child: Sid, buf: nat, vp: nat)
    requires m.active in m.spaces && child in m.spaces && buf in m.kmap
    requires FrameOf(m, UPage(m.active, vp)).Some? && FrameOf(m, UPage(child, vp)).None?
    ensures CopyOne(m, child, buf, vp).Next? <==>
              CountClear(m.upool) > 0 && CountClear(m.kpool) >= if vp / ENTRIES in m.spaces[child].pd then 0 else 1
    ensures CopyOne(m, child, buf, vp).Next? ==> Takes(m, CopyOne(m, child, buf, vp).value, child, vp / ENTRIES)
  {
    var b := m.kmap[buf];
    var m1 := m.(content := m.content[b := m.ContentOf(m.Pte(m.active, vp).value)], active := child);
    assert m1.Pte(child, vp) == m.Pte(child, vp);
    OneUserCounts(m1, vp);
    if MapOneUser(m1, vp).Next? {
      MapOneUserMaps(m1, vp);
    }
  }

  lemma MapOneUserMaps(m: Mem, vp: nat)
    requires m.active in m.spaces && MapOneUser(m, vp).Next?
    ensures MapOneUser(m, vp).value.Pte(m.active, vp).Some?
  {
  }

  lemma CopyOneOn(m: Mem, child: Sid, buf: nat, bits: seq<bool>, i: nat)
    requires i < |bits| && bits[i] && ToCopy(m, child, buf, bits, i) && CopyOne(m, child, buf, USER_START + i).Next?
    ensures ToCopy(CopyOne(m, child, buf, USER_START + i).value, child, buf, bits, i + 1)
  {
    hide Inv, CopyOne, Frames;
    var u := UPage(child, USER_START + i);
    SetPagesStep(child, bits, i);
    CopyOneInv(m, child, buf, USER_START + i, SetPages(child, bits, i));
    var m1 := CopyOne(m, child, buf, USER_START + i).value;
    assert SetPages(child, bits, i) - {u} == SetPages(child, bits, i + 1);
    assert FrameOf(m, KPage(buf)).Some?;
    assert FrameOf(m1, KPage(buf)).Some?;
    forall j {:trigger bits[j]} | i + 1 <= j < |bits| && bits[j]
      ensures FrameOf(m1, UPage(m1.active, USER_START + j)).Some? && FrameOf(m1, UPage(child, USER_START + j)).None?
    {
      assert FrameOf(m1, UPage(child, USER_START + j)) == FrameOf(m, UPage(child, USER_START + j));
      assert FrameOf(m1, UPage(m.active, USER_START + j)) == FrameOf(m, UPage(m.active, USER_START + j));
    }
  }

  lemma TableOf(m: Mem, s: Sid, bits: seq<bool>, i: nat, d: nat)
    requires s in m.spaces
    ensures d in TablesFrom(m, s, bits, i) <==>
              d !in m.spaces[s].pd && exists j {:trigger bits[j]} :: i <= j < |bits| && bits[j] && (USER_START + j) / ENTRIES == d
  {
  }

  lemma TablesSplit(m: Mem, m1: Mem, s: Sid, bits: seq<bool>, i: nat)
    requires i < |bits| && bits[i] && s in m.spaces && s in m1.spaces
    requires m1.spaces[s].pd.Keys == m.spaces[s].pd.Keys + {(USER_START + i) / ENTRIES}
    ensures |TablesFrom(m, s, bits, i)|
            == |TablesFrom(m1, s, bits, i + 1)| + if (USER_START + i) / ENTRIES in m.spaces[s].pd then 0 else 1
  {
    hide TablesFrom;
    var d, rest := (USER_START + i) / ENTRIES, TablesFrom(m1, s, bits, i + 1);
    TableOf(m1, s, bits, i + 1, d);
    forall e ensures e in TablesFrom(m, s, bits, i) <==> e in rest + (if d in m.spaces[s].pd then {} else {d}) {
      TableOf(m, s, bits, i, e);
      TableOf(m1, s, bits, i + 1, e);
    }
    assert TablesFrom(m, s, bits, i) == rest + if d in m.spaces[s].pd then {} else {d};
  }

  lemma TablesSkip(m: Mem, s: Sid, bits: seq<bool>, i: nat)
    requires i < |bits| && !bits[i] && s in m.spaces
    ensures TablesFrom(m, s, bits, i) == TablesFrom(m, s, bits, i + 1)
  {
    forall e | e in TablesFrom(m, s, bits, i) ensures e in TablesFrom(m, s, bits, i + 1) {
      var j :| i <= j < |bits| && bits[j] && (USER_START + j) / ENTRIES == e && e !in m.spaces[s].pd;
      assert i + 1 <= j;
    }
  }

  lemma SkipClear(m: Mem, child: Sid, buf: nat, bits: seq<bool>, i: nat)
    requires i < |bits| && !bits[i] && ToCopy(m, child, buf, bits, i)
    ensures ToCopy(m, child, buf, bits, i + 1)
  {
    hide Inv;
    SetPagesStep(child, bits, i);
    assert SetPages(child, bits, i) == SetPages(child, bits, i + 1);
  }

  /** copy_body_stack3 goes through exactly when there is a user frame for every page still to copy and a
      kernel frame for every page table the child still lacks. */
  lemma {:induction false} CopyPagesIff(m: Mem, child: Sid, buf: nat, bits: seq<bool>, i: nat)
    requires ToCopy(m, child, buf, bits, i) && i <= |bits|
    ensures CopyPages(m, child, buf, bits, i).Next? <==>
              CountClear(m.upool) >= CountSet(bits, i) && CountClear(m.kpool) >= |TablesFrom(m, child, bits, i)|
    decreases |bits| - i
  {
    hide CopyOne, CountClear, TablesFrom, Inv;
    if i == |bits| {
      NoTables(m, child, bits);
    } else if !bits[i] {
      SkipClear(m, child, buf, bits, i);
      TablesSkip(m, child, bits, i);
      CopyPagesIff(m, child, buf, bits, i + 1);
    } else {
      CopyOneCounts(m, child, buf, USER_START + i);
      if CopyOne(m, child, buf, USER_START + i).Next? {
        var m1 := CopyOne(m, child, buf, USER_START + i).value;
        CopyOneOn(m, child, buf, bits, i);
        TablesSplit(m, m1, child, bits, i);
        CopyPagesIff(m1, child, buf, bits, i + 1);
      } else if (USER_START + i) / ENTRIES !in m.spaces[child].pd {
        NeedsTable(m, child, bits, i);
      }
    }
  }

  lemma NoTables(m: Mem, s: Sid, bits: seq<bool>)
    requires s in m.spaces
    ensures TablesFrom(m, s, bits, |bits|) == {}
  {
  }

  lemma NeedsTable(m: Mem, s: Sid, bits: seq<bool>, i: nat)
    requires i < |bits| && bits[i] && s in m.spaces && (USER_START + i) / ENTRIES !in m.spaces[s].pd
    ensures |TablesFrom(m, s, bits, i)| > 0
  {
    assert (USER_START + i) / ENTRIES in TablesFrom(m, s, bits, i);
  }

  // ---------------------------------------------------------------- fork

  /** The page tables of a space with these pages. */
  ghost function Tables(bits: seq<bool>): set<nat> {
    set j | 0 <= j < |bits| && bits[j] :: (USER_START + j) / ENTRIES
  }

  lemma ReadyToCopy(m4: Mem, child: Sid, buf: nat, bits: seq<bool>)
    requires Inv(m4, {}) && m4.active in m4.spaces && child !in m4.spaces && bits == m4.spaces[m4.active].bits
    requires FrameOf(m4, KPage(buf)).Some?
    ensures var m5 := NewSpace(m4, child, bits);
            ToCopy(m5, child, buf, bits, 0) && TablesFrom(m5, child, bits, 0) == Tables(bits)
  {
    var m5 := NewSpace(m4, child, bits);
    NewSpaceInv(m4, child, bits);
    forall j {:trigger bits[j]} | 0 <= j < |bits| && bits[j]
      ensures FrameOf(m5, UPage(m5.active, USER_START + j)).Some? && FrameOf(m5, UPage(child, USER_START + j)).None?
    {
      var u := UPage(m4.active, USER_START + j);
      assert BitOf(m4, u) <==> FrameOf(m4, u).Some? || u in {};
      assert FrameOf(m5, u) == FrameOf(m4, u);
    }
  }

  /** Fork goes through exactly when the user pool has a frame for every page of the parent and the kernel
      pool, besides the pages of its own, one for every page table that these need. */
  lemma ForkIff(m: Mem, child: Sid, s: seq<nat>)
    requires Inv(m, {}) && m.active in m.spaces && child !in m.spaces && ForkStarts(m, s)
    ensures var bits := m.spaces[m.active].bits;
            ForkSpace(m, child, s).Next? <==>
              CountClear(m.upool) >= CountSet(bits, 0) && CountClear(m.kpool) >= FORK_PAGES + |Tables(bits)|
  {
    hide ClearRunAt, Inv, CountClear, KernelGains, ForkSpace, CopyPages, FreeKernelPages;
    var m4 := ForkTakes(m, child, s);
    var bits := m.spaces[m.active].bits;
    if CountClear(m.kpool) >= FORK_PAGES {
      ForkBuffer(m, m4, s);
      ReadyToCopy(m4, child, s[1], bits);
      var m5 := NewSpace(m4, child, bits);
      CopyPagesIff(m5, child, s[1], bits, 0);
      if CopyPages(m5, child, s[1], bits, 0).Next? {
        var m6, m' := ForkMiddle(m4, m5, child, bits, s[1]);
      }
    }
  }

  lemma ForkBuffer(m: Mem, m4: Mem, s: seq<nat>)
    requires ForkStarts(m, s)
    requires KernelGains(m, m4, Run(s[0], 1) + Run(s[1], 1) + Run(s[2], BITMAP_PAGES) + Run(s[3], 1))
    ensures s[1] in m4.kmap
  {
    assert s[1] in Run(s[1], 1);
    assert FrameOf(m4, KPage(s[1])).Some?;
  }

  /** The kernel pages fork keeps. */
  predicate ForkPage(s: seq<nat>, k: nat)
    requires |s| == 4
  {
    k == s[0] || s[2] <= k < s[2] + BITMAP_PAGES || k == s[3]
  }

  predicate ExecutePage(s: seq<nat>, k: nat)
    requires |s| == 3
  {
    k == s[0] || s[1] <= k < s[1] + BITMAP_PAGES || k == s[2]
  }

  /** Kernel page k was free, bit and frame, and is now mapped and its bit set. */
  ghost predicate PageTaken(m: Mem, m': Mem, k: nat) {
    && FrameOf(m, KPage(k)).None? && !BitOf(m, KPage(k)) && BitOf(m', KPage(k))
    && FrameOf(m', KPage(k)).Some? && !m.Taken(FrameOf(m', KPage(k)).value)
  }

  ghost predicate PageAsBefore(m: Mem, m': Mem, k: nat) {
    && FrameOf(m', KPage(k)) == FrameOf(m, KPage(k)) && (BitOf(m', KPage(k)) <==> BitOf(m, KPage(k)))
    && (FrameOf(m, KPage(k)).Some? ==> m'.ContentOf(FrameOf(m, KPage(k)).value) == m.ContentOf(FrameOf(m, KPage(k)).value))
  }

  lemma TakenOrAsBefore(m: Mem, m': Mem, ks: set<nat>, k: nat)
    requires Inv(m, {}) && Inv(m', {}) && KernelGains(m, m', ks)
    ensures if k in ks then PageTaken(m, m', k) else PageAsBefore(m, m', k)
  {
    var u := KPage(k);
    assert BitOf(m, u) <==> FrameOf(m, u).Some? || u in {};
    assert BitOf(m', u) <==> FrameOf(m', u).Some? || u in {};
    if FrameOf(m, u).Some? {
      assert m.Taken(FrameOf(m, u).value) && m'.Taken(FrameOf(m', u).value);
    }
  }

  /** The copying and the freed buffer, seen from the kernel pages. */
  lemma CopyGains(m: Mem, m4: Mem, m5: Mem, m6: Mem, m': Mem, child: Sid, bits: seq<bool>, buf: nat, ks: set<nat>)
    requires Inv(m, {}) && Inv(m4, {}) && Inv(m', {}) && KernelGains(m, m4, ks) && buf in ks
    requires child !in m4.spaces && buf in m4.kmap && m5 == NewSpace(m4, child, bits)
    requires Kept(m5, m6, SetPages(child, bits, 0), m4.kmap[buf]) && |m6.kbits| == |m4.kbits| == |m'.kbits|
    requires Freed(m6, m', KernelRange(buf, 1), KernelHeldFrames(m6, buf, 1))
    ensures KernelGains(m, m', ks - {buf})
  {
    var b := m4.kmap[buf];
    assert FrameOf(m4, KPage(buf)) == Some(b);
    forall k ensures FrameOf(m', KPage(k)) == if k == buf then None else FrameOf(m4, KPage(k)) {
      SetPagesMember(child, bits, 0, KPage(k));
      KernelRangeMember(buf, 1, KPage(k));
      assert FrameOf(m6, KPage(k)) == FrameOf(m5, KPage(k));
      assert FrameOf(m5, KPage(k)) == FrameOf(m4, KPage(k));
    }
    BufferOnly(m, m4, m5, m6, m', buf, b, SetPages(child, bits, 0));
  }

  /** Of the frames that were taken before fork began none but the buffer's is written or given back. */
  lemma BufferOnly(m: Mem, m4: Mem, m5: Mem, m6: Mem, m': Mem, buf: nat, b: Frame, us: set<Use>)
    requires (forall g {:trigger m4.Taken(g)} :: m.Taken(g) ==> m4.Taken(g) && m4.ContentOf(g) == m.ContentOf(g))
    requires !m.Taken(b) && m5 == m4.(spaces := m5.spaces) && Kept(m5, m6, us, b)
    requires Freed(m6, m', KernelRange(buf, 1), KernelHeldFrames(m6, buf, 1)) && FrameOf(m6, KPage(buf)) == Some(b)
    ensures forall g {:trigger m'.Taken(g)} :: m.Taken(g) ==> m'.Taken(g) && m'.ContentOf(g) == m.ContentOf(g)
  {
    forall g: Frame | m.Taken(g) ensures m'.Taken(g) && m'.ContentOf(g) == m.ContentOf(g) {
      assert m4.Taken(g);
      assert m5.Taken(g);
      assert m6.Taken(g) && m6.ContentOf(g) == m5.ContentOf(g);
      assert g !in KernelHeldFrames(m6, buf, 1);
    }
  }

  lemma {:induction false} CopyPagesBits(m: Mem, child: Sid, buf: nat, bits: seq<bool>, i: nat)
    requires m.active in m.spaces && child in m.spaces && CopyPages(m, child, buf, bits, i).Next?
    ensures CopyPages(m, child, buf, bits, i).value.kbits == m.kbits
    decreases |bits| - i
  {
    if i < |bits| {
      if bits[i] {
        CopyOneBits(m, child, buf, USER_START + i);
        hide CopyOne;
        CopyPagesBits(CopyOne(m, child, buf, USER_START + i).value, child, buf, bits, i + 1);
      } else {
        CopyPagesBits(m, child, buf, bits, i + 1);
      }
    }
  }

  lemma CopyOneBits(m: Mem, child: Sid, buf: nat, vp: nat)
    requires m.active in m.spaces && child in m.spaces && CopyOne(m, child, buf, vp).Next?
    ensures CopyOne(m, child, buf, vp).value.kbits == m.kbits
  {
    var m1 := m.(content := m.content[m.kmap[buf] := m.ContentOf(m.Pte(m.active, vp).value)], active := child);
    MapOneUserRest(m1, vp);
    hide MapOneUser;
  }

  lemma FreeBits(m: Mem, k: nat)
    requires FreeKernelPages(m, k, 1).Next?
    ensures |FreeKernelPages(m, k, 1).value.kbits| == |m.kbits|
  {
    var user := m.KernelHeld(k).value >= m.ustart;
    OneFreeBits(m, k, user);
    hide FreeKernelRange;
  }

  lemma OneFreeBits(m: Mem, k: nat, user: bool)
    requires FreeKernelRange(m, k, 1, user).Next?
    ensures FreeKernelRange(m, k, 1, user).value.kbits == m.kbits
  {
    var m1 := UnmapKernel(Pfree(m, m.KernelHeld(k).value), k);
    assert FreeKernelRange(m, k, 1, user) == FreeKernelRange(m1, k + 1, 0, user);
    assert m1.kbits == m.kbits;
  }

  /** Fork keeps the pages of the child's PCB, bitmap and page directory, which were free before; the buffer is
      free again, and every other kernel page is as it was, with what it held. */
  lemma ForkKernelPages(m: Mem, child: Sid, s: seq<nat>, k: nat)
    requires Inv(m, {}) && m.active in m.spaces && child !in m.spaces && ForkStarts(m, s) && ForkSpace(m, child, s).Next?
    ensures var m' := ForkSpace(m, child, s).value;
            if ForkPage(s, k) then PageTaken(m, m', k) else PageAsBefore(m, m', k)
    ensures k == s[1] ==> FrameOf(ForkSpace(m, child, s).value, KPage(k)).None?
  {
    hide Inv, CountClear, KernelGains, ForkSpace, CopyPages, FreeKernelPages, PageTaken, PageAsBefore, Kept, Freed, ClearRunAt;
    var m4 := ForkTakes(m, child, s);
    var bits, ks := m.spaces[m.active].bits, Run(s[0], 1) + Run(s[1], 1) + Run(s[2], BITMAP_PAGES) + Run(s[3], 1);
    ForkBuffer(m, m4, s);
    var m5 := NewSpace(m4, child, bits);
    var m6, m' := ForkMiddle(m4, m5, child, bits, s[1]);
    CopyPagesBits(m5, child, s[1], bits, 0);
    FreeBits(m6, s[1]);
    CopyGains(m, m4, m5, m6, m', child, bits, s[1], ks);
    TakenOrAsBefore(m, m', ks - {s[1]}, k);
    BufferFree(m, m', ks - {s[1]}, s[1], m4, ks);
  }

  lemma BufferFree(m: Mem, m': Mem, ls: set<nat>, k: nat, m4: Mem, ks: set<nat>)
    requires KernelGains(m, m', ls) && k !in ls && KernelGains(m, m4, ks) && k in ks
    ensures FrameOf(m', KPage(k)).None?
  {
    assert FrameOf(m', KPage(k)) == FrameOf(m, KPage(k));
    assert FrameOf(m4, KPage(k)).Some?;
  }

  // ---------------------------------------------------------------- process_execute

  /** process_execute goes through exactly when the kernel pool has its pages; they were free and are kept,
      every other kernel page is as it was, and the new process has an empty bitmap and no page. */
  lemma ExecuteKernelPages(m: Mem, child: Sid, s: seq<nat>, pages: nat, k: nat)
    requires Inv(m, {}) && child !in m.spaces && ExecuteStarts(m, s)
    ensures PageRuns.ExecuteSpace(m, child, s, pages).Next? <==> CountClear(m.kpool) >= BITMAP_PAGES + 2
    ensures PageRuns.ExecuteSpace(m, child, s, pages).Next? ==>
              var m' := PageRuns.ExecuteSpace(m, child, s, pages).value;
              && (if ExecutePage(s, k) then PageTaken(m, m', k) else PageAsBefore(m, m', k))
              && m'.spaces.Keys == m.spaces.Keys + {child} && (forall c :: c in m.spaces ==> m'.spaces[c] == m.spaces[c])
              && m'.spaces[child].pd == map[] && |m'.spaces[child].bits| == pages
              && (forall i :: 0 <= i < pages ==> !m'.spaces[child].bits[i])
  {
    hide Inv, CountClear, KernelGains, GetKernelPages, PageTaken, PageAsBefore, ClearRunAt;
    RunGains(m, s[0], 1);
    if CountClear(m.kpool) >= 1 {
      var m1 := GetKernelPages(m, s[0], 1).value;
      NextRun(m, m1, Run(s[0], 1), 1, s[1], BITMAP_PAGES);
      if CountClear(m.kpool) >= BITMAP_PAGES + 1 {
        var m2 := GetKernelPages(m1, s[1], BITMAP_PAGES).value;
        NextRun(m, m2, Run(s[0], 1) + Run(s[1], BITMAP_PAGES), BITMAP_PAGES + 1, s[2], 1);
        if CountClear(m.kpool) >= BITMAP_PAGES + 2 {
          var m3 := GetKernelPages(m2, s[2], 1).value;
          var ks := Run(s[0], 1) + Run(s[1], BITMAP_PAGES) + Run(s[2], 1);
          TakenOrAsBefore(m, m3, ks, k);
          SpaceAside(m, m3, child, PageRuns.ClearBits(pages), k);
        }
      }
    }
  }

  lemma SpaceAside(m: Mem, m3: Mem, child: Sid, bits: seq<bool>, k: nat)
    ensures PageTaken(m, m3, k) ==> PageTaken(m, NewSpace(m3, child, bits), k)
    ensures PageAsBefore(m, m3, k) ==> PageAsBefore(m, NewSpace(m3, child, bits), k)
  {
    assert FrameOf(NewSpace(m3, child, bits), KPage(k)) == FrameOf(m3, KPage(k));
  }
}
