/** The pools, bitmaps and page tables as globals that kernel/memory.c and userprog/fork.c update in place.
    A method that returns false has stopped the machine. */
module PageMachine {
  import opened Outcomes
  import opened BitSeq
  import opened PageAlloc
  import opened Fork

  class Memory {
    var kbits: seq<bool>
    var kmap: map<nat, Frame>
    var kstale: map<nat, Frame>
    var spaces: map<Sid, Space>
    var tables: map<Frame, map<nat, Frame>>
    var stale: map<Frame, map<nat, Frame>>
    var kpool: seq<bool>
    var upool: seq<bool>
    var ustart: Frame
    var content: map<Frame, nat>
    var active: Sid

    ghost function M(): Mem
      reads this
    {
      Mem(kbits, kmap, kstale, spaces, tables, stale, kpool, upool, ustart, content, active)
    }

    constructor (m: Mem)
      ensures M() == m
    {
      kbits, kmap, kstale, spaces, tables, stale := m.kbits, m.kmap, m.kstale, m.spaces, m.tables, m.stale;
      kpool, upool, ustart, content, active := m.kpool, m.upool, m.ustart, m.content, m.active;
    }

    /** The new state is the one computed, or the machine has stopped. */
    ghost predicate Is(o: Outcome<Mem>, ok: bool)
      reads this
    {
      if o.Halted? then !ok else ok && M() == o.value
    }

    method ScanOne(bits: seq<bool>) returns (i: nat)
      ensures i == FirstClear(bits)
    {
      i := 0;
      while i < |bits| && bits[i]
        invariant i <= |bits| && forall j :: 0 <= j < i ==> bits[j]
      {
        i := i + 1;
      }
    }

    method PallocFrame(user: bool) returns (f: Outcome<Frame>)
      modifies `kpool, `upool
      ensures match Palloc(old(M()), user)
              case Halted => f == Halted
              case Next((m1, g)) => f == Next(g) && M() == m1
    {
      var i := ScanOne(if user then upool else kpool);
      if i == |if user then upool else kpool| {
        return Halted;
      }
      if user {
        upool := upool[i := true];
        return Next(ustart + i);
      }
      kpool := kpool[i := true];
      return Next(i);
    }

    /** bitmap_set over a range of a virtual bitmap. */
    method SetRange(bits: seq<bool>, lo: nat, n: nat, value: bool) returns (r: seq<bool>)
      requires lo + n <= |bits|
      ensures r == Ranged(bits, lo, n, value)
    {
      r := bits;
      var cnt := 0;
      while cnt < n
        invariant cnt <= n && r == Ranged(bits, lo, cnt, value)
      {
        r := r[lo + cnt := value];
        cnt := cnt + 1;
      }
    }

    /** Lines 186-194: a frame for the page table, its directory entry, and the clearing. */
    method NewTable(d: nat) returns (ok: bool)
      requires active in spaces
      modifies `spaces, `tables, `stale, `kpool, `upool
      ensures match Palloc(old(M()), false)
              case Halted => !ok
              case Next((m1, t)) => ok && m1.active in m1.spaces && M() == AddTable(m1, d, t)
    {
      hide Palloc;
      var t := PallocFrame(false);
      if t.Halted? {
        return false;
      }
      var s := spaces[active];
      spaces := spaces[active := s.(pd := s.pd[d := t.value])];
      var cleared: map<nat, Frame> := map[];
      tables, stale := tables[t.value := cleared], stale[t.value := cleared];
      return true;
    }

    method SetEntry(vp: nat, f: Frame) returns (ok: bool)
      requires active in spaces && vp / ENTRIES in spaces[active].pd
      modifies `tables
      ensures Is(MapUser(old(M()), vp, f), ok)
    {
      var t, e := spaces[active].pd[vp / ENTRIES], vp % ENTRIES;
      var entries := if t in tables then tables[t] else map[];
      if e in entries {
        return false;
      }
      tables := tables[t := entries[e := f]];
      return true;
    }

    method PageTableAdd(vp: nat, f: Frame) returns (ok: bool)
      requires active in spaces
      modifies `spaces, `tables, `stale, `kpool, `upool
      ensures Is(MapUser(old(M()), vp, f), ok)
    {
      hide Palloc;
      if vp / ENTRIES !in spaces[active].pd {
        var added := NewTable(vp / ENTRIES);
        if !added {
          return false;
        }
        TableThenMap(old(M()), vp, f);
      }
      hide MapUser;
      ok := SetEntry(vp, f);
    }

    method MapPage(vp: nat) returns (ok: bool)
      requires active in spaces
      modifies this
      ensures Is(MapOneUser(old(M()), vp), ok)
    {
      var f := PallocFrame(true);
      if f.Halted? {
        return false;
      }
      ok := PageTableAdd(vp, f.value);
    }

    /** malloc_page(PF_USER, n), `start` being the answer of bitmap_scan. */
    method MallocUser(start: nat, n: nat) returns (ok: bool)
      requires active in spaces && start + n <= |spaces[active].bits|
      modifies this
      ensures Is(MallocUserPages(old(M()), start, n), ok)
    {
      if USER_START + start >= KERNEL_START - 1 {
        return false;
      }
      var bits := SetRange(spaces[active].bits, start, n, true);
      spaces := spaces[active := spaces[active].(bits := bits)];
      ok := MapLoop(USER_START + start, n);
    }

    /** Lines 223-237. */
    method MapLoop(first: nat, n: nat) returns (ok: bool)
      requires active in spaces
      modifies this
      ensures Is(MapUserRange(old(M()), first, n), ok)
    {
      hide MapOneUser;
      ghost var m0 := M();
      var cnt: nat, vp: nat := n, first;
      while cnt > 0
        invariant cnt <= n && active in spaces
        invariant MapUserRange(m0, first, n) == MapUserRange(M(), vp, cnt)
      {
        var mapped := MapPage(vp);
        if !mapped || active !in spaces {
          return false;
        }
        vp := vp + 1;
        cnt := cnt - 1;
      }
      return true;
    }

    /** get_kernel_pages. */
    method MallocKernel(start: nat, n: nat) returns (ok: bool)
      requires start + n <= |kbits|
      modifies this
      ensures Is(GetKernelPages(old(M()), start, n), ok)
    {
      kbits := SetRange(kbits, start, n, true);
      ghost var m0 := M();
      var cnt: nat, k: nat := n, start;
      while cnt > 0
        invariant cnt <= n
        invariant MapKernelRange(m0, start, n) == MapKernelRange(M(), k, cnt)
      {
        var f := PallocFrame(false);
        if f.Halted? || k in kmap {
          return false;
        }
        kmap := kmap[k := f.value];
        k := k + 1;
        cnt := cnt - 1;
      }
      content := Zeroed(Mem(kbits, kmap, kstale, spaces, tables, stale, kpool, upool, ustart, content, active),
                        KernelFrames(Mem(kbits, kmap, kstale, spaces, tables, stale, kpool, upool, ustart, content, active), start, n)).content;
      return true;
    }

    method PfreeFrame(f: Frame)
      requires if f >= ustart then f < ustart + |upool| else f < |kpool|
      modifies `kpool, `upool
      ensures M() == Pfree(old(M()), f)
    {
      if f >= ustart {
        upool := upool[f - ustart := false];
      } else {
        kpool := kpool[f := false];
      }
    }

    /** mfree_page(PF_USER, ...). */
    method MfreeUser(vaddr: nat, n: nat) returns (ok: bool)
      requires active in spaces && vaddr >= USER_START && vaddr - USER_START + n <= |spaces[active].bits|
      modifies this
      ensures Is(FreeUserPages(old(M()), vaddr, n), ok)
    {
      hide Mem.Held, Mem.Pte, FreeUserRange;
      var first := AddrV2p(vaddr);
      if n < 1 || first.None? {
        return false;
      }
      ok := MfreeLoop(vaddr, n, first.value >= ustart);
      if ok {
        var bits := SetRange(spaces[active].bits, vaddr - USER_START, n, false);
        spaces := spaces[active := spaces[active].(bits := bits)];
      }
    }

    /** Lines 583-600. */
    method MfreeLoop(vaddr: nat, n: nat, user: bool) returns (ok: bool)
      requires active in spaces
      modifies `kpool, `upool, `tables, `stale
      ensures Is(FreeUserRange(old(M()), vaddr, n, user), ok)
    {
      hide Mem.Held, Mem.Pte, Unmap, Pfree;
      ghost var m0 := M();
      var vp: nat, cnt: nat := vaddr, n;
      while cnt > 0
        invariant cnt <= n
        invariant FreeUserRange(m0, vaddr, n, user) == FreeUserRange(M(), vp, cnt, user)
      {
        var f := AddrV2p(vp);
        if f.None? || (f.value >= ustart) != user
           || (if user then f.value >= ustart + |upool| else f.value >= |kpool|) {
          return false;
        }
        HeldHasTable(M(), vp);
        PfreeFrame(f.value);
        PageTablePteRemove(vp);
        vp := vp + 1;
        cnt := cnt - 1;
      }
      return true;
    }

    /** mfree_page(PF_KERNEL, ...), lines 605-632. */
    method MfreeKernel(start: nat, n: nat) returns (ok: bool)
      requires start + n <= |kbits|
      modifies this
      ensures Is(FreeKernelPages(old(M()), start, n), ok)
    {
      hide Mem.KernelHeld, UnmapKernel, Pfree;
      var first := KernelAddress(start);
      if n < 1 || first.None? {
        return false;
      }
      var user := first.value >= ustart;
      ghost var m0 := M();
      var k: nat, cnt: nat := start, n;
      while cnt > 0
        invariant cnt <= n && kbits == old(kbits)
        invariant FreeKernelRange(m0, start, n, user) == FreeKernelRange(M(), k, cnt, user)
      {
        var f := KernelAddress(k);
        if f.None? || (f.value >= ustart) != user
           || (if user then f.value >= ustart + |upool| else f.value >= |kpool|) {
          return false;
        }
        PfreeFrame(f.value);
        KernelPteRemove(k);
        k := k + 1;
        cnt := cnt - 1;
      }
      kbits := SetRange(kbits, start, n, false);
      return true;
    }

    /** addr_v2p of a kernel page. */
    method KernelAddress(k: nat) returns (f: Option<Frame>)
      ensures f == M().KernelHeld(k)
    {
      return if k in kmap then Some(kmap[k]) else if k in kstale then Some(kstale[k]) else None;
    }

    method KernelPteRemove(k: nat)
      modifies `kmap, `kstale
      ensures M() == UnmapKernel(old(M()), k)
    {
      if k in kmap {
        kstale := kstale[k := kmap[k]];
        kmap := Without(kmap, k);
      }
    }

    /** The frame that the processor finds for a page. */
    method Translate(vp: nat) returns (f: Option<Frame>)
      ensures f == M().Pte(active, vp)
    {
      if active in spaces && vp / ENTRIES in spaces[active].pd {
        var t := spaces[active].pd[vp / ENTRIES];
        if t in tables && vp % ENTRIES in tables[t] {
          return Some(tables[t][vp % ENTRIES]);
        }
      }
      return None;
    }

    method AddrV2p(vp: nat) returns (f: Option<Frame>)
      ensures f == M().Held(active, vp)
    {
      if active in spaces && vp / ENTRIES in spaces[active].pd {
        var t := spaces[active].pd[vp / ENTRIES];
        if t in tables && vp % ENTRIES in tables[t] {
          return Some(tables[t][vp % ENTRIES]);
        }
        if t in stale && vp % ENTRIES in stale[t] {
          return Some(stale[t][vp % ENTRIES]);
        }
      }
      return None;
    }

    method PageTablePteRemove(vp: nat)
      requires active in spaces && vp / ENTRIES in spaces[active].pd
      modifies `tables, `stale
      ensures M() == Unmap(old(M()), vp)
    {
      var t := spaces[active].pd[vp / ENTRIES];
      var entries := if t in tables then tables[t] else map[];
      if vp % ENTRIES in entries {
        var left := if t in stale then stale[t] else map[];
        stale := stale[t := left[vp % ENTRIES := entries[vp % ENTRIES]]];
        tables := tables[t := Without(entries, vp % ENTRIES)];
      }
    }

    // -------------------------------------------------------------- fork

    /** Lines 68-70 of fork.c: the page into the buffer, and over to the child's page tables. */
    method CopyOut(child: Sid, buf: nat, vp: nat) returns (ok: bool)
      modifies `content, `active
      ensures var m := old(M());
              if m.Pte(m.active, vp).None? || buf !in m.kmap then !ok
              else ok && M() == m.(content := m.content[m.kmap[buf] := m.ContentOf(m.Pte(m.active, vp).value)], active := child)
    {
      var f := Translate(vp);
      if f.None? || buf !in kmap {
        return false;
      }
      content := content[kmap[buf] := if f.value in content then content[f.value] else 0];
      active := child;
      return true;
    }

    /** Lines 74-76: the buffer into the child's page, and back to the parent's page tables. */
    method CopyIn(parent: Sid, buf: nat, vp: nat) returns (ok: bool)
      requires buf in kmap
      modifies `content, `active
      ensures var m := old(M());
              if m.Pte(m.active, vp).None? then !ok
              else ok && M() == m.(content := m.content[m.Pte(m.active, vp).value := m.ContentOf(m.kmap[buf])], active := parent)
    {
      var g := Translate(vp);
      if g.None? {
        return false;
      }
      content := content[g.value := if kmap[buf] in content then content[kmap[buf]] else 0];
      active := parent;
      return true;
    }

    /** Lines 64-76. */
    method CopyPage(child: Sid, buf: nat, vp: nat) returns (ok: bool)
      requires active in spaces && child in spaces
      modifies this
      ensures Is(CopyOne(old(M()), child, buf, vp), ok)
    {
      var parent := active;
      ok := CopyOut(child, buf, vp);
      if ok {
        ghost var m1 := M();
        ok := MapPage(vp);
        if ok {
          MapKeepsKernel(m1, vp);
          ok := CopyIn(parent, buf, vp);
        }
      }
    }

    /** copy_body_stack3: byte by byte and bit by bit over the parent's bitmap. */
    method CopyBodyStack3(child: Sid, buf: nat) returns (ok: bool)
      requires active in spaces && child in spaces && |spaces[active].bits| % 8 == 0
      modifies this
      ensures Is(CopyPages(old(M()), child, buf, old(spaces[active].bits), 0), ok)
    {
      var bits := spaces[active].bits;
      ghost var m0 := M();
      var byte := 0;
      while byte < |bits| / 8
        invariant byte <= |bits| / 8 && active in spaces && child in spaces
        invariant CopyPages(m0, child, buf, bits, 0) == CopyPages(M(), child, buf, bits, 8 * byte)
      {
        if exists k :: 8 * byte <= k < 8 * byte + 8 && bits[k] {
          var copied := CopyByte(child, buf, bits, byte);
          if !copied {
            return false;
          }
        } else {
          SkipClear(M(), child, buf, bits, 8 * byte, 8 * byte + 8);
        }
        assert 8 * (byte + 1) == 8 * byte + 8;
        byte := byte + 1;
      }
      return true;
    }

    /** Lines 59-81. */
    method CopyByte(child: Sid, buf: nat, bits: seq<bool>, byte: nat) returns (ok: bool)
      requires active in spaces && child in spaces && 8 * byte + 8 <= |bits|
      modifies this
      ensures CopyPages(old(M()), child, buf, bits, 8 * byte)
              == if ok && active in spaces && child in spaces then CopyPages(M(), child, buf, bits, 8 * byte + 8) else Halted
      ensures ok ==> active in spaces && child in spaces
    {
      ghost var m0 := M();
      var bit := 0;
      while bit < 8
        invariant bit <= 8 && active in spaces && child in spaces
        invariant CopyPages(m0, child, buf, bits, 8 * byte) == CopyPages(M(), child, buf, bits, 8 * byte + bit)
      {
        if bits[8 * byte + bit] {
          var copied := CopyPage(child, buf, (byte * 8 + bit) + USER_START);
          if !copied || active !in spaces || child !in spaces {
            return false;
          }
        }
        bit := bit + 1;
      }
      return true;
    }
  }

  lemma HeldHasTable(m: Mem, vp: nat)
    requires m.active in m.spaces && m.Held(m.active, vp).Some?
    ensures vp / ENTRIES in m.spaces[m.active].pd
  {
  }

  lemma MapKeepsKernel(m: Mem, vp: nat)
    requires m.active in m.spaces && MapOneUser(m, vp).Next?
    ensures var m' := MapOneUser(m, vp).value; m'.kmap == m.kmap && m'.content == m.content && m'.active == m.active
  {
  }

  /** A byte without set bits copies nothing. */
  lemma {:induction false} SkipClear(m: Mem, child: Sid, buf: nat, bits: seq<bool>, i: nat, stop: nat)
    requires m.active in m.spaces && child in m.spaces && i <= stop <= |bits|
    requires forall k :: i <= k < stop ==> !bits[k]
    ensures CopyPages(m, child, buf, bits, i) == CopyPages(m, child, buf, bits, stop)
    decreases stop - i
  {
    if i < stop {
      SkipClear(m, child, buf, bits, i + 1, stop);
    }
  }
}
