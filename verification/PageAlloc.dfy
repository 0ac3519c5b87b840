/** The page-level half of kernel/memory.c: virtual bitmaps, page tables and physical pools.

    Frames are counted from the start of the kernel pool, virtual pages from address 0.  Kernel page
    directory entries exist from the start and are shared, so kernel pages are one map for all spaces.
    A scan of a full bitmap stops the machine, as shipped (bitmap.c:38): palloc never returns NULL. */
module PageAlloc {
  import opened Outcomes
  import opened BitSeq

  type Frame = nat
  type Sid = nat

  const ENTRIES := 1024
  const USER_START := 0x8048
  const KERNEL_START := 0xc0000

  /** A user process: its virtual bitmap and the present entries of its page directory. */
  datatype Space = Space(bits: seq<bool>, pd: map<nat, Frame>)

  /** `tables` is what every frame holds when read as a page table, stale contents included, and `stale`
      the frames that entries whose present bit has been cleared still name, `kmap` and `kstale` the same
      for kernel pages; `content` is what a frame holds as data; `active` is the space CR3 points at. */
  datatype Mem = Mem(kbits: seq<bool>, kmap: map<nat, Frame>, kstale: map<nat, Frame>, spaces: map<Sid, Space>,
                     tables: map<Frame, map<nat, Frame>>, stale: map<Frame, map<nat, Frame>>,
                     kpool: seq<bool>, upool: seq<bool>, ustart: Frame, content: map<Frame, nat>, active: Sid) {

    predicate Taken(f: Frame) {
      (f < |kpool| && kpool[f]) || (ustart <= f < ustart + |upool| && upool[f - ustart])
    }

    function TableAt(f: Frame): map<nat, Frame> {
      if f in tables then tables[f] else map[]
    }

    /** The present page-table entry of virtual page vp. */
    function Pte(s: Sid, vp: nat): Option<Frame> {
      if s in spaces && vp / ENTRIES in spaces[s].pd then
        var t := TableAt(spaces[s].pd[vp / ENTRIES]);
        if vp % ENTRIES in t then Some(t[vp % ENTRIES]) else None
      else None
    }

    function StaleAt(f: Frame): map<nat, Frame> {
      if f in stale then stale[f] else map[]
    }

    /** What addr_v2p answers, present bit or not.  None: there is no page table, a page fault, or the entry
        was never written, an address below both pools. */
    function Held(s: Sid, vp: nat): Option<Frame> {
      if Pte(s, vp).Some? then Pte(s, vp)
      else if s in spaces && vp / ENTRIES in spaces[s].pd then
        var t := StaleAt(spaces[s].pd[vp / ENTRIES]);
        if vp % ENTRIES in t then Some(t[vp % ENTRIES]) else None
      else None
    }

    function KernelHeld(k: nat): Option<Frame> {
      if k in kmap then Some(kmap[k]) else if k in kstale then Some(kstale[k]) else None
    }

    function ContentOf(f: Frame): nat {
      if f in content then content[f] else 0
    }
  }

  // ---------------------------------------------------------------- what frames are used for

  datatype Use = KPage(k: nat) | Table(s: Sid, d: nat) | UPage(s: Sid, vp: nat)

  function FrameOf(m: Mem, u: Use): Option<Frame> {
    match u
    case KPage(k) => if k in m.kmap then Some(m.kmap[k]) else None
    case Table(s, d) => if s in m.spaces && d in m.spaces[s].pd then Some(m.spaces[s].pd[d]) else None
    case UPage(s, vp) => m.Pte(s, vp)
  }

  /** The virtual-bitmap bit of a page. */
  predicate BitOf(m: Mem, u: Use) {
    match u
    case KPage(k) => k < |m.kbits| && m.kbits[k]
    case UPage(s, vp) =>
      s in m.spaces && USER_START <= vp < USER_START + |m.spaces[s].bits| && m.spaces[s].bits[vp - USER_START]
    case Table(_, _) => false
  }

  predicate InPool(m: Mem, u: Use, f: Frame) {
    if u.UPage? then m.ustart <= f < m.ustart + |m.upool| else f < |m.kpool|
  }

  ghost predicate Owned(m: Mem, f: Frame) {
    exists u :: FrameOf(m, u) == Some(f)
  }

  /** Every taken frame is one page of one space, one kernel page or one page table, and nothing else is
      taken. */
  ghost predicate Frames(m: Mem) {
    && |m.kpool| <= m.ustart
    && (forall u {:trigger FrameOf(m, u)} :: FrameOf(m, u).Some? ==>
          InPool(m, u, FrameOf(m, u).value) && m.Taken(FrameOf(m, u).value))
    && (forall u, w {:trigger FrameOf(m, u), FrameOf(m, w)} ::
          FrameOf(m, u).Some? && FrameOf(m, u) == FrameOf(m, w) ==> u == w)
    && (forall f {:trigger Owned(m, f)} :: m.Taken(f) ==> Owned(m, f))
  }

  /** A page's virtual bit is set iff it is mapped, except for the pages in `pending`, whose bit is set
      ahead of the mapping or cleared after it. */
  ghost predicate Bits(m: Mem, pending: set<Use>) {
    && (forall u: Use {:trigger BitOf(m, u)} :: !u.Table? ==> (BitOf(m, u) <==> FrameOf(m, u).Some? || u in pending))
    && (forall u :: u in pending ==> !u.Table?)
  }

  ghost predicate Inv(m: Mem, pending: set<Use>) {
    Frames(m) && Bits(m, pending)
  }

  // ---------------------------------------------------------------- the primitive operations

  /** palloc. */
  function Palloc(m: Mem, user: bool): Outcome<(Mem, Frame)> {
    var pool := if user then m.upool else m.kpool;
    var i := FirstClear(pool);
    if i == |pool| then Halted
    else if user then Next((m.(upool := pool[i := true]), m.ustart + i))
    else Next((m.(kpool := pool[i := true]), i))
  }

  /** page_table_add for a user page, in the active space. */
  function MapUser(m: Mem, vp: nat, f: Frame): Outcome<Mem>
    requires m.active in m.spaces
  {
    var s := m.spaces[m.active];
    if vp / ENTRIES in s.pd then
      if m.Pte(m.active, vp).Some? then Halted
      else
        var t := s.pd[vp / ENTRIES];
        Next(m.(tables := m.tables[t := m.TableAt(t)[vp % ENTRIES := f]]))
    else
      var (m1, t) :- Palloc(m, false);
      Next(m1.(spaces := m1.spaces[m.active := s.(pd := s.pd[vp / ENTRIES := t])],
               tables := m1.tables[t := map[vp % ENTRIES := f]], stale := m1.stale[t := map[]]))
  }

  /** page_table_add for a kernel page, whose page table always exists. */
  function MapKernel(m: Mem, k: nat, f: Frame): Outcome<Mem> {
    if k in m.kmap then Halted else Next(m.(kmap := m.kmap[k := f]))
  }

  /** pfree. */
  function Pfree(m: Mem, f: Frame): Mem
    requires if f >= m.ustart then f < m.ustart + |m.upool| else f < |m.kpool|
  {
    if f >= m.ustart then m.(upool := m.upool[f - m.ustart := false]) else m.(kpool := m.kpool[f := false])
  }

  /** page_table_pte_remove in the active space: the frame stays in the entry. */
  function Unmap(m: Mem, vp: nat): Mem {
    match m.Pte(m.active, vp)
    case None => m
    case Some(f) =>
      var t := m.spaces[m.active].pd[vp / ENTRIES];
      m.(tables := m.tables[t := Without(m.TableAt(t), vp % ENTRIES)],
         stale := m.stale[t := m.StaleAt(t)[vp % ENTRIES := f]])
  }

  function UnmapKernel(m: Mem, k: nat): Mem {
    if k in m.kmap then m.(kmap := Without(m.kmap, k), kstale := m.kstale[k := m.kmap[k]]) else m
  }

  function Without(t: map<nat, Frame>, i: nat): map<nat, Frame> {
    map k | k in t && k != i :: t[k]
  }

  function SetUserBits(m: Mem, s: Sid, lo: nat, n: nat, value: bool): Mem
    requires s in m.spaces
  {
    m.(spaces := m.spaces[s := m.spaces[s].(bits := Ranged(m.spaces[s].bits, lo, n, value))])
  }

  function SetKernelBits(m: Mem, lo: nat, n: nat, value: bool): Mem {
    m.(kbits := Ranged(m.kbits, lo, n, value))
  }

  // ---------------------------------------------------------------- how each primitive changes the uses

  /** One more frame, for use u. */
  ghost predicate Gains(m: Mem, m': Mem, u: Use, f: Frame) {
    && |m'.kpool| == |m.kpool| && |m'.upool| == |m.upool| && m'.ustart == m.ustart
    && !m.Taken(f) && InPool(m, u, f) && FrameOf(m, u).None? && FrameOf(m', u) == Some(f)
    && (forall w {:trigger FrameOf(m', w)} :: w != u ==> FrameOf(m', w) == FrameOf(m, w))
    && (forall g :: m'.Taken(g) <==> m.Taken(g) || g == f)
  }

  ghost predicate SameBits(m: Mem, m': Mem) {
    forall u {:trigger BitOf(m', u)} :: BitOf(m', u) == BitOf(m, u)
  }

  lemma GainsFrames(m: Mem, m': Mem, u: Use, f: Frame)
    requires Frames(m) && Gains(m, m', u, f)
    ensures Frames(m')
  {
    forall w | FrameOf(m', w).Some?
      ensures InPool(m', w, FrameOf(m', w).value) && m'.Taken(FrameOf(m', w).value)
    {
      assert w != u ==> FrameOf(m, w) == FrameOf(m', w);
    }
    forall w, x | FrameOf(m', w).Some? && FrameOf(m', w) == FrameOf(m', x) ensures w == x {
      assert w != u ==> FrameOf(m, w) == FrameOf(m', w) && m.Taken(FrameOf(m, w).value);
      assert x != u ==> FrameOf(m, x) == FrameOf(m', x) && m.Taken(FrameOf(m, x).value);
    }
    forall g | m'.Taken(g) ensures Owned(m', g) {
      if g == f {
        assert FrameOf(m', u) == Some(g);
      } else {
        assert Owned(m, g);
        var w :| FrameOf(m, w) == Some(g);
        assert FrameOf(m', w) == Some(g);
      }
    }
  }

  /** Mapping a page whose bit was set in advance. */
  lemma GainsInv(m: Mem, m': Mem, u: Use, f: Frame, pending: set<Use>)
    requires Inv(m, pending) && Gains(m, m', u, f) && SameBits(m, m') && (u.Table? || u in pending)
    ensures Inv(m', pending - {u})
  {
    GainsFrames(m, m', u, f);
    forall w: Use | !w.Table? ensures BitOf(m', w) <==> FrameOf(m', w).Some? || w in pending - {u} {
      assert BitOf(m, w) <==> FrameOf(m, w).Some? || w in pending;
    }
  }

  // ---------------------------------------------------------------- palloc and page_table_add

  lemma PallocTakes(m: Mem, user: bool)
    requires |m.kpool| <= m.ustart && Palloc(m, user).Next?
    ensures var (m1, f) := Palloc(m, user).value;
            && !m.Taken(f) && (forall g :: m1.Taken(g) <==> m.Taken(g) || g == f)
            && (if user then m.ustart <= f < m.ustart + |m.upool| else f < |m.kpool|)
            && m1 == m.(kpool := m1.kpool, upool := m1.upool)
            && |m1.kpool| == |m.kpool| && |m1.upool| == |m.upool|
            && (if user then m1.kpool == m.kpool else m1.upool == m.upool)
  {
  }

  /** Of the free frames of the pool palloc takes the lowest. */
  lemma PallocLowest(m: Mem, user: bool, g: Frame)
    requires Palloc(m, user).Next?
    ensures (if user then m.ustart else 0) <= g < Palloc(m, user).value.1 ==> m.Taken(g)
  {
  }

  /** Entry vp of table t in the active space becomes f. */
  lemma EntrySet(m: Mem, m': Mem, vp: nat, t: Frame, f: Frame, w: Use)
    requires Frames(m) && m.active in m.spaces && vp / ENTRIES in m.spaces[m.active].pd
    requires t == m.spaces[m.active].pd[vp / ENTRIES]
    requires m' == m.(tables := m.tables[t := m.TableAt(t)[vp % ENTRIES := f]], kpool := m'.kpool, upool := m'.upool)
    ensures FrameOf(m', w) == if w == UPage(m.active, vp) then Some(f) else FrameOf(m, w)
  {
    if w.UPage? && w.s in m.spaces && w.vp / ENTRIES in m.spaces[w.s].pd {
      assert FrameOf(m, Table(w.s, w.vp / ENTRIES)) == Some(m.spaces[w.s].pd[w.vp / ENTRIES]);
      assert FrameOf(m, Table(m.active, vp / ENTRIES)) == Some(t);
      SamePage(w.vp, vp);
    }
  }

  lemma SamePage(x: nat, y: nat)
    ensures x / ENTRIES == y / ENTRIES && x % ENTRIES == y % ENTRIES ==> x == y
  {
  }

  /** The palloc of a frame and its mapping by the active space's existing page table. */
  lemma MapInTable(m: Mem, vp: nat, pending: set<Use>)
    requires Inv(m, pending) && m.active in m.spaces && vp / ENTRIES in m.spaces[m.active].pd
    requires UPage(m.active, vp) in pending && Palloc(m, true).Next?
    requires MapUser(Palloc(m, true).value.0, vp, Palloc(m, true).value.1).Next?
    ensures var (m1, f) := Palloc(m, true).value; var m' := MapUser(m1, vp, f).value;
            Inv(m', pending - {UPage(m.active, vp)}) && Gains(m, m', UPage(m.active, vp), f) && SameBits(m, m')
  {
    var (m1, f) := Palloc(m, true).value;
    PallocTakes(m, true);
    var m' := MapUser(m1, vp, f).value;
    var t := m.spaces[m.active].pd[vp / ENTRIES];
    forall w ensures FrameOf(m', w) == if w == UPage(m.active, vp) then Some(f) else FrameOf(m, w) {
      EntrySet(m, m', vp, t, f, w);
    }
    assert forall g :: m'.Taken(g) <==> m1.Taken(g);
    assert FrameOf(m, UPage(m.active, vp)) == m1.Pte(m.active, vp);
    GainsInv(m, m', UPage(m.active, vp), f, pending);
  }

  /** A new, empty page table for directory entry d of the active space. */
  function AddTable(m: Mem, d: nat, t: Frame): Mem
    requires m.active in m.spaces
  {
    var s := m.spaces[m.active];
    m.(spaces := m.spaces[m.active := s.(pd := s.pd[d := t])], tables := m.tables[t := map[]], stale := m.stale[t := map[]])
  }

  lemma TableAdded(m: Mem, d: nat, t: Frame, m': Mem, w: Use)
    requires Frames(m) && m.active in m.spaces && d !in m.spaces[m.active].pd && !m.Taken(t)
    requires m' == AddTable(m, d, t).(kpool := m'.kpool, upool := m'.upool)
    ensures FrameOf(m', w) == if w == Table(m.active, d) then Some(t) else FrameOf(m, w)
  {
    if w.UPage? && w.s in m.spaces && w.vp / ENTRIES in m.spaces[w.s].pd {
      assert FrameOf(m, Table(w.s, w.vp / ENTRIES)) == Some(m.spaces[w.s].pd[w.vp / ENTRIES]);
      assert m.Taken(m.spaces[w.s].pd[w.vp / ENTRIES]);
    }
  }

  /** Clearing the frame first makes the rest of page_table_add the case of an existing table. */
  lemma AddTableInv(m: Mem, d: nat, pending: set<Use>)
    requires Inv(m, pending) && m.active in m.spaces && d !in m.spaces[m.active].pd && Palloc(m, false).Next?
    ensures var (m1, t) := Palloc(m, false).value; var m' := AddTable(m1, d, t);
            Inv(m', pending) && Gains(m, m', Table(m.active, d), t) && SameBits(m, m')
  {
    var (m1, t) := Palloc(m, false).value;
    PallocTakes(m, false);
    var m' := AddTable(m1, d, t);
    forall w ensures FrameOf(m', w) == if w == Table(m.active, d) then Some(t) else FrameOf(m, w) {
      TableAdded(m, d, t, m', w);
    }
    assert forall g :: m'.Taken(g) <==> m1.Taken(g);
    GainsInv(m, m', Table(m.active, d), t, pending);
    assert pending - {Table(m.active, d)} == pending;
  }

  // ---------------------------------------------------------------- malloc_page

  /** One turn of malloc_page's loop for a user page, and get_a_page_without_opvaddrbitmap. */
  function MapOneUser(m: Mem, vp: nat): Outcome<Mem>
    requires m.active in m.spaces
  {
    var (m1, f) :- Palloc(m, true);
    MapUser(m1, vp, f)
  }

  function MapOneKernel(m: Mem, k: nat): Outcome<Mem> {
    var (m1, f) :- Palloc(m, false);
    MapKernel(m1, k, f)
  }

  /** The two pools do not depend on each other, nor on the page tables. */
  lemma PoolsApart(m: Mem, d: nat)
    requires m.active in m.spaces && Palloc(m, true).Next? && Palloc(Palloc(m, true).value.0, false).Next?
    ensures Palloc(m, false).Next?
    ensures var (mu, f), (m1, t) := Palloc(m, true).value, Palloc(m, false).value; var m2 := AddTable(m1, d, t);
            && Palloc(mu, false) == Next((mu.(kpool := m1.kpool), t))
            && Palloc(m2, true) == Next((m2.(upool := mu.upool), f))
            && m1 == m.(kpool := m1.kpool) && mu == m.(upool := mu.upool)
  {
  }

  lemma TableThenMap(m: Mem, vp: nat, f: Frame)
    requires m.active in m.spaces && vp / ENTRIES !in m.spaces[m.active].pd && Palloc(m, false).Next?
    ensures var (m1, t) := Palloc(m, false).value; MapUser(m, vp, f) == MapUser(AddTable(m1, vp / ENTRIES, t), vp, f)
  {
    var (m1, t) := Palloc(m, false).value;
    assert m1 == m.(kpool := m1.kpool);
    hide Palloc;
    var a, b := MapUser(m, vp, f).value, MapUser(AddTable(m1, vp / ENTRIES, t), vp, f).value;
    assert a.tables == b.tables && a.stale == b.stale && a.spaces == b.spaces;
  }

  lemma NewTableFirst(m: Mem, vp: nat)
    requires m.active in m.spaces && vp / ENTRIES !in m.spaces[m.active].pd && MapOneUser(m, vp).Next?
    ensures Palloc(m, false).Next?
    ensures var (m1, t) := Palloc(m, false).value; var m2 := AddTable(m1, vp / ENTRIES, t);
            Palloc(m2, true).Next? && MapOneUser(m2, vp) == MapOneUser(m, vp)
            && Palloc(m2, true).value.1 == Palloc(m, true).value.1
  {
    PoolsApart(m, vp / ENTRIES);
    var (mu, f) := Palloc(m, true).value;
    TableThenMap(mu, vp, f);
    hide Palloc, MapUser;
    var (m1, t) := Palloc(m, false).value;
    assert AddTable(m1, vp / ENTRIES, t).(upool := mu.upool) == AddTable(mu.(kpool := m1.kpool), vp / ENTRIES, t);
  }

  /** Of all other uses and frames, only a page table can have been added. */
  ghost predicate Mapped(m: Mem, m': Mem, u: Use) {
    && FrameOf(m, u).None? && FrameOf(m', u).Some? && !m.Taken(FrameOf(m', u).value)
    && (forall w: Use {:trigger FrameOf(m', w)} :: w != u && !w.Table? ==> FrameOf(m', w) == FrameOf(m, w))
    && (forall w: Use {:trigger FrameOf(m', w)} :: FrameOf(m, w).Some? ==> FrameOf(m', w) == FrameOf(m, w))
    && (forall g :: m.Taken(g) ==> m'.Taken(g))
    && SameBits(m, m') && m'.content == m.content && m'.active == m.active && m'.spaces.Keys == m.spaces.Keys
    && (forall s :: s in m.spaces ==> m'.spaces[s].bits == m.spaces[s].bits)
    && m'.kbits == m.kbits && m'.ustart == m.ustart
    && |m'.kpool| == |m.kpool| && |m'.upool| == |m.upool|
  }

  lemma MapOneUserRest(m: Mem, vp: nat)
    requires m.active in m.spaces && MapOneUser(m, vp).Next?
    ensures var m' := MapOneUser(m, vp).value;
            && m'.content == m.content && m'.active == m.active && m'.kbits == m.kbits && m'.spaces.Keys == m.spaces.Keys
            && (forall s :: s in m.spaces ==> m'.spaces[s].bits == m.spaces[s].bits)
            && (vp / ENTRIES in m.spaces[m.active].pd ==> m'.spaces == m.spaces)
  {
  }

  /** Mapping a user page, with a new page table if there is none, keeps the invariant: its bit was set
      in advance, and a page that is mapped already stops the machine. */
  lemma MapOneUserInv(m: Mem, vp: nat, pending: set<Use>)
    requires Inv(m, pending) && m.active in m.spaces && UPage(m.active, vp) in pending && MapOneUser(m, vp).Next?
    ensures var m' := MapOneUser(m, vp).value;
            Inv(m', pending - {UPage(m.active, vp)}) && Mapped(m, m', UPage(m.active, vp))
  {
    var u := UPage(m.active, vp);
    MapOneUserRest(m, vp);
    hide Inv, FrameOf, SameBits;
    if vp / ENTRIES in m.spaces[m.active].pd {
      MapInTable(m, vp, pending);
      GainsMaps(m, m, MapOneUser(m, vp).value, u, FrameOf(MapOneUser(m, vp).value, u).value);
    } else {
      NewTableFirst(m, vp);
      AddTableInv(m, vp / ENTRIES, pending);
      var (m1, t) := Palloc(m, false).value;
      var m2 := AddTable(m1, vp / ENTRIES, t);
      MapInTable(m2, vp, pending);
      TableThenPage(m, m2, MapOneUser(m, vp).value, Table(m.active, vp / ENTRIES), t, u);
    }
  }

  lemma GainsMaps(m: Mem, m0: Mem, m': Mem, u: Use, f: Frame)
    requires m0 == m && Gains(m, m', u, f) && SameBits(m, m') && !u.Table?
    requires m'.content == m.content && m'.active == m.active && m'.spaces == m.spaces && m'.kbits == m.kbits
    ensures Mapped(m, m', u)
  {
  }

  lemma TableThenPage(m: Mem, m2: Mem, m': Mem, table: Use, t: Frame, u: Use)
    requires Gains(m, m2, table, t) && SameBits(m, m2) && table.Table? && !u.Table?
    requires exists f :: Gains(m2, m', u, f)
    requires SameBits(m2, m') && m'.content == m.content && m'.active == m.active && m'.kbits == m.kbits
    requires m'.spaces.Keys == m.spaces.Keys && forall s :: s in m.spaces ==> m'.spaces[s].bits == m.spaces[s].bits
    ensures Mapped(m, m', u)
  {
    var f :| Gains(m2, m', u, f);
    forall w: Use ensures w != u && !w.Table? ==> FrameOf(m', w) == FrameOf(m, w) {
      assert w != u ==> FrameOf(m', w) == FrameOf(m2, w);
      assert w != table ==> FrameOf(m2, w) == FrameOf(m, w);
    }
    forall w: Use | FrameOf(m, w).Some? ensures FrameOf(m', w) == FrameOf(m, w) {
      assert FrameOf(m2, w) == FrameOf(m, w);
      assert w != u ==> FrameOf(m', w) == FrameOf(m2, w);
    }
    assert FrameOf(m2, u) == FrameOf(m, u);
    forall w ensures BitOf(m', w) == BitOf(m, w) {
      assert BitOf(m', w) == BitOf(m2, w);
    }
  }

  lemma MapOneKernelInv(m: Mem, k: nat, pending: set<Use>)
    requires Inv(m, pending) && KPage(k) in pending && MapOneKernel(m, k).Next?
    ensures var m' := MapOneKernel(m, k).value; Inv(m', pending - {KPage(k)}) && Mapped(m, m', KPage(k))
  {
    PallocTakes(m, false);
    var (m1, f) := Palloc(m, false).value;
    var m' := MapOneKernel(m, k).value;
    forall w ensures FrameOf(m', w) == if w == KPage(k) then Some(f) else FrameOf(m, w) {
    }
    assert forall g :: m'.Taken(g) <==> m1.Taken(g);
    assert SameBits(m, m');
    GainsInv(m, m', KPage(k), f, pending);
    GainsMaps(m, m, m', KPage(k), f);
  }

  function MapUserRange(m: Mem, vp: nat, n: nat): Outcome<Mem>
    requires m.active in m.spaces
    decreases n
  {
    if n == 0 then Next(m)
    else
      var m1 :- MapOneUser(m, vp);
      if m1.active !in m1.spaces then Halted else MapUserRange(m1, vp + 1, n - 1)
  }

  function MapKernelRange(m: Mem, k: nat, n: nat): Outcome<Mem>
    decreases n
  {
    if n == 0 then Next(m)
    else
      var m1 :- MapOneKernel(m, k);
      MapKernelRange(m1, k + 1, n - 1)
  }

  ghost function UserRange(s: Sid, vp: nat, n: nat): set<Use> {
    set i | vp <= i < vp + n :: UPage(s, i)
  }

  ghost function KernelRange(k: nat, n: nat): set<Use> {
    set i | k <= i < k + n :: KPage(i)
  }

  /** Pages in `us` gained a frame each; everything else, page tables apart, is as it was. */
  ghost predicate MappedAll(m: Mem, m': Mem, us: set<Use>) {
    && (forall u: Use {:trigger FrameOf(m', u)} :: u in us ==>
          FrameOf(m, u).None? && FrameOf(m', u).Some? && !m.Taken(FrameOf(m', u).value))
    && (forall w: Use {:trigger FrameOf(m', w)} :: w !in us && !w.Table? ==> FrameOf(m', w) == FrameOf(m, w))
    && (forall w: Use {:trigger FrameOf(m', w)} :: FrameOf(m, w).Some? ==> FrameOf(m', w) == FrameOf(m, w))
    && (forall g :: m.Taken(g) ==> m'.Taken(g))
    && m'.content == m.content && m'.active == m.active && m'.spaces.Keys == m.spaces.Keys
    && |m'.kpool| == |m.kpool| && |m'.upool| == |m.upool| && m'.ustart == m.ustart
  }

  lemma MappedMore(m: Mem, m1: Mem, m': Mem, u: Use, us: set<Use>)
    requires Mapped(m, m1, u) && MappedAll(m1, m', us) && !u.Table? && u !in us
    requires forall w: Use :: w in us ==> !w.Table?
    ensures MappedAll(m, m', us + {u})
  {
    forall w: Use | w in us + {u}
      ensures FrameOf(m, w).None? && FrameOf(m', w).Some? && !m.Taken(FrameOf(m', w).value)
    {
      if w == u {
        assert FrameOf(m', u) == FrameOf(m1, u);
      } else {
        assert w in us && FrameOf(m1, w) == FrameOf(m, w);
        assert FrameOf(m', w).Some? && !m1.Taken(FrameOf(m', w).value);
      }
    }
    forall w: Use | w !in us + {u} && !w.Table? ensures FrameOf(m', w) == FrameOf(m, w) {
      assert FrameOf(m', w) == FrameOf(m1, w) == FrameOf(m, w);
    }
    forall w: Use | FrameOf(m, w).Some? ensures FrameOf(m', w) == FrameOf(m, w) {
      assert FrameOf(m1, w) == FrameOf(m, w);
    }
  }

  lemma {:induction false} MapUserRangeInv(m: Mem, vp: nat, n: nat, pending: set<Use>)
    requires Inv(m, pending) && m.active in m.spaces && UserRange(m.active, vp, n) <= pending
    requires MapUserRange(m, vp, n).Next?
    ensures var m' := MapUserRange(m, vp, n).value;
            Inv(m', pending - UserRange(m.active, vp, n)) && MappedAll(m, m', UserRange(m.active, vp, n))
    decreases n
  {
    if n == 0 {
      assert pending - UserRange(m.active, vp, 0) == pending;
    } else {
      var u := UPage(m.active, vp);
      UserRangeSplit(m.active, vp, n);
      MapOneUserInv(m, vp, pending);
      var m1 := MapOneUser(m, vp).value;
      var rest := UserRange(m.active, vp + 1, n - 1);
      MapUserRangeInv(m1, vp + 1, n - 1, pending - {u});
      MappedMore(m, m1, MapUserRange(m, vp, n).value, u, rest);
      assert pending - {u} - rest == pending - UserRange(m.active, vp, n);
    }
  }

  lemma UserRangeMember(s: Sid, vp: nat, n: nat, w: Use)
    ensures w in UserRange(s, vp, n) <==> w.UPage? && w.s == s && vp <= w.vp < vp + n
  {
    if w.UPage? && w.s == s && vp <= w.vp < vp + n {
      assert w == UPage(s, w.vp);
    }
  }

  lemma KernelRangeMember(k: nat, n: nat, w: Use)
    ensures w in KernelRange(k, n) <==> w.KPage? && k <= w.k < k + n
  {
    if w.KPage? && k <= w.k < k + n {
      assert w == KPage(w.k);
    }
  }

  lemma UserRangeSplit(s: Sid, vp: nat, n: nat)
    requires n > 0
    ensures UserRange(s, vp, n) == UserRange(s, vp + 1, n - 1) + {UPage(s, vp)}
    ensures UPage(s, vp) !in UserRange(s, vp + 1, n - 1)
  {
    forall w ensures w in UserRange(s, vp, n) <==> w in UserRange(s, vp + 1, n - 1) + {UPage(s, vp)} {
      UserRangeMember(s, vp, n, w);
      UserRangeMember(s, vp + 1, n - 1, w);
    }
  }

  lemma KernelRangeSplit(k: nat, n: nat)
    requires n > 0
    ensures KernelRange(k, n) == KernelRange(k + 1, n - 1) + {KPage(k)}
    ensures KPage(k) !in KernelRange(k + 1, n - 1)
  {
    forall w ensures w in KernelRange(k, n) <==> w in KernelRange(k + 1, n - 1) + {KPage(k)} {
      KernelRangeMember(k, n, w);
      KernelRangeMember(k + 1, n - 1, w);
    }
  }

  lemma {:induction false} MapKernelRangeInv(m: Mem, k: nat, n: nat, pending: set<Use>)
    requires Inv(m, pending) && KernelRange(k, n) <= pending && MapKernelRange(m, k, n).Next?
    ensures var m' := MapKernelRange(m, k, n).value;
            Inv(m', pending - KernelRange(k, n)) && MappedAll(m, m', KernelRange(k, n))
    decreases n
  {
    if n == 0 {
      assert pending - KernelRange(k, 0) == pending;
    } else {
      KernelRangeSplit(k, n);
      MapOneKernelInv(m, k, pending);
      var m1 := MapOneKernel(m, k).value;
      var rest := KernelRange(k + 1, n - 1);
      MapKernelRangeInv(m1, k + 1, n - 1, pending - {KPage(k)});
      MappedMore(m, m1, MapKernelRange(m, k, n).value, KPage(k), rest);
      assert pending - {KPage(k)} - rest == pending - KernelRange(k, n);
    }
  }

  // ---------------------------------------------------------------- the virtual bitmaps

  lemma SetUserBitsInv(m: Mem, s: Sid, lo: nat, n: nat, pending: set<Use>)
    requires Inv(m, pending) && s in m.spaces && lo + n <= |m.spaces[s].bits|
    ensures Inv(SetUserBits(m, s, lo, n, true), pending + UserRange(s, USER_START + lo, n))
  {
    var m' := SetUserBits(m, s, lo, n, true);
    var us := UserRange(s, USER_START + lo, n);
    BitsOnly(m, m');
    forall w: Use | !w.Table? ensures BitOf(m', w) <==> FrameOf(m', w).Some? || w in pending + us {
      UserRangeMember(s, USER_START + lo, n, w);
      assert BitOf(m, w) <==> FrameOf(m, w).Some? || w in pending;
    }
  }

  lemma SetKernelBitsInv(m: Mem, lo: nat, n: nat, pending: set<Use>)
    requires Inv(m, pending) && lo + n <= |m.kbits|
    ensures Inv(SetKernelBits(m, lo, n, true), pending + KernelRange(lo, n))
  {
    var m' := SetKernelBits(m, lo, n, true);
    var us := KernelRange(lo, n);
    BitsOnly(m, m');
    forall w: Use | !w.Table? ensures BitOf(m', w) <==> FrameOf(m', w).Some? || w in pending + us {
      KernelRangeMember(lo, n, w);
      assert BitOf(m, w) <==> FrameOf(m, w).Some? || w in pending;
    }
  }

  /** Nothing but virtual bits and data differs. */
  ghost predicate SameFrames(m: Mem, m': Mem) {
    && m'.kpool == m.kpool && m'.upool == m.upool && m'.ustart == m.ustart
    && forall w {:trigger FrameOf(m', w)} :: FrameOf(m', w) == FrameOf(m, w)
  }

  lemma SameFramesInv(m: Mem, m': Mem)
    requires Frames(m) && SameFrames(m, m')
    ensures Frames(m')
  {
    forall f: Frame | m'.Taken(f) ensures Owned(m', f) {
      assert m.Taken(f) && Owned(m, f);
      var w :| FrameOf(m, w) == Some(f);
      assert FrameOf(m', w) == Some(f);
    }
  }

  lemma BitsOnly(m: Mem, m': Mem)
    requires Frames(m) && m'.kmap == m.kmap && m'.tables == m.tables && m'.spaces.Keys == m.spaces.Keys
    requires forall s :: s in m.spaces ==> m'.spaces[s].pd == m.spaces[s].pd
    requires m'.kpool == m.kpool && m'.upool == m.upool && m'.ustart == m.ustart
    ensures SameFrames(m, m') && Frames(m')
  {
    SameFramesInv(m, m');
  }

  // ---------------------------------------------------------------- allocating pages

  function KernelFrames(m: Mem, k: nat, n: nat): set<Frame> {
    set i | k <= i < k + n && i in m.kmap :: m.kmap[i]
  }

  function Zeroed(m: Mem, fs: set<Frame>): Mem {
    m.(content := map f | f in m.content.Keys + fs :: if f in fs then 0 else m.content[f])
  }

  /** get_kernel_pages; `start` is what bitmap_scan answered. */
  function GetKernelPages(m: Mem, start: nat, n: nat): Outcome<Mem> {
    var m1 :- MapKernelRange(SetKernelBits(m, start, n, true), start, n);
    Next(Zeroed(m1, KernelFrames(m1, start, n)))
  }

  /** malloc_page for the running process. */
  function MallocUserPages(m: Mem, start: nat, n: nat): Outcome<Mem>
    requires m.active in m.spaces
  {
    if USER_START + start >= KERNEL_START - 1 then Halted
    else MapUserRange(SetUserBits(m, m.active, start, n, true), USER_START + start, n)
  }

  /** get_a_page for the running process. */
  function GetAPage(m: Mem, vp: nat): Outcome<Mem>
    requires m.active in m.spaces && vp >= USER_START
  {
    if vp == USER_START then Halted
    else MapOneUser(SetUserBits(m, m.active, vp - USER_START, 1, true), vp)
  }

  lemma GetKernelPagesInv(m: Mem, start: nat, n: nat)
    requires Inv(m, {}) && start + n <= |m.kbits| && GetKernelPages(m, start, n).Next?
    ensures var m' := GetKernelPages(m, start, n).value;
            Inv(m', {}) && MappedAll(m, m'.(content := m.content), KernelRange(start, n))
            && (forall f :: m.Taken(f) ==> m'.ContentOf(f) == m.ContentOf(f))
            && (forall i :: start <= i < start + n ==> i in m'.kmap && m'.ContentOf(m'.kmap[i]) == 0)
            && (forall s :: s in m.spaces ==> m'.spaces[s] == m.spaces[s])
  {
    var us := KernelRange(start, n);
    var m0 := SetKernelBits(m, start, n, true);
    SetKernelBitsInv(m, start, n, {});
    MapKernelRangeInv(m0, start, n, us);
    KernelMapOnly(m0, start, n);
    var m1 := MapKernelRange(m0, start, n).value;
    var m' := GetKernelPages(m, start, n).value;
    assert {} + us == us && us - us == {};
    BitsOnly(m, m0);
    ContentOnly(m1, m', {});
    MappedRebase(m, m0, m1, m', us);
    forall i | start <= i < start + n ensures i in m'.kmap && m'.kmap[i] in KernelFrames(m1, start, n) {
      KernelRangeMember(start, n, KPage(i));
      assert FrameOf(m1, KPage(i)).Some?;
    }
    forall f: Frame | m.Taken(f) ensures f !in KernelFrames(m1, start, n) {
      forall i | start <= i < start + n && i in m1.kmap ensures m1.kmap[i] != f {
        KernelRangeMember(start, n, KPage(i));
        assert FrameOf(m1, KPage(i)) == Some(m1.kmap[i]);
      }
    }
  }

  lemma {:induction false} KernelMapOnly(m: Mem, k: nat, n: nat)
    requires MapKernelRange(m, k, n).Next?
    ensures MapKernelRange(m, k, n).value.spaces == m.spaces
    decreases n
  {
    if n > 0 {
      KernelMapOnly(MapOneKernel(m, k).value, k + 1, n - 1);
    }
  }

  lemma ContentOnly(m: Mem, m': Mem, pending: set<Use>)
    requires Inv(m, pending) && m' == m.(content := m'.content)
    ensures Inv(m', pending) && SameFrames(m, m')
  {
    SameFramesInv(m, m');
    forall w: Use ensures BitOf(m', w) == BitOf(m, w) && FrameOf(m', w) == FrameOf(m, w) {
    }
  }

  lemma MappedRebase(m: Mem, m0: Mem, m1: Mem, m': Mem, us: set<Use>)
    requires SameFrames(m, m0) && MappedAll(m0, m1, us) && m' == m1.(content := m'.content)
    requires m0.content == m.content && m0.active == m.active && m0.spaces.Keys == m.spaces.Keys
    ensures MappedAll(m, m'.(content := m.content), us)
  {
    var m2 := m'.(content := m.content);
    forall w: Use ensures FrameOf(m2, w) == FrameOf(m1, w) && FrameOf(m0, w) == FrameOf(m, w) {
    }
    forall g: Frame ensures m2.Taken(g) == m1.Taken(g) && m0.Taken(g) == m.Taken(g) {
    }
  }

  /** Allocating user pages maps every page of the range to a frame of its own and touches no other page. */
  lemma MallocUserPagesInv(m: Mem, start: nat, n: nat)
    requires Inv(m, {}) && m.active in m.spaces && start + n <= |m.spaces[m.active].bits|
    requires MallocUserPages(m, start, n).Next?
    ensures var m' := MallocUserPages(m, start, n).value;
            Inv(m', {}) && MappedAll(m, m', UserRange(m.active, USER_START + start, n))
  {
    var us := UserRange(m.active, USER_START + start, n);
    var m0 := SetUserBits(m, m.active, start, n, true);
    SetUserBitsInv(m, m.active, start, n, {});
    assert {} + us == us && us - us == {};
    MapUserRangeInv(m0, USER_START + start, n, us);
    BitsOnly(m, m0);
    var m' := MallocUserPages(m, start, n).value;
    MappedRebase(m, m0, m', m', us);
    assert m'.(content := m.content) == m';
  }

  lemma GetAPageInv(m: Mem, vp: nat)
    requires Inv(m, {}) && m.active in m.spaces && USER_START <= vp < USER_START + |m.spaces[m.active].bits|
    requires GetAPage(m, vp).Next?
    ensures var m' := GetAPage(m, vp).value; Inv(m', {}) && MappedAll(m, m', {UPage(m.active, vp)})
  {
    var u := UPage(m.active, vp);
    var m0 := SetUserBits(m, m.active, vp - USER_START, 1, true);
    SetUserBitsInv(m, m.active, vp - USER_START, 1, {});
    var us := UserRange(m.active, vp, 1);
    forall w ensures w in us <==> w == u {
      UserRangeMember(m.active, vp, 1, w);
    }
    assert us == {u} && {} + us == {u} && {u} - {u} == {};
    MapOneUserInv(m0, vp, {u});
    var m' := GetAPage(m, vp).value;
    BitsOnly(m, m0);
    assert MappedAll(m0, m', {u});
    MappedRebase(m, m0, m', m', {u});
    assert m'.(content := m.content) == m';
  }

  // ---------------------------------------------------------------- freeing pages

  /** The assertions of mfree_page about one address; `user` says which pool the first one was in. */
  predicate Freeable(m: Mem, held: Option<Frame>, user: bool) {
    && held.Some? && (held.value >= m.ustart) == user
    && if user then held.value < m.ustart + |m.upool| else held.value < |m.kpool|
  }

  /** The loops of mfree_page: each address gives back the frame that addr_v2p answers, mapped or not. */
  function FreeUserRange(m: Mem, vp: nat, n: nat, user: bool): Outcome<Mem>
    decreases n
  {
    if n == 0 then Next(m)
    else if !Freeable(m, m.Held(m.active, vp), user) then Halted
    else FreeUserRange(Unmap(Pfree(m, m.Held(m.active, vp).value), vp), vp + 1, n - 1, user)
  }

  function FreeKernelRange(m: Mem, k: nat, n: nat, user: bool): Outcome<Mem>
    decreases n
  {
    if n == 0 then Next(m)
    else if !Freeable(m, m.KernelHeld(k), user) then Halted
    else FreeKernelRange(UnmapKernel(Pfree(m, m.KernelHeld(k).value), k), k + 1, n - 1, user)
  }

  /** mfree_page for the running process. */
  function FreeUserPages(m: Mem, vp: nat, n: nat): Outcome<Mem>
    requires m.active in m.spaces && vp >= USER_START
  {
    if n < 1 || m.Held(m.active, vp).None? then Halted
    else
      var m1 :- FreeUserRange(m, vp, n, m.Held(m.active, vp).value >= m.ustart);
      if m.active !in m1.spaces then Halted
      else Next(SetUserBits(m1, m.active, vp - USER_START, n, false))
  }

  function FreeKernelPages(m: Mem, k: nat, n: nat): Outcome<Mem> {
    if n < 1 || m.KernelHeld(k).None? then Halted
    else
      var m1 :- FreeKernelRange(m, k, n, m.KernelHeld(k).value >= m.ustart);
      Next(SetKernelBits(m1, k, n, false))
  }

  ghost function HeldFrames(m: Mem, vp: nat, n: nat): set<Frame> {
    set i | vp <= i < vp + n && m.Held(m.active, i).Some? :: m.Held(m.active, i).value
  }

  ghost function KernelHeldFrames(m: Mem, k: nat, n: nat): set<Frame> {
    set i | k <= i < k + n && m.KernelHeld(i).Some? :: m.KernelHeld(i).value
  }

  /** The uses `us` have no frame any more, and the frames `fs` are free. */
  ghost predicate Gone(m: Mem, m': Mem, us: set<Use>, fs: set<Frame>) {
    && (forall u: Use {:trigger FrameOf(m', u)} :: FrameOf(m', u) == if u in us then None else FrameOf(m, u))
    && (forall g {:trigger m'.Taken(g)} :: m'.Taken(g) <==> m.Taken(g) && g !in fs)
    && m'.content == m.content && m'.active == m.active && m'.spaces == m.spaces && m'.kbits == m.kbits
    && |m'.kpool| == |m.kpool| && |m'.upool| == |m.upool| && m'.ustart == m.ustart
  }

  /** No two page tables are the same frame. */
  ghost predicate TablesDistinct(m: Mem) {
    forall u: Use, w: Use {:trigger FrameOf(m, u), FrameOf(m, w)} ::
      u.Table? && w.Table? && FrameOf(m, u).Some? && FrameOf(m, u) == FrameOf(m, w) ==> u == w
  }

  lemma PfreeGives(m: Mem, f: Frame)
    requires if f >= m.ustart then f < m.ustart + |m.upool| else f < |m.kpool|
    requires |m.kpool| <= m.ustart
    ensures var m1 := Pfree(m, f);
            && (forall g {:trigger m1.Taken(g)} :: m1.Taken(g) <==> m.Taken(g) && g != f)
            && |m1.kpool| == |m.kpool| && |m1.upool| == |m.upool| && m1 == m.(kpool := m1.kpool, upool := m1.upool)
  {
  }

  /** Clearing a present bit changes one entry of one page table. */
  lemma TableCleared(m: Mem, vp: nat, s: Sid, d: nat)
    requires TablesDistinct(m) && s in m.spaces && d in m.spaces[s].pd && m.Pte(m.active, vp).Some?
    ensures var t, m' := m.spaces[s].pd[d], Unmap(m, vp);
            if s == m.active && d == vp / ENTRIES then
              && m'.TableAt(t) == Without(m.TableAt(t), vp % ENTRIES)
              && m'.StaleAt(t) == m.StaleAt(t)[vp % ENTRIES := m.Pte(m.active, vp).value]
            else m'.TableAt(t) == m.TableAt(t) && m'.StaleAt(t) == m.StaleAt(t)
  {
    assert FrameOf(m, Table(s, d)) == Some(m.spaces[s].pd[d]);
    assert FrameOf(m, Table(m.active, vp / ENTRIES)) == Some(m.spaces[m.active].pd[vp / ENTRIES]);
  }

  /** It takes the page's frame away and changes no other page and no answer of addr_v2p. */
  lemma EntryCleared(m: Mem, vp: nat, w: Use)
    requires TablesDistinct(m)
    ensures FrameOf(Unmap(m, vp), w) == if w == UPage(m.active, vp) then None else FrameOf(m, w)
    ensures w.UPage? ==> Unmap(m, vp).Held(w.s, w.vp) == m.Held(w.s, w.vp)
  {
    if w.UPage? && w.s in m.spaces && w.vp / ENTRIES in m.spaces[w.s].pd && m.Pte(m.active, vp).Some? {
      TableCleared(m, vp, w.s, w.vp / ENTRIES);
      SamePage(w.vp, vp);
    }
  }

  lemma PoolsAside(m: Mem, m1: Mem)
    requires m1 == m.(kpool := m1.kpool, upool := m1.upool)
    ensures forall w {:trigger FrameOf(m1, w)} :: FrameOf(m1, w) == FrameOf(m, w)
    ensures forall s, i {:trigger m1.Held(s, i)} :: m1.Held(s, i) == m.Held(s, i)
  {
    forall s: Sid, i: nat ensures m1.Held(s, i) == m.Held(s, i) {
      assert m1.Pte(s, i) == m.Pte(s, i);
    }
  }

  lemma GoneMore(m: Mem, m1: Mem, m': Mem, u: Use, f: Frame, us: set<Use>, fs: set<Frame>)
    requires Gone(m, m1, {u}, {f}) && Gone(m1, m', us, fs)
    ensures Gone(m, m', us + {u}, fs + {f})
  {
    forall w ensures FrameOf(m', w) == if w in us + {u} then None else FrameOf(m, w) {
      assert FrameOf(m1, w) == if w in {u} then None else FrameOf(m, w);
    }
    forall g ensures m'.Taken(g) <==> m.Taken(g) && g !in fs + {f} {
      assert m1.Taken(g) <==> m.Taken(g) && g !in {f};
    }
  }

  lemma UnmapFrame(m: Mem, vp: nat)
    ensures Unmap(m, vp) == m.(tables := Unmap(m, vp).tables, stale := Unmap(m, vp).stale)
  {
  }

  /** One address of the user loop. */
  lemma FreeOneUser(m: Mem, vp: nat, user: bool)
    requires TablesDistinct(m) && |m.kpool| <= m.ustart && Freeable(m, m.Held(m.active, vp), user)
    ensures var f := m.Held(m.active, vp).value; var m' := Unmap(Pfree(m, f), vp);
            && Gone(m, m', {UPage(m.active, vp)}, {f}) && TablesDistinct(m')
            && HeldStays(m, m') && SameSizes(m, m')
  {
    var f := m.Held(m.active, vp).value;
    PfreeGives(m, f);
    var m1 := Pfree(m, f);
    var m' := Unmap(m1, vp);
    PoolsAside(m, m1);
    hide Unmap, Pfree;
    forall w ensures FrameOf(m', w) == if w in {UPage(m.active, vp)} then None else FrameOf(m, w) {
      EntryCleared(m1, vp, w);
    }
    forall i: nat ensures m'.Held(m.active, i) == m.Held(m.active, i) {
      EntryCleared(m1, vp, UPage(m.active, i));
    }
    assert forall g :: m'.Taken(g) <==> m1.Taken(g);
    UnmapFrame(m1, vp);
  }

  /** addr_v2p answers the same for every page of the running process. */
  ghost predicate HeldStays(m: Mem, m1: Mem) {
    forall i {:trigger m1.Held(m.active, i)} :: m1.Held(m.active, i) == m.Held(m.active, i)
  }

  ghost predicate SameSizes(m: Mem, m1: Mem) {
    m1.active == m.active && m1.ustart == m.ustart && |m1.kpool| == |m.kpool| && |m1.upool| == |m.upool|
  }

  ghost predicate AllFreeable(m: Mem, vp: nat, n: nat, user: bool) {
    forall i {:trigger m.Held(m.active, i)} :: vp <= i < vp + n ==> Freeable(m, m.Held(m.active, i), user)
  }

  lemma AnswersStay(m: Mem, m1: Mem, vp: nat, n: nat, user: bool)
    requires n > 0 && HeldStays(m, m1) && SameSizes(m, m1) && Freeable(m, m.Held(m.active, vp), user)
    ensures AllFreeable(m, vp, n, user) <==> AllFreeable(m1, vp + 1, n - 1, user)
  {
    hide Mem.Held;
    forall i | vp + 1 <= i < vp + n
      ensures Freeable(m1, m1.Held(m1.active, i), user) <==> Freeable(m, m.Held(m.active, i), user)
    {
      assert m1.Held(m.active, i) == m.Held(m.active, i);
    }
  }

  lemma HeldFramesSplit(m: Mem, m1: Mem, vp: nat, n: nat)
    requires n > 0 && m.Held(m.active, vp).Some? && m1.active == m.active
    requires HeldStays(m, m1)
    ensures HeldFrames(m, vp, n) == HeldFrames(m1, vp + 1, n - 1) + {m.Held(m.active, vp).value}
  {
    hide Mem.Held;
    var rest := HeldFrames(m1, vp + 1, n - 1);
    forall f ensures f in HeldFrames(m, vp, n) <==> f in rest + {m.Held(m.active, vp).value} {
      if f in HeldFrames(m, vp, n) {
        var i :| vp <= i < vp + n && m.Held(m.active, i) == Some(f);
        assert m1.Held(m.active, i) == m.Held(m.active, i);
      }
      if f in rest {
        var i :| vp + 1 <= i < vp + n && m1.Held(m1.active, i) == Some(f);
        assert m.Held(m.active, i) == Some(f);
      }
    }
  }

  lemma KernelHeldFramesSplit(m: Mem, m1: Mem, k: nat, n: nat)
    requires n > 0 && m.KernelHeld(k).Some?
    requires forall i {:trigger m1.KernelHeld(i)} :: m1.KernelHeld(i) == m.KernelHeld(i)
    ensures KernelHeldFrames(m, k, n) == KernelHeldFrames(m1, k + 1, n - 1) + {m.KernelHeld(k).value}
  {
    hide Mem.KernelHeld;
    var rest := KernelHeldFrames(m1, k + 1, n - 1);
    forall f ensures f in KernelHeldFrames(m, k, n) <==> f in rest + {m.KernelHeld(k).value} {
      if f in KernelHeldFrames(m, k, n) {
        var i :| k <= i < k + n && m.KernelHeld(i) == Some(f);
        assert m1.KernelHeld(i) == m.KernelHeld(i);
      }
      if f in rest {
        var i :| k + 1 <= i < k + n && m1.KernelHeld(i) == Some(f);
        assert m.KernelHeld(i) == Some(f);
      }
    }
  }

  /** The loop stops the machine iff one of the answers is not in the pool; otherwise the pages are unmapped
      and all the frames answered are free. */
  lemma {:induction false} FreeUserRangeIs(m: Mem, vp: nat, n: nat, user: bool)
    requires TablesDistinct(m) && |m.kpool| <= m.ustart
    ensures FreeUserRange(m, vp, n, user).Next? <==> AllFreeable(m, vp, n, user)
    ensures FreeUserRange(m, vp, n, user).Next? ==>
              Gone(m, FreeUserRange(m, vp, n, user).value, UserRange(m.active, vp, n), HeldFrames(m, vp, n))
    decreases n
  {
    if n > 0 && Freeable(m, m.Held(m.active, vp), user) {
      var f := m.Held(m.active, vp).value;
      var m1 := Unmap(Pfree(m, f), vp);
      FreeOneUser(m, vp, user);
      hide Gone, Unmap, Pfree, Mem.Held, TablesDistinct, HeldStays;
      FreeUserRangeIs(m1, vp + 1, n - 1, user);
      AnswersStay(m, m1, vp, n, user);
      if FreeUserRange(m, vp, n, user).Next? {
        UserRangeSplit(m.active, vp, n);
        HeldFramesSplit(m, m1, vp, n);
        GoneMore(m, m1, FreeUserRange(m, vp, n, user).value, UPage(m.active, vp), f,
                 UserRange(m.active, vp + 1, n - 1), HeldFrames(m1, vp + 1, n - 1));
      }
    }
  }

  lemma FreeOneKernel(m: Mem, k: nat, user: bool)
    requires |m.kpool| <= m.ustart && Freeable(m, m.KernelHeld(k), user)
    ensures var f := m.KernelHeld(k).value; var m' := UnmapKernel(Pfree(m, f), k);
            && Gone(m, m', {KPage(k)}, {f})
            && (forall i {:trigger m'.KernelHeld(i)} :: m'.KernelHeld(i) == m.KernelHeld(i))
  {
    var f := m.KernelHeld(k).value;
    PfreeGives(m, f);
    var m1 := Pfree(m, f);
    var m' := UnmapKernel(m1, k);
    hide Pfree;
    forall w ensures FrameOf(m', w) == if w in {KPage(k)} then None else FrameOf(m, w) {
    }
    assert forall g :: m'.Taken(g) <==> m1.Taken(g);
  }

  lemma {:induction false} FreeKernelRangeIs(m: Mem, k: nat, n: nat, user: bool)
    requires |m.kpool| <= m.ustart
    ensures FreeKernelRange(m, k, n, user).Next?
            <==> forall i {:trigger m.KernelHeld(i)} :: k <= i < k + n ==> Freeable(m, m.KernelHeld(i), user)
    ensures FreeKernelRange(m, k, n, user).Next? ==>
              Gone(m, FreeKernelRange(m, k, n, user).value, KernelRange(k, n), KernelHeldFrames(m, k, n))
    decreases n
  {
    if n > 0 && Freeable(m, m.KernelHeld(k), user) {
      var f := m.KernelHeld(k).value;
      var m1 := UnmapKernel(Pfree(m, f), k);
      FreeOneKernel(m, k, user);
      assert m1.ustart == m.ustart && |m1.kpool| == |m.kpool| && |m1.upool| == |m.upool|;
      hide Gone, UnmapKernel, Pfree, Mem.KernelHeld;
      FreeKernelRangeIs(m1, k + 1, n - 1, user);
      forall i | k + 1 <= i < k + n ensures Freeable(m1, m1.KernelHeld(i), user) <==> Freeable(m, m.KernelHeld(i), user) {
        assert m1.KernelHeld(i) == m.KernelHeld(i);
      }
      if FreeKernelRange(m, k, n, user).Next? {
        KernelRangeSplit(k, n);
        KernelHeldFramesSplit(m, m1, k, n);
        GoneMore(m, m1, FreeKernelRange(m, k, n, user).value, KPage(k), f,
                 KernelRange(k + 1, n - 1), KernelHeldFrames(m1, k + 1, n - 1));
      }
    }
  }

  /** Whoever else has one of the frames fs. */
  ghost predicate NobodyElseHas(m: Mem, us: set<Use>, fs: set<Frame>) {
    forall u {:trigger FrameOf(m, u)} :: FrameOf(m, u).Some? && FrameOf(m, u).value in fs ==> u in us
  }

  ghost predicate AllIn(m: Mem, us: set<Use>, fs: set<Frame>) {
    forall u {:trigger FrameOf(m, u)} :: u in us && FrameOf(m, u).Some? ==> FrameOf(m, u).value in fs
  }

  lemma GoneFramesIff(m: Mem, m': Mem, us: set<Use>, fs: set<Frame>)
    requires Frames(m) && Gone(m, m', us, fs) && AllIn(m, us, fs)
    ensures Frames(m') <==> NobodyElseHas(m, us, fs)
  {
    if NobodyElseHas(m, us, fs) {
      forall w | FrameOf(m', w).Some?
        ensures InPool(m', w, FrameOf(m', w).value) && m'.Taken(FrameOf(m', w).value)
      {
        assert FrameOf(m, w) == FrameOf(m', w);
      }
      forall w, x | FrameOf(m', w).Some? && FrameOf(m', w) == FrameOf(m', x) ensures w == x {
        assert FrameOf(m, w) == FrameOf(m', w) && FrameOf(m, x) == FrameOf(m', x);
      }
      forall g: Frame | m'.Taken(g) ensures Owned(m', g) {
        assert m.Taken(g) && Owned(m, g);
        var w :| FrameOf(m, w) == Some(g);
        assert FrameOf(m', w) == Some(g);
      }
    }
    if Frames(m') {
      forall u | FrameOf(m, u).Some? && FrameOf(m, u).value in fs ensures u in us {
        assert FrameOf(m', u) == if u in us then None else FrameOf(m, u);
      }
    }
  }

  /** The bits of `us` are cleared and no others. */
  ghost predicate BitsGone(m: Mem, m': Mem, us: set<Use>) {
    forall w {:trigger BitOf(m', w)} :: BitOf(m', w) <==> BitOf(m, w) && w !in us
  }

  /** Freeing is right exactly when nobody else has any of the frames given back. */
  lemma GoneInvIff(m: Mem, m1: Mem, m': Mem, us: set<Use>, fs: set<Frame>)
    requires Inv(m, {}) && Gone(m, m1, us, fs) && AllIn(m, us, fs) && SameFrames(m1, m') && BitsGone(m, m', us)
    ensures Inv(m', {}) <==> NobodyElseHas(m, us, fs)
  {
    GoneFramesIff(m, m1, us, fs);
    forall w: Use ensures FrameOf(m', w) == FrameOf(m1, w) {
    }
    if Frames(m1) {
      SameFramesInv(m1, m');
    }
    if Frames(m') {
      assert SameFrames(m', m1);
      SameFramesInv(m', m1);
    }
    forall w: Use | !w.Table? ensures BitOf(m', w) <==> FrameOf(m', w).Some? || w in {} {
      assert BitOf(m, w) <==> FrameOf(m, w).Some? || w in {};
    }
  }

  lemma UserBitsGone(m: Mem, m1: Mem, vp: nat, n: nat)
    requires m.active in m.spaces && vp >= USER_START
    requires m1.spaces == m.spaces && m1.kbits == m.kbits
    ensures BitsGone(m, SetUserBits(m1, m.active, vp - USER_START, n, false), UserRange(m.active, vp, n))
  {
    var m' := SetUserBits(m1, m.active, vp - USER_START, n, false);
    forall w ensures BitOf(m', w) <==> BitOf(m, w) && w !in UserRange(m.active, vp, n) {
      UserRangeMember(m.active, vp, n, w);
    }
  }

  lemma KernelBitsGone(m: Mem, m1: Mem, k: nat, n: nat)
    requires m1.spaces == m.spaces && m1.kbits == m.kbits
    ensures BitsGone(m, SetKernelBits(m1, k, n, false), KernelRange(k, n))
  {
    var m' := SetKernelBits(m1, k, n, false);
    forall w ensures BitOf(m', w) <==> BitOf(m, w) && w !in KernelRange(k, n) {
      KernelRangeMember(k, n, w);
    }
  }

  lemma UserRangeHeld(m: Mem, vp: nat, n: nat)
    ensures AllIn(m, UserRange(m.active, vp, n), HeldFrames(m, vp, n))
  {
    forall u | u in UserRange(m.active, vp, n) && FrameOf(m, u).Some? ensures FrameOf(m, u).value in HeldFrames(m, vp, n) {
      UserRangeMember(m.active, vp, n, u);
      assert m.Held(m.active, u.vp) == FrameOf(m, u);
    }
  }

  lemma KernelRangeHeld(m: Mem, k: nat, n: nat)
    ensures AllIn(m, KernelRange(k, n), KernelHeldFrames(m, k, n))
  {
    forall u | u in KernelRange(k, n) && FrameOf(m, u).Some? ensures FrameOf(m, u).value in KernelHeldFrames(m, k, n) {
      KernelRangeMember(k, n, u);
      assert m.KernelHeld(u.k) == FrameOf(m, u);
    }
  }

  /** mfree_page of any user pages, mapped or not: it unmaps them and gives back every frame their entries
      hold or last held, and that keeps everything in step iff no other page, table or kernel page has one. */
  lemma FreeUserPagesKeepsIff(m: Mem, vp: nat, n: nat)
    requires Inv(m, {}) && m.active in m.spaces && vp >= USER_START && FreeUserPages(m, vp, n).Next?
    ensures Inv(FreeUserPages(m, vp, n).value, {})
            <==> NobodyElseHas(m, UserRange(m.active, vp, n), HeldFrames(m, vp, n))
    ensures Freed(m, FreeUserPages(m, vp, n).value, UserRange(m.active, vp, n), HeldFrames(m, vp, n))
  {
    var us, fs := UserRange(m.active, vp, n), HeldFrames(m, vp, n);
    var user := m.Held(m.active, vp).value >= m.ustart;
    FreeUserRangeIs(m, vp, n, user);
    UserRangeHeld(m, vp, n);
    var m1 := FreeUserRange(m, vp, n, user).value;
    UserBitsGone(m, m1, vp, n);
    FreedRebase(m, m1, SetUserBits(m1, m.active, vp - USER_START, n, false), us, fs);
    GoneInvIff(m, m1, SetUserBits(m1, m.active, vp - USER_START, n, false), us, fs);
  }

  lemma FreeKernelPagesKeepsIff(m: Mem, k: nat, n: nat)
    requires Inv(m, {}) && FreeKernelPages(m, k, n).Next?
    ensures Inv(FreeKernelPages(m, k, n).value, {}) <==> NobodyElseHas(m, KernelRange(k, n), KernelHeldFrames(m, k, n))
    ensures Freed(m, FreeKernelPages(m, k, n).value, KernelRange(k, n), KernelHeldFrames(m, k, n))
    ensures FreeKernelPages(m, k, n).value.spaces == m.spaces
  {
    var us, fs := KernelRange(k, n), KernelHeldFrames(m, k, n);
    var user := m.KernelHeld(k).value >= m.ustart;
    FreeKernelRangeIs(m, k, n, user);
    KernelRangeHeld(m, k, n);
    var m1 := FreeKernelRange(m, k, n, user).value;
    KernelBitsGone(m, m1, k, n);
    FreedRebase(m, m1, SetKernelBits(m1, k, n, false), us, fs);
    GoneInvIff(m, m1, SetKernelBits(m1, k, n, false), us, fs);
  }

  ghost predicate Freed(m: Mem, m': Mem, us: set<Use>, fs: set<Frame>) {
    && (forall u: Use {:trigger FrameOf(m', u)} :: FrameOf(m', u) == if u in us then None else FrameOf(m, u))
    && (forall g {:trigger m'.Taken(g)} :: m'.Taken(g) <==> m.Taken(g) && g !in fs)
    && m'.content == m.content && m'.active == m.active && m'.spaces.Keys == m.spaces.Keys
    && m'.ustart == m.ustart
  }

  lemma FreedRebase(m: Mem, m1: Mem, m': Mem, us: set<Use>, fs: set<Frame>)
    requires Frames(m) && Gone(m, m1, us, fs)
    requires m' == m1.(kbits := m'.kbits, spaces := m'.spaces) && m'.spaces.Keys == m1.spaces.Keys
    requires forall s :: s in m1.spaces ==> m'.spaces[s].pd == m1.spaces[s].pd
    ensures Freed(m, m', us, fs) && SameFrames(m1, m')
  {
    forall w: Use ensures FrameOf(m', w) == FrameOf(m1, w) {
    }
    forall g: Frame ensures m'.Taken(g) == m1.Taken(g) {
    }
  }

  /** Freeing mapped pages fails no assertion, returns exactly their frames and clears exactly their bits. */
  lemma FreeUserPagesInv(m: Mem, vp: nat, n: nat)
    requires Inv(m, {}) && m.active in m.spaces && n >= 1
    requires USER_START <= vp && forall i :: vp <= i < vp + n ==> m.Pte(m.active, i).Some?
    ensures FreeUserPages(m, vp, n).Next? && Inv(FreeUserPages(m, vp, n).value, {})
    ensures Freed(m, FreeUserPages(m, vp, n).value, UserRange(m.active, vp, n), HeldFrames(m, vp, n))
  {
    forall i | vp <= i < vp + n ensures m.Held(m.active, i) == FrameOf(m, UPage(m.active, i)) {
    }
    FreeUserRangeIs(m, vp, n, true);
    FreeUserPagesKeepsIff(m, vp, n);
    forall u | FrameOf(m, u).Some? && FrameOf(m, u).value in HeldFrames(m, vp, n) ensures u in UserRange(m.active, vp, n) {
      var i :| vp <= i < vp + n && m.Held(m.active, i) == FrameOf(m, u);
      assert FrameOf(m, UPage(m.active, i)) == FrameOf(m, u);
    }
  }

  lemma FreeKernelPagesInv(m: Mem, k: nat, n: nat)
    requires Inv(m, {}) && n >= 1 && forall i :: k <= i < k + n ==> i in m.kmap
    ensures FreeKernelPages(m, k, n).Next? && Inv(FreeKernelPages(m, k, n).value, {})
    ensures Freed(m, FreeKernelPages(m, k, n).value, KernelRange(k, n), KernelHeldFrames(m, k, n))
    ensures FreeKernelPages(m, k, n).value.spaces == m.spaces
  {
    forall i | k <= i < k + n ensures m.KernelHeld(i) == FrameOf(m, KPage(i)) {
    }
    FreeKernelRangeIs(m, k, n, false);
    FreeKernelPagesKeepsIff(m, k, n);
    forall u | FrameOf(m, u).Some? && FrameOf(m, u).value in KernelHeldFrames(m, k, n) ensures u in KernelRange(k, n) {
      var i :| k <= i < k + n && m.KernelHeld(i) == FrameOf(m, u);
      assert FrameOf(m, KPage(i)) == FrameOf(m, u);
    }
  }
}
