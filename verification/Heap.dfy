/** The arena heap of kernel/memory.c: sys_malloc and sys_free over pages from malloc_page. */
module Heap {
  import opened Outcomes

  type Addr = nat

  const PAGE := 4096
  /** sizeof(struct arena): a pointer, a counter and a flag. */
  const HEADER := 12
  const DESCS := 7
  const LARGEST := 1024

  function BlockSize(d: nat): (r: nat)
    requires d < DESCS
    ensures r > 0
  {
    [16, 32, 64, 128, 256, 512, 1024][d]
  }

  function PerArena(d: nat): nat
    requires d < DESCS
  {
    (PAGE - HEADER) / BlockSize(d)
  }

  datatype Arena = Small(desc: nat, cnt: nat) | Large(pages: nat)

  /** `free` are the free lists of the descriptors; arenas are keyed by page number. */
  datatype Heap = Heap(free: seq<seq<Addr>>, arenas: map<nat, Arena>)

  // ---------------------------------------------------------------- addresses

  /** arena2block. */
  function BlockAddr(a: nat, d: nat, i: nat): Addr
    requires d < DESCS
  {
    PAGE * a + HEADER + i * BlockSize(d)
  }

  /** block2arena. */
  function PageOf(x: Addr): nat {
    x / PAGE
  }

  predicate IsSlot(x: Addr, d: nat)
    requires d < DESCS
  {
    && x % PAGE >= HEADER
    && (x % PAGE - HEADER) % BlockSize(d) == 0
    && (x % PAGE - HEADER) / BlockSize(d) < PerArena(d)
  }

  lemma Geometry(d: nat)
    requires d < DESCS
    ensures PerArena(d) == [255, 127, 63, 31, 15, 7, 3][d]
    ensures HEADER + PerArena(d) * BlockSize(d) <= PAGE
  {
  }

  /** arena2block and block2arena are inverse, and a block stays inside its page. */
  lemma BlockIsSlot(a: nat, d: nat, i: nat)
    requires d < DESCS && i < PerArena(d)
    ensures PageOf(BlockAddr(a, d, i)) == a && IsSlot(BlockAddr(a, d, i), d)
    ensures (BlockAddr(a, d, i) % PAGE - HEADER) / BlockSize(d) == i
  {
    Geometry(d);
    var s := BlockSize(d);
    assert i * s + s <= PerArena(d) * s by { Times(i + 1, PerArena(d), s); }
    var off := HEADER + i * s;
    assert off < PAGE;
    assert (PAGE * a + off) / PAGE == a && (PAGE * a + off) % PAGE == off;
    DivOfTimes(i, s);
  }

  lemma Times(i: nat, j: nat, s: nat)
    requires i <= j
    ensures i * s <= j * s
  {
  }

  lemma DivOfTimes(i: nat, s: nat)
    requires s > 0
    ensures (i * s) / s == i && (i * s) % s == 0
  {
    var q, r := (i * s) / s, (i * s) % s;
    assert i * s == q * s + r;
    if i > q {
      Times(q + 1, i, s);
    }
  }

  lemma SlotIsBlock(x: Addr, d: nat)
    requires d < DESCS && IsSlot(x, d)
    ensures x == BlockAddr(PageOf(x), d, (x % PAGE - HEADER) / BlockSize(d))
  {
  }

  /** Two slots of one page do not overlap, and a slot ends inside its page. */
  lemma SlotsApart(x: Addr, y: Addr, d: nat)
    requires d < DESCS && IsSlot(x, d) && IsSlot(y, d) && PageOf(x) == PageOf(y) && x < y
    ensures x + BlockSize(d) <= y
  {
    var s := BlockSize(d);
    var i, j := (x % PAGE - HEADER) / s, (y % PAGE - HEADER) / s;
    SlotIsBlock(x, d);
    SlotIsBlock(y, d);
    if i >= j {
      Times(j, i, s);
    } else {
      Times(i + 1, j, s);
    }
  }

  lemma SlotInPage(x: Addr, d: nat)
    requires d < DESCS && IsSlot(x, d)
    ensures PAGE * PageOf(x) + HEADER <= x && x + BlockSize(d) <= PAGE * PageOf(x) + PAGE
  {
    Geometry(d);
    var s := BlockSize(d);
    var i := (x % PAGE - HEADER) / s;
    SlotIsBlock(x, d);
    Times(i + 1, PerArena(d), s);
  }

  // ---------------------------------------------------------------- sys_malloc and sys_free

  /** The smallest descriptor that fits. */
  function DescFor(size: nat, d: nat): (r: nat)
    requires d < DESCS && size <= LARGEST
    ensures d <= r < DESCS && size <= BlockSize(r)
    ensures forall e :: d <= e < r ==> BlockSize(e) < size
    decreases DESCS - d
  {
    if size <= BlockSize(d) then d else DescFor(size, d + 1)
  }

  function Blocks(a: nat, d: nat): seq<Addr>
    requires d < DESCS
  {
    seq(PerArena(d), i requires 0 <= i => BlockAddr(a, d, i))
  }

  /** DIV_ROUND_UP(size + sizeof(struct arena), PG_SIZE). */
  function PagesFor(size: nat): nat {
    (size + HEADER + PAGE - 1) / PAGE
  }

  /** A one-page arena is split into blocks, none of which may be on the list already. */
  function NewArena(h: Heap, d: nat, a: nat): Outcome<Heap>
    requires d < DESCS && |h.free| == DESCS
  {
    if exists x :: x in Blocks(a, d) && x in h.free[d] then Halted
    else Next(Heap(h.free[d := h.free[d] + Blocks(a, d)], h.arenas[a := Small(d, PerArena(d))]))
  }

  /** The first block of the list is handed out. */
  function PopBlock(h: Heap, d: nat): Outcome<(Heap, Addr)>
    requires d < DESCS && |h.free| == DESCS && h.free[d] != []
  {
    var b := h.free[d][0];
    var a := PageOf(b);
    if a !in h.arenas || !h.arenas[a].Small? || h.arenas[a].cnt == 0 then Halted
    else Next((Heap(h.free[d := h.free[d][1..]], h.arenas[a := h.arenas[a].(cnt := h.arenas[a].cnt - 1)]), b))
  }

  /** `page` is what malloc_page returned, if it is asked. */
  function SysMalloc(h: Heap, size: nat, pool: nat, page: Option<nat>): Outcome<(Heap, Option<Addr>)>
    requires |h.free| == DESCS
  {
    if !(0 < size < pool) then Next((h, None))
    else if size > LARGEST then
      if page.None? then Next((h, None))
      else Next((h.(arenas := h.arenas[page.value := Large(PagesFor(size))]), Some(PAGE * page.value + HEADER)))
    else
      var d := DescFor(size, 0);
      if h.free[d] == [] && page.None? then Next((h, None))
      else
        var h1 :- if h.free[d] == [] then NewArena(h, d, page.value) else Next(h);
        if |h1.free| != DESCS || h1.free[d] == [] then Halted
        else
          var (h2, b) :- PopBlock(h1, d);
          Next((h2, Some(b)))
  }

  /** s without the blocks in gone. */
  function Minus(s: seq<Addr>, gone: seq<Addr>): (r: seq<Addr>) {
    if s == [] then [] else (if s[0] in gone then [] else [s[0]]) + Minus(s[1..], gone)
  }

  function Dropped(arenas: map<nat, Arena>, a: nat): map<nat, Arena> {
    map b | b in arenas && b != a :: arenas[b]
  }

  /** sys_free; an address in no arena is a caller's error and stops here. */
  function SysFree(h: Heap, x: Addr): Outcome<Heap>
    requires |h.free| == DESCS
  {
    var a := PageOf(x);
    if a !in h.arenas then Halted
    else
      match h.arenas[a]
      case Large(_) => Next(h.(arenas := Dropped(h.arenas, a)))
      case Small(d, cnt) =>
        if d >= DESCS then Halted
        else
          var list := h.free[d] + [x];
          if cnt + 1 != PerArena(d) then Next(Heap(h.free[d := list], h.arenas[a := Small(d, cnt + 1)]))
          else if exists y :: y in Blocks(a, d) && y !in list then Halted
          else Next(Heap(h.free[d := Minus(list, Blocks(a, d))], Dropped(h.arenas, a)))
  }

  // ---------------------------------------------------------------- the invariant

  /** `live` are the allocations not yet freed, with the sizes asked for. */
  datatype State = State(h: Heap, live: map<Addr, nat>)

  predicate SmallArena(h: Heap, a: nat, d: nat) {
    a in h.arenas && h.arenas[a].Small? && h.arenas[a].desc == d
  }

  predicate IsBlock(h: Heap, x: Addr, d: nat)
    requires d < DESCS
  {
    SmallArena(h, PageOf(x), d) && IsSlot(x, d)
  }

  function PagesIn(r: Arena): nat {
    match r
    case Small(_, _) => 1
    case Large(n) => n
  }

  function FreeIn(list: seq<Addr>, a: nat): set<Addr> {
    set x | x in list && PageOf(x) == a
  }

  ghost predicate ArenasApart(h: Heap) {
    forall a, b :: a in h.arenas && b in h.arenas && a < b ==> a + PagesIn(h.arenas[a]) <= b
  }

  ghost predicate NoDup(s: seq<Addr>) {
    forall i, j :: 0 <= i < j < |s| ==> s[i] != s[j]
  }

  ghost predicate ListsOk(h: Heap) {
    && |h.free| == DESCS
    && (forall d :: 0 <= d < DESCS ==> NoDup(h.free[d]))
    && (forall d: nat, x: Addr {:trigger IsBlock(h, x, d)} :: d < DESCS && x in h.free[d] ==> IsBlock(h, x, d))
  }

  ghost predicate CountOk(h: Heap, a: nat, setup: int)
    requires |h.free| == DESCS && a in h.arenas && h.arenas[a].Small?
  {
    && h.arenas[a].desc < DESCS && h.arenas[a].cnt == |FreeIn(h.free[h.arenas[a].desc], a)|
    && (a == setup || h.arenas[a].cnt < PerArena(h.arenas[a].desc))
  }

  /** cnt is the number of the arena's blocks on the free list, and never all of them, except in
      arena `setup`, which is just being split or emptied. */
  ghost predicate CountsOk(h: Heap, setup: int)
    requires |h.free| == DESCS
  {
    forall a {:trigger CountOk(h, a, setup)} :: a in h.arenas && h.arenas[a].Small? ==> CountOk(h, a, setup)
  }

  /** A block is on its free list iff it is not live. */
  ghost predicate FreeOrLive(h: Heap, live: map<Addr, nat>)
    requires |h.free| == DESCS
  {
    forall x: Addr, d: nat {:trigger IsBlock(h, x, d)} :: d < DESCS && IsBlock(h, x, d) ==> (x in h.free[d] <==> x !in live)
  }

  predicate LargeAt(h: Heap, x: Addr, size: nat) {
    && PageOf(x) in h.arenas && h.arenas[PageOf(x)].Large? && x % PAGE == HEADER
    && size + HEADER <= PAGE * h.arenas[PageOf(x)].pages
  }

  /** A live allocation is a block of at least its size, or the body of a large arena. */
  ghost predicate Placed(h: Heap, x: Addr, size: nat) {
    LargeAt(h, x, size) || exists d :: 0 <= d < DESCS && IsBlock(h, x, d) && size <= BlockSize(d)
  }

  ghost predicate LiveOk(h: Heap, live: map<Addr, nat>) {
    && (forall x {:trigger Placed(h, x, live[x])} :: x in live ==> live[x] > 0 && Placed(h, x, live[x]))
    && (forall a {:trigger BodyLive(h, live, a)} :: a in h.arenas && h.arenas[a].Large? ==> BodyLive(h, live, a))
  }

  predicate BodyLive(h: Heap, live: map<Addr, nat>, a: nat)
    requires a in h.arenas && h.arenas[a].Large?
  {
    h.arenas[a].pages > 0 && PAGE * a + HEADER in live
  }

  ghost predicate InvBut(s: State, setup: int) {
    && ListsOk(s.h) && ArenasApart(s.h) && CountsOk(s.h, setup)
    && FreeOrLive(s.h, s.live) && LiveOk(s.h, s.live)
  }

  ghost predicate Inv(s: State) {
    InvBut(s, -1)
  }

  function Empty(): State {
    State(Heap(seq(DESCS, i => []), map[]), map[])
  }

  lemma EmptyInv()
    ensures Inv(Empty())
  {
  }

  // ---------------------------------------------------------------- what the invariant means

  /** Two live allocations do not overlap. */
  lemma LiveDisjoint(s: State, x: Addr, y: Addr)
    requires Inv(s) && x in s.live && y in s.live && x < y
    ensures x + s.live[x] <= y
  {
    var a: nat, b: nat := PageOf(x), PageOf(y);
    assert Placed(s.h, x, s.live[x]) && Placed(s.h, y, s.live[y]);
    EndsInArena(s.h, x, s.live[x]);
    EndsInArena(s.h, y, s.live[y]);
    if a == b {
      if LargeAt(s.h, x, s.live[x]) {
        NoBlockInLarge(s.h, y, s.live[y]);
      } else {
        var d :| 0 <= d < DESCS && IsBlock(s.h, x, d) && s.live[x] <= BlockSize(d);
        assert IsBlock(s.h, y, d);
        SlotsApart(x, y, d);
      }
    } else {
      assert a + PagesIn(s.h.arenas[a]) <= b;
    }
  }

  lemma NoBlockInLarge(h: Heap, y: Addr, size: nat)
    requires Placed(h, y, size) && PageOf(y) in h.arenas && h.arenas[PageOf(y)].Large?
    ensures LargeAt(h, y, size)
  {
  }

  lemma EndsInArena(h: Heap, x: Addr, size: nat)
    requires Placed(h, x, size)
    ensures PageOf(x) in h.arenas
    ensures PAGE * PageOf(x) + HEADER <= x && x + size <= PAGE * (PageOf(x) + PagesIn(h.arenas[PageOf(x)]))
  {
    if !LargeAt(h, x, size) {
      var d :| 0 <= d < DESCS && IsBlock(h, x, d) && size <= BlockSize(d);
      SlotInPage(x, d);
    }
  }

  /** A live allocation overlaps no arena header. */
  lemma LiveMissesHeaders(s: State, x: Addr, a: nat)
    requires Inv(s) && x in s.live && a in s.h.arenas
    ensures x + s.live[x] <= PAGE * a || PAGE * a + HEADER <= x
  {
    assert Placed(s.h, x, s.live[x]);
    EndsInArena(s.h, x, s.live[x]);
    var b := PageOf(x);
    if a < b {
      assert a + PagesIn(s.h.arenas[a]) <= b;
    } else if b < a {
      assert b + PagesIn(s.h.arenas[b]) <= a;
    }
  }

  /** A live allocation overlaps no free block. */
  lemma LiveMissesFree(s: State, x: Addr, d: nat, y: Addr)
    requires Inv(s) && x in s.live && d < DESCS && y in s.h.free[d]
    ensures x + s.live[x] <= y || y + BlockSize(d) <= x
  {
    assert IsBlock(s.h, y, d) && y !in s.live;
    assert Placed(s.h, x, s.live[x]);
    var a: nat, b: nat := PageOf(x), PageOf(y);
    EndsInArena(s.h, x, s.live[x]);
    SlotInPage(y, d);
    if a == b {
      SamePageBlocks(s.h, x, s.live[x], d, y);
    } else if a < b {
      assert a + PagesIn(s.h.arenas[a]) <= b;
    } else {
      assert b + PagesIn(s.h.arenas[b]) <= a;
    }
  }

  lemma SamePageBlocks(h: Heap, x: Addr, size: nat, d: nat, y: Addr)
    requires d < DESCS && IsBlock(h, y, d) && Placed(h, x, size) && PageOf(x) == PageOf(y) && x != y
    ensures x + size <= y || y + BlockSize(d) <= x
  {
    var e :| 0 <= e < DESCS && IsBlock(h, x, e) && size <= BlockSize(e);
    if x < y {
      SlotsApart(x, y, d);
    } else {
      SlotsApart(y, x, d);
    }
  }

  // ---------------------------------------------------------------- sys_malloc keeps the invariant

  /** malloc_page hands out pages that no arena has. */
  ghost predicate FreshPages(h: Heap, p: nat, n: nat) {
    forall a :: a in h.arenas ==> a + PagesIn(h.arenas[a]) <= p || p + n <= a
  }

  lemma PagesPositive(s: State, a: nat, setup: int)
    requires InvBut(s, setup) && a in s.h.arenas
    ensures PagesIn(s.h.arenas[a]) > 0
  {
    if s.h.arenas[a].Large? {
      assert BodyLive(s.h, s.live, a);
    }
  }

  lemma NotArena(s: State, p: nat, n: nat, setup: int)
    requires InvBut(s, setup) && FreshPages(s.h, p, n) && n > 0
    ensures p !in s.h.arenas
  {
    if p in s.h.arenas {
      PagesPositive(s, p, setup);
    }
  }

  lemma LargePage(p: nat)
    ensures PageOf(PAGE * p + HEADER) == p && (PAGE * p + HEADER) % PAGE == HEADER
  {
  }

  lemma MallocLarge(s: State, size: nat, p: nat)
    requires Inv(s) && size > LARGEST && FreshPages(s.h, p, PagesFor(size))
    ensures var x := PAGE * p + HEADER;
            x !in s.live && Inv(State(s.h.(arenas := s.h.arenas[p := Large(PagesFor(size))]), s.live[x := size]))
  {
    var x, n := PAGE * p + HEADER, PagesFor(size);
    assert size + HEADER <= PAGE * n && n > 0;
    NotArena(s, p, n, -1);
    LargePage(p);
    var h' := s.h.(arenas := s.h.arenas[p := Large(n)]);
    var live' := s.live[x := size];
    if x in s.live {
      assert Placed(s.h, x, s.live[x]);
      EndsInArena(s.h, x, s.live[x]);
    }
    forall d: nat, y: Addr | d < DESCS && y in h'.free[d] ensures IsBlock(h', y, d) {
      assert IsBlock(s.h, y, d);
    }
    forall a | a in h'.arenas && h'.arenas[a].Small? ensures CountOk(h', a, -1) {
      assert CountOk(s.h, a, -1);
    }
    forall y: Addr, d: nat | d < DESCS && IsBlock(h', y, d) ensures y in h'.free[d] <==> y !in live' {
      assert IsBlock(s.h, y, d);
    }
    forall y | y in live' ensures live'[y] > 0 && Placed(h', y, live'[y]) {
      if y == x {
        assert LargeAt(h', x, size);
      } else {
        EndsInArena(s.h, y, s.live[y]);
        PlacedStays(s.h, h', y, s.live[y], p);
      }
    }
    forall c | c in h'.arenas && h'.arenas[c].Large? ensures BodyLive(h', live', c) {
      assert c != p ==> BodyLive(s.h, s.live, c);
    }
  }

  lemma PlacedStays(h: Heap, h': Heap, y: Addr, size: nat, p: nat)
    requires Placed(h, y, size) && PageOf(y) != p
    requires PageOf(y) in h'.arenas
    requires h'.arenas[PageOf(y)] == h.arenas[PageOf(y)]
             || (h'.arenas[PageOf(y)].Small? && h.arenas[PageOf(y)].Small?
                 && h'.arenas[PageOf(y)].desc == h.arenas[PageOf(y)].desc)
    ensures Placed(h', y, size)
  {
    if !LargeAt(h, y, size) {
      var d :| 0 <= d < DESCS && IsBlock(h, y, d) && size <= BlockSize(d);
      assert IsBlock(h', y, d);
    }
  }

  lemma BlocksOf(a: nat, d: nat, x: Addr)
    requires d < DESCS
    ensures x in Blocks(a, d) <==> PageOf(x) == a && IsSlot(x, d)
  {
    if PageOf(x) == a && IsSlot(x, d) {
      SlotIsBlock(x, d);
      assert Blocks(a, d)[(x % PAGE - HEADER) / BlockSize(d)] == x;
    }
    if x in Blocks(a, d) {
      var i :| 0 <= i < PerArena(d) && Blocks(a, d)[i] == x;
      BlockIsSlot(a, d, i);
    }
  }

  lemma BlocksDistinct(a: nat, d: nat)
    requires d < DESCS
    ensures NoDup(Blocks(a, d)) && |FreeIn(Blocks(a, d), a)| == PerArena(d)
  {
    var bs := Blocks(a, d);
    forall i, j | 0 <= i < j < |bs| ensures bs[i] != bs[j] {
      BlockIsSlot(a, d, i);
      BlockIsSlot(a, d, j);
    }
    forall x | x in bs ensures PageOf(x) == a {
      BlocksOf(a, d, x);
    }
    CountDistinct(bs, a);
  }

  lemma {:induction false} CountDistinct(s: seq<Addr>, a: nat)
    requires NoDup(s) && forall x :: x in s ==> PageOf(x) == a
    ensures |FreeIn(s, a)| == |s|
  {
    if s != [] {
      var rest := s[1..];
      forall x | x in rest ensures x in s {
      }
      CountDistinct(rest, a);
      assert s[0] !in rest;
      assert FreeIn(s, a) == FreeIn(rest, a) + {s[0]};
    }
  }

  /** A new arena in front of an empty list. */
  lemma NewArenaInv(s: State, d: nat, p: nat)
    requires Inv(s) && d < DESCS && s.h.free[d] == [] && FreshPages(s.h, p, 1)
    ensures NewArena(s.h, d, p).Next? && p !in s.h.arenas
    ensures var h1 := NewArena(s.h, d, p).value; InvBut(State(h1, s.live), p) && h1.free[d] == Blocks(p, d)
  {
    NotArena(s, p, 1, -1);
    var h1 := NewArena(s.h, d, p).value;
    assert [] + Blocks(p, d) == Blocks(p, d);
    BlocksDistinct(p, d);
    forall e: nat, y: Addr | e < DESCS && y in h1.free[e] ensures IsBlock(h1, y, e) {
      if e == d {
        BlocksOf(p, d, y);
      } else {
        assert IsBlock(s.h, y, e);
      }
    }
    forall a | a in h1.arenas && h1.arenas[a].Small? ensures CountOk(h1, a, p) {
      if a != p {
        assert CountOk(s.h, a, -1);
        OtherPage(s.h, h1, a, d, p);
      }
    }
    forall y: Addr, e: nat | e < DESCS && IsBlock(h1, y, e) ensures y in h1.free[e] <==> y !in s.live {
      if PageOf(y) == p {
        BlocksOf(p, d, y);
        if y in s.live {
          assert Placed(s.h, y, s.live[y]);
          EndsInArena(s.h, y, s.live[y]);
        }
      } else {
        assert IsBlock(s.h, y, e);
        if e == d && y in h1.free[d] {
          BlocksOf(p, d, y);
        }
      }
    }
    forall y | y in s.live ensures s.live[y] > 0 && Placed(h1, y, s.live[y]) {
      assert Placed(s.h, y, s.live[y]);
      EndsInArena(s.h, y, s.live[y]);
      PlacedStays(s.h, h1, y, s.live[y], p);
    }
    forall c | c in h1.arenas && h1.arenas[c].Large? ensures BodyLive(h1, s.live, c) {
      assert BodyLive(s.h, s.live, c);
    }
  }

  /** The blocks of page p on list d do not count for another arena. */
  lemma OtherPage(h: Heap, h1: Heap, a: nat, d: nat, p: nat)
    requires |h.free| == DESCS && d < DESCS && a != p && h.free[d] == []
    requires a in h.arenas && h.arenas[a].Small? && h.arenas[a].desc < DESCS
    requires h1 == Heap(h.free[d := Blocks(p, d)], h.arenas[p := Small(d, PerArena(d))])
    ensures FreeIn(h1.free[h.arenas[a].desc], a) == FreeIn(h.free[h.arenas[a].desc], a)
  {
    forall x | x in Blocks(p, d) ensures PageOf(x) != a {
      BlocksOf(p, d, x);
    }
  }

  /** The first block of a list becomes live. */
  lemma PopInv(s: State, d: nat, size: nat, setup: int)
    requires d < DESCS && InvBut(s, setup) && s.h.free[d] != [] && 0 < size <= BlockSize(d)
    requires setup == -1 || setup == PageOf(s.h.free[d][0])
    ensures PopBlock(s.h, d).Next?
    ensures var (h2, b) := PopBlock(s.h, d).value; b !in s.live && Inv(State(h2, s.live[b := size]))
  {
    var b := s.h.free[d][0];
    var a := PageOf(b);
    assert IsBlock(s.h, b, d);
    assert CountOk(s.h, a, setup);
    assert b in FreeIn(s.h.free[d], a);
    var h2 := Heap(s.h.free[d := s.h.free[d][1..]], s.h.arenas[a := s.h.arenas[a].(cnt := s.h.arenas[a].cnt - 1)]);
    PopLists(s.h, d, h2);
    PopCounts(s.h, d, h2, setup);
    PopLive(s, d, h2, size);
  }

  lemma RestOf(list: seq<Addr>)
    requires list != [] && NoDup(list)
    ensures NoDup(list[1..]) && list[0] !in list[1..]
    ensures forall x :: x in list <==> x == list[0] || x in list[1..]
  {
    assert list == [list[0]] + list[1..];
  }

  lemma PopLists(h: Heap, d: nat, h2: Heap)
    requires ListsOk(h) && d < DESCS && h.free[d] != [] && h2.free == h.free[d := h.free[d][1..]]
    requires h2.arenas.Keys == h.arenas.Keys
    requires forall c :: c in h.arenas && h.arenas[c].Small? ==> h2.arenas[c].Small? && h2.arenas[c].desc == h.arenas[c].desc
    ensures ListsOk(h2)
  {
    RestOf(h.free[d]);
    forall e: nat, y: Addr | e < DESCS && y in h2.free[e] ensures IsBlock(h2, y, e) {
      assert y in h.free[e] && IsBlock(h, y, e);
    }
  }

  lemma PopCounts(h: Heap, d: nat, h2: Heap, setup: int)
    requires ListsOk(h) && CountsOk(h, setup) && d < DESCS && h.free[d] != []
    requires var a := PageOf(h.free[d][0]);
             && SmallArena(h, a, d) && h.arenas[a].cnt > 0 && (setup == -1 || setup == a)
             && h2 == Heap(h.free[d := h.free[d][1..]], h.arenas[a := h.arenas[a].(cnt := h.arenas[a].cnt - 1)])
    ensures CountsOk(h2, -1)
  {
    var list, a := h.free[d], PageOf(h.free[d][0]);
    RestOf(list);
    FreeInSize(h, a, d);
    forall c | c in h2.arenas && h2.arenas[c].Small? ensures CountOk(h2, c, -1) {
      assert CountOk(h, c, setup);
      if c == a {
        assert FreeIn(list, a) == FreeIn(list[1..], a) + {list[0]};
      } else {
        assert FreeIn(list, c) == FreeIn(list[1..], c);
      }
    }
  }

  lemma PopLive(s: State, d: nat, h2: Heap, size: nat)
    requires ListsOk(s.h) && FreeOrLive(s.h, s.live) && LiveOk(s.h, s.live) && d < DESCS && s.h.free[d] != []
    requires h2.free == s.h.free[d := s.h.free[d][1..]] && 0 < size <= BlockSize(d)
    requires h2.arenas.Keys == s.h.arenas.Keys
    requires forall c :: c in s.h.arenas && s.h.arenas[c].Large? ==> h2.arenas[c] == s.h.arenas[c]
    requires forall c :: c in s.h.arenas && s.h.arenas[c].Small? ==>
               h2.arenas[c].Small? && h2.arenas[c].desc == s.h.arenas[c].desc
    ensures s.h.free[d][0] !in s.live
    ensures FreeOrLive(h2, s.live[s.h.free[d][0] := size]) && LiveOk(h2, s.live[s.h.free[d][0] := size])
  {
    var b := s.h.free[d][0];
    var live' := s.live[b := size];
    RestOf(s.h.free[d]);
    assert IsBlock(s.h, b, d);
    forall y: Addr, e: nat | e < DESCS && IsBlock(h2, y, e) ensures y in h2.free[e] <==> y !in live' {
      assert IsBlock(s.h, y, e);
    }
    forall y | y in live' ensures live'[y] > 0 && Placed(h2, y, live'[y]) {
      if y == b {
        assert IsBlock(h2, b, d);
      } else {
        assert Placed(s.h, y, s.live[y]);
        KindsStay(s.h, h2, y, s.live[y]);
      }
    }
    forall c | c in h2.arenas && h2.arenas[c].Large? ensures BodyLive(h2, live', c) {
      assert BodyLive(s.h, s.live, c);
    }
  }

  lemma FreeInSize(h: Heap, a: nat, d: nat)
    requires ListsOk(h) && d < DESCS && SmallArena(h, a, d)
    ensures |FreeIn(h.free[d], a)| <= PerArena(d)
  {
    BlocksDistinct(a, d);
    forall x | x in FreeIn(h.free[d], a) ensures x in FreeIn(Blocks(a, d), a) {
      assert IsBlock(h, x, d);
      BlocksOf(a, d, x);
    }
    SubsetSize(FreeIn(h.free[d], a), FreeIn(Blocks(a, d), a));
  }

  lemma SubsetSize(x: set<Addr>, y: set<Addr>)
    requires x <= y
    ensures |x| <= |y| && (|x| == |y| ==> x == y)
  {
    assert y == x + (y - x);
    assert |y| == |x| + |y - x|;
  }

  lemma KindsStay(h: Heap, h': Heap, y: Addr, size: nat)
    requires Placed(h, y, size) && h'.arenas.Keys == h.arenas.Keys
    requires forall a :: a in h.arenas && h.arenas[a].Large? ==> h'.arenas[a] == h.arenas[a]
    requires forall a :: a in h.arenas && h.arenas[a].Small? ==> h'.arenas[a].Small? && h'.arenas[a].desc == h.arenas[a].desc
    ensures Placed(h', y, size)
  {
    if !LargeAt(h, y, size) {
      var d :| 0 <= d < DESCS && IsBlock(h, y, d) && size <= BlockSize(d);
      assert IsBlock(h', y, d);
    }
  }

  /** sys_malloc asserts nothing that can fail; what it returns is a new live allocation of the size asked
      for, or NULL with nothing changed. */
  lemma MallocInv(s: State, size: nat, pool: nat, page: Option<nat>)
    requires Inv(s)
    requires page.Some? ==> FreshPages(s.h, page.value, if size > LARGEST then PagesFor(size) else 1)
    ensures SysMalloc(s.h, size, pool, page).Next?
    ensures var (h', x) := SysMalloc(s.h, size, pool, page).value;
            if x.Some? then x.value !in s.live && Inv(State(h', s.live[x.value := size])) else h' == s.h
  {
    if 0 < size < pool {
      if size > LARGEST {
        if page.Some? {
          MallocLarge(s, size, page.value);
        }
      } else {
        var d := DescFor(size, 0);
        if s.h.free[d] != [] {
          PopInv(s, d, size, -1);
        } else if page.Some? {
          NewArenaInv(s, d, page.value);
          var h1 := NewArena(s.h, d, page.value).value;
          Geometry(d);
          BlockIsSlot(page.value, d, 0);
          assert h1.free[d][0] == BlockAddr(page.value, d, 0);
          PopInv(State(h1, s.live), d, size, page.value);
        }
      }
    }
  }

  /** d is the smallest size of block that holds `size` bytes. */
  predicate Smallest(d: nat, size: nat) {
    d < DESCS && size <= BlockSize(d) && forall e: nat :: e < d ==> BlockSize(e) < size
  }

  /** What a request that is not too large can be served from: the pages it gets, or a block that is free. */
  ghost predicate Served(h: Heap, size: nat, pool: nat, page: Option<nat>)
    requires |h.free| == DESCS
  {
    0 < size < pool && (page.Some? || exists d: nat {:trigger h.free[d]} :: Smallest(d, size) && h.free[d] != [])
  }

  /** sys_malloc returns an address exactly when the size is between 0 and the pool's and it either got the
      pages it asked for or the list of the smallest size that fits has a block, which no size above LARGEST
      has. */
  lemma MallocServesIff(s: State, size: nat, pool: nat, page: Option<nat>)
    requires Inv(s)
    requires page.Some? ==> FreshPages(s.h, page.value, if size > LARGEST then PagesFor(size) else 1)
    ensures SysMalloc(s.h, size, pool, page).Next?
    ensures SysMalloc(s.h, size, pool, page).value.1.Some? <==> Served(s.h, size, pool, page)
  {
    MallocInv(s, size, pool, page);
    if size <= LARGEST {
      forall d: nat | Smallest(d, size) ensures d == DescFor(size, 0) {
      }
      assert Smallest(DescFor(size, 0), size);
    }
  }

  /** More than LARGEST bytes get as many pages as hold them and the header, and no page more. */
  lemma LargePlace(s: State, size: nat, pool: nat, page: nat)
    requires Inv(s) && LARGEST < size < pool && FreshPages(s.h, page, PagesFor(size))
    ensures SysMalloc(s.h, size, pool, Some(page)).Next?
    ensures var (h', x) := SysMalloc(s.h, size, pool, Some(page)).value;
            && x == Some(PAGE * page + HEADER) && h'.free == s.h.free
            && page in h'.arenas && h'.arenas[page].Large?
            && var n := h'.arenas[page].pages; PAGE * (n - 1) < HEADER + size <= PAGE * n
  {
    PagesHold(size);
  }

  /** Of the blocks of the smallest size that fits the first of the list is taken, and no other list is
      touched. */
  lemma BlockPlace(s: State, size: nat, pool: nat, d: nat, page: Option<nat>)
    requires Inv(s) && 0 < size < pool && Smallest(d, size) && s.h.free[d] != []
    ensures SysMalloc(s.h, size, pool, page).Next?
    ensures var (h', x) := SysMalloc(s.h, size, pool, page).value;
            && x.Some? && |h'.free| == DESCS && s.h.free[d] == [x.value] + h'.free[d]
            && (forall e: nat :: e < DESCS && e != d ==> h'.free[e] == s.h.free[e])
            && h'.arenas.Keys == s.h.arenas.Keys
  {
    assert d == DescFor(size, 0);
    PopInv(s, d, size, -1);
  }

  /** When there is none, the new page is cut up: the first block is taken, the rest is the list, in the
      order of the addresses. */
  lemma PagePlace(s: State, size: nat, pool: nat, d: nat, page: nat)
    requires Inv(s) && 0 < size < pool && Smallest(d, size) && s.h.free[d] == [] && FreshPages(s.h, page, 1)
    ensures SysMalloc(s.h, size, pool, Some(page)).Next?
    ensures var (h', x) := SysMalloc(s.h, size, pool, Some(page)).value;
            && x == Some(PAGE * page + HEADER) && |h'.free| == DESCS
            && (forall e: nat :: e < DESCS && e != d ==> h'.free[e] == s.h.free[e])
            && [x.value] + h'.free[d] == Blocks(page, d)
            && h'.arenas.Keys == s.h.arenas.Keys + {page}
  {
    assert d == DescFor(size, 0);
    MallocInv(s, size, pool, Some(page));
    hide Inv, FreshPages;
    Geometry(d);
    assert [] + Blocks(page, d) == Blocks(page, d);
    assert Blocks(page, d)[0] == PAGE * page + HEADER;
  }

  lemma PagesHold(size: nat)
    ensures PAGE * (PagesFor(size) - 1) < HEADER + size <= PAGE * PagesFor(size)
  {
  }

  // ---------------------------------------------------------------- sys_free keeps the invariant

  lemma {:induction false} MinusIs(s: seq<Addr>, gone: seq<Addr>)
    ensures forall x :: x in Minus(s, gone) <==> x in s && x !in gone
    ensures NoDup(s) ==> NoDup(Minus(s, gone))
  {
    if s != [] {
      MinusIs(s[1..], gone);
      assert s == [s[0]] + s[1..];
    }
  }

  function Freed(s: State, x: Addr): map<Addr, nat> {
    map y | y in s.live && y != x :: s.live[y]
  }

  lemma FreeLarge(s: State, x: Addr)
    requires Inv(s) && x in s.live && PageOf(x) in s.h.arenas && s.h.arenas[PageOf(x)].Large?
    ensures Inv(State(s.h.(arenas := Dropped(s.h.arenas, PageOf(x))), Freed(s, x)))
  {
    var a := PageOf(x);
    var h' := s.h.(arenas := Dropped(s.h.arenas, a));
    var live' := Freed(s, x);
    forall e: nat, y: Addr | e < DESCS && y in h'.free[e] ensures IsBlock(h', y, e) {
      assert IsBlock(s.h, y, e);
    }
    forall c | c in h'.arenas && h'.arenas[c].Small? ensures CountOk(h', c, -1) {
      assert CountOk(s.h, c, -1);
    }
    forall y: Addr, e: nat | e < DESCS && IsBlock(h', y, e) ensures y in h'.free[e] <==> y !in live' {
      assert IsBlock(s.h, y, e);
    }
    forall y | y in live' ensures live'[y] > 0 && Placed(h', y, live'[y]) {
      assert Placed(s.h, y, s.live[y]) && Placed(s.h, x, s.live[x]);
      if PageOf(y) == a {
        NoBlockInLarge(s.h, y, s.live[y]);
        NoBlockInLarge(s.h, x, s.live[x]);
      } else {
        EndsInArena(s.h, y, s.live[y]);
        PlacedStays(s.h, h', y, s.live[y], a);
      }
    }
    forall c | c in h'.arenas && h'.arenas[c].Large? ensures BodyLive(h', live', c) {
      assert BodyLive(s.h, s.live, c);
      LargePage(c);
    }
  }

  /** The block goes back to its list. */
  lemma PushInv(s: State, x: Addr, d: nat)
    requires Inv(s) && x in s.live && d < DESCS && IsBlock(s.h, x, d)
    ensures var a := PageOf(x); var cnt := s.h.arenas[a].cnt;
            var h1 := Heap(s.h.free[d := s.h.free[d] + [x]], s.h.arenas[a := Small(d, cnt + 1)]);
            && InvBut(State(h1, Freed(s, x)), a)
            && cnt + 1 == |FreeIn(h1.free[d], a)| <= PerArena(d)
  {
    var a := PageOf(x);
    var h1 := Heap(s.h.free[d := s.h.free[d] + [x]], s.h.arenas[a := Small(d, s.h.arenas[a].cnt + 1)]);
    assert x !in s.h.free[d];
    PushLists(s.h, x, d, h1);
    PushCounts(s.h, x, d, h1);
    PushLive(s, x, d, h1);
  }

  lemma PushLists(h: Heap, x: Addr, d: nat, h1: Heap)
    requires ListsOk(h) && d < DESCS && IsBlock(h, x, d) && x !in h.free[d]
    requires h1.free == h.free[d := h.free[d] + [x]] && h1.arenas.Keys == h.arenas.Keys
    requires forall c :: c in h.arenas && h.arenas[c].Small? ==> h1.arenas[c].Small? && h1.arenas[c].desc == h.arenas[c].desc
    ensures ListsOk(h1)
  {
    forall e: nat, y: Addr | e < DESCS && y in h1.free[e] ensures IsBlock(h1, y, e) {
      assert y in h.free[e] ==> IsBlock(h, y, e);
    }
  }

  lemma PushCounts(h: Heap, x: Addr, d: nat, h1: Heap)
    requires ListsOk(h) && ListsOk(h1) && CountsOk(h, -1) && d < DESCS && IsBlock(h, x, d) && x !in h.free[d]
    requires var a := PageOf(x);
             h1 == Heap(h.free[d := h.free[d] + [x]], h.arenas[a := Small(d, h.arenas[a].cnt + 1)])
    ensures var a := PageOf(x);
            CountsOk(h1, a) && h.arenas[a].cnt + 1 == |FreeIn(h1.free[d], a)| <= PerArena(d)
  {
    var a, list := PageOf(x), h.free[d] + [x];
    assert CountOk(h, a, -1);
    assert FreeIn(list, a) == FreeIn(h.free[d], a) + {x};
    FreeInSize(h1, a, d);
    forall c | c in h1.arenas && h1.arenas[c].Small? ensures CountOk(h1, c, a) {
      assert CountOk(h, c, -1);
      if c != a {
        assert FreeIn(list, c) == FreeIn(h.free[d], c);
      }
    }
  }

  lemma PushLive(s: State, x: Addr, d: nat, h1: Heap)
    requires ListsOk(s.h) && FreeOrLive(s.h, s.live) && LiveOk(s.h, s.live) && x in s.live && d < DESCS && IsBlock(s.h, x, d)
    requires h1.free == s.h.free[d := s.h.free[d] + [x]] && h1.arenas.Keys == s.h.arenas.Keys
    requires forall c :: c in s.h.arenas && s.h.arenas[c].Large? ==> h1.arenas[c] == s.h.arenas[c]
    requires forall c :: c in s.h.arenas && s.h.arenas[c].Small? ==>
               h1.arenas[c].Small? && h1.arenas[c].desc == s.h.arenas[c].desc
    ensures FreeOrLive(h1, Freed(s, x)) && LiveOk(h1, Freed(s, x))
  {
    var live' := Freed(s, x);
    forall y: Addr, e: nat | e < DESCS && IsBlock(h1, y, e) ensures y in h1.free[e] <==> y !in live' {
      assert IsBlock(s.h, y, e);
    }
    forall y | y in live' ensures live'[y] > 0 && Placed(h1, y, live'[y]) {
      assert Placed(s.h, y, s.live[y]);
      KindsStay(s.h, h1, y, s.live[y]);
    }
    forall c | c in h1.arenas && h1.arenas[c].Large? ensures BodyLive(h1, live', c) {
      assert BodyLive(s.h, s.live, c);
      LargePage(c);
    }
  }

  /** When every block of the arena is on the list, the list loses exactly them and the page goes back. */
  lemma ReturnArena(s: State, a: nat, d: nat)
    requires InvBut(s, a) && d < DESCS && SmallArena(s.h, a, d) && s.h.arenas[a].cnt == PerArena(d)
    ensures forall y :: y in Blocks(a, d) ==> y in s.h.free[d]
    ensures forall y :: y in s.live ==> PageOf(y) != a
    ensures Inv(State(Heap(s.h.free[d := Minus(s.h.free[d], Blocks(a, d))], Dropped(s.h.arenas, a)), s.live))
  {
    assert CountOk(s.h, a, a);
    AllBlocksFree(s.h, a, d);
    MinusIs(s.h.free[d], Blocks(a, d));
    var h' := Heap(s.h.free[d := Minus(s.h.free[d], Blocks(a, d))], Dropped(s.h.arenas, a));
    ReturnLive(s, a, d, h');
    forall e: nat, y: Addr | e < DESCS && y in h'.free[e] ensures IsBlock(h', y, e) {
      assert y in s.h.free[e] && IsBlock(s.h, y, e);
      BlocksOf(a, d, y);
    }
    ReturnCounts(s.h, a, d, h');
  }

  lemma ReturnCounts(h: Heap, a: nat, d: nat, h': Heap)
    requires ListsOk(h) && CountsOk(h, a) && d < DESCS
    requires h' == Heap(h.free[d := Minus(h.free[d], Blocks(a, d))], Dropped(h.arenas, a))
    ensures CountsOk(h', -1)
  {
    MinusIs(h.free[d], Blocks(a, d));
    forall c | c in h'.arenas && h'.arenas[c].Small? ensures CountOk(h', c, -1) {
      assert CountOk(h, c, a);
      forall x ensures x in Blocks(a, d) ==> PageOf(x) == a {
        BlocksOf(a, d, x);
      }
      assert FreeIn(Minus(h.free[d], Blocks(a, d)), c) == FreeIn(h.free[d], c);
    }
  }

  lemma ReturnLive(s: State, a: nat, d: nat, h': Heap)
    requires ListsOk(s.h) && FreeOrLive(s.h, s.live) && LiveOk(s.h, s.live) && d < DESCS && SmallArena(s.h, a, d)
    requires forall y :: y in Blocks(a, d) ==> y in s.h.free[d]
    requires h' == Heap(s.h.free[d := Minus(s.h.free[d], Blocks(a, d))], Dropped(s.h.arenas, a))
    ensures FreeOrLive(h', s.live) && LiveOk(h', s.live)
    ensures forall y :: y in s.live ==> PageOf(y) != a
  {
    MinusIs(s.h.free[d], Blocks(a, d));
    forall y | y in s.live ensures s.live[y] > 0 && PageOf(y) != a && Placed(h', y, s.live[y]) {
      assert Placed(s.h, y, s.live[y]);
      EndsInArena(s.h, y, s.live[y]);
      if PageOf(y) == a {
        NotLargeThen(s.h, y, s.live[y], d);
        BlocksOf(a, d, y);
      } else {
        PlacedStays(s.h, h', y, s.live[y], a);
      }
    }
    forall y: Addr, e: nat | e < DESCS && IsBlock(h', y, e) ensures y in h'.free[e] <==> y !in s.live {
      assert IsBlock(s.h, y, e);
      BlocksOf(a, d, y);
    }
    forall c | c in h'.arenas && h'.arenas[c].Large? ensures BodyLive(h', s.live, c) {
      assert BodyLive(s.h, s.live, c);
    }
  }

  lemma NotLargeThen(h: Heap, y: Addr, size: nat, d: nat)
    requires Placed(h, y, size) && SmallArena(h, PageOf(y), d) && d < DESCS
    ensures IsBlock(h, y, d)
  {
  }

  lemma AllBlocksFree(h: Heap, a: nat, d: nat)
    requires ListsOk(h) && d < DESCS && SmallArena(h, a, d) && |FreeIn(h.free[d], a)| == PerArena(d)
    ensures forall y :: y in Blocks(a, d) ==> y in h.free[d]
  {
    BlocksDistinct(a, d);
    forall x | x in FreeIn(h.free[d], a) ensures x in FreeIn(Blocks(a, d), a) {
      assert IsBlock(h, x, d);
      BlocksOf(a, d, x);
    }
    SubsetSize(FreeIn(h.free[d], a), FreeIn(Blocks(a, d), a));
    forall y | y in Blocks(a, d) ensures y in h.free[d] {
      BlocksOf(a, d, y);
      assert y in FreeIn(Blocks(a, d), a);
    }
  }

  /** sys_free of a live allocation asserts nothing that can fail and removes exactly that allocation; its
      arena goes back to malloc_page exactly when nothing else in it is live. */
  lemma FreeInv(s: State, x: Addr)
    requires Inv(s) && x in s.live
    ensures SysFree(s.h, x).Next? && Inv(State(SysFree(s.h, x).value, Freed(s, x)))
    ensures PageOf(x) !in SysFree(s.h, x).value.arenas <==> forall y :: y in Freed(s, x) ==> PageOf(y) != PageOf(x)
  {
    var a := PageOf(x);
    assert Placed(s.h, x, s.live[x]);
    EndsInArena(s.h, x, s.live[x]);
    if s.h.arenas[a].Large? {
      FreeLarge(s, x);
      LargeIsAlone(s, x);
    } else {
      NotLargeThen(s.h, x, s.live[x], s.h.arenas[a].desc) by {
        assert CountOk(s.h, a, -1);
      }
      FreeSmall(s, x, s.h.arenas[a].desc);
    }
  }

  lemma FreeSmall(s: State, x: Addr, d: nat)
    requires Inv(s) && x in s.live && d < DESCS && IsBlock(s.h, x, d)
    ensures SysFree(s.h, x).Next? && Inv(State(SysFree(s.h, x).value, Freed(s, x)))
    ensures PageOf(x) !in SysFree(s.h, x).value.arenas <==> forall y :: y in Freed(s, x) ==> PageOf(y) != PageOf(x)
  {
    var a := PageOf(x);
    var list, cnt := s.h.free[d] + [x], s.h.arenas[a].cnt;
    PushInv(s, x, d);
    var h1 := Heap(s.h.free[d := list], s.h.arenas[a := Small(d, cnt + 1)]);
    assert h1.free[d] == list;
    if cnt + 1 != PerArena(d) {
      SettledInv(State(h1, Freed(s, x)), a);
      SomeBlockLive(State(h1, Freed(s, x)), a, d);
    } else {
      ReturnArena(State(h1, Freed(s, x)), a, d);
      assert Dropped(h1.arenas, a) == Dropped(s.h.arenas, a);
      assert h1.free[d := Minus(list, Blocks(a, d))] == s.h.free[d := Minus(list, Blocks(a, d))];
    }
  }

  /** The blocks of the list outside page a. */
  function Elsewhere(list: seq<Addr>, a: nat): seq<Addr> {
    if list == [] then [] else (if PageOf(list[0]) == a then [] else [list[0]]) + Elsewhere(list[1..], a)
  }

  lemma {:induction false} MinusPage(list: seq<Addr>, a: nat, d: nat)
    requires d < DESCS && forall y :: y in list ==> IsSlot(y, d)
    ensures Minus(list, Blocks(a, d)) == Elsewhere(list, a)
  {
    if list != [] {
      BlocksOf(a, d, list[0]);
      MinusPage(list[1..], a, d);
    }
  }

  lemma {:induction false} ElsewhereAppend(list: seq<Addr>, x: Addr)
    ensures Elsewhere(list + [x], PageOf(x)) == Elsewhere(list, PageOf(x))
  {
    if list != [] {
      assert (list + [x])[1..] == list[1..] + [x];
      ElsewhereAppend(list[1..], x);
    }
  }

  /** A freed block is the last of its list to be handed out again; where its arena goes, the blocks of the
      other arenas keep their order. */
  lemma FreedIsLast(s: State, x: Addr, d: nat)
    requires Inv(s) && x in s.live && d < DESCS
    ensures SysFree(s.h, x).Next?
    ensures var h' := SysFree(s.h, x).value;
            && |h'.free| == DESCS
            && h'.free[d] == if !SmallArena(s.h, PageOf(x), d) then s.h.free[d]
                             else if PageOf(x) in h'.arenas then s.h.free[d] + [x]
                             else Elsewhere(s.h.free[d], PageOf(x))
  {
    FreeInv(s, x);
    if SmallArena(s.h, PageOf(x), d) {
      assert Placed(s.h, x, s.live[x]);
      EndsInArena(s.h, x, s.live[x]);
      NotLargeThen(s.h, x, s.live[x], d);
      forall y | y in s.h.free[d] + [x] ensures IsSlot(y, d) {
        assert y != x ==> IsBlock(s.h, y, d);
      }
      MinusPage(s.h.free[d] + [x], PageOf(x), d);
      ElsewhereAppend(s.h.free[d], x);
    }
  }

  lemma SettledInv(s: State, a: nat)
    requires InvBut(s, a) && a in s.h.arenas && s.h.arenas[a].Small?
    requires s.h.arenas[a].desc < DESCS && s.h.arenas[a].cnt < PerArena(s.h.arenas[a].desc)
    ensures Inv(s)
  {
    forall c | c in s.h.arenas && s.h.arenas[c].Small? ensures CountOk(s.h, c, -1) {
      assert CountOk(s.h, c, a);
    }
  }

  lemma LargeIsAlone(s: State, x: Addr)
    requires Inv(s) && x in s.live && PageOf(x) in s.h.arenas && s.h.arenas[PageOf(x)].Large?
    ensures forall y :: y in Freed(s, x) ==> PageOf(y) != PageOf(x)
  {
    forall y | y in s.live && PageOf(y) == PageOf(x) ensures y == x {
      assert Placed(s.h, y, s.live[y]) && Placed(s.h, x, s.live[x]);
      NoBlockInLarge(s.h, y, s.live[y]);
      NoBlockInLarge(s.h, x, s.live[x]);
    }
  }

  /** An arena whose blocks are not all free has a live one. */
  lemma SomeBlockLive(s: State, a: nat, d: nat)
    requires Inv(s) && d < DESCS && SmallArena(s.h, a, d)
    ensures exists y :: y in s.live && PageOf(y) == a
  {
    assert CountOk(s.h, a, -1);
    BlocksDistinct(a, d);
    if forall y :: y in Blocks(a, d) ==> y in s.h.free[d] {
      SubsetSize(FreeIn(Blocks(a, d), a), FreeIn(s.h.free[d], a));
    }
    var y :| y in Blocks(a, d) && y !in s.h.free[d];
    BlocksOf(a, d, y);
    assert IsBlock(s.h, y, d);
    assert y in s.live;
  }

  // ---------------------------------------------------------------- nothing is kept without use

  /** No arena is kept without a live allocation in it. */
  lemma ArenaHasLive(s: State, a: nat)
    requires Inv(s) && a in s.h.arenas
    ensures exists y :: y in s.live && PageOf(y) == a
  {
    if s.h.arenas[a].Large? {
      assert BodyLive(s.h, s.live, a);
      LargePage(a);
    } else {
      assert CountOk(s.h, a, -1);
      SomeBlockLive(s, a, s.h.arenas[a].desc);
    }
  }

  lemma FreeInArena(s: State, d: nat, x: Addr)
    requires Inv(s) && d < DESCS && x in s.h.free[d]
    ensures PageOf(x) in s.h.arenas
  {
    assert IsBlock(s.h, x, d);
  }

  /** When everything has been freed, every page has been returned and the free lists are empty. */
  lemma AllFreed(s: State)
    requires Inv(s) && s.live == map[]
    ensures s.h.arenas == map[] && forall d :: 0 <= d < DESCS ==> s.h.free[d] == []
  {
    if a :| a in s.h.arenas {
      ArenaHasLive(s, a);
    }
    forall d | 0 <= d < DESCS ensures s.h.free[d] == [] {
      if s.h.free[d] != [] {
        FreeInArena(s, d, s.h.free[d][0]);
      }
    }
  }
}
