/** pte_ptr, pde_ptr, addr_v2p and the entry writes of page_table_add (kernel/memory.c), and
    create_page_dir (userprog/process.c), down to words of physical memory.  The walk is that of
    section 4.3, "32-Bit Paging", of the Intel SDM, volume 3A: two levels of 1024 four-byte entries. */
module Paging {
  import opened Outcomes

  /** The word at each physical address. */
  type Words = nat -> nat

  const WIDTH := 0x1_0000_0000

  function PdeIdx(va: nat): nat {
    va / 0x400000
  }

  function PteIdx(va: nat): nat {
    va / 0x1000 % 1024
  }

  function Present(w: nat): bool {
    w % 2 == 1
  }

  /** An entry without its low twelve bits. */
  function Frame(w: nat): nat {
    w / 0x1000 * 0x1000
  }

  /** An entry with P, RW and US set. */
  function Entry(frame: nat): nat {
    frame + 7
  }

  function PdeAddr(cr3: nat, va: nat): nat {
    cr3 + 4 * PdeIdx(va)
  }

  /** Entry i of the directory at cr3. */
  function Pde(mem: Words, cr3: nat, i: nat): nat {
    mem(cr3 + 4 * i)
  }

  function PteAddr(mem: Words, cr3: nat, va: nat): nat {
    Frame(mem(PdeAddr(cr3, va))) + 4 * PteIdx(va)
  }

  /** What the processor does with a virtual address; None is a page fault. */
  function Walk(mem: Words, cr3: nat, va: nat): Option<nat> {
    if !Present(mem(PdeAddr(cr3, va))) then None
    else
      var pte := mem(PteAddr(mem, cr3, va));
      if !Present(pte) then None else Some(Frame(pte) + va % 0x1000)
  }

  // ---------------------------------------------------------------- the pointers through the self-entry

  /** (vaddr & 0xffc00000) >> 10 moves the directory index to the table index. */
  function PtePtr(va: nat): nat {
    0xffc00000 + (va / 0x400000 * 0x400000) / 1024 + PteIdx(va) * 4
  }

  function PdePtr(va: nat): nat {
    0xfffff000 + PdeIdx(va) * 4
  }

  /** The last directory entry points at the directory. */
  predicate SelfMapped(mem: Words, cr3: nat) {
    cr3 % 0x1000 == 0 && mem(cr3 + 4 * 1023) == Entry(cr3)
  }

  lemma EntryParts(frame: nat)
    requires frame % 0x1000 == 0
    ensures Present(Entry(frame)) && Frame(Entry(frame)) == frame
  {
  }

  lemma IndexBounds(va: nat)
    requires va < WIDTH
    ensures PdeIdx(va) < 1024 && PteIdx(va) < 1024
    ensures va == PdeIdx(va) * 0x400000 + PteIdx(va) * 0x1000 + va % 0x1000
  {
    assert va / 0x1000 == PdeIdx(va) * 1024 + PteIdx(va);
  }

  lemma PtePtrParts(va: nat)
    requires va < WIDTH
    ensures PtePtr(va) < WIDTH && PdeIdx(PtePtr(va)) == 1023 && PteIdx(PtePtr(va)) == PdeIdx(va)
    ensures PtePtr(va) % 0x1000 == 4 * PteIdx(va)
  {
    IndexBounds(va);
    var d, e := PdeIdx(va), PteIdx(va);
    assert (d * 0x400000) / 1024 == d * 0x1000;
    var p := PtePtr(va);
    assert p == 1023 * 0x400000 + d * 0x1000 + 4 * e;
    assert p / 0x1000 == 1023 * 1024 + d;
  }

  lemma PdePtrParts(va: nat)
    requires va < WIDTH
    ensures PdePtr(va) < WIDTH && PdeIdx(PdePtr(va)) == 1023 && PteIdx(PdePtr(va)) == 1023
    ensures PdePtr(va) % 0x1000 == 4 * PdeIdx(va)
  {
    IndexBounds(va);
    assert PdePtr(va) / 0x1000 == 1023 * 1024 + 1023;
  }

  /** *pte_ptr(va) is the page-table entry of va, and faults iff va has no page table. */
  lemma PtePtrReachesPte(mem: Words, cr3: nat, va: nat)
    requires va < WIDTH && SelfMapped(mem, cr3)
    ensures Walk(mem, cr3, PtePtr(va))
            == if Present(mem(PdeAddr(cr3, va))) then Some(PteAddr(mem, cr3, va)) else None
  {
    PtePtrParts(va);
    EntryParts(cr3);
  }

  /** *pde_ptr(va) is the directory entry of va. */
  lemma PdePtrReachesPde(mem: Words, cr3: nat, va: nat)
    requires va < WIDTH && SelfMapped(mem, cr3)
    ensures Walk(mem, cr3, PdePtr(va)) == Some(PdeAddr(cr3, va))
  {
    PdePtrParts(va);
    EntryParts(cr3);
  }

  /** addr_v2p: the entry is read through pte_ptr. */
  function AddrV2p(mem: Words, cr3: nat, va: nat): Option<nat> {
    match Walk(mem, cr3, PtePtr(va))
    case None => None
    case Some(at) => Some(Frame(mem(at)) + va % 0x1000)
  }

  /** For a mapped address addr_v2p is the processor's translation; for an unmapped page of an existing
      table it still answers, with whatever frame the entry last held. */
  lemma AddrV2pTranslates(mem: Words, cr3: nat, va: nat)
    requires va < WIDTH && SelfMapped(mem, cr3)
    ensures Walk(mem, cr3, va).Some? ==> AddrV2p(mem, cr3, va) == Walk(mem, cr3, va)
    ensures AddrV2p(mem, cr3, va).Some? <==> Present(mem(PdeAddr(cr3, va)))
  {
    PtePtrReachesPte(mem, cr3, va);
  }

  // ---------------------------------------------------------------- page_table_add

  function Stored(mem: Words, at: nat, w: nat): Words {
    (a: nat) => if a == at then w else mem(a)
  }

  /** Every page table is a page of its own, apart from the directory. */
  ghost predicate TablesApart(mem: Words, cr3: nat) {
    && cr3 % 0x1000 == 0
    && (forall i: nat {:trigger Pde(mem, cr3, i)} :: i < 1023 && Present(Pde(mem, cr3, i)) ==> Frame(Pde(mem, cr3, i)) != cr3)
    && (forall i: nat, j: nat {:trigger Pde(mem, cr3, i), Pde(mem, cr3, j)} ::
          i < 1023 && j < 1023 && i != j && Present(Pde(mem, cr3, i)) && Present(Pde(mem, cr3, j)) ==>
          Frame(Pde(mem, cr3, i)) != Frame(Pde(mem, cr3, j)))
  }

  lemma PageOfEntry(frame: nat, e: nat)
    requires frame % 0x1000 == 0 && e < 1024
    ensures Frame(frame + 4 * e) == frame && (frame + 4 * e) % 0x1000 == 4 * e
  {
  }

  /** A store through pte_ptr changes no directory entry and, below the self-map, no other page. */
  lemma StoreElsewhere(mem: Words, cr3: nat, va: nat, w: nat, vb: nat)
    requires va < 0xffc00000 && vb < 0xffc00000 && SelfMapped(mem, cr3) && TablesApart(mem, cr3)
    requires Present(mem(PdeAddr(cr3, va)))
    ensures var mem' := Stored(mem, PteAddr(mem, cr3, va), w);
            && mem'(PdeAddr(cr3, vb)) == mem(PdeAddr(cr3, vb))
            && mem'(PdeAddr(cr3, va)) == mem(PdeAddr(cr3, va)) && mem'(PteAddr(mem, cr3, va)) == w
            && (va / 0x1000 != vb / 0x1000 ==> Walk(mem', cr3, vb) == Walk(mem, cr3, vb))
            && (va / 0x1000 != vb / 0x1000 && Present(mem(PdeAddr(cr3, vb))) ==>
                  mem'(PteAddr(mem', cr3, vb)) == mem(PteAddr(mem, cr3, vb)))
  {
    IndexBounds(va);
    IndexBounds(vb);
    var i, j := PdeIdx(va), PdeIdx(vb);
    var table := Frame(Pde(mem, cr3, i));
    EntryElsewhere(table, PteIdx(va), cr3, i);
    EntryElsewhere(table, PteIdx(va), cr3, j);
    if Present(Pde(mem, cr3, j)) && va / 0x1000 != vb / 0x1000 {
      assert va / 0x1000 == i * 1024 + PteIdx(va) && vb / 0x1000 == j * 1024 + PteIdx(vb);
      if i != j {
        EntryElsewhere(table, PteIdx(va), Frame(Pde(mem, cr3, j)), PteIdx(vb));
      }
    }
  }

  /** The store of an entry maps exactly the page of va: an address below the self-map that lies in another
      page translates as before. */
  lemma StoreMapsOnePage(mem: Words, cr3: nat, va: nat, frame: nat, vb: nat)
    requires va < 0xffc00000 && vb < 0xffc00000 && SelfMapped(mem, cr3) && TablesApart(mem, cr3)
    requires Present(mem(PdeAddr(cr3, va))) && frame % 0x1000 == 0
    ensures var mem' := Stored(mem, PteAddr(mem, cr3, va), Entry(frame));
            && Walk(mem', cr3, va) == Some(frame + va % 0x1000)
            && (va / 0x1000 != vb / 0x1000 ==> Walk(mem', cr3, vb) == Walk(mem, cr3, vb))
  {
    StoreElsewhere(mem, cr3, va, Entry(frame), vb);
    EntryParts(frame);
  }

  lemma EntryElsewhere(frame: nat, e: nat, other: nat, f: nat)
    requires frame % 0x1000 == 0 && other % 0x1000 == 0 && frame != other && e < 1024 && f < 1024
    ensures frame + 4 * e != other + 4 * f
  {
    PageOfEntry(frame, e);
    PageOfEntry(other, f);
  }

  // ---------------------------------------------------------------- create_page_dir

  /** Memory after create_page_dir: the page at `dir`, cleared before, has the kernel half of the running
      directory, and its own address last; nothing else has changed. */
  ghost predicate DirectoryMade(mem: Words, cr3: nat, dir: nat, mem': Words) {
    && (forall i: nat {:trigger Pde(mem', dir, i)} :: i < 1024 ==>
          Pde(mem', dir, i) == if i == 1023 then Entry(dir) else if i >= 768 then Pde(mem, cr3, i) else 0)
    && (forall a: nat {:trigger mem'(a)} :: a < dir || dir + 0x1000 <= a ==> mem'(a) == mem(a))
  }

  /** In the new space no user address is mapped, the pointers work, and every kernel address below the
      self-map means what it means in the running one. */
  lemma NewDirectory(mem: Words, cr3: nat, dir: nat, mem': Words, va: nat)
    requires DirectoryMade(mem, cr3, dir, mem') && dir % 0x1000 == 0 && va < 0xffc00000
    requires forall i: nat {:trigger Pde(mem, cr3, i)} :: 768 <= i < 1023 && Present(Pde(mem, cr3, i)) ==>
               Frame(Pde(mem, cr3, i)) != dir
    ensures SelfMapped(mem', dir)
    ensures va < 0xc0000000 ==> Walk(mem', dir, va) == None
    ensures va >= 0xc0000000 ==> Walk(mem', dir, va) == Walk(mem, cr3, va)
  {
    IndexBounds(va);
    var i := PdeIdx(va);
    assert Pde(mem', dir, 1023) == Entry(dir);
    if va >= 0xc0000000 {
      assert Pde(mem', dir, i) == Pde(mem, cr3, i);
      if Present(Pde(mem, cr3, i)) {
        OutsidePage(Frame(Pde(mem, cr3, i)), 4 * PteIdx(va), dir);
      }
      KernelHalf(mem, cr3, mem', dir, va);
    } else {
      UserHalf(mem', dir, va);
    }
  }

  lemma UserHalf(mem: Words, dir: nat, va: nat)
    requires Pde(mem, dir, PdeIdx(va)) == 0
    ensures Walk(mem, dir, va) == None
  {
  }

  lemma KernelHalf(mem: Words, cr3: nat, mem': Words, dir: nat, va: nat)
    requires Pde(mem', dir, PdeIdx(va)) == Pde(mem, cr3, PdeIdx(va))
    requires Present(Pde(mem, cr3, PdeIdx(va))) ==> mem'(PteAddr(mem, cr3, va)) == mem(PteAddr(mem, cr3, va))
    ensures Walk(mem', dir, va) == Walk(mem, cr3, va)
  {
  }

  lemma OutsidePage(table: nat, off: nat, dir: nat)
    requires table % 0x1000 == 0 && dir % 0x1000 == 0 && table != dir && off < 0x1000
    ensures !(dir <= table + off < dir + 0x1000)
  {
  }
}
