/** The descriptors and arenas as sys_malloc and sys_free (kernel/memory.c) update them in place, and the
    pages they come from. */
module HeapMachine {
  import opened Outcomes
  import opened Heap

  class Allocator {
    var free: seq<seq<Addr>>
    var arenas: map<nat, Arena>

    ghost function H(): Heap
      reads this
    {
      Heap(free, arenas)
    }

    constructor ()
      ensures H() == Empty().h
    {
      free, arenas := seq(DESCS, i => []), map[];
    }

    /** Lines 441-450. */
    method PickDesc(size: nat) returns (d: nat)
      requires size <= LARGEST
      ensures d < DESCS && d == DescFor(size, 0)
    {
      d := 0;
      while size > BlockSize(d)
        invariant d < DESCS && DescFor(size, 0) == DescFor(size, d)
        decreases DESCS - d
      {
        d := d + 1;
      }
    }

    /** Lines 464-484: the page is cut into blocks, each asserted not to be on the list. */
    method SplitArena(d: nat, a: nat) returns (ok: bool)
      requires d < DESCS && |free| == DESCS && NoDup(Blocks(a, d))
      modifies `free, `arenas
      ensures match NewArena(old(H()), d, a)
              case Halted => !ok
              case Next(h1) => ok && H() == h1
    {
      arenas := arenas[a := Small(d, PerArena(d))];
      var list := free[d];
      var i := 0;
      while i < PerArena(d)
        invariant i <= PerArena(d) && list == free[d] + Blocks(a, d)[..i]
        invariant forall k :: 0 <= k < i ==> Blocks(a, d)[k] !in free[d]
      {
        var b := BlockAddr(a, d, i);
        assert b == Blocks(a, d)[i];
        if b in list {
          assert b !in Blocks(a, d)[..i];
          return false;
        }
        list := list + [b];
        i := i + 1;
      }
      assert Blocks(a, d)[..i] == Blocks(a, d);
      free := free[d := list];
      return true;
    }

    method Malloc(size: nat, pool: nat, page: Option<nat>) returns (r: Outcome<Option<Addr>>)
      requires |free| == DESCS
      modifies `free, `arenas
      ensures match SysMalloc(old(H()), size, pool, page)
              case Halted => r == Halted
              case Next((h', x)) => r == Next(x) && H() == h'
    {
      if !(size > 0 && size < pool) {
        return Next(None);
      }
      if size > LARGEST {
        if page.None? {
          return Next(None);
        }
        arenas := arenas[page.value := Large((size + HEADER + PAGE - 1) / PAGE)];
        return Next(Some(PAGE * page.value + HEADER));
      }
      var d := PickDesc(size);
      if free[d] == [] {
        if page.None? {
          return Next(None);
        }
        BlocksDistinct(page.value, d);
        var ok := SplitArena(d, page.value);
        if !ok {
          return Halted;
        }
      }
      if free[d] == [] {
        return Halted;
      }
      var b := free[d][0];
      var a := PageOf(b);
      if a !in arenas || !arenas[a].Small? || arenas[a].cnt == 0 {
        return Halted;
      }
      free := free[d := free[d][1..]];
      arenas := arenas[a := arenas[a].(cnt := arenas[a].cnt - 1)];
      return Next(Some(b));
    }

    /** list_remove of one node. */
    method ListRemove(list: seq<Addr>, b: Addr) returns (r: seq<Addr>)
      requires NoDup(list)
      ensures r == Minus(list, [b])
    {
      var k := 0;
      while k < |list| && list[k] != b
        invariant k <= |list| && forall j :: 0 <= j < k ==> list[j] != b
      {
        k := k + 1;
      }
      MinusOne(list, b, k);
      r := if k < |list| then list[..k] + list[k + 1..] else list;
    }

    /** Lines 680-687. */
    method TakeBlocks(list0: seq<Addr>, a: nat, d: nat) returns (r: Outcome<seq<Addr>>)
      requires d < DESCS && NoDup(list0) && NoDup(Blocks(a, d))
      ensures r == if exists y :: y in Blocks(a, d) && y !in list0 then Halted else Next(Minus(list0, Blocks(a, d)))
    {
      ghost var gone := Blocks(a, d);
      var list, i := list0, 0;
      MinusNone(list0);
      assert gone[..0] == [];
      while i < PerArena(d)
        invariant i <= PerArena(d) && list == Minus(list0, gone[..i]) && NoDup(list)
        invariant forall k :: 0 <= k < i ==> gone[k] in list0
      {
        var b := BlockAddr(a, d, i);
        TakeStep(list0, gone, i);
        if b !in list {
          return Halted;
        }
        list := ListRemove(list, b);
        i := i + 1;
      }
      assert gone[..i] == gone;
      return Next(list);
    }

    method Free(x: Addr) returns (ok: bool)
      requires |free| == DESCS && (forall d :: 0 <= d < DESCS ==> NoDup(free[d] + [x]))
      modifies `free, `arenas
      ensures match SysFree(old(H()), x)
              case Halted => !ok
              case Next(h') => ok && H() == h'
    {
      var a := PageOf(x);
      if a !in arenas {
        return false;
      }
      match arenas[a] {
      case Large(_) =>
        arenas := Dropped(arenas, a);
      case Small(d, cnt) =>
        if d >= DESCS {
          return false;
        }
        free := free[d := free[d] + [x]];
        arenas := arenas[a := Small(d, cnt + 1)];
        if cnt + 1 == PerArena(d) {
          BlocksDistinct(a, d);
          var left := TakeBlocks(free[d], a, d);
          if left.Halted? {
            return false;
          }
          free := free[d := left.value];
          arenas := Dropped(arenas, a);
          assert arenas == Dropped(old(arenas), a);
        }
      }
      return true;
    }
  }

  lemma {:induction false} MinusOne(list: seq<Addr>, b: Addr, k: nat)
    requires NoDup(list) && k <= |list| && (k < |list| ==> list[k] == b) && forall j :: 0 <= j < k ==> list[j] != b
    ensures Minus(list, [b]) == if k < |list| then list[..k] + list[k + 1..] else list
  {
    if list != [] {
      var rest := list[1..];
      if k > 0 {
        forall i, j | 0 <= i < j < |rest| ensures rest[i] != rest[j] {
          assert rest[i] == list[i + 1] && rest[j] == list[j + 1];
        }
        MinusOne(rest, b, k - 1);
        SkipFirst(list, k);
      } else {
        NotBehind(list);
        MinusOther(rest, b);
        assert list[..0] + list[1..] == rest;
      }
    }
  }

  lemma SkipFirst(list: seq<Addr>, k: nat)
    requires 0 < k <= |list|
    ensures k < |list| ==> list[..k] + list[k + 1..] == [list[0]] + (list[1..][..k - 1] + list[1..][k..])
    ensures list == [list[0]] + list[1..]
  {
  }

  lemma NotBehind(list: seq<Addr>)
    requires list != [] && NoDup(list)
    ensures list[0] !in list[1..]
  {
    forall i | 0 <= i < |list[1..]| ensures list[1..][i] != list[0] {
      assert list[1..][i] == list[i + 1];
    }
  }

  lemma {:induction false} MinusOther(list: seq<Addr>, b: Addr)
    requires b !in list
    ensures Minus(list, [b]) == list
  {
    if list != [] {
      MinusOther(list[1..], b);
      assert list == [list[0]] + list[1..];
    }
  }

  lemma {:induction false} MinusNone(list: seq<Addr>)
    ensures Minus(list, []) == list
  {
    if list != [] {
      MinusNone(list[1..]);
      assert list == [list[0]] + list[1..];
    }
  }

  lemma {:induction false} MinusMore(list: seq<Addr>, gone: seq<Addr>, b: Addr)
    ensures Minus(Minus(list, gone), [b]) == Minus(list, gone + [b])
  {
    if list != [] {
      MinusMore(list[1..], gone, b);
      var rest := Minus(list[1..], gone);
      if list[0] !in gone {
        assert ([list[0]] + rest)[1..] == rest;
      } else {
        assert [] + rest == rest;
      }
    }
  }

  lemma TakeStep(list: seq<Addr>, gone: seq<Addr>, i: nat)
    requires i < |gone| && NoDup(gone) && NoDup(list)
    ensures gone[i] in Minus(list, gone[..i]) <==> gone[i] in list
    ensures Minus(Minus(list, gone[..i]), [gone[i]]) == Minus(list, gone[..i + 1])
    ensures NoDup(Minus(list, gone[..i])) && NoDup(Minus(list, gone[..i + 1]))
  {
    MinusIs(list, gone[..i]);
    MinusIs(list, gone[..i + 1]);
    MinusMore(list, gone[..i], gone[i]);
    assert gone[..i] + [gone[i]] == gone[..i + 1];
  }
}
