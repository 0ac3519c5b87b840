/** A directory open on a partition, changed in place by the operations of fs/dir.c.  Each method is
    proved to compute the function its theorems speak of. */
module DirHandle {
  import opened Outcomes
  import opened BitSeq
  import opened Directory
  import opened DirInsert
  import opened DirDelete
  import opened DirRead

  class Handle {
    var base: nat
    var bits: seq<bool>
    var disk: map<Blk, Sector>
    var direct: seq<Blk>
    var table: Blk
    var size: nat
    var pos: nat

    ghost function D(): Dir
      reads this
    {
      Dir(direct, table, size)
    }

    ghost function V(): Volume
      reads this
    {
      Volume(base, bits, disk)
    }

    constructor (v: Volume, d: Dir)
      ensures V() == v && D() == d && pos == 0
    {
      base, bits, disk := v.base, v.bits, v.disk;
      direct, table, size := d.direct, d.table, d.size;
      pos := 0;
    }

    /** With `stops`, the scan as shipped, a full bitmap stops the machine. */
    method BlockBitmapAlloc(stops: bool) returns (lba: Outcome<Option<Blk>>)
      modifies `bits
      ensures match Alloc(old(V()))
              case None => lba == (if stops then Halted else Next(None)) && bits == old(bits)
              case Some((v1, b)) => lba == Next(Some(b)) && V() == v1
    {
      var i := 0;
      while i < |bits| && bits[i]
        invariant i <= |bits|
        invariant forall j :: 0 <= j < i ==> bits[j]
      {
        i := i + 1;
      }
      assert i == FirstClear(bits);
      if i == |bits| {
        return if stops then Halted else Next(None);
      }
      bits := bits[i := true];
      return Next(Some(base + i));
    }

    /** The sector as directory entries. */
    method IdeRead(b: Blk) returns (es: seq<Slot>)
      ensures es == SlotsOf(V(), b)
    {
      es := if b != 0 && b in disk && disk[b].Slots? then disk[b].es else [];
    }

    /** all_blocks: twelve direct addresses, then the index table when it is to be loaded. */
    method Gather(load: bool) returns (all: array<Blk>)
      requires Shaped(D(), disk)
      ensures fresh(all) && all.Length == MAX_BLOCKS
      ensures all[..] == Gathered(D(), disk, !load)
    {
      all := new Blk[MAX_BLOCKS](i => 0);
      var k := 0;
      while k < DIRECT
        invariant k <= DIRECT
        invariant all[..] == direct[..k] + Zeros(MAX_BLOCKS - k)
      {
        all[k] := direct[k];
        k := k + 1;
      }
      if load && table != 0 {
        var ps := disk[table].ps;
        k := 0;
        while k < |ps|
          invariant k <= |ps|
          invariant all[..] == direct + ps[..k] + Zeros(MAX_BLOCKS - DIRECT - k)
        {
          all[DIRECT + k] := ps[k];
          k := k + 1;
        }
      }
    }

    method SyncDirEntry(e: Slot, shipped: bool, stops: bool) returns (r: Outcome<bool>)
      requires Shaped(D(), disk)
      modifies `bits, `disk, `direct, `table, `size
      ensures match InsertScan(old(D()), old(V()), e, shipped, stops)
              case Halted => r == Halted
              case Next(x) => r == Next(x.ok) && D() == x.d && V() == x.v
    {
      var all := Gather(!shipped);
      ghost var blocks := all[..];
      var i := 0;
      while i < MAX_BLOCKS
        invariant i <= MAX_BLOCKS && all[..] == blocks
        invariant D() == old(D()) && V() == old(V())
        invariant StopAt(V(), blocks, 0) == StopAt(V(), blocks, i)
      {
        if all[i] == 0 {
          r := FillBlock(all, i, e, stops);
          return;
        }
        ghost var b := blocks[i];
        if all[i] in disk && disk[all[i]].Slots? {
          var es := disk[all[i]].es;
          var k := 0;
          while k < |es|
            invariant k <= |es|
            invariant forall j :: 0 <= j < k ==> es[j] != Empty
          {
            if es[k] == Empty {
              assert k == FirstEmpty(es) && HasRoom(V(), b);
              disk := disk[all[i] := Slots(es[k := e])];
              size := size + ENTRY_SIZE;
              return Next(true);
            }
            k := k + 1;
          }
        }
        assert !HasRoom(V(), b);
        i := i + 1;
      }
      return Next(false);
    }

    /** Lines 184-246. */
    method FillBlock(all: array<Blk>, i: nat, e: Slot, stops: bool) returns (r: Outcome<bool>)
      requires Shaped(D(), disk) && all.Length == MAX_BLOCKS && i < MAX_BLOCKS
      modifies `bits, `disk, `direct, `table, `size, all
      ensures match FillGapScan(old(D()), old(V()), old(all[..]), i, e, stops)
              case Halted => r == Halted
              case Next(x) => r == Next(x.ok) && D() == x.d && V() == x.v
    {
      AllocRoom(V());
      var got := BlockBitmapAlloc(stops);
      if got.Halted? || got.value.None? {
        return if got.Halted? then Halted else Next(false);
      }
      var lba := got.value.value;
      if i < DIRECT {
        direct := direct[i := lba];
        all[i] := lba;
      } else if i == DIRECT {
        table := lba;
        AllocRoom(V());
        got := BlockBitmapAlloc(stops);
        if got.Halted? {
          return Halted;
        }
        if got.value.None? {
          bits := bits[table - base := false];
          table := 0;
          return Next(false);
        }
        lba := got.value.value;
        all[DIRECT] := lba;
        disk := disk[table := Pointers(all[DIRECT..])];
      } else {
        all[i] := lba;
        disk := disk[table := Pointers(all[DIRECT..])];
      }
      assert all[..] == old(all[..])[i := lba];
      disk := disk[all[i] := NewSector(e)];
      size := size + ENTRY_SIZE;
      return Next(true);
    }

    /** Lines 316-354: how many ordinary entries the sector holds, whether it is the first one, and
        the entry for `ino`; None is the assertion that there are not two. */
    method ScanSector(es: seq<Slot>, ino: nat) returns (r: Outcome<(nat, bool, nat)>)
      ensures CountNames(es, ino) > 1 ==> r == Halted
      ensures CountNames(es, ino) <= 1 ==> r == Next((CountPlain(es), HasDot(es), FirstNamed(es, ino)))
    {
      var k, cnt, dot, found := 0, 0, false, |es|;
      while k < |es|
        invariant k <= |es|
        invariant cnt == CountPlain(es[..k]) && dot == HasDot(es[..k])
        invariant if found == |es| then CountNames(es[..k], ino) == 0 && FirstNamed(es[..k], ino) == k
                  else found < k && CountNames(es[..k], ino) == 1 && FirstNamed(es, ino) == found
      {
        PrefixCounts(es, k, ino);
        if es[k].Entry? {
          if es[k].name == "." {
            dot := true;
          } else if es[k].name != ".." {
            cnt := cnt + 1;
            if es[k].ino == ino {
              if found != |es| {
                return Halted;
              }
              found := k;
              assert FirstNamed(es, ino) == k;
            }
          }
        }
        k := k + 1;
      }
      assert es[..k] == es;
      return Next((cnt, dot, found));
    }

    method DeleteDirEntry(ino: nat) returns (r: Outcome<bool>)
      requires Shaped(D(), disk)
      modifies `bits, `disk, `direct, `table, `size
      ensures match Delete(old(D()), old(V()), ino)
              case Halted => r == Halted
              case Next(x) => r == Next(x.found) && D() == x.d && V() == x.v
    {
      hide DeleteAt, CountPlain, HasDot;
      var all := Gather(true);
      ghost var blocks := all[..];
      var i := 0;
      while i < MAX_BLOCKS
        invariant i <= MAX_BLOCKS && all[..] == blocks
        invariant D() == old(D()) && V() == old(V())
        invariant FoundAt(V(), blocks, ino, 0) == FoundAt(V(), blocks, ino, i)
      {
        if all[i] != 0 {
          var es := IdeRead(all[i]);
          NamesCounted(es, ino);
          var scan := ScanSector(es, ino);
          if scan.Halted? {
            return Halted;
          }
          var (cnt, dot, k) := scan.value;
          if k < |es| {
            var ok := DeleteSlot(all, i, k, cnt == 1 && !dot);
            return if ok then Next(true) else Halted;
          }
        }
        i := i + 1;
      }
      return Next(false);
    }

    /** Lines 363-431. */
    method DeleteSlot(all: array<Blk>, i: nat, k: nat, alone: bool) returns (ok: bool)
      requires Shaped(D(), disk) && all.Length == MAX_BLOCKS && i < MAX_BLOCKS
      requires k < |SlotsOf(V(), all[i])|
      requires alone <==> CountPlain(SlotsOf(V(), all[i])) == 1 && !HasDot(SlotsOf(V(), all[i]))
      modifies `bits, `disk, `direct, `table, `size, all
      ensures match DeleteAt(old(D()), old(V()), old(all[..]), i, k)
              case Halted => !ok
              case Next(x) => ok && x.found && D() == x.d && V() == x.v
    {
      ok := true;
      if alone {
        ok := ReclaimBlock(all, i);
      } else {
        disk := disk[all[i] := Slots(disk[all[i]].es[k := Empty])];
      }
      if !ok || size < ENTRY_SIZE {
        return false;
      }
      size := size - ENTRY_SIZE;
    }

    method CountIndirect(all: array<Blk>) returns (n: nat)
      requires all.Length == MAX_BLOCKS
      ensures n == CountUsed(all[DIRECT..])
    {
      n := 0;
      var j := DIRECT;
      while j < MAX_BLOCKS
        invariant DIRECT <= j <= MAX_BLOCKS && n == CountUsed(all[DIRECT..j])
      {
        assert all[DIRECT..j + 1] == all[DIRECT..j] + [all[j]];
        CountUsedSplit(all[DIRECT..j], [all[j]]);
        if all[j] != 0 {
          n := n + 1;
        }
        j := j + 1;
      }
      assert all[DIRECT..j] == all[DIRECT..];
    }

    /** Lines 368-416. */
    method ReclaimBlock(all: array<Blk>, i: nat) returns (ok: bool)
      requires Shaped(D(), disk) && all.Length == MAX_BLOCKS && i < MAX_BLOCKS
      modifies `bits, `disk, `direct, `table, all
      ensures match Reclaim(old(D()), old(V()), old(all[..]), i)
              case Halted => !ok
              case Next((d1, v1)) => ok && D() == d1 && V() == v1
    {
      if !(base <= all[i] < base + |bits|) {
        return false;
      }
      ghost var blocks := all[..];
      bits := bits[all[i] - base := false];
      if i < DIRECT {
        direct := direct[i := 0];
      } else {
        var indirect := CountIndirect(all);
        assert all[DIRECT..] == blocks[DIRECT..];
        if indirect > 1 {
          all[i] := 0;
          assert all[..] == blocks[i := 0];
          disk := disk[table := Pointers(all[DIRECT..])];
        } else {
          if !(base <= table < base + |bits|) {
            return false;
          }
          bits := bits[table - base := false];
          table := 0;
        }
      }
      return true;
    }

    method MatchInSector(es: seq<Slot>, name: string) returns (k: nat)
      ensures k == FirstMatch(es, name)
    {
      k := 0;
      while k < |es| && NameOf(es[k]) != name
        invariant k <= |es|
        invariant forall j :: 0 <= j < k ==> NameOf(es[j]) != name
      {
        k := k + 1;
      }
    }

    method SearchDirEntry(name: string) returns (e: Option<Slot>)
      requires Shaped(D(), disk)
      ensures e == Search(V(), View(D(), disk), name)
    {
      var all := Gather(true);
      ghost var blocks := all[..];
      var i := 0;
      while i < MAX_BLOCKS
        invariant i <= MAX_BLOCKS && all[..] == blocks
        invariant Search(V(), blocks, name) == Search(V(), blocks[i..], name)
      {
        var es := IdeRead(all[i]);
        var k := MatchInSector(es, name);
        if k < |es| {
          return Some(es[k]);
        }
        assert blocks[i..][1..] == blocks[i + 1..];
        i := i + 1;
      }
      return None;
    }

    /** Lines 484-508. */
    method ReadSector(es: seq<Slot>, from: nat) returns (w: Progress)
      ensures w == WalkSlots(es, from, pos)
    {
      var at: nat, k := from, 0;
      while k < |es|
        invariant k <= |es|
        invariant WalkSlots(es, from, pos) == WalkSlots(es[k..], at, pos)
      {
        assert es[k..][0] == es[k] && es[k..][1..] == es[k + 1..];
        if es[k] != Empty {
          if at >= pos {
            return if at == pos then Hit(es[k]) else Stopped;
          }
          at := at + ENTRY_SIZE;
        }
        k := k + 1;
      }
      return Walked(at);
    }

    method DirRead() returns (r: Outcome<Option<Slot>>)
      requires Shaped(D(), disk)
      modifies `pos
      ensures match Read(D(), V(), old(pos))
              case Halted => r == Halted
              case Next((e, pos')) => r == Next(e) && pos == pos'
    {
      hide WalkSlots, LiveSlots, Index;
      var all := Gather(true);
      var cnt := if table != 0 then MAX_BLOCKS else DIRECT;
      ghost var blocks := all[..cnt];
      FrontIsDirect(D(), disk);
      assert blocks == if table != 0 then View(D(), disk) else direct;
      var i, at: nat := 0, 0;
      while i < cnt
        invariant i <= cnt && blocks == all[..cnt] && pos == old(pos)
        invariant i > 0 ==> pos < size
        invariant WalkBlocks(V(), blocks, 0, pos) == WalkBlocks(V(), blocks[i..], at, pos)
      {
        if pos >= size {
          return Next(None);
        }
        assert blocks[i..][0] == all[i] && blocks[i..][1..] == blocks[i + 1..];
        if all[i] != 0 {
          var es := IdeRead(all[i]);
          var w := ReadSector(es, at);
          match w
          case Stopped =>
            return Halted;
          case Hit(e) =>
            pos := pos + ENTRY_SIZE;
            return Next(Some(e));
          case Walked(at') =>
            at := at';
        } else {
          NoSlots(at, pos);
        }
        i := i + 1;
      }
      return Next(None);
    }
  }

  lemma NoSlots(at: nat, pos: nat)
    ensures WalkSlots([], at, pos) == Walked(at)
  {
  }

  lemma FrontIsDirect(d: Dir, disk: map<Blk, Sector>)
    requires Shaped(d, disk)
    ensures |View(d, disk)| == MAX_BLOCKS && View(d, disk)[..DIRECT] == d.direct
    ensures View(d, disk)[..MAX_BLOCKS] == View(d, disk)
  {
  }

  lemma PrefixCounts(es: seq<Slot>, k: nat, ino: nat)
    requires k < |es|
    ensures CountPlain(es[..k + 1]) == CountPlain(es[..k]) + if Plain(es[k]) then 1 else 0
    ensures CountNames(es[..k + 1], ino) == CountNames(es[..k], ino) + if Names(es[k], ino) then 1 else 0
    ensures CountNames(es[..k + 1], ino) <= CountNames(es, ino)
    ensures HasDot(es[..k + 1]) <==> HasDot(es[..k]) || (es[k].Entry? && es[k].name == ".")
  {
    assert es[..k + 1] == es[..k] + [es[k]];
    CountPlainConcat(es[..k], [es[k]]);
    CountNamesConcat(es[..k], [es[k]], ino);
    assert es == es[..k + 1] + es[k + 1..];
    CountNamesConcat(es[..k + 1], es[k + 1..], ino);
    assert forall j :: 0 <= j < k ==> es[..k][j] == es[..k + 1][j] == es[j];
    assert es[..k + 1][k] == es[k];
  }

  lemma {:induction false} CountPlainConcat(a: seq<Slot>, b: seq<Slot>)
    ensures CountPlain(a + b) == CountPlain(a) + CountPlain(b)
  {
    if a == [] {
      assert a + b == b;
    } else {
      assert (a + b)[1..] == a[1..] + b;
      CountPlainConcat(a[1..], b);
    }
  }

  lemma NamesCounted(es: seq<Slot>, ino: nat)
    ensures CountNames(es, ino) > 0 <==> FirstNamed(es, ino) < |es|
  {
    CountNamesZero(es, ino);
  }
}
