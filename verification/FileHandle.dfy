/** An open regular file, changed in place by file_write (fs/file.c) and inode_release (fs/inode.c). */
module FileHandle {
  import opened Outcomes
  import opened BitSeq
  import opened Directory
  import opened FileGrowth

  type byte = b: nat | b < 256

  /** Byte i of a file whose sectors are all[0], all[1], ... */
  function ByteAt(all: seq<Blk>, data: map<Blk, seq<byte>>, i: nat): byte {
    if i / BLOCK < |all| && all[i / BLOCK] in data && i % BLOCK < |data[all[i / BLOCK]]|
    then data[all[i / BLOCK]][i % BLOCK] else 0
  }

  /** Sectors lo..hi of the file have distinct addresses, and each holds 512 bytes. */
  ghost predicate Writable(all: seq<Blk>, data: map<Blk, seq<byte>>, hi: nat) {
    && hi <= |all|
    && (forall j, k :: 0 <= j < k < hi ==> all[j] != all[k])
    && (forall j :: 0 <= j < hi ==> all[j] in data && |data[all[j]]| == BLOCK)
  }

  /** The bytes from `size` on are src[..n], those before are as they were, and so are all other sectors. */
  ghost predicate Wrote(all: seq<Blk>, data: map<Blk, seq<byte>>, data': map<Blk, seq<byte>>, size: nat, src: seq<byte>, n: nat)
    requires n <= |src|
  {
    && (forall i :: 0 <= i < size ==> ByteAt(all, data', i) == ByteAt(all, data, i))
    && (forall i :: 0 <= i < n ==> ByteAt(all, data', size + i) == src[i])
    && (forall b :: b in data && b !in all ==> b in data' && data'[b] == data[b])
  }

  class Handle {
    var base: nat
    var bits: seq<bool>
    var disk: map<Blk, Sector>
    var direct: seq<Blk>
    var table: Blk
    var size: nat
    var data: map<Blk, seq<byte>>

    ghost function D(): Dir
      reads this
    {
      Dir(direct, table, size)
    }

    ghost function V(): Volume
      reads this
    {
      Volume(base, bits, disk)
    }

    constructor (v: Volume, d: Dir)
      ensures V() == v && D() == d && data == map[]
    {
      base, bits, disk := v.base, v.bits, v.disk;
      direct, table, size := d.direct, d.table, d.size;
      data := map[];
    }

    /** With `stops`, the scan as shipped, a full bitmap stops the machine. */
    method BlockBitmapAlloc(stops: bool) returns (lba: Outcome<Option<Blk>>)
      modifies `bits
      ensures match Alloc(old(V()))
              case None => lba == (if stops then Halted else Next(None)) && bits == old(bits)
              case Some((v1, b)) => lba == Next(Some(b)) && V() == v1
    {
      var i := FirstClear(bits);
      if i == |bits| {
        return if stops then Halted else Next(None);
      }
      bits := bits[i := true];
      return Next(Some(base + i));
    }

    /** The loops at lines 365-386, 410-438 and 452-466.  `all` is the inode's own addresses and then
        all_blocks[12..]. */
    method FillLoop(all0: seq<Blk>, used: nat, will: nat, stops: bool) returns (r: Outcome<(bool, seq<Blk>)>)
      requires used <= will <= |all0|
      modifies `bits
      ensures match FillScan(all0, old(V()), used, will, stops)
              case Halted => r == Halted
              case Next(f) => r == Next((f.ok, f.all)) && V() == f.v
    {
      var all, i := all0, used;
      while i < will
        invariant used <= i <= will && |all| == |all0|
        invariant base == old(base) && disk == old(disk)
        invariant Fill(all0, old(V()), used, will) == Fill(all, V(), i, will)
      {
        var lba := BlockBitmapAlloc(stops);
        if lba.Halted? || lba.value.None? {
          return if lba.Halted? then Halted else Next((false, all));
        }
        if i < DIRECT && all[i] != 0 {
          return Halted;
        }
        all := all[i := lba.value.value];
        i := i + 1;
      }
      return Next((true, all));
    }

    /** Lines 330-472. */
    method Extend(used: nat, will: nat, stops: bool) returns (r: Outcome<bool>)
      requires Shaped(D(), disk) && 1 <= used <= will <= MAX_BLOCKS
      modifies `bits, `disk, `direct, `table
      ensures match ExtendScan(old(D()), old(V()), used, will, stops)
              case Halted => r == Halted
              case Next(g) => r == Next(g.ok) && D() == g.d && V() == g.v
    {
      if will == used {
        return if will > DIRECT && table == 0 then Halted else Next(true);
      }
      if will <= DIRECT {
        if direct[used - 1] == 0 {
          return Halted;
        }
        var f := FillLoop(direct + Zeros(MAX_BLOCKS - DIRECT), used, will, stops);
        if f.Halted? {
          return Halted;
        }
        FillLength(direct + Zeros(MAX_BLOCKS - DIRECT), old(V()), used, will);
        direct := f.value.1[..DIRECT];
        return Next(f.value.0);
      }
      ghost var v0 := V();
      var all := direct + Zeros(MAX_BLOCKS - DIRECT);
      var t := table;
      if used <= DIRECT {
        var lba := BlockBitmapAlloc(stops);
        if lba.Halted? || lba.value.None? {
          return if lba.Halted? then Halted else Next(false);
        }
        if table != 0 {
          return Halted;
        }
        t := lba.value.value;
        v0 := V();
      } else {
        if table == 0 {
          return Halted;
        }
        all := direct + disk[table].ps;
      }
      var f := FillLoop(all, used, will, stops);
      if f.Halted? {
        return Halted;
      }
      FillLength(all, v0, used, will);
      var all' := f.value.1;
      direct, table := all'[..DIRECT], t;
      if f.value.0 && table != 0 {
        disk := disk[table := Pointers(all'[DIRECT..])];
      }
      return Next(f.value.0);
    }

    /** Lines 306-322. */
    method TakeFirst(stops: bool) returns (r: Outcome<bool>)
      requires |direct| == DIRECT
      modifies `bits, `direct
      ensures match if old(direct[0]) == 0 then Alloc(old(V())) else Some((old(V()), old(direct[0])))
              case None => r == (if stops then Halted else Next(false)) && bits == old(bits) && direct == old(direct)
              case Some((v1, b)) => r == Next(true) && V() == v1 && direct == old(direct)[0 := b]
    {
      if direct[0] != 0 {
        assert direct[0 := direct[0]] == direct;
        return Next(true);
      }
      var lba := BlockBitmapAlloc(stops);
      if lba.Halted? || lba.value.None? {
        return if lba.Halted? then Halted else Next(false);
      }
      direct := direct[0 := lba.value.value];
      return Next(true);
    }

    /** Lines 270-472. */
    method GrowBy(count: nat, stops: bool) returns (r: Outcome<bool>)
      requires Shaped(D(), disk)
      modifies `bits, `disk, `direct, `table
      ensures match GrowScan(old(D()), old(V()), count, stops)
              case Halted => r == Halted
              case Next(g) => r == Next(g.ok) && D() == g.d && V() == g.v
    {
      if size + count > BLOCK * MAX_BLOCKS {
        return Next(false);
      }
      SizesInOrder(size, count);
      r := TakeFirst(stops);
      if r != Next(true) {
        return;
      }
      if BlocksFor(size + count) > MAX_BLOCKS {
        return Halted;
      }
      r := Extend(BlocksFor(size), BlocksFor(size + count), stops);
    }

    /** One turn of the loop: `part` goes behind the last byte. */
    method PutChunk(all: seq<Blk>, part: seq<byte>, first: bool)
      requires Writable(all, data, size / BLOCK + 1)
      requires |part| <= BLOCK - size % BLOCK
      requires !first ==> size % BLOCK == 0
      modifies `data, `size
      ensures size == old(size) + |part|
      ensures data.Keys == old(data.Keys) && |data[all[old(size) / BLOCK]]| == BLOCK
      ensures forall b :: b in data && b != all[old(size) / BLOCK] ==> data[b] == old(data)[b]
      ensures forall i :: 0 <= i < old(size) ==> ByteAt(all, data, i) == ByteAt(all, old(data), i)
      ensures forall i :: 0 <= i < |part| ==> ByteAt(all, data, old(size) + i) == part[i]
    {
      var sec, off := size / BLOCK, size % BLOCK;
      var buf := if first then data[all[sec]] else seq(BLOCK, i => 0);
      buf := buf[..off] + part + buf[off + |part|..];
      data := data[all[sec] := buf];
      size := size + |part|;
      forall i | 0 <= i < old(size) ensures ByteAt(all, data, i) == ByteAt(all, old(data), i) {
        if i / BLOCK < sec {
          assert all[i / BLOCK] != all[sec];
        } else {
          assert i / BLOCK == sec && i % BLOCK < off;
        }
      }
      forall i | 0 <= i < |part| ensures ByteAt(all, data, old(size) + i) == part[i] {
        SameSector(old(size), i, |part|);
        assert buf[off + i] == part[i];
      }
    }

    /** The write loop as it is meant: bytes_written rises and size_left falls with each chunk. */
    method WriteLoop(all: seq<Blk>, src: seq<byte>) returns (written: nat)
      requires Writable(all, data, BlocksFor(size + |src|))
      modifies `data, `size
      ensures written == |src| && size == old(size) + |src| && data.Keys == old(data.Keys)
      ensures Wrote(all, old(data), data, old(size), src, |src|)
    {
      written := 0;
      var first := true;
      while written < |src|
        invariant written <= |src| && size == old(size) + written && data.Keys == old(data.Keys)
        invariant Writable(all, data, BlocksFor(old(size) + |src|))
        invariant Wrote(all, old(data), data, old(size), src, written)
        invariant written < |src| && !first ==> size % BLOCK == 0
      {
        var left := BLOCK - size % BLOCK;
        var chunk := if |src| - written < left then |src| - written else left;
        SectorBound(size, old(size) + |src|);
        ghost var before, size0, w0 := data, size, written;
        PutChunk(all, src[written..written + chunk], first);
        WroteMore(all, old(data), before, data, old(size), src, w0, chunk, src[w0..w0 + chunk]);
        first := false;
        written := written + chunk;
        if written < |src| {
          assert size == size0 + (BLOCK - size0 % BLOCK);
          NextSector(size0);
        }
      }
    }

    /** As shipped: size_left never falls and bytes_written goes down, wrapping to just below 2^32, so
        the loop ends after one chunk and returns minus its length. */
    method WriteLoopShipped(all: seq<Blk>, src: seq<byte>) returns (result: int)
      requires |src| <= BLOCK * MAX_BLOCKS
      requires Writable(all, data, BlocksFor(size + |src|))
      modifies `data, `size
      ensures size == old(size) + FirstChunk(old(size), |src|) && data.Keys == old(data.Keys)
      ensures Wrote(all, old(data), data, old(size), src, FirstChunk(old(size), |src|))
      ensures result == 0 - FirstChunk(old(size), |src|)
    {
      var written, first := 0, true;
      while written < |src|
        invariant if first then written == 0 && size == old(size) && data == old(data)
                  else |src| > 0 && written == 0x1_0000_0000 - FirstChunk(old(size), |src|)
                       && size == old(size) + FirstChunk(old(size), |src|) && data.Keys == old(data.Keys)
                       && Wrote(all, old(data), data, old(size), src, FirstChunk(old(size), |src|))
        decreases first
      {
        var left := BLOCK - size % BLOCK;
        var chunk := if |src| < left then |src| else left;
        SectorBound(size, old(size) + |src|);
        PutChunk(all, src[..chunk], first);
        first := false;
        written := (written - chunk) % 0x1_0000_0000;
      }
      result := if written < 0x8000_0000 then written else written - 0x1_0000_0000;
    }

    /** Lines 232-268 of fs/inode.c. */
    method InodeRelease() returns (r: Outcome<()>)
      requires Shaped(D(), disk)
      modifies `bits
      ensures match Release(D(), old(V()))
              case Halted => r == Halted
              case Next(v1) => r == Next(()) && V() == v1
    {
      var blocks := direct;
      if table != 0 {
        blocks := direct + disk[table].ps;
        if !(base < table < base + |bits|) {
          return Halted;
        }
        bits := bits[table - base := false];
      }
      ghost var v1 := V();
      var k := 0;
      while k < |blocks|
        invariant k <= |blocks| && base == old(base) && disk == old(disk)
        invariant FreeEach(v1, blocks) == FreeEach(V(), blocks[k..])
      {
        assert blocks[k..][1..] == blocks[k + 1..];
        if blocks[k] != 0 {
          if !(base < blocks[k] < base + |bits|) {
            return Halted;
          }
          bits := bits[blocks[k] - base := false];
        }
        k := k + 1;
      }
      return Next(());
    }
  }

  lemma SameSector(size: nat, i: nat, chunk: nat)
    requires i < chunk <= BLOCK - size % BLOCK
    ensures (size + i) / BLOCK == size / BLOCK && (size + i) % BLOCK == size % BLOCK + i
  {
  }

  lemma SizesInOrder(size: nat, count: nat)
    ensures 1 <= BlocksFor(size) <= BlocksFor(size + count)
  {
  }

  lemma SectorBound(size: nat, end: nat)
    requires size <= end
    ensures size / BLOCK + 1 <= BlocksFor(end)
  {
  }

  lemma NextSector(size: nat)
    ensures (size + (BLOCK - size % BLOCK)) % BLOCK == 0
  {
  }

  lemma WroteMore(all: seq<Blk>, d0: map<Blk, seq<byte>>, d1: map<Blk, seq<byte>>, d2: map<Blk, seq<byte>>,
                  size: nat, src: seq<byte>, n: nat, chunk: nat, part: seq<byte>)
    requires n + chunk <= |src| && Wrote(all, d0, d1, size, src, n)
    requires d1.Keys == d2.Keys && forall b :: b in d1 && b !in all ==> d2[b] == d1[b]
    requires forall i :: 0 <= i < size + n ==> ByteAt(all, d2, i) == ByteAt(all, d1, i)
    requires part == src[n..n + chunk]
    requires forall i :: 0 <= i < |part| ==> ByteAt(all, d2, size + n + i) == part[i]
    ensures Wrote(all, d0, d2, size, src, n + chunk)
  {
    forall i | 0 <= i < n + chunk ensures ByteAt(all, d2, size + i) == src[i] {
      if i >= n {
        assert src[i] == part[i - n];
      }
    }
  }
}
