/** lib/kernel/bitmap.c.

    A bitmap is `len` bytes at the start of a window `mem` on memory; what lies behind the bitmap is
    part of the window because the shipped code reads it. */
module Bitmap {
  import opened Outcomes
  import BitSeq

  /** BITMAP_MASK << k in eight bits. */
  function Mask(k: nat): bv8
    requires k < 8
  {
    [1, 2, 4, 8, 16, 32, 64, 128][k]
  }

  function BitOf(b: bv8, k: nat): bool
    requires k < 8
  {
    b & Mask(k) != 0
  }

  function Bit(mem: seq<bv8>, i: nat): bool
    requires i < 8 * |mem|
  {
    BitOf(mem[i / 8], i % 8)
  }

  function WithBit(b: bv8, k: nat, value: bool): bv8
    requires k < 8
  {
    if value then b | Mask(k) else b & !Mask(k)
  }

  lemma MaskedBits(b: bv8, m: bv8, n: bv8)
    requires m & n == 0
    ensures (b | m) & n == b & n && (b & !m) & n == b & n
    ensures (b | m) & m == m && (b & !m) & m == 0
  {
  }

  lemma SetOneBit(b: bv8, k: nat, j: nat, value: bool)
    requires k < 8 && j < 8
    ensures BitOf(WithBit(b, k, value), j) == if j == k then value else BitOf(b, j)
  {
    if j == k {
      MaskedBits(b, Mask(k), 0);
    } else {
      MasksDisjoint(k, j);
      MaskedBits(b, Mask(k), Mask(j));
    }
  }

  lemma MasksDisjoint(k: nat, j: nat)
    requires k < 8 && j < 8 && j != k
    ensures Mask(k) & Mask(j) == 0
  {
  }

  lemma FullByte(b: bv8)
    ensures b == 0xff <==> forall k :: 0 <= k < 8 ==> BitOf(b, k)
  {
    if forall k :: 0 <= k < 8 ==> BitOf(b, k) {
      assert BitOf(b, 0) && BitOf(b, 1) && BitOf(b, 2) && BitOf(b, 3);
      assert BitOf(b, 4) && BitOf(b, 5) && BitOf(b, 6) && BitOf(b, 7);
    }
  }

  predicate Window(mem: seq<bv8>, len: nat) {
    |mem| > 8 * len
  }

  predicate Full(mem: seq<bv8>, len: nat)
    requires len <= |mem|
  {
    forall i :: 0 <= i < 8 * len ==> Bit(mem, i)
  }

  ghost predicate AllFree(mem: seq<bv8>, lo: nat, cnt: nat) {
    lo + cnt <= 8 * |mem| && forall i :: lo <= i < lo + cnt ==> !Bit(mem, i)
  }

  /** What bitmap_scan is for: the first run of cnt clear bits inside the bitmap, or -1 if none. */
  ghost predicate FirstFit(mem: seq<bv8>, len: nat, cnt: nat, r: int) {
    if r == -1 then forall s: nat :: s + cnt <= 8 * len ==> !AllFree(mem, s, cnt)
    else
      && 0 <= r && r + cnt <= 8 * len && AllFree(mem, r, cnt)
      && forall s: nat :: s < r ==> !AllFree(mem, s, cnt)
  }

  // ---------------------------------------------------------------- the third loop

  /** What bitmap_scan_test reports: line 22 indexes the bytes with the bit number; repaired, it
      indexes them with byte_idx. */
  predicate TestedUsed(mem: seq<bv8>, i: nat, shipped: bool)
    requires i < |mem|
  {
    if shipped then BitOf(mem[i], i % 8) else Bit(mem, i)
  }

  /** One past the last bit the loop at line 71 tests. */
  function Limit(len: nat, shipped: bool): nat {
    8 * len + if shipped then 1 else 0
  }

  function RunFrom(mem: seq<bv8>, len: nat, next: nat, count: nat, cnt: nat, shipped: bool): int
    requires Window(mem, len)
    decreases Limit(len, shipped) - next
  {
    if next >= Limit(len, shipped) then -1
    else
      var c := if TestedUsed(mem, next, shipped) then 0 else count + 1;
      if c == cnt then next - cnt + 1 else RunFrom(mem, len, next + 1, c, cnt, shipped)
  }

  function FirstClear(mem: seq<bv8>, len: nat, i: nat): (r: nat)
    requires i <= 8 * len && len <= |mem|
    ensures i <= r <= 8 * len
    ensures r < 8 * len ==> !Bit(mem, r)
    ensures forall j :: i <= j < r ==> Bit(mem, j)
    decreases 8 * len - i
  {
    if i == 8 * len || !Bit(mem, i) then i else FirstClear(mem, len, i + 1)
  }

  /** bitmap_scan, with lines 22 and 71 as shipped or repaired. */
  function Scan(mem: seq<bv8>, len: nat, cnt: nat, shipped: bool): Outcome<int>
    requires Window(mem, len)
  {
    var start := FirstClear(mem, len, 0);
    if start == 8 * len then Halted
    else if cnt == 1 then Next(start)
    else Next(RunFrom(mem, len, start + 1, 1, cnt, shipped))
  }

  /** The loop finds the first run: `count` clear bits end just before `next`. */
  lemma {:induction false} RunFindsFirst(mem: seq<bv8>, len: nat, next: nat, count: nat, cnt: nat)
    requires Window(mem, len) && next <= 8 * len && count < cnt && count <= next
    requires AllFree(mem, next - count, count)
    requires count < next ==> Bit(mem, next - count - 1)
    requires forall s: nat :: s + cnt <= next ==> !AllFree(mem, s, cnt)
    ensures FirstFit(mem, len, cnt, RunFrom(mem, len, next, count, cnt, false))
    decreases 8 * len - next
  {
    if next < 8 * len {
      var c := if Bit(mem, next) then 0 else count + 1;
      forall s: nat | s < next + 1 - cnt ensures !AllFree(mem, s, cnt) {
      }
      if c != cnt {
        forall s: nat | s + cnt == next + 1 ensures !AllFree(mem, s, cnt) {
          if !Bit(mem, next) {
            assert s <= next - count - 1 < next;
          }
        }
        RunFindsFirst(mem, len, next + 1, c, cnt);
      }
    }
  }

  /** The repaired scan is first fit, and it stops the machine exactly on a full map. */
  lemma ScanIsFirstFit(mem: seq<bv8>, len: nat, cnt: nat)
    requires Window(mem, len) && cnt >= 1
    ensures Scan(mem, len, cnt, false).Halted? <==> Full(mem, len)
    ensures !Full(mem, len) ==> FirstFit(mem, len, cnt, Scan(mem, len, cnt, false).value)
  {
    var start := FirstClear(mem, len, 0);
    if start < 8 * len {
      assert !Bit(mem, start);
      if cnt == 1 {
        forall s: nat | s < start ensures !AllFree(mem, s, 1) {
          assert Bit(mem, s);
        }
      } else {
        forall s: nat | s + cnt <= start + 1 ensures !AllFree(mem, s, cnt) {
          assert s < start && Bit(mem, s);
        }
        RunFindsFirst(mem, len, start + 1, 1, cnt);
      }
    }
  }

  /** The shipped scan never stops the machine on another map than the repaired one, and for a
      single bit it is the repaired one. */
  lemma ShippedSingleBit(mem: seq<bv8>, len: nat)
    requires Window(mem, len)
    ensures Scan(mem, len, 1, true) == Scan(mem, len, 1, false)
    ensures !Full(mem, len) ==> Scan(mem, len, 1, true).Next? && FirstFit(mem, len, 1, Scan(mem, len, 1, true).value)
  {
    ScanIsFirstFit(mem, len, 1);
  }

  /** A map with bit 1 set and nothing else: the shipped scan hands out a run through it. */
  function BitOneUsed(cnt: nat): seq<bv8> {
    [2] + seq(8 * cnt, i => 0)
  }

  lemma {:induction false} ZeroTail(cnt: nat, next: nat, count: nat)
    requires 2 <= cnt && 1 <= next && count == next < cnt
    ensures RunFrom(BitOneUsed(cnt), cnt, next, count, cnt, true) == 0
    decreases cnt - next
  {
    var mem := BitOneUsed(cnt);
    assert mem[next] == 0;
    if next + 1 < cnt {
      ZeroTail(cnt, next + 1, count + 1);
    }
  }

  lemma ShippedScanWrong(cnt: nat)
    requires cnt >= 2
    ensures var mem := BitOneUsed(cnt);
            && Window(mem, cnt) && !Full(mem, cnt)
            && Scan(mem, cnt, cnt, true) == Next(0)
            && !FirstFit(mem, cnt, cnt, 0)
  {
    var mem := BitOneUsed(cnt);
    assert !BitOf(2, 0) && BitOf(2, 1);
    assert !Bit(mem, 0) && Bit(mem, 1);
    assert FirstClear(mem, cnt, 0) == 0;
    ZeroTail(cnt, 1, 1);
  }

  /** For how many bits the shipped scan does its job on every map that is not full: for one. */
  lemma ShippedScanRightIff(cnt: nat)
    requires cnt >= 1
    ensures (forall mem: seq<bv8>, len: nat :: Window(mem, len) && !Full(mem, len) ==>
               && Scan(mem, len, cnt, true).Next?
               && FirstFit(mem, len, cnt, Scan(mem, len, cnt, true).value))
            <==> cnt == 1
  {
    if cnt == 1 {
      forall mem: seq<bv8>, len: nat | Window(mem, len) && !Full(mem, len)
        ensures Scan(mem, len, cnt, true).Next? && FirstFit(mem, len, cnt, Scan(mem, len, cnt, true).value)
      {
        ShippedSingleBit(mem, len);
      }
    } else {
      ShippedScanWrong(cnt);
    }
  }

  /** The bits the shipped loop takes for lo..lo+cnt: bit i mod 8 of byte i, and for `start` the clear bit
      it began with. */
  ghost predicate ReadsFree(mem: seq<bv8>, start: nat, lo: nat, cnt: nat) {
    lo + cnt <= |mem| && forall i :: lo <= i < lo + cnt ==> i == start || !BitOf(mem[i], i % 8)
  }

  /** The first run of cnt such bits from `start` to one past the bitmap, or -1 if there is none. */
  ghost predicate ReadFit(mem: seq<bv8>, len: nat, start: nat, cnt: nat, r: int) {
    if r == -1 then forall s: nat :: start <= s && s + cnt <= 8 * len + 1 ==> !ReadsFree(mem, start, s, cnt)
    else
      && start <= r && r + cnt <= 8 * len + 1 && ReadsFree(mem, start, r, cnt)
      && forall s: nat :: start <= s < r ==> !ReadsFree(mem, start, s, cnt)
  }

  lemma {:induction false} ShippedRunReads(mem: seq<bv8>, len: nat, start: nat, next: nat, count: nat, cnt: nat)
    requires Window(mem, len) && start < next <= 8 * len + 1 && count < cnt && count <= next - start
    requires ReadsFree(mem, start, next - count, count)
    requires count < next - start ==> next - count - 1 != start && BitOf(mem[next - count - 1], (next - count - 1) % 8)
    requires forall s: nat :: start <= s && s + cnt <= next ==> !ReadsFree(mem, start, s, cnt)
    ensures ReadFit(mem, len, start, cnt, RunFrom(mem, len, next, count, cnt, true))
    decreases 8 * len + 1 - next
  {
    if next < 8 * len + 1 {
      var c := if TestedUsed(mem, next, true) then 0 else count + 1;
      forall s: nat | start <= s < next + 1 - cnt ensures !ReadsFree(mem, start, s, cnt) {
      }
      if c != cnt {
        forall s: nat | start <= s && s + cnt == next + 1 ensures !ReadsFree(mem, start, s, cnt) {
          if !TestedUsed(mem, next, true) {
            assert s <= next - count - 1 < next;
          }
        }
        ShippedRunReads(mem, len, start, next + 1, c, cnt);
      }
    }
  }

  /** On which maps the shipped scan for two bits or more does its job: exactly where the first run of the
      bits it reads is the first run of clear bits, or neither exists. */
  lemma ShippedRightOnIff(mem: seq<bv8>, len: nat, cnt: nat)
    requires Window(mem, len) && !Full(mem, len) && cnt >= 2
    ensures Scan(mem, len, cnt, true).Next?
    ensures FirstFit(mem, len, cnt, Scan(mem, len, cnt, true).value)
            <==> exists r :: FirstFit(mem, len, cnt, r) && ReadFit(mem, len, FirstClear(mem, len, 0), cnt, r)
  {
    var start := FirstClear(mem, len, 0);
    assert start < 8 * len;
    ShippedRunReads(mem, len, start, start + 1, 1, cnt);
    var v := Scan(mem, len, cnt, true).value;
    assert ReadFit(mem, len, start, cnt, v);
  }

  // ---------------------------------------------------------------- the C functions

  /** Lines 29-57 of bitmap_scan.  The first loop reads one byte behind the map before it looks at
      the bound; ASSERT at line 38 stops the machine on a full map. */
  method FirstClearBit(mem: array<bv8>, len: nat) returns (start: Outcome<nat>)
    requires len < mem.Length
    ensures start.Halted? <==> Full(mem[..], len)
    ensures start.Next? ==> start.value == FirstClear(mem[..], len, 0) && start.value < 8 * len
  {
    var idxByte := 0;
    while mem[idxByte] == 0xff && idxByte < len
      invariant idxByte <= len
      invariant forall i :: 0 <= i < 8 * idxByte ==> Bit(mem[..], i)
    {
      FullByte(mem[idxByte]);
      idxByte := idxByte + 1;
    }
    if !(idxByte < len) {
      return Halted;
    }
    FullByte(mem[idxByte]);
    ghost var clear :| 0 <= clear < 8 && !BitOf(mem[idxByte], clear);
    var idxBit := 0;
    while BitOf(mem[idxByte], idxBit)
      invariant idxBit <= clear
      invariant forall k :: 0 <= k < idxBit ==> BitOf(mem[idxByte], k)
      decreases 8 - idxBit
    {
      idxBit := idxBit + 1;
    }
    var s := idxByte * 8 + idxBit;
    assert !Bit(mem[..], s);
    forall i | 0 <= i < s ensures Bit(mem[..], i) {
      if i >= 8 * idxByte {
        assert i / 8 == idxByte && i % 8 < idxBit;
      }
    }
    FirstClearUnique(mem[..], len, s);
    return Next(s);
  }

  lemma FirstClearUnique(mem: seq<bv8>, len: nat, s: nat)
    requires len <= |mem| && s < 8 * len && !Bit(mem, s)
    requires forall i :: 0 <= i < s ==> Bit(mem, i)
    ensures FirstClear(mem, len, 0) == s
  {
  }

  /** Line 22, shipped or repaired. */
  method ScanTest(mem: array<bv8>, bitIdx: nat, shipped: bool) returns (used: bool)
    requires bitIdx < mem.Length
    ensures used == TestedUsed(mem[..], bitIdx, shipped)
  {
    var byteIdx := bitIdx / 8;
    var bitOdd := bitIdx % 8;
    if shipped {
      used := BitOf(mem[bitIdx], bitOdd);
    } else {
      used := BitOf(mem[byteIdx], bitOdd);
    }
  }

  /** Lines 64-96 of bitmap_scan. */
  method RunLoop(mem: array<bv8>, len: nat, start: nat, cnt: nat, shipped: bool) returns (r: int)
    requires Window(mem[..], len) && start < 8 * len
    ensures r == RunFrom(mem[..], len, start + 1, 1, cnt, shipped)
  {
    var bitLeft: nat := Limit(len, shipped) - start - 1;
    var nextBit: nat := start + 1;
    var count: nat := 1;
    while bitLeft > 0
      invariant nextBit + bitLeft == Limit(len, shipped)
      invariant RunFrom(mem[..], len, nextBit, count, cnt, shipped) == RunFrom(mem[..], len, start + 1, 1, cnt, shipped)
      decreases bitLeft
    {
      bitLeft := bitLeft - 1;
      var used := ScanTest(mem, nextBit, shipped);
      if !used {
        count := count + 1;
      } else {
        count := 0;
      }
      if count == cnt {
        return nextBit - cnt + 1;
      }
      nextBit := nextBit + 1;
    }
    return -1;
  }

  /** bitmap_scan, with lines 22 and 71 as shipped or repaired. */
  method BitmapScan(mem: array<bv8>, len: nat, cnt: nat, shipped: bool) returns (r: Outcome<int>)
    requires Window(mem[..], len)
    ensures r == Scan(mem[..], len, cnt, shipped)
  {
    var start := FirstClearBit(mem, len);
    if start.Halted? {
      assert FirstClear(mem[..], len, 0) == 8 * len;
      return Halted;
    }
    if cnt == 1 {
      return Next(start.value);
    }
    var run := RunLoop(mem, len, start.value, cnt, shipped);
    return Next(run);
  }

  method BitmapSet(mem: array<bv8>, bitIdx: nat, value: bool)
    requires bitIdx < 8 * mem.Length
    modifies mem
    ensures forall i :: 0 <= i < 8 * mem.Length ==>
              Bit(mem[..], i) == if i == bitIdx then value else old(Bit(mem[..], i))
  {
    var byteIdx := bitIdx / 8;
    var bitOdd := bitIdx % 8;
    ghost var was := mem[..];
    mem[byteIdx] := WithBit(mem[byteIdx], bitOdd, value);
    forall i | 0 <= i < 8 * mem.Length ensures Bit(mem[..], i) == if i == bitIdx then value else Bit(was, i) {
      if i / 8 == byteIdx {
        SetOneBit(was[byteIdx], bitOdd, i % 8, value);
      }
    }
  }

  // ---------------------------------------------------------------- one bit

  function AsBits(mem: seq<bv8>, len: nat): seq<bool>
    requires len <= |mem|
  {
    seq(8 * len, i requires 0 <= i < 8 * len => Bit(mem, i))
  }

  /** Asked for one bit, bitmap_scan as shipped answers with the first clear one and stops the machine
      on a full map; its -1 never comes back. */
  lemma ScanOneIsFirstClear(mem: seq<bv8>, len: nat, shipped: bool)
    requires Window(mem, len)
    ensures var r := BitSeq.FirstClear(AsBits(mem, len));
            Scan(mem, len, 1, shipped) == if r == 8 * len then Halted else Next(r)
  {
    var bits := AsBits(mem, len);
    assert forall i :: 0 <= i < 8 * len ==> bits[i] == Bit(mem, i);
  }
}
