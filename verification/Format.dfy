/** partition_format (fs/fs.c): where everything on a partition is, and the block bitmap it starts with. */
module Format {
  const SECTOR := 512
  const BITS_PER_SECTOR := 4096
  const MAX_FILES := 4096
  const INODE_SIZE := 76

  function DivRoundUp(x: nat, step: nat): nat
    requires step > 0
  {
    (x + step - 1) / step
  }

  const INODE_BITMAP_SECTS := DivRoundUp(MAX_FILES, BITS_PER_SECTOR)
  const INODE_TABLE_SECTS := DivRoundUp(INODE_SIZE * MAX_FILES, SECTOR)
  /** Boot block, super block, inode bitmap and inode table. */
  const USED_SECTS := 1 + 1 + INODE_BITMAP_SECTS + INODE_TABLE_SECTS

  /** Line numbers of sectors are relative to the disk; `bits` is block_bitmap_bit_len. */
  datatype Layout = Layout(start: nat, secCnt: nat, blockBitmap: nat, blockBitmapSects: nat,
                           inodeBitmap: nat, inodeTable: nat, dataStart: nat, bits: nat)

  /** Lines 93-132. */
  function Plan(start: nat, secCnt: nat): Layout
    requires secCnt > USED_SECTS
  {
    var free := secCnt - USED_SECTS;
    var guess := DivRoundUp(free, BITS_PER_SECTOR);
    var bits := free - guess;
    var sects := DivRoundUp(bits, BITS_PER_SECTOR);
    var inodeBitmap := start + 2 + sects;
    var inodeTable := inodeBitmap + INODE_BITMAP_SECTS;
    Layout(start, secCnt, start + 2, sects, inodeBitmap, inodeTable, inodeTable + INODE_TABLE_SECTS, bits)
  }

  /** The regions follow one another without overlap, the block bitmap has room for all its bits, the inode
      table for 4096 inodes, and every block with a bit below `bits` lies inside the partition. */
  lemma PlanFits(start: nat, secCnt: nat)
    requires secCnt > USED_SECTS
    ensures var p := Plan(start, secCnt);
            && start + 2 == p.blockBitmap
            && p.inodeBitmap == p.blockBitmap + p.blockBitmapSects && p.bits <= p.blockBitmapSects * BITS_PER_SECTOR
            && p.inodeTable == p.inodeBitmap + INODE_BITMAP_SECTS && MAX_FILES <= INODE_BITMAP_SECTS * BITS_PER_SECTOR
            && p.dataStart == p.inodeTable + INODE_TABLE_SECTS && INODE_SIZE * MAX_FILES <= INODE_TABLE_SECTS * SECTOR
            && p.dataStart + p.bits <= start + secCnt
  {
    var free := secCnt - USED_SECTS;
    var guess := DivRoundUp(free, BITS_PER_SECTOR);
    var bits := free - guess;
    assert DivRoundUp(bits, BITS_PER_SECTOR) <= guess;
  }

  // ---------------------------------------------------------------- the block bitmap on disk

  /** The bits of the block bitmap's sectors as lines 165-180 leave them: bit 0 for the root directory,
      ones from `bits` to the end of its sector, and then bits `8 * (bits / 8)` up to and including number
      `bits` cleared again. */
  function InitialBit(bits: nat, i: nat): bool {
    var byte, bit := bits / 8, bits % 8;
    if i / 8 == byte && i % 8 <= bit then false
    else if byte <= i / 8 < byte + SECTOR - byte % SECTOR then true
    else i == 0
  }

  /** What is wanted: block 0 taken, the other blocks of the partition free, everything past them taken. */
  function WantedBit(bits: nat, i: nat): bool {
    i == 0 || i >= bits
  }

  /** Of the bits written, exactly number `bits` is wrong: one past the last block, it is left free. */
  lemma OneBitTooManyFree(bits: nat, i: nat)
    requires bits >= 8 && i < (bits / 8 / SECTOR + 1) * BITS_PER_SECTOR
    ensures InitialBit(bits, i) == WantedBit(bits, i) <==> i != bits
  {
    var byte := bits / 8;
    assert byte + SECTOR - byte % SECTOR == (byte / SECTOR + 1) * SECTOR;
    assert i / 8 < (byte / SECTOR + 1) * SECTOR;
    assert i == 8 * (i / 8) + i % 8 && bits == 8 * byte + bits % 8;
  }

  /** With fewer than 8 blocks, clearing the last byte's bits clears the root directory's too. */
  lemma RootBitSetIff(bits: nat)
    ensures InitialBit(bits, 0) <==> bits >= 8
  {
  }

  /** The bitmap on disk is right iff its last sector is full of blocks. */
  lemma BitmapRightIff(bits: nat)
    requires bits >= 8
    ensures (forall i :: 0 <= i < DivRoundUp(bits, BITS_PER_SECTOR) * BITS_PER_SECTOR ==>
               InitialBit(bits, i) == WantedBit(bits, i))
            <==> bits % BITS_PER_SECTOR == 0
  {
    var sects := DivRoundUp(bits, BITS_PER_SECTOR);
    assert bits / 8 / SECTOR == bits / BITS_PER_SECTOR;
    assert sects <= bits / 8 / SECTOR + 1;
    forall i | 0 <= i < sects * BITS_PER_SECTOR ensures InitialBit(bits, i) == WantedBit(bits, i) <==> i != bits {
      OneBitTooManyFree(bits, i);
    }
    if bits % BITS_PER_SECTOR == 0 {
      assert sects * BITS_PER_SECTOR == bits;
    } else {
      assert bits < sects * BITS_PER_SECTOR;
      assert InitialBit(bits, bits) != WantedBit(bits, bits);
    }
  }

  /** The extra block is a sector outside the partition exactly when taking the bitmap's own sectors off
      did not shrink the bitmap. */
  lemma ExtraBlockOutsideIff(start: nat, secCnt: nat)
    requires secCnt > USED_SECTS
    ensures var p := Plan(start, secCnt);
            p.dataStart + p.bits == start + secCnt
            <==> DivRoundUp(p.bits, BITS_PER_SECTOR) == DivRoundUp(secCnt - USED_SECTS, BITS_PER_SECTOR)
  {
  }
}
