/**
  The layout planner: from the device size, the reserved range and the block
  size, the superblock that places the bitmap, the block-index table and the
  root directory block.

  All arithmetic is on unbounded integers; where the source's unsigned 32-bit
  arithmetic can wrap, the wrap is written out (`SubU32`, `DivRoundUp`).
 */
module Layout {
  import opened Disk
  import opened Mbr

  /** Block-index entries one index block holds in the source's sizing. */
  const IndexEntriesPerBlock: nat := 4096

  /** Bitmap bits one block holds. */
  function BitsPerBlock(blockSize: nat): nat {
    8 * blockSize
  }

  /** The block size a stored class stands for (1 => 1 KiB, 2 => 2 KiB, 4 => 4 KiB). */
  function BlockSizeOf(blockSizeClass: nat): (bs: nat)
    ensures blockSizeClass in {1, 2, 4} <==> ValidBlockSize(bs)
    ensures bs / 1024 == blockSizeClass
  {
    blockSizeClass * 1024
  }

  /** The whole sectors of a device of `deviceBytes` bytes. */
  function TotalSectors(deviceBytes: nat): (n: nat)
    ensures SectorSize * n <= deviceBytes < SectorSize * n + SectorSize
  {
    deviceBytes / SectorSize
  }

  /** `a - b` on `uint32_t`: wraps below zero. */
  function SubU32(a: nat, b: nat): (r: nat)
    requires a < U32Limit && b < U32Limit
    ensures r < U32Limit
    ensures a >= b ==> r == a - b
    ensures a < b ==> r == U32Limit - (b - a)
  {
    (a - b) % U32Limit
  }

  /** `(num + size - 1) / size` on `unsigned`: the least multiple count covering
      `num`, unless the sum wraps past 2^32, in which case it falls short. */
  function DivRoundUp(num: nat, size: nat): (q: nat)
    requires num < U32Limit && 0 < size < U32Limit
    ensures num + size - 1 < U32Limit ==> q * size >= num && (q == 0 || (q - 1) * size < num)
    ensures num + size - 1 >= U32Limit ==> q * size < num
  {
    var x := num + size - 1;
    var y := x % U32Limit;
    assert x < U32Limit ==> y == x;
    assert x >= U32Limit ==> y == x - U32Limit;
    var q := y / size;
    DivFloor(y, size);
    MulPred(q, size);
    q
  }

  /** The quotient times the divisor lies within one divisor below the dividend. */
  lemma DivFloor(y: nat, size: nat)
    requires size > 0
    ensures (y / size) * size <= y < (y / size) * size + size
  {
    assert y == (y / size) * size + y % size;
  }

  /** One multiple fewer is one factor less. */
  lemma MulPred(q: int, size: int)
    ensures (q - 1) * size == q * size - size
  {
  }

  /** The first sector of block 0: the end of the reserved range if there is
      one, otherwise 1 (sector 0 holds the superblock). */
  function FirstBlockSector(resdEnd: nat): (s: nat)
    ensures s >= 1
    ensures resdEnd != 0 ==> s == resdEnd
    ensures resdEnd == 0 ==> s == 1
  {
    if resdEnd != 0 then resdEnd else 1
  }

  /** The superblock the format routine fills in for a device of `deviceBytes`
      bytes, reserved sectors ending at `resdEnd`, and blocks of `blockSize` bytes. */
  function Plan(deviceBytes: nat, resdEnd: nat, blockSize: nat): (sb: Superblock)
    requires ValidBlockSize(blockSize)
    requires deviceBytes < U32Limit
    requires resdEnd < IntLimit
    ensures Representable(sb)
    ensures sb.identify == Magic && sb.volid == VolumeId
    ensures sb.blockSizeClass in {1, 2, 4} && BlockSizeOf(sb.blockSizeClass) == blockSize
    ensures sb.blockStart == FirstBlockSector(resdEnd)
    ensures sb.resdStart == 0 && sb.resdEnd == 0
    ensures sb.bitmapStart == 0
    ensures sb.blockIndexStart == sb.bitmapStart + sb.bitmapSize
    ensures sb.rootBlock == sb.blockIndexStart + sb.blockIndexSize
  {
    var blockSizeClass := blockSize / 1024;
    var blockStart := FirstBlockSector(resdEnd);
    var totalSectors := TotalSectors(deviceBytes);
    assert BlockSizeOf(blockSizeClass) == blockSize;
    var div := BlockSizeOf(blockSizeClass) / SectorSize;
    assert div >= 2;
    var blockTotal := SubU32(totalSectors, blockStart) / div;
    assert blockTotal < IntLimit;
    var bitmapStart := 0;
    var bitmapSize := DivRoundUp(DivRoundUp(blockTotal, 8), BlockSizeOf(blockSizeClass));
    var blockIndexStart := bitmapStart + bitmapSize;
    var blockIndexSize := DivRoundUp(blockTotal, IndexEntriesPerBlock);
    var rootBlock := blockIndexStart + blockIndexSize;
    RegionSizesBounded(blockTotal, blockSize, bitmapSize, blockIndexSize);
    Superblock(Magic, blockSizeClass, blockStart, blockTotal, bitmapStart, bitmapSize,
               blockIndexStart, blockIndexSize, 0, 0, rootBlock, VolumeId)
  }

  /** The block counts the planner derives never overflow a C `int`. */
  lemma RegionSizesBounded(blockTotal: nat, blockSize: nat, bitmapSize: nat, blockIndexSize: nat)
    requires ValidBlockSize(blockSize)
    requires blockTotal < IntLimit
    requires bitmapSize == DivRoundUp(DivRoundUp(blockTotal, 8), BlockSizeOf(blockSize / 1024))
    requires blockIndexSize == DivRoundUp(blockTotal, IndexEntriesPerBlock)
    ensures bitmapSize + blockIndexSize < IntLimit
  {
    var c := DivRoundUp(blockTotal, 8);
    assert c == 0 || (c - 1) * 8 < blockTotal;
    assert bitmapSize == 0 || (bitmapSize - 1) * blockSize < c;
    if bitmapSize > 0 {
      assert (bitmapSize - 1) * 1 <= (bitmapSize - 1) * blockSize;
    }
    assert bitmapSize <= c;
    assert blockIndexSize == 0 || (blockIndexSize - 1) * 4096 < blockTotal;
  }

  /** With the reserved end inside the device, the usable blocks fit between
      the first block sector and the end of the device, and one more block
      would not fit. */
  lemma {:induction false} PlanNoOvercommit(deviceBytes: nat, resdEnd: nat, blockSize: nat)
    requires ValidBlockSize(blockSize)
    requires deviceBytes < U32Limit
    requires resdEnd < IntLimit
    requires FirstBlockSector(resdEnd) <= TotalSectors(deviceBytes)
    ensures var sb := Plan(deviceBytes, resdEnd, blockSize);
      var spb := blockSize / SectorSize;
      && sb.blockTotal * spb + sb.blockStart <= TotalSectors(deviceBytes)
      && TotalSectors(deviceBytes) < (sb.blockTotal + 1) * spb + sb.blockStart
  {
    var sb := Plan(deviceBytes, resdEnd, blockSize);
    var spb := blockSize / SectorSize;
    var avail := TotalSectors(deviceBytes) - sb.blockStart;
    assert BlockSizeOf(blockSize / 1024) / SectorSize == spb;
    assert sb.blockTotal == avail / spb;
    assert avail == sb.blockTotal * spb + avail % spb;
  }

  /** With the reserved end past the last sector, the unsigned subtraction wraps
      and the planner claims more blocks than the device holds. */
  lemma {:induction false} PlanOvercommitsPastDevice(deviceBytes: nat, resdEnd: nat, blockSize: nat)
    requires ValidBlockSize(blockSize)
    requires deviceBytes < U32Limit
    requires resdEnd < IntLimit
    requires FirstBlockSector(resdEnd) > TotalSectors(deviceBytes)
    ensures var sb := Plan(deviceBytes, resdEnd, blockSize);
      sb.blockTotal * (blockSize / SectorSize) + sb.blockStart > TotalSectors(deviceBytes)
      && sb.blockTotal >= 0x1000_0000
  {
    var sb := Plan(deviceBytes, resdEnd, blockSize);
    var spb := blockSize / SectorSize;
    var wrapped := SubU32(TotalSectors(deviceBytes), sb.blockStart);
    assert BlockSizeOf(blockSize / 1024) / SectorSize == spb;
    assert wrapped >= U32Limit - IntLimit;
    assert sb.blockTotal == wrapped / spb;
    assert wrapped == sb.blockTotal * spb + wrapped % spb;
  }

  /** The bitmap is the fewest blocks whose bits cover every usable block:
      rounding bits up to bytes and then bytes up to blocks loses nothing. */
  lemma {:induction false} PlanBitmapSize(deviceBytes: nat, resdEnd: nat, blockSize: nat)
    requires ValidBlockSize(blockSize)
    requires deviceBytes < U32Limit
    requires resdEnd < IntLimit
    ensures var sb := Plan(deviceBytes, resdEnd, blockSize);
      && sb.bitmapSize * BitsPerBlock(blockSize) >= sb.blockTotal
      && (sb.bitmapSize == 0 || (sb.bitmapSize - 1) * BitsPerBlock(blockSize) < sb.blockTotal)
  {
    var sb := Plan(deviceBytes, resdEnd, blockSize);
    var t := sb.blockTotal;
    var q := sb.bitmapSize;
    var c := DivRoundUp(t, 8);
    assert BlockSizeOf(sb.blockSizeClass) == blockSize;
    assert q == DivRoundUp(c, blockSize);
    assert c * 8 >= t && (c == 0 || (c - 1) * 8 < t);
    assert c < U32Limit - blockSize;
    assert q * blockSize >= c && (q == 0 || (q - 1) * blockSize < c);
    assert q * BitsPerBlock(blockSize) == (q * blockSize) * 8;
    if q > 0 {
      assert (q - 1) * blockSize <= c - 1;
      assert (q - 1) * BitsPerBlock(blockSize) == ((q - 1) * blockSize) * 8;
    }
  }

  /** The block-index table is the fewest blocks of 4096 entries covering every
      usable block. */
  lemma PlanIndexSize(deviceBytes: nat, resdEnd: nat, blockSize: nat)
    requires ValidBlockSize(blockSize)
    requires deviceBytes < U32Limit
    requires resdEnd < IntLimit
    ensures var sb := Plan(deviceBytes, resdEnd, blockSize);
      && sb.blockIndexSize * IndexEntriesPerBlock >= sb.blockTotal
      && (sb.blockIndexSize == 0 || (sb.blockIndexSize - 1) * IndexEntriesPerBlock < sb.blockTotal)
  {
  }

  /** With at least one usable block, the regions follow each other in the
      order bitmap, block index, root block, each non-empty. */
  lemma PlanRegionOrder(deviceBytes: nat, resdEnd: nat, blockSize: nat)
    requires ValidBlockSize(blockSize)
    requires deviceBytes < U32Limit
    requires resdEnd < IntLimit
    requires Plan(deviceBytes, resdEnd, blockSize).blockTotal >= 1
    ensures var sb := Plan(deviceBytes, resdEnd, blockSize);
      0 == sb.bitmapStart < sb.blockIndexStart < sb.rootBlock
  {
    PlanBitmapSize(deviceBytes, resdEnd, blockSize);
    PlanIndexSize(deviceBytes, resdEnd, blockSize);
  }

  /** The planner does not check that the device holds the metadata it
      places: a 3-sector device with 1 KiB blocks gets one usable block, yet
      its block index is placed at block 1 and its root at block 2, whose
      first sectors (3 and 5) lie past the device's last sector. */
  lemma PlanPlacesMetadataPastDevice()
    ensures var sb := Plan(3 * 512, 0, 1024);
      && sb.blockTotal == 1
      && sb.bitmapSize == 1 && sb.blockIndexStart == 1 && sb.rootBlock == 2
      && BlockLba(sb.blockStart, 1024, sb.blockIndexStart) >= TotalSectors(3 * 512)
      && BlockLba(sb.blockStart, 1024, sb.rootBlock) >= TotalSectors(3 * 512)
  {
    var sb := Plan(3 * 512, 0, 1024);
    assert sb.blockTotal == 1;
  }

  /** A 10 MiB device with 4 KiB blocks and no reserved range. */
  lemma PlanTenMiB()
    ensures var sb := Plan(20480 * 512, 0, 4096);
      && sb.blockSizeClass == 4
      && sb.blockStart == 1
      && sb.blockTotal == 2559
      && sb.bitmapStart == 0 && sb.bitmapSize == 1
      && sb.blockIndexStart == 1 && sb.blockIndexSize == 1
      && sb.rootBlock == 2
  {
  }
}
