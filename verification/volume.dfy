/**
  The device after a format: what sector 0 and the bitmap blocks read back,
  which blocks each write touches, and that the addresses stay in range.
 */
module Volume {
  import opened Bits
  import opened Bitmap
  import opened Disk
  import opened Mbr
  import opened Layout
  import opened Format

  /** The parameters a successful format call runs with. */
  ghost predicate Accepted(deviceBytes: nat, resdEnd: nat, blockSize: nat) {
    ValidBlockSize(blockSize) && deviceBytes < U32Limit && resdEnd < IntLimit
  }

  /** `sb` is the superblock a successful format call lays down for these parameters. */
  ghost predicate Planned(sb: Superblock, deviceBytes: nat, resdEnd: nat, blockSize: nat) {
    Accepted(deviceBytes, resdEnd, blockSize) && sb == Plan(deviceBytes, resdEnd, blockSize)
  }

  /** The block number the `l`-th write of a format stores (for `l >= 1`;
      write 0 is the superblock). */
  function WrittenBlock(sb: Superblock, l: nat): nat
    requires l >= 1
  {
    if l <= sb.bitmapSize then sb.bitmapStart + (l - 1)
    else sb.bitmapStart + (l - 1 - sb.bitmapSize)
  }

  /** Every write after the first stores exactly one block: the block `WrittenBlock` names. */
  lemma FormatWriteIsBlock(sb: Superblock, l: nat)
    requires ValidClass(sb) && Representable(sb)
    requires 1 <= l < |FormatWrites(sb)|
    ensures FormatWrites(sb)[l].lba == BlockLba(sb.blockStart, BlockBytes(sb), WrittenBlock(sb, l))
    ensures |FormatWrites(sb)[l].sectors| == BlockSectors(BlockBytes(sb), 1)
  {
    FormatWriteAt(sb, l);
    var b := BlockBytes(sb);
    var k := WrittenBlock(sb, l);
    if l <= sb.bitmapSize {
      assert k == sb.bitmapStart + (l - 1);
      BlockWriteShape(sb.blockStart, b, k, Zeros(b));
    } else {
      var j := l - 1 - sb.bitmapSize;
      assert k == sb.bitmapStart + j;
      BlockWriteShape(sb.blockStart, b, k, MarkedImage(sb, j));
    }
  }

  /** Write `l` of a format is a zero-pass write while `l` is at most the bitmap
      size, and a marking-pass write after that. */
  lemma FormatWriteAt(sb: Superblock, l: nat)
    requires ValidClass(sb) && Representable(sb)
    requires 1 <= l < |FormatWrites(sb)|
    ensures l <= sb.bitmapSize ==> FormatWrites(sb)[l] == ZeroWrite(sb, l - 1)
    ensures l > sb.bitmapSize ==> FormatWrites(sb)[l] == MarkWrite(sb, l - 1 - sb.bitmapSize)
  {
    var ws := FormatWrites(sb);
    if l <= sb.bitmapSize {
      assert ws[l] == ZeroWrites(sb)[l - 1];
    } else {
      assert ws[l] == MarkWrites(sb)[l - 1 - sb.bitmapSize];
    }
  }

  /** A one-block write lands at that block's first sector and spans one block. */
  lemma BlockWriteShape(blockStart: nat, blockSize: nat, blockNumber: nat, data: seq<bv8>)
    requires ValidBlockSize(blockSize) && |data| >= blockSize
    ensures WriteBlocks(blockStart, blockSize, blockNumber, 1, data).lba == BlockLba(blockStart, blockSize, blockNumber)
    ensures |WriteBlocks(blockStart, blockSize, blockNumber, 1, data).sectors| == BlockSectors(blockSize, 1)
  {
  }

  /** A single-block write of one block stores nothing of another block. */
  lemma OtherBlockAvoided(sb: Superblock, l: nat, k: nat)
    requires ValidClass(sb) && Representable(sb)
    requires 1 <= l < |FormatWrites(sb)|
    requires WrittenBlock(sb, l) != k
    ensures Avoids(FormatWrites(sb)[l], BlockLba(sb.blockStart, BlockBytes(sb), k), BlockSectors(BlockBytes(sb), 1))
  {
    FormatWriteIsBlock(sb, l);
    DisjointBlocksDisjointSectors(sb.blockStart, BlockBytes(sb), WrittenBlock(sb, l), 1, k, 1);
  }

  /** After a format, sector 0 holds the planned superblock: the signature check
      passes and the record reads back unchanged. */
  lemma FormattedSignature(d: Device, sb: Superblock, deviceBytes: nat, resdEnd: nat, blockSize: nat)
    requires Planned(sb, deviceBytes, resdEnd, blockSize)
    ensures ValidClass(sb)
    ensures Check(ApplyAll(d, FormatWrites(sb)))
    ensures Decode(SectorAt(ApplyAll(d, FormatWrites(sb)), 0)) == sb
  {
    var ws := FormatWrites(sb);
    var e := Encode(sb);
    FlattenOne(ws[0].sectors);
    forall l | 0 < l < |ws|
      ensures !Covers(ws[l], 0)
    {
      FormatWriteIsBlock(sb, l);
    }
    LastWriteWins(d, ws, 0, 0);
    DecodeEncode(sb);
  }

  /** The sizing arithmetic behind the bitmap's room: a bitmap of `bm` blocks
      covering `t >= 1` blocks, and an index of `ix` blocks of 4096 entries
      covering no more than needed, leave room in the bitmap for the bits of
      the bitmap, the index and the root block. */
  lemma SpanWithinBitmap(t: nat, bm: nat, ix: nat, q: nat)
    requires 1 <= q <= 8
    requires t >= 1 && bm * (q * IndexEntriesPerBlock) >= t
    requires ix == 0 || (ix - 1) * IndexEntriesPerBlock < t
    ensures bm + ix + 1 <= bm * (q * IndexEntriesPerBlock)
  {
    var cap := q * IndexEntriesPerBlock;
    assert bm >= 1;
    assert (bm * q) * IndexEntriesPerBlock == bm * cap;
    if ix > 0 {
      MulCancel(ix - 1, bm * q, IndexEntriesPerBlock);
    }
    MulMono(q, 8, bm);
    MulMono(10, cap, bm);
  }

  /** A span that fits in `bm` blocks takes at most `bm` blocks of the marking pass. */
  lemma MarkedCountWithin(span: nat, cap: nat, bm: nat)
    requires cap > 0 && span <= bm * cap
    ensures MarkedBlockCount(span, cap) <= bm
  {
    var m := MarkedBlockCount(span, cap);
    if m > 0 {
      MulCancel(m - 1, bm, cap);
    }
  }

  /** With at least one usable block the marking pass fits inside the bitmap:
      the span of bits it sets needs no more blocks than the bitmap has. */
  lemma MarkingFitsBitmap(sb: Superblock, deviceBytes: nat, resdEnd: nat, blockSize: nat)
    requires Planned(sb, deviceBytes, resdEnd, blockSize)
    requires sb.blockTotal >= 1
    ensures ValidClass(sb) && |MarkWrites(sb)| <= sb.bitmapSize
  {
    var cap := BitsPerBlock(blockSize);
    var q := cap / IndexEntriesPerBlock;
    assert q * IndexEntriesPerBlock == cap;
    PlanBitmapSize(deviceBytes, resdEnd, blockSize);
    PlanIndexSize(deviceBytes, resdEnd, blockSize);
    SpanWithinBitmap(sb.blockTotal, sb.bitmapSize, sb.blockIndexSize, q);
    MarkedCountWithin(MarkSpan(sb), cap, sb.bitmapSize);
  }

  /** A block that the `i`-th of a list of writes stores, and no later write
      touches, reads back as that write's buffer. */
  lemma ReadBackWrittenBlock(d: Device, ws: seq<Write>, i: nat, blockStart: nat, b: nat, k: nat, data: seq<bv8>)
    requires ValidBlockSize(b) && |data| == b
    requires i < |ws| && ws[i] == WriteBlocks(blockStart, b, k, 1, data)
    requires forall l :: i < l < |ws| ==> Avoids(ws[l], BlockLba(blockStart, b, k), BlockSectors(b, 1))
    ensures ReadBlocks(ApplyAll(d, ws), blockStart, b, k, 1) == data
  {
    var w := ws[i];
    assert w.lba == BlockLba(blockStart, b, k);
    assert |w.sectors| == BlockSectors(b, 1);
    ReadLastWrite(d, ws, i);
    var got := ReadBlocks(ApplyAll(d, ws), blockStart, b, k, 1);
    assert got == HalRead(ApplyAll(d, ws), w.lba, |w.sectors|);
    assert got == Flatten(w.sectors);
    assert Flatten(w.sectors) == data[..b * 1];
    assert data[..b * 1] == data;
  }

  /** A block the `i`-th write of a format stores, and no later write touches,
      reads back as that write's buffer. */
  lemma ReadBackBlock(d: Device, sb: Superblock, i: nat, k: nat, data: seq<bv8>)
    requires ValidClass(sb) && Representable(sb)
    requires 1 <= i < |FormatWrites(sb)|
    requires |data| == BlockBytes(sb)
    requires FormatWrites(sb)[i] == WriteBlocks(sb.blockStart, BlockBytes(sb), k, 1, data)
    requires forall l :: i < l < |FormatWrites(sb)| ==> WrittenBlock(sb, l) != k
    ensures ReadBlocks(ApplyAll(d, FormatWrites(sb)), sb.blockStart, BlockBytes(sb), k, 1) == data
  {
    var ws := FormatWrites(sb);
    forall l | i < l < |ws|
      ensures Avoids(ws[l], BlockLba(sb.blockStart, BlockBytes(sb), k), BlockSectors(BlockBytes(sb), 1))
    {
      OtherBlockAvoided(sb, l, k);
    }
    ReadBackWrittenBlock(d, ws, i, sb.blockStart, BlockBytes(sb), k, data);
  }

  /** Where the marking pass's writes sit in the format's write list, and that
      no later write stores the same block. */
  lemma MarkWriteIndex(sb: Superblock, j: nat)
    requires ValidClass(sb) && Representable(sb)
    requires j < |MarkWrites(sb)|
    ensures 1 + sb.bitmapSize + j < |FormatWrites(sb)|
    ensures FormatWrites(sb)[1 + sb.bitmapSize + j]
      == WriteBlocks(sb.blockStart, BlockBytes(sb), sb.bitmapStart + j, 1, MarkedImage(sb, j))
    ensures |MarkedImage(sb, j)| == BlockBytes(sb)
    ensures forall l :: 1 + sb.bitmapSize + j < l < |FormatWrites(sb)| ==> WrittenBlock(sb, l) != sb.bitmapStart + j
  {
    var ws := FormatWrites(sb);
    assert |ws| == 1 + sb.bitmapSize + |MarkWrites(sb)|;
    assert ws[1 + sb.bitmapSize + j] == MarkWrites(sb)[j];
  }

  /** A bitmap block the marking pass reaches holds, after the format, the
      image that pass wrote to it. */
  lemma MarkedBlockReadBack(d: Device, sb: Superblock, j: nat)
    requires ValidClass(sb) && Representable(sb)
    requires j < |MarkWrites(sb)|
    ensures ReadBlocks(ApplyAll(d, FormatWrites(sb)), sb.blockStart, BlockBytes(sb), sb.bitmapStart + j, 1)
      == MarkedImage(sb, j)
  {
    MarkWriteIndex(sb, j);
    ReadBackBlock(d, sb, 1 + sb.bitmapSize + j, sb.bitmapStart + j, MarkedImage(sb, j));
  }

  /** Where the zero pass's writes sit in the format's write list, and that no
      later write stores the same block when the marking pass does not reach it. */
  lemma ZeroWriteIndex(sb: Superblock, j: nat)
    requires ValidClass(sb) && Representable(sb)
    requires |MarkWrites(sb)| <= j < sb.bitmapSize
    ensures 1 + j < |FormatWrites(sb)|
    ensures FormatWrites(sb)[1 + j]
      == WriteBlocks(sb.blockStart, BlockBytes(sb), sb.bitmapStart + j, 1, Zeros(BlockBytes(sb)))
    ensures forall l :: 1 + j < l < |FormatWrites(sb)| ==> WrittenBlock(sb, l) != sb.bitmapStart + j
  {
    var ws := FormatWrites(sb);
    assert |ws| == 1 + sb.bitmapSize + |MarkWrites(sb)|;
    assert ws[1 + j] == ZeroWrites(sb)[j];
  }

  /** A bitmap block the marking pass does not reach holds zeros after the
      format, from the zero pass. */
  lemma UnmarkedBlockReadBack(d: Device, sb: Superblock, j: nat)
    requires ValidClass(sb) && Representable(sb)
    requires |MarkWrites(sb)| <= j < sb.bitmapSize
    ensures ReadBlocks(ApplyAll(d, FormatWrites(sb)), sb.blockStart, BlockBytes(sb), sb.bitmapStart + j, 1)
      == Zeros(BlockBytes(sb))
  {
    ZeroWriteIndex(sb, j);
    ReadBackBlock(d, sb, 1 + j, sb.bitmapStart + j, Zeros(BlockBytes(sb)));
  }

  /** Bit `p` of the `j`-th block the marking pass writes is 1 exactly when
      absolute bit `j * cap + p` lies in the span; a block the pass does not
      reach lies wholly past the span. */
  lemma MarkedBitsOfBlock(sb: Superblock, j: nat, p: nat)
    requires ValidClass(sb)
    requires p < BitsPerBlock(BlockBytes(sb))
    ensures |MarkedImage(sb, j)| == BlockBytes(sb)
    ensures j < |MarkWrites(sb)| ==>
      (Bit(MarkedImage(sb, j), p) <==> j * BitsPerBlock(BlockBytes(sb)) + p < MarkSpan(sb))
    ensures j >= |MarkWrites(sb)| ==> j * BitsPerBlock(BlockBytes(sb)) + p >= MarkSpan(sb)
  {
    var cap := BitsPerBlock(BlockBytes(sb));
    var span := MarkSpan(sb);
    var m := |MarkWrites(sb)|;
    if j < m {
      MulMono(j, m - 1, cap);
      MarkStep(span, cap, j);
    } else {
      MulMono(m, j, cap);
    }
  }

  /** For any volume whose marking pass fits its bitmap: after the format, bit
      `p` of bitmap block `j` is 1 exactly when absolute bit `j * cap + p` lies
      in the span of the bitmap, block-index and root blocks. */
  lemma BitmapBitAfterFormat(d: Device, sb: Superblock, blockSize: nat, j: nat, p: nat)
    requires ValidClass(sb) && Representable(sb) && BlockBytes(sb) == blockSize
    requires |MarkWrites(sb)| <= sb.bitmapSize
    requires j < sb.bitmapSize
    requires p < BitsPerBlock(blockSize)
    ensures var block := ReadBlocks(ApplyAll(d, FormatWrites(sb)), sb.blockStart, blockSize, sb.bitmapStart + j, 1);
      Bit(block, p) <==> j * BitsPerBlock(blockSize) + p < MarkSpan(sb)
  {
    MarkedBitsOfBlock(sb, j, p);
    if j < |MarkWrites(sb)| {
      MarkedBlockReadBack(d, sb, j);
    } else {
      UnmarkedBlockReadBack(d, sb, j);
    }
  }

  /** After a format with at least one usable block, bit `p` of bitmap block `j`
      (absolute bit `j * 8 * blockSize + p`) is 1 exactly when it lies in the span
      of the bitmap, block-index and root blocks. */
  lemma FormattedBitmap(d: Device, sb: Superblock, deviceBytes: nat, resdEnd: nat, blockSize: nat, j: nat, p: nat)
    requires Planned(sb, deviceBytes, resdEnd, blockSize)
    requires sb.blockTotal >= 1
    requires j < sb.bitmapSize
    requires p < BitsPerBlock(blockSize)
    ensures ValidClass(sb)
    ensures var block := ReadBlocks(ApplyAll(d, FormatWrites(sb)), sb.blockStart, blockSize, sb.bitmapStart + j, 1);
      Bit(block, p) <==> j * BitsPerBlock(blockSize) + p < MarkSpan(sb)
  {
    MarkingFitsBitmap(sb, deviceBytes, resdEnd, blockSize);
    BitmapBitAfterFormat(d, sb, blockSize, j, p);
  }

  /** The marking pass's writes go to consecutive bitmap blocks from the first
      on, one block each, in increasing and non-overlapping sector ranges. */
  lemma MarkWritesPlacement(sb: Superblock, blockSize: nat)
    requires ValidClass(sb) && BlockBytes(sb) == blockSize
    ensures var ms := MarkWrites(sb);
      && (forall j :: 0 <= j < |ms| ==> ms[j].lba == BlockLba(sb.blockStart, blockSize, sb.bitmapStart + j))
      && (forall j :: 0 <= j < |ms| ==> |ms[j].sectors| == BlockSectors(blockSize, 1))
      && (forall j1, j2 :: 0 <= j1 < j2 < |ms| ==> ms[j1].lba + |ms[j1].sectors| <= ms[j2].lba)
  {
    var ms := MarkWrites(sb);
    forall j | 0 <= j < |ms|
      ensures ms[j].lba == BlockLba(sb.blockStart, blockSize, sb.bitmapStart + j)
      ensures |ms[j].sectors| == BlockSectors(blockSize, 1)
    {
      assert ms[j] == WriteBlocks(sb.blockStart, blockSize, sb.bitmapStart + j, 1, MarkedImage(sb, j));
    }
    forall j1, j2 | 0 <= j1 < j2 < |ms|
      ensures ms[j1].lba + |ms[j1].sectors| <= ms[j2].lba
    {
      DisjointBlocksDisjointSectors(sb.blockStart, blockSize, sb.bitmapStart + j1, 1, sb.bitmapStart + j2, 1);
    }
  }

  /** The marking pass writes the fewest bitmap blocks that hold the span, from
      the first on, one write per block, no block twice, and (with at least one
      usable block) only bitmap blocks. */
  lemma MarkingPassShape(sb: Superblock, deviceBytes: nat, resdEnd: nat, blockSize: nat)
    requires Planned(sb, deviceBytes, resdEnd, blockSize)
    ensures ValidClass(sb)
    ensures var ms := MarkWrites(sb);
      && |ms| * BitsPerBlock(blockSize) >= MarkSpan(sb)
      && (|ms| == 0 || (|ms| - 1) * BitsPerBlock(blockSize) < MarkSpan(sb))
      && (forall j :: 0 <= j < |ms| ==> ms[j].lba == BlockLba(sb.blockStart, blockSize, sb.bitmapStart + j))
      && (forall j1, j2 :: 0 <= j1 < j2 < |ms| ==> ms[j1].lba + |ms[j1].sectors| <= ms[j2].lba)
      && (sb.blockTotal >= 1 ==> |ms| <= sb.bitmapSize)
  {
    MarkWritesPlacement(sb, blockSize);
    if sb.blockTotal >= 1 {
      MarkingFitsBitmap(sb, deviceBytes, resdEnd, blockSize);
    }
  }

  /** With no usable block the bitmap and block-index regions are empty, the
      root block is block 0, and the marking pass still writes one block: the
      root block. */
  lemma EmptyVolumeMarksRootBlock(sb: Superblock, deviceBytes: nat, resdEnd: nat, blockSize: nat)
    requires Planned(sb, deviceBytes, resdEnd, blockSize)
    requires sb.blockTotal == 0
    ensures sb.bitmapSize == 0 && sb.blockIndexSize == 0 && sb.rootBlock == 0
    ensures ValidClass(sb)
    ensures |MarkWrites(sb)| == 1
    ensures MarkWrites(sb)[0].lba == BlockLba(sb.blockStart, blockSize, sb.rootBlock)
  {
    PlanBitmapSize(deviceBytes, resdEnd, blockSize);
    PlanIndexSize(deviceBytes, resdEnd, blockSize);
    MarkedBlockCountUnique(1, BitsPerBlock(blockSize), 1);
  }

  /** The blocks a format writes: with at least one usable block, bitmap
      blocks only; otherwise block 0 alone. */
  lemma WrittenBlocksBelow(sb: Superblock, deviceBytes: nat, resdEnd: nat, blockSize: nat, l: nat)
    requires Planned(sb, deviceBytes, resdEnd, blockSize)
    requires 1 <= l < |FormatWrites(sb)|
    ensures WrittenBlock(sb, l) < if sb.blockTotal >= 1 then sb.bitmapSize else 1
  {
    if sb.blockTotal >= 1 {
      MarkingFitsBitmap(sb, deviceBytes, resdEnd, blockSize);
    } else {
      EmptyVolumeMarksRootBlock(sb, deviceBytes, resdEnd, blockSize);
    }
  }

  /** The bitmap's size in bytes stays below 2^28 plus one block. */
  lemma BitmapBytesBound(sb: Superblock, deviceBytes: nat, resdEnd: nat, blockSize: nat)
    requires Planned(sb, deviceBytes, resdEnd, blockSize)
    ensures sb.bitmapSize * blockSize < 0x1000_0000 + blockSize
  {
    PlanBitmapSize(deviceBytes, resdEnd, blockSize);
    LeastCoverBytes(sb.bitmapSize, blockSize, sb.blockTotal);
  }

  /** The fewest blocks of `8 * b` bits covering fewer than 2^31 bits take
      fewer than 2^28 + `b` bytes. */
  lemma LeastCoverBytes(bm: nat, b: nat, t: nat)
    requires b > 0 && t < IntLimit
    requires bm == 0 || (bm - 1) * (8 * b) < t
    ensures bm * b < 0x1000_0000 + b
  {
    if bm > 0 {
      assert (bm - 1) * (8 * b) == 8 * ((bm - 1) * b);
      assert (bm - 1) * b == bm * b - b;
    }
  }

  /** A block below `top` whose bytes end below 2^28 plus one block has its byte
      offset and its last sector below 2^32. */
  lemma BlockAddressFits(blockStart: nat, blockSize: nat, k: nat, top: nat)
    requires ValidBlockSize(blockSize)
    requires blockStart < IntLimit
    requires k < top && top * blockSize < 0x1000_0000 + blockSize
    ensures k * blockSize < U32Limit
    ensures BlockLba(blockStart, blockSize, k) + BlockSectors(blockSize, 1) < U32Limit
  {
    MulMono(k + 1, top, blockSize);
    var spb := blockSize / SectorSize;
    assert spb * SectorSize == blockSize;
    assert (k + 1) * spb * SectorSize == (k + 1) * blockSize;
    assert (k + 1) * spb <= (k + 1) * blockSize;
  }

  /** No block address the format computes reaches 2^32: the block number
      times the block size, and the last sector of every write, fit the
      source's `uint32_t` arithmetic. */
  lemma FormatAddressesFit(sb: Superblock, deviceBytes: nat, resdEnd: nat, blockSize: nat)
    requires Planned(sb, deviceBytes, resdEnd, blockSize)
    ensures ValidClass(sb)
    ensures var ws := FormatWrites(sb);
      && ws[0].lba == 0 && |ws[0].sectors| == 1
      && forall l :: 1 <= l < |ws| ==>
           WrittenBlock(sb, l) * blockSize < U32Limit && ws[l].lba + |ws[l].sectors| < U32Limit
  {
    var ws := FormatWrites(sb);
    var top := if sb.blockTotal >= 1 then sb.bitmapSize else 1;
    BitmapBytesBound(sb, deviceBytes, resdEnd, blockSize);
    assert ws[0] == SuperblockWrite(sb);
    forall l | 1 <= l < |ws|
      ensures WrittenBlock(sb, l) * blockSize < U32Limit
      ensures ws[l].lba + |ws[l].sectors| < U32Limit
    {
      FormatWriteIsBlock(sb, l);
      WrittenBlocksBelow(sb, deviceBytes, resdEnd, blockSize, l);
      BlockAddressFits(sb.blockStart, blockSize, WrittenBlock(sb, l), top);
    }
  }

  /** Formatting twice with the same parameters leaves the device exactly as
      formatting once does. */
  lemma FormatIdempotent(d: Device, sb: Superblock, deviceBytes: nat, resdEnd: nat, blockSize: nat)
    requires Planned(sb, deviceBytes, resdEnd, blockSize)
    ensures ValidClass(sb)
    ensures var once := ApplyAll(d, FormatWrites(sb));
      ApplyAll(once, FormatWrites(sb)) == once
  {
    ApplyAllIdempotent(d, FormatWrites(sb));
  }

  /** A 10 MiB device with 4 KiB blocks and no reserved range: the marking pass
      sets bits 0, 1 and 2 in one block, whose first byte is therefore 0x07. */
  lemma FormatTenMiB()
    ensures var sb := Plan(20480 * 512, 0, 4096);
      && ValidClass(sb)
      && MarkSpan(sb) == 3
      && |MarkWrites(sb)| == 1
      && |FormatWrites(sb)| == 3
      && MarkedImage(sb, 0)[0] == 0x07
  {
    var sb := Plan(20480 * 512, 0, 4096);
    PlanTenMiB();
    MarkedBlockCountUnique(3, BitsPerBlock(4096), 1);
    var img := MarkedImage(sb, 0);
    forall n: nat | n < 8
      ensures BitAt(img[0], n) <==> BitAt(0x07, n)
    {
      assert Bit(img, n) <==> n < 3;
    }
    ByteExtensionality(img[0], 0x07);
  }
}
