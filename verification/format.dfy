/**
  The format routine: block-size validation, the layout, and the ordered
  device writes that lay the volume down — the superblock to sector 0, a zero
  pass over every bitmap block, then the marking pass that sets the bits of
  the bitmap, block-index and root blocks, one bitmap block at a time.

  `FormatWrites` is the reference description of the write sequence;
  `Format` is the routine itself, with the source's loops.
 */
module Format {
  import opened Bits
  import opened Bitmap
  import opened Disk
  import opened Mbr
  import opened Layout

  /** What a format call reports: rejection of the block size (the source
      returns `false`), or the superblock it laid down. */
  datatype FormatOutcome = InvalidBlockSize | Formatted(sb: Superblock)

  /** True when `sb` names one of the three block sizes. */
  predicate ValidClass(sb: Superblock) {
    sb.blockSizeClass in {1, 2, 4}
  }

  /** The block size of a volume, in bytes. */
  function BlockBytes(sb: Superblock): (b: nat)
    requires ValidClass(sb)
    ensures ValidBlockSize(b)
  {
    BlockSizeOf(sb.blockSizeClass)
  }

  /** The number of bits the marking pass sets: the bitmap blocks, the
      block-index blocks and the root block. */
  function MarkSpan(sb: Superblock): nat {
    sb.bitmapSize + sb.blockIndexSize + 1
  }

  /** The number of bitmap blocks the marking pass writes: the fewest blocks
      of `cap` bits holding `span` bits. */
  function MarkedBlockCount(span: nat, cap: nat): (m: nat)
    requires cap > 0
    ensures m * cap >= span
    ensures m == 0 || (m - 1) * cap < span
  {
    var x := span + cap - 1;
    var m := x / cap;
    assert x == m * cap + x % cap;
    assert (m - 1) * cap == m * cap - cap;
    m
  }

  /** Multiplying by the same factor keeps order. */
  lemma MulMono(a: nat, b: nat, c: nat)
    requires a <= b
    ensures a * c <= b * c
  {
  }

  /** A strict inequality between multiples of one factor holds between the multipliers. */
  lemma MulCancel(a: nat, b: nat, c: nat)
    requires a * c < b * c
    ensures a < b
  {
    if a >= b {
      MulMono(b, a, c);
    }
  }

  /** The least block count is the only count with both properties. */
  lemma MarkedBlockCountUnique(span: nat, cap: nat, k: nat)
    requires cap > 0
    requires k * cap >= span && (k == 0 || (k - 1) * cap < span)
    ensures k == MarkedBlockCount(span, cap)
  {
    var m := MarkedBlockCount(span, cap);
    if k > 0 {
      MulCancel(k - 1, m, cap);
    }
    if m > 0 {
      MulCancel(m - 1, k, cap);
    }
  }

  /** The bits the `j`-th marking iteration sets in its block: what is left of
      the span, at most one block's worth. */
  function MarkedBits(span: nat, cap: nat, j: nat): nat {
    if j * cap >= span then 0
    else if span - j * cap > cap then cap
    else span - j * cap
  }

  /** The superblock write: one sector at LBA 0. */
  function SuperblockWrite(sb: Superblock): Write
    requires Representable(sb)
  {
    HalWrite(0, Encode(sb), 1)
  }

  /** The zero pass's write of bitmap block `i`. */
  function ZeroWrite(sb: Superblock, i: nat): Write
    requires ValidClass(sb)
  {
    WriteBlocks(sb.blockStart, BlockBytes(sb), sb.bitmapStart + i, 1, Zeros(BlockBytes(sb)))
  }

  /** The zero pass: every bitmap block, in order, all zero. */
  function ZeroWrites(sb: Superblock): (ws: seq<Write>)
    requires ValidClass(sb)
    ensures |ws| == sb.bitmapSize
    ensures forall i :: 0 <= i < |ws| ==> ws[i] == ZeroWrite(sb, i)
  {
    seq(sb.bitmapSize, i requires 0 <= i < sb.bitmapSize => ZeroWrite(sb, i))
  }

  /** The content of the `j`-th block the marking pass writes. */
  function MarkedImage(sb: Superblock, j: nat): seq<bv8>
    requires ValidClass(sb)
  {
    var cap := BitsPerBlock(BlockBytes(sb));
    Fill(Zeros(BlockBytes(sb)), 0, MarkedBits(MarkSpan(sb), cap, j), true)
  }

  /** The marking pass's `j`-th write. */
  function MarkWrite(sb: Superblock, j: nat): Write
    requires ValidClass(sb)
  {
    WriteBlocks(sb.blockStart, BlockBytes(sb), sb.bitmapStart + j, 1, MarkedImage(sb, j))
  }

  /** The marking pass: consecutive bitmap blocks from the first on, until the
      span is covered. */
  function MarkWrites(sb: Superblock): (ws: seq<Write>)
    requires ValidClass(sb)
    ensures |ws| == MarkedBlockCount(MarkSpan(sb), BitsPerBlock(BlockBytes(sb)))
    ensures forall j :: 0 <= j < |ws| ==> ws[j] == MarkWrite(sb, j)
  {
    var m := MarkedBlockCount(MarkSpan(sb), BitsPerBlock(BlockBytes(sb)));
    seq(m, j requires 0 <= j < m => MarkWrite(sb, j))
  }

  /** Every device write of a format, in the order it is issued. */
  function FormatWrites(sb: Superblock): (ws: seq<Write>)
    requires ValidClass(sb) && Representable(sb)
    ensures |ws| == 1 + sb.bitmapSize + |MarkWrites(sb)|
    ensures ws[0].lba == 0 && |ws[0].sectors| == 1 && Flatten(ws[0].sectors) == Encode(sb)
  {
    [SuperblockWrite(sb)] + ZeroWrites(sb) + MarkWrites(sb)
  }

  /** One step of the marking loop: with `k` blocks done and bits left, one
      more block is still within the least covering count, and the bits left
      afterwards are what the span leaves past `k + 1` blocks. */
  lemma MarkStep(span: nat, cap: nat, k: nat)
    requires cap > 0 && k * cap < span
    ensures k + 1 <= MarkedBlockCount(span, cap)
    ensures span - k * cap - MarkedBits(span, cap, k) ==
      if (k + 1) * cap <= span then span - (k + 1) * cap else 0
  {
    MulCancel(k, MarkedBlockCount(span, cap), cap);
    assert (k + 1) * cap == k * cap + cap;
  }

  /** The zero pass: one all-zero block write per bitmap block, from the first on. */
  method ZeroPass(sb: Superblock) returns (writes: seq<Write>)
    requires ValidClass(sb)
    ensures writes == ZeroWrites(sb)
  {
    var size := BlockSizeOf(sb.blockSizeClass);
    var temp := Zeros(size);
    writes := [];
    var i := 0;
    while i < sb.bitmapSize
      invariant i <= sb.bitmapSize
      invariant writes == ZeroWrites(sb)[..i]
    {
      writes := writes + [WriteBlocks(sb.blockStart, size, sb.bitmapStart + i, 1, temp)];
      i := i + 1;
    }
  }

  /** The marking pass: while bits of the span remain, set the next block's
      worth in a zeroed buffer, write it to the next bitmap block, and clear
      the buffer again. */
  method MarkPass(sb: Superblock) returns (writes: seq<Write>)
    requires ValidClass(sb)
    ensures writes == MarkWrites(sb)
  {
    var size := BlockSizeOf(sb.blockSizeClass);
    var temp := Zeros(size);
    var span := MarkSpan(sb);
    var cap := BitsPerBlock(size);
    writes := [];
    var current := sb.bitmapStart;
    var remaining := span;
    ghost var done := 0;
    while remaining != 0
      invariant current == sb.bitmapStart + done
      invariant remaining == if done * cap <= span then span - done * cap else 0
      invariant done == 0 || (done - 1) * cap < span
      invariant done <= MarkedBlockCount(span, cap)
      invariant temp == Zeros(size)
      invariant writes == MarkWrites(sb)[..done]
      decreases remaining
    {
      MarkStep(span, cap, done);
      var c := if remaining > size * 8 then size * 8 else remaining;
      assert c == MarkedBits(span, cap, done);
      temp := SetAllocated(temp, 0, c);
      assert temp == MarkedImage(sb, done);
      writes := writes + [WriteBlocks(sb.blockStart, size, current, 1, temp)];
      assert MarkWrites(sb)[..done + 1] == MarkWrites(sb)[..done] + [MarkWrite(sb, done)];
      current := current + 1;
      remaining := remaining - c;
      done := done + 1;
      temp := Zeros(size);
    }
    MarkedBlockCountUnique(span, cap, done);
    assert MarkWrites(sb)[..done] == MarkWrites(sb);
  }

  /** The format routine. The block size is validated before anything is
      written; the layout is `Plan`; then the superblock write, the zero pass
      and the marking pass. */
  method Format(deviceBytes: nat, resdStart: nat, resdEnd: nat, blockSize: int)
    returns (outcome: FormatOutcome, writes: seq<Write>)
    requires deviceBytes < U32Limit
    requires resdEnd < IntLimit
    ensures outcome == InvalidBlockSize <==> !ValidBlockSize(blockSize)
    ensures outcome == InvalidBlockSize ==> writes == []
    ensures outcome.Formatted? ==>
      && ValidBlockSize(blockSize)
      && outcome.sb == Plan(deviceBytes, resdEnd, blockSize as nat)
      && ValidClass(outcome.sb)
      && writes == FormatWrites(outcome.sb)
  {
    if blockSize != 1024 && blockSize != 2048 && blockSize != 4096 {
      return InvalidBlockSize, [];
    }
    var sb := Plan(deviceBytes, resdEnd, blockSize);
    var zeroing := ZeroPass(sb);
    var marking := MarkPass(sb);
    writes := [SuperblockWrite(sb)] + zeroing + marking;
    outcome := Formatted(sb);
  }
}
