# ShawinFS format core in Dafny

This project models the core of ShawinFS, a small block filesystem for
embedded storage. The core covers:

- the superblock record that the code calls the MBR, together with its signature check;
- the block addressing on top of the 512-byte-sector hardware hooks;
- the bitmap bit-range helpers;
- the format routine, which plans the volume layout and writes it to the device.

Modules, in dependency order:

- `Bits` (`bits.dfy`): single bits of a byte, as the `SW_SET_BIT` and
  `SW_CLEAR_BIT` macros handle them. It also defines bit `k` of a buffer, which is bit
  `k % 8` of byte `k / 8`.
- `Bitmap` (`bitmap.dfy`): the reference definition `Fill`, plus the two
  bitmap helpers written as loops. Each helper advances a byte index and a bit index,
  just as the C loops do.
- `Disk` (`disk.dfy`): the device, modelled as a map from sector number to 512 bytes.
  - The hardware read and write hooks become pure functions.
  - A list of writes applied in order gives the new device.
  - The block read/write helpers map a block number to its sector address.
- `Mbr` (`mbr.dfy`): the superblock record and its packed little-endian
  sector image. Also the signature check `shawinfs_check`.
- `Layout` (`layout.dfy`): the arithmetic of the format routine. That is
  `shawinfs_div_round_up`, with its unsigned wrap written out, and `Plan`,
  which builds the superblock from the device size, the reserved end and the
  block size.
- `Format` (`format.dfy`): the format routine as a method that returns the
  ordered device writes: the superblock, the zero pass and the marking pass. The
  functions `ZeroWrites`, `MarkWrites` and `FormatWrites` describe the same
  writes without loops.
- `Volume` (`volume.dfy`): what a device holds after a format. This covers the
  signature, every bitmap bit, where the marking pass writes, the address
  bounds, and idempotence.

Conventions:

- The device size is the value the size hook returns: a `uint32_t` number of bytes.
- The disk number, which the C code only passes on to the hardware hooks, is dropped.
- The sector-size parameter of `shawinfs_check` only sizes the buffer that sector 0 is read into. The hook call always reads one 512-byte sector, so the model reads sector 0 and drops the parameter.
- A sector nobody has written reads as 512 zero bytes.
- The format routine never assigns `block_resd_start` or `block_resd_end` in the record. Both therefore stay 0 from the zeroed buffer, and `Plan` stores 0 for both. The reserved start parameter does not influence anything.

## Model

| member | source | states |
|---|---|---|
| Bits.BitAtIsDetect | ShawinFS/shawinfs.c:31 | the mask table is `1 << n`, so `BitAt(b, n)` holds exactly when the detect macro `b & (1 << n)` is non-zero |
| Bits.SetBit | ShawinFS/shawinfs.c:32 | after setting bit n of a byte, exactly bit n and the bits that were already set are set |
| Bits.ClearBit | ShawinFS/shawinfs.c:33 | after clearing bit n of a byte, bit n is clear and every other bit is as before |
| Bits.ByteExtensionality | ShawinFS/shawinfs.c:31 | two bytes that agree on every bit the detect macro can test are the same byte |
| Bitmap.Fill | ShawinFS/shawinfs.c:114-149 | reference bit-range update: same length; bits in [start, end) read v; every other bit is unchanged |
| Bitmap.SetAllocated | ShawinFS/shawinfs.c:114-128 | bit k of the result is set iff start <= k < end or bit k was set before; the length is unchanged; the result equals the reference `Fill` with v = true |
| Bitmap.SetFree | ShawinFS/shawinfs.c:135-149 | bit k of the result is set iff k lies outside [start, end) and bit k was set before; the length is unchanged; the result equals `Fill` with v = false |
| Bitmap.SetStep | ShawinFS/shawinfs.c:120-126 | one pass of the allocating loop, setting bit n of byte idx, extends the set run [start, start + i) by exactly bit start + i and keeps every other bit |
| Bitmap.ClearStep | ShawinFS/shawinfs.c:141-147 | one pass of the freeing loop, clearing bit n of byte idx, extends the cleared run [start, start + i) by exactly bit start + i and keeps every other bit |
| Bitmap.EmptyRangeIsNoOp | ShawinFS/shawinfs.c:116-119 | with start == end the loop body never runs and the buffer comes back unchanged |
| Bitmap.RefillOverrides | ShawinFS/shawinfs.c:114-149 | a second update of the same range overrides the first: every bit of the range reads the last value written |
| Bitmap.FillIdempotent | ShawinFS/shawinfs.c:114-149 | setting, or freeing, the same range twice is the same as doing it once |
| Bitmap.SetFreeRoundTrip | ShawinFS/shawinfs.c:114-149 | allocating a range that was all free and then freeing it restores the buffer; freeing an all-set range and then allocating it restores it too |
| Bitmap.DisjointFillsCommute | ShawinFS/shawinfs.c:114-149 | updates of two disjoint ranges can be applied in either order |
| Bits.BitsDetermineBuffer | ShawinFS/shawinfs.c:116-118 | two buffers of equal length with the same bits at every (byte k / 8, bit k % 8) position are equal |
| Disk.HalRead | ShawinFS/shawinfs.c:15-16 | a read of numb sectors from lba returns 512 * numb bytes whose t-th 512-byte slice is sector lba + t of the device |
| Disk.FlattenSectors | ShawinFS/shawinfs.c:15-16 | the t-th 512-byte slice of joined sectors is sector t |
| Disk.ApplyWrite | ShawinFS/shawinfs.c:17-18 | after a write, the device holds exactly the sectors it held plus the ones written; a covered sector holds the write's data at its offset, every other sector is unchanged |
| Disk.HalWrite | ShawinFS/shawinfs.c:17-18 | a write of numb sectors from lba stores exactly numb sectors, whose bytes are the first 512 * numb bytes of the buffer |
| Disk.ApplyAllReads | ShawinFS/shawinfs.c:15-18 | after a list of writes, each sector holds what the last write covering it stored, or what it held before if no write covered it |
| Disk.LastWriteWins | ShawinFS/shawinfs.c:15-18 | a sector holds the data of write i when write i covers it and no later write does |
| Disk.UntouchedSector | ShawinFS/shawinfs.c:15-18 | a sector that no write covers keeps its content |
| Disk.ApplyAllIdempotent | ShawinFS/shawinfs.c:17-18 | applying the same list of writes a second time leaves the device unchanged |
| Disk.FlattenChunks | ShawinFS/shawinfs.c:17-18 | cutting a buffer into 512-byte sectors and joining them again gives the buffer back |
| Disk.ReadAfterWrite | ShawinFS/shawinfs.c:15-18 | reading the sectors just written returns the bytes that were written |
| Disk.ReadLastWrite | ShawinFS/shawinfs.c:15-18 | reading the range of an earlier write returns that write's bytes when no later write overlaps the range |
| Disk.BlockLba | ShawinFS/shawinfs.c:100-107 | block b of size B starts at sector blockStart + b * (B / 512), never before blockStart |
| Disk.BlockSectors | ShawinFS/shawinfs.c:103-104 | count blocks of size B span count * (B / 512) sectors |
| Disk.WriteBlocks | ShawinFS/shawinfs.c:100-107 | a block write starts at sector blockStart + blockNumber * (B / 512), covers count * (B / 512) sectors, and stores the first B * count bytes of the buffer |
| Disk.ReadBlocks | ShawinFS/shawinfs.c:83-90 | a block read returns B * count bytes whose t-th 512-byte slice is sector blockStart + blockNumber * (B / 512) + t |
| Disk.ReadBlocksAfterWrite | ShawinFS/shawinfs.c:83-107 | reading blocks back right after writing them returns the bytes written |
| Disk.DisjointBlocksDisjointSectors | ShawinFS/shawinfs.c:100-107 | runs of blocks that share no block number occupy disjoint sector ranges |
| Disk.BlocksAvoidSectorZero | ShawinFS/shawinfs.c:100-107 | with blockStart >= 1, no block write touches sector 0, where the superblock lives |
| Mbr.ToByte | ShawinFS/shawinfs.c:176 | the byte's unsigned value is v for every v below 256; the format stores only 1, 2 or 4 in the signed `char` field, where the signed and unsigned readings agree |
| Mbr.U32RoundTrip | ShawinFS/shawinfs.h:13-21 | a 32-bit value stored as four little-endian bytes decodes to itself |
| Mbr.Encode | ShawinFS/shawinfs.c:172-202 | the sector-0 image starts with the identify bytes, has the block-size class at byte 5 and the volume id at bytes 42..47, and the rest of the 512-byte buffer after the packed record stays zero (the nine integer fields in between are what `DecodeEncode` reads back) |
| Mbr.Decode | ShawinFS/shawinfs.h:10-23 | the record read from a sector has 5-byte identify and volume-id fields, a block-size byte below 256 and nine fields below 2^32 |
| Mbr.DecodeEncode | ShawinFS/shawinfs.h:10-23 | reading the packed sector-0 image back as a record gives the record that was written, field by field |
| Mbr.Check | ShawinFS/shawinfs.c:62-73 | the check succeeds iff the identify field of the record read from sector 0 equals the 5-byte magic "\xffSWFS" |
| Mbr.CheckRecognisesEncoded | ShawinFS/shawinfs.c:69-70 | on a device whose sector 0 holds an encoded record, the check succeeds iff that record carries the magic |
| Layout.BlockSizeOf | ShawinFS/shawinfs.c:23 | class n gives n * 1024 bytes, a valid block size exactly for the classes 1, 2 and 4, and dividing by 1024 recovers the class |
| Layout.TotalSectors | ShawinFS/shawinfs.c:182-183 | the device holds the whole sectors counted and less than one more: 512 * n <= size < 512 * n + 512 |
| Layout.SubU32 | ShawinFS/shawinfs.c:189 | the uint32_t difference: a - b when a >= b, and otherwise wrapped to 2^32 - (b - a) |
| Layout.DivRoundUp | ShawinFS/shawinfs.c:43-45 | when num + size - 1 does not wrap, this is the least q with q * size >= num; when it wraps, q * size falls short of num |
| Layout.FirstBlockSector | ShawinFS/shawinfs.c:177-181 | block 0 starts at the reserved end when that is non-zero, and otherwise at sector 1, so always at sector 1 or later |
| Layout.Plan | ShawinFS/shawinfs.c:172-202 | the planned record fits its C fields and carries the magic and "SHWFS"; its block class matches the block size; block_start follows the reserved-end rule; the reserved range is zero; the bitmap starts at block 0, the block index follows it, and the root block follows the index |
| Layout.RegionSizesBounded | ShawinFS/shawinfs.c:192-199 | the bitmap and index sizes together stay below 2^31, so they fit the record's `int` fields |
| Layout.PlanNoOvercommit | ShawinFS/shawinfs.c:182-189 | when block 0 lies inside the device, the usable blocks fit between block_start and the device end, and one more block would not fit |
| Layout.PlanOvercommitsPastDevice | ShawinFS/shawinfs.c:182-189 | when block 0 lies past the device end, the unsigned subtraction wraps: block_total is at least 2^28 and its blocks reach past the device end |
| Layout.PlanBitmapSize | ShawinFS/shawinfs.c:190-194 | bitmap_size is the fewest blocks whose 8 * B bits cover block_total, despite rounding to bytes first |
| Layout.PlanIndexSize | ShawinFS/shawinfs.c:198-199 | block_index_size is the fewest 4096-entry blocks covering block_total |
| Layout.PlanRegionOrder | ShawinFS/shawinfs.c:190-201 | with at least one usable block, 0 == bitmap_start < block_index_start < root_block |
| Layout.PlanPlacesMetadataPastDevice | ShawinFS/shawinfs.c:182-201 | the planner never checks that the device holds the blocks it plans: 3 sectors with 1 KiB blocks give block_total 1, yet the index at block 1 and the root at block 2 start at or past the device's last sector |
| Layout.PlanTenMiB | ShawinFS/shawinfs.c:172-202 | 20480 sectors with 4 KiB blocks give class 4, block_start 1, 2559 blocks, bitmap 0+1, index 1+1, root 2 |
| Format.MarkedBlockCount | ShawinFS/shawinfs.c:219-231 | the marking pass writes the least number of blocks whose bits cover the span |
| Format.MarkedBlockCountUnique | ShawinFS/shawinfs.c:219-231 | any count with the least-cover property is that number |
| Format.MarkStep | ShawinFS/shawinfs.c:223-229 | one loop step takes min(remaining, 8 * B) bits, leaves the remaining count that the next iteration sees, and stays within the least count |
| Format.FormatWrites | ShawinFS/shawinfs.c:204-231 | a format issues the superblock write, one write per bitmap block and one per marked block, in that order; the first write puts the encoded record in sector 0, alone |
| Format.ZeroPass | ShawinFS/shawinfs.c:207-213 | the zero pass writes an all-zero block to each bitmap block in order, bitmap_size writes in all |
| Format.MarkPass | ShawinFS/shawinfs.c:215-231 | the marking loop issues exactly the reference marking writes: write j carries the buffer with bits [0, MarkedBits) set and goes to bitmap block j |
| Format.Format | ShawinFS/shawinfs.c:163-231 | a block size other than 1, 2 or 4 KiB is rejected before anything is written; otherwise the record is `Plan` and the writes are the superblock to sector 0, then the zero pass, then the marking pass |
| Volume.FormattedSignature | ShawinFS/shawinfs.c:172-204 | after a format, the check succeeds and sector 0 decodes to the planned record: no later write touches sector 0 |
| Volume.FormattedBitmap | ShawinFS/shawinfs.c:206-231 | after a format with at least one usable block, bit p of bitmap block j is set iff j * 8B + p < bitmap_size + block_index_size + 1: the bitmap, index and root blocks are allocated and everything else is free |
| Volume.MarkedBitsOfBlock | ShawinFS/shawinfs.c:223-225 | the j-th marked buffer has bit p set iff global bit j * 8B + p lies inside the span; blocks past the marking pass hold no span bit |
| Volume.MarkedBlockReadBack | ShawinFS/shawinfs.c:225-228 | bitmap block j, for j within the marking pass, reads back as the j-th marked buffer |
| Volume.UnmarkedBlockReadBack | ShawinFS/shawinfs.c:209-213 | bitmap blocks the marking pass does not reach read back as zeros |
| Volume.MarkingFitsBitmap | ShawinFS/shawinfs.c:192-194 | with at least one usable block, the marking pass writes no more blocks than the bitmap has |
| Volume.MarkingPassShape | ShawinFS/shawinfs.c:218-231 | the marking pass writes the least covering number of blocks, to consecutive bitmap blocks from the first, without overlap, and within the bitmap when there is a usable block |
| Volume.EmptyVolumeMarksRootBlock | ShawinFS/shawinfs.c:189-231 | with zero usable blocks the bitmap and index are empty and the root is block 0, yet the marking pass still writes one block, at the root block's address |
| Volume.FormatWriteIsBlock | ShawinFS/shawinfs.c:210-228 | every write after the superblock stores exactly one block, at the address of the block it names |
| Volume.WrittenBlocksBelow | ShawinFS/shawinfs.c:210-228 | the format writes only bitmap blocks when there is a usable block, and otherwise only block 0 |
| Volume.BitmapBytesBound | ShawinFS/shawinfs.c:192-194 | bitmap_size * B stays below 2^28 + B |
| Volume.FormatAddressesFit | ShawinFS/shawinfs.c:100-107 | for every block the format writes, block_number * block_size and the last sector address stay below 2^32, so the uint32_t address arithmetic never wraps |
| Volume.FormatIdempotent | ShawinFS/shawinfs.c:163-231 | formatting twice with the same parameters leaves the device as one format does |
| Volume.FormatTenMiB | ShawinFS/shawinfs.c:215-231 | on a 10 MiB device with 4 KiB blocks the span is 3 bits in one block, whose first byte is 0x07, and the format issues 3 writes |

## Left out

- The hardware hooks `shawinfs_hal_read`, `shawinfs_hal_write` and `shawinfs_hal_get_size` are C prototypes with no body. The device is a map, reads and writes are pure functions, and the device size is a parameter.
- `main.c` is a host test program built on the hooks and is not modelled.
- `shawinfs_init` allocates an instance and returns nothing. It has no behaviour to model.
- `malloc`, `assert` and `free`: allocation is assumed to succeed, and buffers are values.
- The inode, long-file-name and attribute records and the instance/cache struct in the header are not used by the modelled functions.
- The `#pragma pack(1)` layout applies only under MSVC. Other compilers may pad the record, so its image is modelled as packed little-endian. The signature check reads only the first five bytes, which no padding moves.
- Mbr.Check: the sector-size parameter of `shawinfs_check` is not modelled. Any value of at least 512 behaves the same, because only the buffer size depends on it. A smaller value makes the one-sector read overflow the buffer, which the model does not cover.
- Negative `int` arguments to the format routine are not modelled: `Format` takes `resdEnd` below 2^31 and the device size below 2^32. `blockSize` is an arbitrary `int`.
- The format routine falls off its end without a return statement on success. `Format` reports `Formatted` with the record instead of a C return value.
- The format routine never initialises the root directory block or the block index. It only marks them allocated, and the model does the same.
- Disk.BlockLba: computes `blockNumber * blockSize / 512 + blockStart` on unbounded integers instead of `uint32_t`. `Volume.FormatAddressesFit` shows that no address a format computes reaches 2^32.
- Bitmap.SetAllocated: requires `start <= end <= 8 * |buffer|`. For other arguments the C function's unsigned count `end - start` wraps (shawinfs.c:117) and its writes run past the buffer (shawinfs.c:125); those calls are not modelled. The only call, from the format routine, stays inside the range. The result is returned by value instead of updating the caller's buffer in place.
- Bitmap.SetFree: the same precondition and the same by-value return as `SetAllocated` (shawinfs.c:138, 146). The format routine never calls it.
- Format.Format: the source does not validate that the reserved range lies inside the device or that the device holds any block. The model keeps that behaviour: `PlanOvercommitsPastDevice` and `EmptyVolumeMarksRootBlock` describe what happens instead of an error return. The planner also never checks that the device holds the bitmap, index and root blocks it places: `PlanPlacesMetadataPastDevice` shows a 3-sector device whose index and root blocks lie past its end.
- The header comment on `block_total` says that it excludes the bitmap and index blocks. The code counts every block after `block_start`, and the model follows the code.
