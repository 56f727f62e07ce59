/**
  The storage access layer and block addressing.

  The device is a map from sector number (LBA) to the 512 bytes stored there;
  a sector that was never written reads as 512 zero bytes. The hardware
  read/write hooks become pure functions: a write is a record of the sectors
  it stores, and applying an ordered list of writes yields the new device.
 */
module Disk {
  import opened Bits

  /** The sector size the source hard-codes: 0x200 bytes. */
  const SectorSize: nat := 512

  type Sector = s: seq<bv8> | |s| == SectorSize witness seq(512, _ => 0)

  /** The content of a sector nobody has written. */
  function Blank(): Sector { seq(SectorSize, _ => 0) }

  type Device = map<nat, Sector>

  /** One call of the hardware write hook: `sectors` stored from sector `lba` on. */
  datatype Write = Write(lba: nat, sectors: seq<Sector>)

  /** The sector `s` reads back. */
  function SectorAt(d: Device, s: nat): Sector {
    if s in d then d[s] else Blank()
  }

  /** True when writing `w` stores a sector at `s`. */
  predicate Covers(w: Write, s: nat) {
    w.lba <= s < w.lba + |w.sectors|
  }

  /** True when `w` stores no sector in `[lba, lba + n)`. */
  ghost predicate Avoids(w: Write, lba: nat, n: nat) {
    w.lba + |w.sectors| <= lba || lba + n <= w.lba
  }

  /** The device after write `w`: its sectors stored one after another from
      `w.lba` on. */
  function ApplyWrite(d: Device, w: Write): (d': Device)
    ensures forall s: nat :: s in d' <==> s in d || Covers(w, s)
    ensures forall s: nat :: SectorAt(d', s) == if Covers(w, s) then w.sectors[s - w.lba] else SectorAt(d, s)
  {
    var covered := set s: nat | s < w.lba + |w.sectors| && Covers(w, s);
    map s | s in d.Keys + covered :: if Covers(w, s) then w.sectors[s - w.lba] else d[s]
  }

  /** The device after the writes `ws`, issued in order. */
  function ApplyAll(d: Device, ws: seq<Write>): Device
    decreases |ws|
  {
    if |ws| == 0 then d else ApplyWrite(ApplyAll(d, ws[..|ws| - 1]), ws[|ws| - 1])
  }

  /** True when some write of `ws` stores a sector at `s`. */
  ghost predicate CoveredBy(ws: seq<Write>, s: nat)
    decreases |ws|
  {
    |ws| > 0 && (Covers(ws[|ws| - 1], s) || CoveredBy(ws[..|ws| - 1], s))
  }

  /** What the last write of `ws` that covers `s` stored there. */
  function LastStored(ws: seq<Write>, s: nat): Sector
    requires CoveredBy(ws, s)
    decreases |ws|
  {
    var last := ws[|ws| - 1];
    if Covers(last, s) then last.sectors[s - last.lba] else LastStored(ws[..|ws| - 1], s)
  }

  /** Every sector after a list of writes: what the last write covering it
      stored, or else what it held before; and it is present exactly when it
      was before or some write covers it. */
  lemma {:induction false} ApplyAllReads(d: Device, ws: seq<Write>, s: nat)
    ensures SectorAt(ApplyAll(d, ws), s) == if CoveredBy(ws, s) then LastStored(ws, s) else SectorAt(d, s)
    ensures s in ApplyAll(d, ws) <==> s in d || CoveredBy(ws, s)
    decreases |ws|
  {
    if |ws| > 0 {
      ApplyAllReads(d, ws[..|ws| - 1], s);
    }
  }

  /** A sector no write of `ws` covers is not covered by the list. */
  lemma {:induction false} NotCoveredBy(ws: seq<Write>, s: nat)
    requires forall l :: 0 <= l < |ws| ==> !Covers(ws[l], s)
    ensures !CoveredBy(ws, s)
    decreases |ws|
  {
    if |ws| > 0 {
      NotCoveredBy(ws[..|ws| - 1], s);
    }
  }

  /** When write `i` covers `s` and no later write does, it is the last write covering `s`. */
  lemma {:induction false} LastStoredIs(ws: seq<Write>, i: nat, s: nat)
    requires i < |ws| && Covers(ws[i], s)
    requires forall l :: i < l < |ws| ==> !Covers(ws[l], s)
    ensures CoveredBy(ws, s) && LastStored(ws, s) == ws[i].sectors[s - ws[i].lba]
    decreases |ws|
  {
    if i < |ws| - 1 {
      LastStoredIs(ws[..|ws| - 1], i, s);
    }
  }

  /** A sector no write in `ws` covers keeps its content. */
  lemma UntouchedSector(d: Device, ws: seq<Write>, s: nat)
    requires forall l :: 0 <= l < |ws| ==> !Covers(ws[l], s)
    ensures SectorAt(ApplyAll(d, ws), s) == SectorAt(d, s)
  {
    NotCoveredBy(ws, s);
    ApplyAllReads(d, ws, s);
  }

  /** A sector holds what the last write covering it stored there. */
  lemma LastWriteWins(d: Device, ws: seq<Write>, i: nat, s: nat)
    requires i < |ws| && Covers(ws[i], s)
    requires forall l :: i < l < |ws| ==> !Covers(ws[l], s)
    ensures SectorAt(ApplyAll(d, ws), s) == ws[i].sectors[s - ws[i].lba]
  {
    LastStoredIs(ws, i, s);
    ApplyAllReads(d, ws, s);
  }

  /** Replaying the same list of writes leaves the device as applying it once left it. */
  lemma ApplyAllIdempotent(d: Device, ws: seq<Write>)
    ensures ApplyAll(ApplyAll(d, ws), ws) == ApplyAll(d, ws)
  {
    var once := ApplyAll(d, ws);
    forall s: nat
      ensures s in ApplyAll(once, ws) <==> s in once
      ensures SectorAt(ApplyAll(once, ws), s) == SectorAt(once, s)
    {
      ApplyAllReads(d, ws, s);
      ApplyAllReads(once, ws, s);
    }
    DevicesEqual(ApplyAll(once, ws), once);
  }

  /** Two devices holding the same sectors with the same contents are equal. */
  lemma DevicesEqual(a: Device, b: Device)
    requires forall s: nat :: s in a <==> s in b
    requires forall s: nat :: SectorAt(a, s) == SectorAt(b, s)
    ensures a == b
  {
    assert forall s :: s in a ==> a[s] == SectorAt(a, s);
    assert forall s :: s in b ==> b[s] == SectorAt(b, s);
  }

  /** The bytes of consecutive sectors, in order. */
  function Flatten(sectors: seq<Sector>): (r: seq<bv8>)
    ensures |r| == SectorSize * |sectors|
    decreases |sectors|
  {
    if |sectors| == 0 then [] else Flatten(sectors[..|sectors| - 1]) + sectors[|sectors| - 1]
  }

  /** A single sector flattens to its own bytes. */
  lemma FlattenOne(sectors: seq<Sector>)
    requires |sectors| == 1
    ensures Flatten(sectors) == sectors[0]
  {
    assert Flatten(sectors[..0]) == [];
  }

  /** `data` cut into `n` consecutive sectors. */
  function Chunks(data: seq<bv8>, n: nat): (r: seq<Sector>)
    requires |data| == SectorSize * n
    ensures |r| == n
    ensures forall t :: 0 <= t < n ==> r[t] == data[SectorSize * t .. SectorSize * t + SectorSize]
  {
    seq(n, t requires 0 <= t < n => data[SectorSize * t .. SectorSize * t + SectorSize])
  }

  /** Cutting bytes into sectors and joining them again gives the bytes back. */
  lemma {:induction false} FlattenChunks(data: seq<bv8>, n: nat)
    requires |data| == SectorSize * n
    ensures Flatten(Chunks(data, n)) == data
    decreases n
  {
    if n > 0 {
      var prefix := data[..SectorSize * (n - 1)];
      FlattenChunks(prefix, n - 1);
      ChunksPrefix(data, n);
      assert data == prefix + data[SectorSize * (n - 1)..];
    }
  }

  /** All sectors but the last of `data` are the sectors of its prefix. */
  lemma ChunksPrefix(data: seq<bv8>, n: nat)
    requires n > 0 && |data| == SectorSize * n
    ensures Chunks(data, n)[..n - 1] == Chunks(data[..SectorSize * (n - 1)], n - 1)
  {
    var prefix := data[..SectorSize * (n - 1)];
    forall t | 0 <= t < n - 1
      ensures Chunks(data, n)[t] == Chunks(prefix, n - 1)[t]
    {
      assert SectorSize * t + SectorSize <= SectorSize * (n - 1);
    }
  }

  /** The hardware write hook: `numb` sectors from `buffer`, stored from `lba` on. */
  function HalWrite(lba: nat, buffer: seq<bv8>, numb: nat): (w: Write)
    requires |buffer| >= SectorSize * numb
    ensures w.lba == lba && |w.sectors| == numb
    ensures Flatten(w.sectors) == buffer[..SectorSize * numb]
  {
    FlattenChunks(buffer[..SectorSize * numb], numb);
    Write(lba, Chunks(buffer[..SectorSize * numb], numb))
  }

  /** Bytes `[512 * t, 512 * t + 512)` of `bytes`: its `t`-th sector. */
  function SectorBytes(bytes: seq<bv8>, t: nat): seq<bv8>
    requires SectorSize * t + SectorSize <= |bytes|
  {
    bytes[SectorSize * t .. SectorSize * t + SectorSize]
  }

  /** The hardware read hook: the bytes of `numb` sectors from `lba` on. */
  function HalRead(d: Device, lba: nat, numb: nat): (r: seq<bv8>)
    ensures |r| == SectorSize * numb
    ensures forall t :: 0 <= t < numb ==> SectorBytes(r, t) == SectorAt(d, lba + t)
  {
    var sectors := SectorsAt(d, lba, numb);
    FlattenSectors(sectors);
    Flatten(sectors)
  }

  /** Sector `t` of a list occupies bytes `[512 * t, 512 * t + 512)` of the joined bytes. */
  lemma {:induction false} FlattenSectors(sectors: seq<Sector>)
    ensures forall t :: 0 <= t < |sectors| ==> SectorBytes(Flatten(sectors), t) == sectors[t]
    decreases |sectors|
  {
    if |sectors| > 0 {
      var n := |sectors| - 1;
      FlattenSectors(sectors[..n]);
      forall t | 0 <= t < |sectors|
        ensures SectorBytes(Flatten(sectors), t) == sectors[t]
      {
        if t < n {
          assert SectorSize * t + SectorSize <= SectorSize * n;
          assert sectors[..n][t] == sectors[t];
        }
      }
    }
  }

  /** The `numb` sectors from `lba` on. */
  function SectorsAt(d: Device, lba: nat, numb: nat): (r: seq<Sector>)
    ensures |r| == numb
    ensures forall t :: 0 <= t < numb ==> r[t] == SectorAt(d, lba + t)
  {
    if numb == 0 then [] else SectorsAt(d, lba, numb - 1) + [SectorAt(d, lba + numb - 1)]
  }

  /** A read of the range a write covered, when no later write touched that range,
      returns the bytes of that write. */
  lemma ReadLastWrite(d: Device, ws: seq<Write>, i: nat)
    requires i < |ws|
    requires forall l :: i < l < |ws| ==> Avoids(ws[l], ws[i].lba, |ws[i].sectors|)
    ensures HalRead(ApplyAll(d, ws), ws[i].lba, |ws[i].sectors|) == Flatten(ws[i].sectors)
  {
    SectorsOfLastWrite(d, ws, i);
  }

  /** Sector by sector: the range a write covered holds that write's sectors
      when no later write touched the range. */
  lemma SectorsOfLastWrite(d: Device, ws: seq<Write>, i: nat)
    requires i < |ws|
    requires forall l :: i < l < |ws| ==> Avoids(ws[l], ws[i].lba, |ws[i].sectors|)
    ensures SectorsAt(ApplyAll(d, ws), ws[i].lba, |ws[i].sectors|) == ws[i].sectors
  {
    RangeOfLastWrite(d, ws, i);
    SectorsAtAgree(ApplyAll(d, ws), ws[i].lba, ws[i].sectors);
  }

  /** Every sector of the range a write covered holds that write's sector
      when no later write touched the range. */
  lemma RangeOfLastWrite(d: Device, ws: seq<Write>, i: nat)
    requires i < |ws|
    requires forall l :: i < l < |ws| ==> Avoids(ws[l], ws[i].lba, |ws[i].sectors|)
    ensures forall t :: 0 <= t < |ws[i].sectors| ==> SectorAt(ApplyAll(d, ws), ws[i].lba + t) == ws[i].sectors[t]
  {
    forall t | 0 <= t < |ws[i].sectors|
      ensures SectorAt(ApplyAll(d, ws), ws[i].lba + t) == ws[i].sectors[t]
    {
      SectorOfLastWrite(d, ws, i, t);
    }
  }

  /** The sectors from `lba` on are `sectors` when each of them holds its counterpart. */
  lemma SectorsAtAgree(d: Device, lba: nat, sectors: seq<Sector>)
    requires forall t :: 0 <= t < |sectors| ==> SectorAt(d, lba + t) == sectors[t]
    ensures SectorsAt(d, lba, |sectors|) == sectors
  {
    var got := SectorsAt(d, lba, |sectors|);
    assert forall t :: 0 <= t < |sectors| ==> got[t] == sectors[t];
  }

  /** One sector of the range a write covered, when no later write touched the range. */
  lemma SectorOfLastWrite(d: Device, ws: seq<Write>, i: nat, t: nat)
    requires i < |ws| && t < |ws[i].sectors|
    requires forall l :: i < l < |ws| ==> Avoids(ws[l], ws[i].lba, |ws[i].sectors|)
    ensures SectorAt(ApplyAll(d, ws), ws[i].lba + t) == ws[i].sectors[t]
  {
    LastWriteWins(d, ws, i, ws[i].lba + t);
  }

  /** Reading right after a write returns what was written. */
  lemma ReadAfterWrite(d: Device, lba: nat, buffer: seq<bv8>, numb: nat)
    requires |buffer| >= SectorSize * numb
    ensures HalRead(ApplyWrite(d, HalWrite(lba, buffer, numb)), lba, numb) == buffer[..SectorSize * numb]
  {
    var ws := [HalWrite(lba, buffer, numb)];
    assert ws[..0] == [];
    ReadLastWrite(d, ws, 0);
  }

  /** True when `bs` is a block size the filesystem accepts: 1, 2 or 4 KiB. */
  predicate ValidBlockSize(bs: int) {
    bs == 1024 || bs == 2048 || bs == 4096
  }

  /** The first sector of block `blockNumber`, for blocks of `blockSize` bytes
      numbered from sector `blockStart`. */
  function BlockLba(blockStart: nat, blockSize: nat, blockNumber: nat): (lba: nat)
    requires ValidBlockSize(blockSize)
    ensures lba == blockStart + blockNumber * (blockSize / SectorSize)
    ensures lba >= blockStart
  {
    blockNumber * blockSize / SectorSize + blockStart
  }

  /** The number of sectors `count` blocks of `blockSize` bytes span. */
  function BlockSectors(blockSize: nat, count: nat): (n: nat)
    requires ValidBlockSize(blockSize)
    ensures n == count * (blockSize / SectorSize)
  {
    blockSize * count / SectorSize
  }

  /** Writing `count` blocks from block `blockNumber` on. */
  function WriteBlocks(blockStart: nat, blockSize: nat, blockNumber: nat, count: nat, buff: seq<bv8>): (w: Write)
    requires ValidBlockSize(blockSize)
    requires |buff| >= blockSize * count
    ensures w.lba == blockStart + blockNumber * (blockSize / SectorSize)
    ensures |w.sectors| == count * (blockSize / SectorSize)
    ensures Flatten(w.sectors) == buff[..blockSize * count]
  {
    var n := BlockSectors(blockSize, count);
    assert SectorSize * n == blockSize * count;
    HalWrite(BlockLba(blockStart, blockSize, blockNumber), buff, n)
  }

  /** Reading `count` blocks from block `blockNumber` on. */
  function ReadBlocks(d: Device, blockStart: nat, blockSize: nat, blockNumber: nat, count: nat): (r: seq<bv8>)
    requires ValidBlockSize(blockSize)
    ensures |r| == blockSize * count
    ensures |r| == SectorSize * (count * (blockSize / SectorSize))
    ensures forall t :: 0 <= t < count * (blockSize / SectorSize) ==>
      SectorBytes(r, t) == SectorAt(d, blockStart + blockNumber * (blockSize / SectorSize) + t)
  {
    var n := BlockSectors(blockSize, count);
    assert SectorSize * n == blockSize * count;
    HalRead(d, BlockLba(blockStart, blockSize, blockNumber), n)
  }

  /** Reading blocks right after writing them returns the bytes written. */
  lemma ReadBlocksAfterWrite(d: Device, blockStart: nat, blockSize: nat, blockNumber: nat, count: nat, buff: seq<bv8>)
    requires ValidBlockSize(blockSize)
    requires |buff| >= blockSize * count
    ensures ReadBlocks(ApplyWrite(d, WriteBlocks(blockStart, blockSize, blockNumber, count, buff)),
                       blockStart, blockSize, blockNumber, count) == buff[..blockSize * count]
  {
    var n := BlockSectors(blockSize, count);
    assert SectorSize * n == blockSize * count;
    ReadAfterWrite(d, BlockLba(blockStart, blockSize, blockNumber), buff, n);
  }

  /** Runs of blocks that share no block number occupy disjoint sector ranges. */
  lemma DisjointBlocksDisjointSectors(blockStart: nat, blockSize: nat, b1: nat, c1: nat, b2: nat, c2: nat)
    requires ValidBlockSize(blockSize)
    requires b1 + c1 <= b2 || b2 + c2 <= b1
    ensures var l1 := BlockLba(blockStart, blockSize, b1);
      var l2 := BlockLba(blockStart, blockSize, b2);
      l1 + BlockSectors(blockSize, c1) <= l2 || l2 + BlockSectors(blockSize, c2) <= l1
  {
    var spb := blockSize / SectorSize;
    if b1 + c1 <= b2 {
      assert (b1 + c1) * spb <= b2 * spb;
    } else {
      assert (b2 + c2) * spb <= b1 * spb;
    }
  }

  /** With blocks numbered from sector 1 or later, no block write stores sector 0. */
  lemma BlocksAvoidSectorZero(blockStart: nat, blockSize: nat, blockNumber: nat, count: nat, buff: seq<bv8>)
    requires ValidBlockSize(blockSize)
    requires |buff| >= blockSize * count
    requires blockStart >= 1
    ensures !Covers(WriteBlocks(blockStart, blockSize, blockNumber, count, buff), 0)
  {
  }
}
