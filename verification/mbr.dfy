/**
  The superblock (the source calls it the MBR): the record at sector 0 that
  describes the volume, its 512-byte sector image, and the signature check.

  The sector image follows the packed layout the header requests under
  `#pragma pack(1)`: the fields in declaration order with no padding, each
  `int` as four little-endian bytes, then zeros up to the end of the sector
  (the format routine starts from a zeroed buffer).
 */
module Mbr {
  import opened Bits
  import opened Disk

  /** Length of the volume signature. */
  const MagicSize: nat := 5

  /** The volume signature `"\xffSWFS"`. */
  const Magic: seq<bv8> := [0xFF, 0x53, 0x57, 0x46, 0x53]

  /** The volume name the format routine stores: `"SHWFS"`. */
  const VolumeId: seq<bv8> := [0x53, 0x48, 0x57, 0x46, 0x53]

  /** One more than the largest value of a C `int`. */
  const IntLimit: nat := 0x8000_0000

  /** One more than the largest value of a `uint32_t`. */
  const U32Limit: nat := 0x1_0000_0000

  /** Number of bytes the packed fields occupy at the front of sector 0. */
  const PackedSize: nat := 47

  /** The superblock record. Sizes and starts are in blocks, numbered from
      the sector `blockStart`; the reserved range is in sectors. */
  datatype Superblock = Superblock(
    identify: seq<bv8>,
    blockSizeClass: nat,
    blockStart: nat,
    blockTotal: nat,
    bitmapStart: nat,
    bitmapSize: nat,
    blockIndexStart: nat,
    blockIndexSize: nat,
    resdStart: nat,
    resdEnd: nat,
    rootBlock: nat,
    volid: seq<bv8>)

  /** True when every field fits its C declaration: the two 5-byte arrays,
      a `char` class and non-negative `int` fields. */
  predicate Representable(sb: Superblock) {
    && |sb.identify| == MagicSize && |sb.volid| == MagicSize
    && sb.blockSizeClass < 256
    && sb.blockStart < IntLimit && sb.blockTotal < IntLimit
    && sb.bitmapStart < IntLimit && sb.bitmapSize < IntLimit
    && sb.blockIndexStart < IntLimit && sb.blockIndexSize < IntLimit
    && sb.resdStart < IntLimit && sb.resdEnd < IntLimit
    && sb.rootBlock < IntLimit
  }

  /** The byte holding a number below 256. */
  function ToByte(v: nat): (b: bv8)
    requires v < 256
    ensures b as nat == v
  {
    var b := v as bv8;
    assert b as bv16 == v as bv16;
    b
  }

  /** The number a byte stands for. */
  function ByteValue(b: bv8): (v: nat)
    ensures v < 256
  {
    b as nat
  }

  /** `x` as four little-endian bytes. */
  function EncodeU32(x: nat): (r: seq<bv8>)
    requires x < U32Limit
    ensures |r| == 4
  {
    var q1 := x / 256;
    var q2 := q1 / 256;
    var q3 := q2 / 256;
    [ToByte(x % 256), ToByte(q1 % 256), ToByte(q2 % 256), ToByte(q3)]
  }

  /** The number four little-endian bytes stand for. */
  function DecodeU32(b: seq<bv8>): (x: nat)
    requires |b| == 4
    ensures x < U32Limit
  {
    var b0, b1, b2, b3 := ByteValue(b[0]), ByteValue(b[1]), ByteValue(b[2]), ByteValue(b[3]);
    DigitsBound(b0, b1, b2, b3);
    b0 + 256 * (b1 + 256 * (b2 + 256 * b3))
  }

  /** Four base-256 digits stand for a number below 2^32. */
  lemma DigitsBound(b0: nat, b1: nat, b2: nat, b3: nat)
    requires b0 < 256 && b1 < 256 && b2 < 256 && b3 < 256
    ensures b0 + 256 * (b1 + 256 * (b2 + 256 * b3)) < U32Limit
  {
    assert b2 + 256 * b3 < 65536;
    assert b1 + 256 * (b2 + 256 * b3) < 16777216;
  }

  /** Decoding the bytes of a 32-bit value gives the value back. */
  lemma U32RoundTrip(x: nat)
    requires x < U32Limit
    ensures DecodeU32(EncodeU32(x)) == x
  {
    var q1 := x / 256;
    var q2 := q1 / 256;
    var q3 := q2 / 256;
    DigitsRecombine(x, q1, q2, q3);
  }

  /** A number below 2^32 is its four base-256 digits recombined. */
  lemma DigitsRecombine(x: nat, q1: nat, q2: nat, q3: nat)
    requires x < U32Limit && q1 == x / 256 && q2 == q1 / 256 && q3 == q2 / 256
    ensures q3 < 256
    ensures x == x % 256 + 256 * (q1 % 256 + 256 * (q2 % 256 + 256 * q3))
  {
    assert q2 == q2 % 256 + 256 * q3;
    assert q1 == q1 % 256 + 256 * q2;
    assert x == x % 256 + 256 * q1;
  }

  /** The nine `int` fields, in declaration order. */
  function IntFields(sb: Superblock): seq<nat> {
    [sb.blockStart, sb.blockTotal, sb.bitmapStart, sb.bitmapSize,
     sb.blockIndexStart, sb.blockIndexSize, sb.resdStart, sb.resdEnd, sb.rootBlock]
  }

  /** Bytes `[4 * i, 4 * i + 4)` of `bytes`: its `i`-th 32-bit slot. */
  function U32At(bytes: seq<bv8>, i: nat): seq<bv8>
    requires 4 * i + 4 <= |bytes|
  {
    bytes[4 * i .. 4 * i + 4]
  }

  /** Appending bytes leaves the earlier slots as they were. */
  lemma U32AtAppend(front: seq<bv8>, tail: seq<bv8>, i: nat)
    requires 4 * i + 4 <= |front|
    ensures U32At(front + tail, i) == U32At(front, i)
  {
    assert (front + tail)[..|front|] == front;
  }

  /** Consecutive 32-bit values, each as four little-endian bytes. */
  function EncodeU32s(xs: seq<nat>): (r: seq<bv8>)
    requires forall i :: 0 <= i < |xs| ==> xs[i] < U32Limit
    ensures |r| == 4 * |xs|
    ensures forall i :: 0 <= i < |xs| ==> U32At(r, i) == EncodeU32(xs[i])
    decreases |xs|
  {
    if |xs| == 0 then []
    else
      var n := |xs| - 1;
      var front := EncodeU32s(xs[..n]);
      var r := front + EncodeU32(xs[n]);
      assert U32At(r, n) == EncodeU32(xs[n]);
      forall i | 0 <= i < n
        ensures U32At(r, i) == EncodeU32(xs[i])
      {
        U32AtAppend(front, EncodeU32(xs[n]), i);
        assert xs[..n][i] == xs[i];
      }
      r
  }

  /** The 512-byte image of sector 0. */
  function Encode(sb: Superblock): (r: Sector)
    requires Representable(sb)
    ensures r[..MagicSize] == sb.identify
    ensures r[MagicSize] as nat == sb.blockSizeClass
    ensures r[42..PackedSize] == sb.volid
    ensures forall k :: PackedSize <= k < SectorSize ==> r[k] == 0
  {
    var packed := sb.identify + [ToByte(sb.blockSizeClass)] + EncodeU32s(IntFields(sb)) + sb.volid;
    packed + Zeros(SectorSize - PackedSize)
  }

  /** The `i`-th `int` field of a sector-0 image: slot `i` of the 36 bytes
      after the identify and block-size bytes. */
  function IntFieldAt(sector: Sector, i: nat): nat
    requires i < 9
  {
    DecodeU32(U32At(sector[6..42], i))
  }

  /** The record that the bytes of sector 0 stand for, as the signature check views them. */
  function Decode(sector: Sector): (sb: Superblock)
    ensures |sb.identify| == MagicSize && |sb.volid| == MagicSize && sb.blockSizeClass < 256
    ensures forall i :: 0 <= i < 9 ==> IntFields(sb)[i] < U32Limit
  {
    Superblock(
      sector[0..5],
      sector[5] as nat,
      IntFieldAt(sector, 0), IntFieldAt(sector, 1), IntFieldAt(sector, 2),
      IntFieldAt(sector, 3), IntFieldAt(sector, 4), IntFieldAt(sector, 5),
      IntFieldAt(sector, 6), IntFieldAt(sector, 7), IntFieldAt(sector, 8),
      sector[42..47])
  }

  /** Each `int` field of an encoded record decodes to its value. */
  lemma IntFieldRoundTrip(sb: Superblock, i: nat)
    requires Representable(sb) && i < 9
    ensures IntFieldAt(Encode(sb), i) == IntFields(sb)[i]
  {
    var ints := EncodeU32s(IntFields(sb));
    var e := Encode(sb);
    IntsInImage(sb);
    assert U32At(ints, i) == EncodeU32(IntFields(sb)[i]);
    U32RoundTrip(IntFields(sb)[i]);
  }

  /** Bytes 6..42 of the image are the nine encoded `int` fields. */
  lemma IntsInImage(sb: Superblock)
    requires Representable(sb)
    ensures Encode(sb)[6..42] == EncodeU32s(IntFields(sb))
  {
    var ints := EncodeU32s(IntFields(sb));
    var packed := sb.identify + [ToByte(sb.blockSizeClass)] + ints + sb.volid;
    assert packed[6..42] == ints;
    assert Encode(sb)[..PackedSize] == packed;
  }

  /** Reading sector 0 back as a record recovers the record that was written. */
  lemma DecodeEncode(sb: Superblock)
    requires Representable(sb)
    ensures Decode(Encode(sb)) == sb
  {
    var e := Encode(sb);
    assert e[42..47] == sb.volid;
    IntFieldRoundTrip(sb, 0);
    IntFieldRoundTrip(sb, 1);
    IntFieldRoundTrip(sb, 2);
    IntFieldRoundTrip(sb, 3);
    IntFieldRoundTrip(sb, 4);
    IntFieldRoundTrip(sb, 5);
    IntFieldRoundTrip(sb, 6);
    IntFieldRoundTrip(sb, 7);
    IntFieldRoundTrip(sb, 8);
  }

  /** The signature check: the first five bytes of sector 0 are the magic. */
  function Check(d: Device): (ok: bool)
    ensures ok <==> Decode(SectorAt(d, 0)).identify == Magic
  {
    SectorAt(d, 0)[..MagicSize] == Magic
  }

  /** A device whose sector 0 holds a record carrying the magic passes the check;
      one whose record carries anything else fails it. */
  lemma CheckRecognisesEncoded(d: Device, sb: Superblock)
    requires Representable(sb)
    requires SectorAt(d, 0) == Encode(sb)
    ensures Check(d) <==> sb.identify == Magic
  {
  }
}
