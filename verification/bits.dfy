/**
  Single-bit operations on bytes, and the bit view of a byte buffer.

  The source addresses bits least-significant-bit first: bit `n` of a byte is
  the bit selected by `1 << n`, and bit `k` of a buffer lives in byte `k / 8`
  at position `k % 8`.
 */
module Bits {

  /** The byte `1 << n`, written out as a table for `n` in 0..7. */
  function BitMask(n: nat): bv8
    requires n < 8
  {
    match n
    case 0 => 0x01
    case 1 => 0x02
    case 2 => 0x04
    case 3 => 0x08
    case 4 => 0x10
    case 5 => 0x20
    case 6 => 0x40
    case _ => 0x80
  }

  /** True when bit `n` of `b` is 1 (the source's bit-detect macro is non-zero). */
  predicate BitAt(b: bv8, n: nat)
    requires n < 8
  {
    b & BitMask(n) != 0
  }

  /** The mask table is the source's `1 << n`, so `BitAt` is its bit-detect test. */
  lemma BitAtIsDetect(b: bv8, n: nat)
    requires n < 8
    ensures BitMask(n) == (1 as bv8) << n
    ensures BitAt(b, n) <==> b & ((1 as bv8) << n) != 0
  {
  }

  /** The byte `b` with bit `n` set, as the source's set-bit macro computes it. */
  function SetBit(b: bv8, n: nat): (r: bv8)
    requires n < 8
    ensures forall m: nat :: m < 8 ==> (BitAt(r, m) <==> m == n || BitAt(b, m))
  {
    b | BitMask(n)
  }

  /** The byte `b` with bit `n` cleared, as the source's clear-bit macro computes it. */
  function ClearBit(b: bv8, n: nat): (r: bv8)
    requires n < 8
    ensures forall m: nat :: m < 8 ==> (BitAt(r, m) <==> m != n && BitAt(b, m))
  {
    b & !BitMask(n)
  }

  /** A byte is determined by its eight bits. */
  lemma ByteExtensionality(a: bv8, b: bv8)
    requires forall m: nat :: m < 8 ==> (BitAt(a, m) <==> BitAt(b, m))
    ensures a == b
  {
    assert BitAt(a, 0) == BitAt(b, 0);
    assert BitAt(a, 1) == BitAt(b, 1);
    assert BitAt(a, 2) == BitAt(b, 2);
    assert BitAt(a, 3) == BitAt(b, 3);
    assert BitAt(a, 4) == BitAt(b, 4);
    assert BitAt(a, 5) == BitAt(b, 5);
    assert BitAt(a, 6) == BitAt(b, 6);
    assert BitAt(a, 7) == BitAt(b, 7);
  }

  /** The byte whose bit `n` is `bits[n]`. */
  function ByteOfBits(bits: seq<bool>): (r: bv8)
    requires |bits| == 8
    ensures forall m: nat :: m < 8 ==> (BitAt(r, m) <==> bits[m])
  {
    (if bits[0] then 0x01 else 0) | (if bits[1] then 0x02 else 0)
    | (if bits[2] then 0x04 else 0) | (if bits[3] then 0x08 else 0)
    | (if bits[4] then 0x10 else 0) | (if bits[5] then 0x20 else 0)
    | (if bits[6] then 0x40 else 0) | (if bits[7] then 0x80 else 0)
  }

  /** Bit `k` of a buffer: position `k % 8` of byte `k / 8`. */
  predicate Bit(buf: seq<bv8>, k: nat)
    requires k < 8 * |buf|
  {
    BitAt(buf[k / 8], k % 8)
  }

  /** `n` zero bytes. */
  function Zeros(n: nat): (r: seq<bv8>)
    ensures |r| == n
    ensures forall k: nat :: k < 8 * n ==> !Bit(r, k)
  {
    seq(n, _ => 0)
  }

  /** Two buffers of one length with the same bits are the same buffer. */
  lemma {:induction false} BitsDetermineBuffer(a: seq<bv8>, b: seq<bv8>)
    requires |a| == |b|
    requires forall k: nat :: k < 8 * |a| ==> (Bit(a, k) <==> Bit(b, k))
    ensures a == b
  {
    forall j | 0 <= j < |a|
      ensures a[j] == b[j]
    {
      forall m: nat | m < 8
        ensures BitAt(a[j], m) <==> BitAt(b[j], m)
      {
        var k := 8 * j + m;
        assert k / 8 == j && k % 8 == m;
        assert Bit(a, k) <==> Bit(b, k);
      }
      ByteExtensionality(a[j], b[j]);
    }
  }

  /** Setting bit `n` of byte `idx` changes buffer bit `8 * idx + n` to 1 and no other bit. */
  lemma SetBitInBuffer(buf: seq<bv8>, idx: nat, n: nat)
    requires idx < |buf| && n < 8
    ensures forall k: nat :: k < 8 * |buf| ==>
      (Bit(buf[idx := SetBit(buf[idx], n)], k) <==> k == 8 * idx + n || Bit(buf, k))
  {
    var r := buf[idx := SetBit(buf[idx], n)];
    forall k: nat | k < 8 * |buf|
      ensures Bit(r, k) <==> k == 8 * idx + n || Bit(buf, k)
    {
      if k / 8 == idx {
        assert k == 8 * idx + n <==> k % 8 == n;
      } else {
        assert k != 8 * idx + n;
      }
    }
  }

  /** Clearing bit `n` of byte `idx` changes buffer bit `8 * idx + n` to 0 and no other bit. */
  lemma ClearBitInBuffer(buf: seq<bv8>, idx: nat, n: nat)
    requires idx < |buf| && n < 8
    ensures forall k: nat :: k < 8 * |buf| ==>
      (Bit(buf[idx := ClearBit(buf[idx], n)], k) <==> k != 8 * idx + n && Bit(buf, k))
  {
    var r := buf[idx := ClearBit(buf[idx], n)];
    forall k: nat | k < 8 * |buf|
      ensures Bit(r, k) <==> k != 8 * idx + n && Bit(buf, k)
    {
      if k / 8 == idx {
        assert k == 8 * idx + n <==> k % 8 == n;
      } else {
        assert k != 8 * idx + n;
      }
    }
  }
}
