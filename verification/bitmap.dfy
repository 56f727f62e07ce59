/**
  The bitmap allocator: marking a contiguous range of bits of an in-memory
  bitmap buffer as allocated (1) or free (0).

  Both operations take the buffer by value and return the updated buffer.
  The only call, from the format routine, passes `0 <= c <= 8 * |buffer|`.
  For a range with `end < start` the source's unsigned count wraps, and for
  one past `8 * |buffer|` it writes past the buffer; the model covers neither
  and states `start <= end <= 8 * |buffer|` as a precondition.
 */
module Bitmap {
  import opened Bits

  /** Reference definition: the buffer whose bits in `[start, end)` are `v`
      and whose every other bit is the bit of `buf`. */
  function Fill(buf: seq<bv8>, start: nat, end: nat, v: bool): (r: seq<bv8>)
    ensures |r| == |buf|
    ensures forall k: nat :: k < 8 * |buf| ==>
      (Bit(r, k) <==> if start <= k < end then v else Bit(buf, k))
  {
    var r := seq(|buf|, j requires 0 <= j < |buf| =>
      ByteOfBits(seq(8, m requires 0 <= m < 8 =>
        if start <= 8 * j + m < end then v else BitAt(buf[j], m))));
    assert forall k: nat :: k < 8 * |buf| ==> k == 8 * (k / 8) + k % 8;
    r
  }

  /** Marks bits `[start, end)` of `buffer` allocated, walking byte index `idx`
      and bit position `n` from `start` exactly as the source's loop does. */
  method SetAllocated(buffer: seq<bv8>, start: nat, end: nat) returns (r: seq<bv8>)
    requires start <= end <= 8 * |buffer|
    ensures |r| == |buffer|
    ensures forall k: nat :: k < 8 * |buffer| ==> (Bit(r, k) <==> start <= k < end || Bit(buffer, k))
    ensures r == Fill(buffer, start, end, true)
  {
    r := buffer;
    var idx: nat := start / 8;
    var count := end - start;
    var n: nat := start % 8;
    var i := 0;
    while i < count
      invariant 0 <= i <= count
      invariant n <= 8
      invariant 8 * idx + n == start + i
      invariant |r| == |buffer|
      invariant forall k: nat :: k < 8 * |buffer| ==> (Bit(r, k) <==> start <= k < start + i || Bit(buffer, k))
    {
      if n == 8 {
        n := 0;
        idx := idx + 1;
      }
      var next := r[idx := SetBit(r[idx], n)];
      SetStep(buffer, r, next, start, i, idx, n);
      r := next;
      n := n + 1;
      i := i + 1;
    }
    BitsDetermineBuffer(r, Fill(buffer, start, end, true));
  }

  /** Marks bits `[start, end)` of `buffer` free; the exact mirror of `SetAllocated`. */
  method SetFree(buffer: seq<bv8>, start: nat, end: nat) returns (r: seq<bv8>)
    requires start <= end <= 8 * |buffer|
    ensures |r| == |buffer|
    ensures forall k: nat :: k < 8 * |buffer| ==> (Bit(r, k) <==> !(start <= k < end) && Bit(buffer, k))
    ensures r == Fill(buffer, start, end, false)
  {
    r := buffer;
    var idx: nat := start / 8;
    var count := end - start;
    var n: nat := start % 8;
    var i := 0;
    while i < count
      invariant 0 <= i <= count
      invariant n <= 8
      invariant 8 * idx + n == start + i
      invariant |r| == |buffer|
      invariant forall k: nat :: k < 8 * |buffer| ==> (Bit(r, k) <==> !(start <= k < start + i) && Bit(buffer, k))
    {
      if n == 8 {
        n := 0;
        idx := idx + 1;
      }
      var next := r[idx := ClearBit(r[idx], n)];
      ClearStep(buffer, r, next, start, i, idx, n);
      r := next;
      n := n + 1;
      i := i + 1;
    }
    BitsDetermineBuffer(r, Fill(buffer, start, end, false));
  }

  /** One iteration of the allocating loop: setting bit `n` of byte `idx`,
      the bit at position `start + i`, extends the allocated prefix by one. */
  lemma SetStep(buffer: seq<bv8>, r: seq<bv8>, next: seq<bv8>, start: nat, i: nat, idx: nat, n: nat)
    requires |r| == |buffer| && idx < |r| && n < 8
    requires next == r[idx := SetBit(r[idx], n)]
    requires 8 * idx + n == start + i
    requires forall k: nat :: k < 8 * |buffer| ==> (Bit(r, k) <==> start <= k < start + i || Bit(buffer, k))
    ensures forall k: nat :: k < 8 * |buffer| ==>
      (Bit(next, k) <==> start <= k < start + i + 1 || Bit(buffer, k))
  {
    SetBitInBuffer(r, idx, n);
    forall k: nat | k < 8 * |buffer|
      ensures Bit(next, k) <==> start <= k < start + i + 1 || Bit(buffer, k)
    {
      assert Bit(r, k) <==> start <= k < start + i || Bit(buffer, k);
    }
  }

  /** One iteration of the freeing loop: clearing bit `n` of byte `idx`, the
      bit at position `start + i`, extends the freed prefix by one. */
  lemma ClearStep(buffer: seq<bv8>, r: seq<bv8>, next: seq<bv8>, start: nat, i: nat, idx: nat, n: nat)
    requires |r| == |buffer| && idx < |r| && n < 8
    requires next == r[idx := ClearBit(r[idx], n)]
    requires 8 * idx + n == start + i
    requires forall k: nat :: k < 8 * |buffer| ==> (Bit(r, k) <==> !(start <= k < start + i) && Bit(buffer, k))
    ensures forall k: nat :: k < 8 * |buffer| ==>
      (Bit(next, k) <==> !(start <= k < start + i + 1) && Bit(buffer, k))
  {
    ClearBitInBuffer(r, idx, n);
    forall k: nat | k < 8 * |buffer|
      ensures Bit(next, k) <==> !(start <= k < start + i + 1) && Bit(buffer, k)
    {
      assert Bit(r, k) <==> !(start <= k < start + i) && Bit(buffer, k);
    }
  }

  /** An empty range changes nothing. */
  lemma EmptyRangeIsNoOp(buf: seq<bv8>, start: nat, v: bool)
    requires start <= 8 * |buf|
    ensures Fill(buf, start, start, v) == buf
  {
    BitsDetermineBuffer(Fill(buf, start, start, v), buf);
  }

  /** A second fill of the same range overrides the first entirely: free after
      set is the same as free alone (and the range reads all 0), set after free
      is the same as set alone (and the range reads all 1). */
  lemma RefillOverrides(buf: seq<bv8>, start: nat, end: nat, v: bool, w: bool)
    requires start <= end <= 8 * |buf|
    ensures Fill(Fill(buf, start, end, v), start, end, w) == Fill(buf, start, end, w)
    ensures forall k: nat :: start <= k < end ==> (Bit(Fill(Fill(buf, start, end, v), start, end, w), k) <==> w)
  {
    BitsDetermineBuffer(Fill(Fill(buf, start, end, v), start, end, w), Fill(buf, start, end, w));
  }

  /** Filling a range twice with the same value is the same as filling it once. */
  lemma FillIdempotent(buf: seq<bv8>, start: nat, end: nat, v: bool)
    requires start <= end <= 8 * |buf|
    ensures Fill(Fill(buf, start, end, v), start, end, v) == Fill(buf, start, end, v)
  {
    RefillOverrides(buf, start, end, v, v);
  }

  /** Setting a range and then freeing it restores a buffer whose range was free,
      and freeing then setting restores a buffer whose range was allocated. */
  lemma SetFreeRoundTrip(buf: seq<bv8>, start: nat, end: nat)
    requires start <= end <= 8 * |buf|
    ensures (forall k: nat :: start <= k < end ==> !Bit(buf, k)) ==>
      Fill(Fill(buf, start, end, true), start, end, false) == buf
    ensures (forall k: nat :: start <= k < end ==> Bit(buf, k)) ==>
      Fill(Fill(buf, start, end, false), start, end, true) == buf
  {
    RefillOverrides(buf, start, end, true, false);
    RefillOverrides(buf, start, end, false, true);
    if forall k: nat :: start <= k < end ==> !Bit(buf, k) {
      BitsDetermineBuffer(Fill(buf, start, end, false), buf);
    }
    if forall k: nat :: start <= k < end ==> Bit(buf, k) {
      BitsDetermineBuffer(Fill(buf, start, end, true), buf);
    }
  }

  /** Fills of disjoint ranges commute. */
  lemma DisjointFillsCommute(buf: seq<bv8>, s1: nat, e1: nat, v1: bool, s2: nat, e2: nat, v2: bool)
    requires s1 <= e1 <= 8 * |buf| && s2 <= e2 <= 8 * |buf|
    requires e1 <= s2 || e2 <= s1
    ensures Fill(Fill(buf, s1, e1, v1), s2, e2, v2) == Fill(Fill(buf, s2, e2, v2), s1, e1, v1)
  {
    BitsDetermineBuffer(Fill(Fill(buf, s1, e1, v1), s2, e2, v2), Fill(Fill(buf, s2, e2, v2), s1, e1, v1));
  }
}
