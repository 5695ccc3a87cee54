/**
 * The 64-bit occupancy word of a slab (`page_header.bitmap`), seen as the
 * sequence of its 64 bits: element i is bit i, the bit `1ULL << i` selects.
 * Bit i set means block i is in use. The bits at index >= capacity are set
 * when the slab is created so that the search for a free block never picks
 * a block the slab does not have.
 *
 * Every operation here is the 64-bit one; where the source builds the mask
 * with an `int` shift (`1 << bit`), the model uses the 64-bit mask instead.
 */
module Bitmap {

  /** A 64-bit word, bit i at index i. */
  type Word64 = b: seq<bool> | |b| == 64 witness Same(64, true)

  /** n copies of v. */
  function Same(n: nat, v: bool): (r: seq<bool>)
    ensures |r| == n && forall i :: 0 <= i < n ==> r[i] == v
  {
    if n == 0 then [] else Same(n - 1, v) + [v]
  }

  /** `UINT64_MAX`. */
  const AllOnes: Word64 := Same(64, true)

  /** The word 0. */
  const Zero: Word64 := Same(64, false)

  /** `b ^= 1ULL << i`. */
  function Flip(b: Word64, i: nat): Word64
    requires i < 64
  {
    b[i := !b[i]]
  }

  /** `b |= 1ULL << i`. */
  function SetBit(b: Word64, i: nat): Word64
    requires i < 64
  {
    b[i := true]
  }

  /** `b &= ~(1ULL << i)`. */
  function ClearBit(b: Word64, i: nat): Word64
    requires i < 64
  {
    b[i := false]
  }

  /**
   * The word `new_page` holds after `k` rounds of its loop: all ones, then
   * bits 0 .. k-1 flipped one at a time.
   */
  function Preset(k: nat): Word64
    requires k <= 64
  {
    if k == 0 then AllOnes else Flip(Preset(k - 1), k - 1)
  }

  /** After the loop has flipped the first cap bits, exactly the bits at index >= cap are set. */
  lemma {:induction false} PresetBits(cap: nat)
    requires cap <= 64
    ensures forall i :: 0 <= i < 64 ==> (Preset(cap)[i] <==> cap <= i)
  {
    if cap > 0 {
      PresetBits(cap - 1);
    }
  }

  /** The invariant every slab keeps: all bits at index >= cap are set. */
  predicate OverflowSet(b: Word64, cap: nat) {
    forall i :: cap <= i < 64 ==> b[i]
  }

  /**
   * The first clear bit in [from, cap), or cap when there is none: the
   * search of `my_malloc`'s claim loop started at `from`.
   */
  function LowestClearFrom(b: Word64, cap: nat, from: nat): (r: nat)
    requires from <= cap <= 64
    ensures from <= r <= cap
    ensures r < cap ==> !b[r]
    ensures forall j :: from <= j < r ==> b[j]
    decreases cap - from
  {
    if from == cap then cap
    else if !b[from] then from
    else LowestClearFrom(b, cap, from + 1)
  }

  /**
   * The bit `my_malloc` claims: the lowest clear bit below cap, or cap
   * when every bit below cap is set.
   */
  function LowestClear(b: Word64, cap: nat): (r: nat)
    requires cap <= 64
    ensures r <= cap
    ensures r < cap ==> !b[r]
    ensures forall j :: 0 <= j < r ==> b[j]
  {
    LowestClearFrom(b, cap, 0)
  }

  /**
   * A word that keeps its overflow bits set and is not all ones has a clear
   * bit below cap, so the claim loop always finds a block.
   */
  lemma ClearBitBelowCap(b: Word64, cap: nat)
    requires cap <= 64 && OverflowSet(b, cap)
    ensures b != AllOnes <==> LowestClear(b, cap) < cap
  {
    if LowestClear(b, cap) == cap {
      assert forall i :: 0 <= i < 64 ==> b[i];
      assert b == AllOnes;
    }
  }

  /** With the overflow bits set, the word can be 0 only when there are no overflow bits. */
  lemma EmptyNeedsFullCapacity(b: Word64, cap: nat)
    requires cap <= 64 && OverflowSet(b, cap)
    ensures b == Zero ==> cap == 64
  {
    if cap < 64 {
      assert b[63];
    }
  }
}
