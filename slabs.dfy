/**
 * A slab: one mapped page headed by a `struct page_header`, cut into blocks
 * of one size class, with a 64-bit occupancy word. This module holds the
 * pure per-slab decisions of malloc/src/my_malloc.c, malloc/src/my_free.c
 * and malloc/src/malloc.c: the first-fit scan, the two ownership ranges,
 * the block address and the index `my_free` clears.
 */
module Slabs {
  import opened Sizes
  import opened Bitmap

  /**
   * A page header and the page it heads: `block_size`, `blocks_per_page`
   * and `bitmap`, plus the page address. The `next` link is the order of
   * the slab sequence that holds it.
   */
  datatype Slab = Slab(base: int, blockSize: int, cap: nat, bitmap: Word64)

  /** The block address formula measures from 4096 bytes past the page, whatever the page size. */
  const AddressSpan: int := 4096

  /** What every slab in the list satisfies for page size `ps`. */
  predicate SlabOk(s: Slab, ps: int) {
    && PageSizeOk(ps)
    && s.base > 0 && s.base % ps == 0 && s.base + ps <= Word
    && IsClass(s.blockSize)
    && s.cap == Capacity(ps, s.blockSize) && s.cap <= 64
    && OverflowSet(s.bitmap, s.cap)
  }

  /**
   * The header `new_page` writes into a fresh page at `base`: the class,
   * the capacity and the preset word in which exactly the bits at index
   * >= capacity are set.
   */
  function NewSlab(base: int, bs: int, ps: int): (s: Slab)
    requires PageSizeOk(ps) && IsClass(bs)
    ensures s.base == base && s.blockSize == bs
    ensures 1 <= s.cap <= 64 && HeaderSize + bs * s.cap <= ps
    ensures forall i :: 0 <= i < 64 ==> (s.bitmap[i] <==> s.cap <= i)
  {
    CapacityFits(ps, bs);
    var cap := Capacity(ps, bs);
    PresetBits(cap);
    Slab(base, bs, cap, Preset(cap))
  }

  /** A fresh header at a page-aligned, in-range address satisfies the slab invariant. */
  lemma NewSlabOk(base: int, bs: int, ps: int)
    requires PageSizeOk(ps) && IsClass(bs)
    requires base > 0 && base % ps == 0 && base + ps <= Word
    ensures SlabOk(NewSlab(base, bs, ps), ps)
    ensures !NewSlab(base, bs, ps).bitmap[0]
  {
    var s := NewSlab(base, bs, ps);
    assert forall i :: s.cap <= i < 64 ==> s.bitmap[i];
  }

  /** The test of `my_malloc`'s scan: the right class and not every bit set. */
  predicate Fits(s: Slab, cls: int) {
    s.blockSize == cls && s.bitmap != AllOnes
  }

  /** The index of the slab `my_malloc`'s scan stops at, or |slabs| when it runs off the list. */
  function FirstFit(slabs: seq<Slab>, cls: int): (k: nat)
    ensures k <= |slabs|
    ensures k < |slabs| ==> Fits(slabs[k], cls)
    ensures forall j :: 0 <= j < k ==> !Fits(slabs[j], cls)
  {
    if |slabs| == 0 then 0
    else if Fits(slabs[0], cls) then 0
    else 1 + FirstFit(slabs[1..], cls)
  }

  /**
   * The ownership test of a scan: `ptr` lies in `[page + lo, page + lo +
   * block_size * blocks_per_page)`. `my_free` uses lo = 0 (the range
   * starts at the header itself), the size query lo = 32.
   */
  predicate Covers(s: Slab, ptr: int, lo: int) {
    s.base + lo <= ptr < s.base + lo + s.blockSize * s.cap
  }

  /** The index of the first slab whose range with offset `lo` holds `ptr`, or |slabs|. */
  function FirstCovering(slabs: seq<Slab>, ptr: int, lo: int): (k: nat)
    ensures k <= |slabs|
    ensures k < |slabs| ==> Covers(slabs[k], ptr, lo)
    ensures forall j :: 0 <= j < k ==> !Covers(slabs[j], ptr, lo)
  {
    if |slabs| == 0 then 0
    else if Covers(slabs[0], ptr, lo) then 0
    else 1 + FirstCovering(slabs[1..], ptr, lo)
  }

  /** The pointer `my_malloc` returns for bit `bit`: `page + 4096 - (blocks_per_page + 1 - bit) * (block_size / 8)`. */
  function BlockAddress(s: Slab, bit: nat): int
    requires bit <= s.cap
  {
    s.base + AddressSpan - (s.cap + 1 - bit) * (s.blockSize / 8)
  }

  /** The index `my_free` computes: `((char *)ptr - (char *)(page + 1)) / block_size` in `size_t`. */
  function FreeBit(s: Slab, ptr: int): nat
    requires s.blockSize > 0
  {
    Wrap(ptr - (s.base + HeaderSize)) / s.blockSize
  }

  /** The next bit's block starts block_size / 8 bytes later, less than one block width. */
  lemma BlockStride(s: Slab, bit: nat)
    requires IsClass(s.blockSize) && bit < s.cap
    ensures BlockAddress(s, bit + 1) == BlockAddress(s, bit) + s.blockSize / 8
    ensures 0 < s.blockSize / 8 < s.blockSize
  {
    var w := s.blockSize / 8;
    assert (s.cap + 1 - bit) * w == (s.cap + 1 - (bit + 1)) * w + w;
  }

  /** Distinct bits give distinct addresses: the address grows with the bit. */
  lemma {:induction false} BlockAddressIncreasing(s: Slab, i: nat, j: nat)
    requires IsClass(s.blockSize) && i < j <= s.cap
    ensures BlockAddress(s, i) < BlockAddress(s, j)
    decreases j - i
  {
    BlockStride(s, i);
    if i + 1 < j {
      BlockAddressIncreasing(s, i + 1, j);
    }
  }

  /** Every block address is a positive address below 2^64. */
  lemma BlockAddressInRange(s: Slab, ps: int, bit: nat)
    requires SlabOk(s, ps) && bit <= s.cap
    ensures 0 < BlockAddress(s, bit) < Word
  {
    var w := s.blockSize / 8;
    CapacityFits(ps, s.blockSize);
    assert s.blockSize == 8 * w;
    OffsetBounds(s.cap, bit, w, ps);
    MultipleAtLeast(s.base, ps);
  }

  lemma OffsetBounds(c: int, bit: int, w: int, ps: int)
    requires 0 <= bit <= c && 8 <= w <= 128 && ps >= DefaultPageSize
    requires HeaderSize + (8 * w) * c <= ps
    ensures w <= (c + 1 - bit) * w <= ps
  {
    MulMono(1, c + 1 - bit, w);
    MulMono(c + 1 - bit, c + 1, w);
    assert w * (c + 1) == w * c + w;
    assert 8 * (w * c) == (8 * w) * c;
  }

  lemma MultipleAtLeast(b: int, ps: int)
    requires b > 0 && ps > 0 && b % ps == 0
    ensures b >= ps
  {
  }

  /**
   * On 4 KiB pages every class puts block `bit` at page + 3584 + bit *
   * (block_size / 8): all blocks sit in the last 512 bytes of the page.
   */
  lemma BlockAddressOn4K(s: Slab, bit: nat)
    requires SlabOk(s, DefaultPageSize) && bit < s.cap
    ensures BlockAddress(s, bit) == s.base + 3584 + bit * (s.blockSize / 8)
    ensures s.base + 3584 <= BlockAddress(s, bit) < s.base + DefaultPageSize
  {
    var w := s.blockSize / 8;
    CapacityOn4K();
    assert (s.cap + 1) * w == 512 by {
      if s.blockSize == 64 {
        assert s.cap == 63 && w == 8;
      } else if s.blockSize == 128 {
        assert s.cap == 31 && w == 16;
      } else if s.blockSize == 256 {
        assert s.cap == 15 && w == 32;
      } else if s.blockSize == 512 {
        assert s.cap == 7 && w == 64;
      } else {
        assert s.cap == 3 && w == 128;
      }
    }
    assert (s.cap + 1 - bit) * w == (s.cap + 1) * w - bit * w;
    MulMono(bit, s.cap - 1, w);
    assert w * (s.cap - 1) == (s.cap + 1) * w - 2 * w;
  }

  /** In class 64 on 4 KiB pages odd bits sit at 8 mod 16: blocks are not 16-byte aligned. */
  lemma OddBitsMisaligned(s: Slab, bit: nat)
    requires SlabOk(s, DefaultPageSize) && s.blockSize == 64 && bit < s.cap && bit % 2 == 1
    ensures BlockAddress(s, bit) % 16 == 8
  {
    BlockAddressOn4K(s, bit);
    PageSizeMod16(s.base, DefaultPageSize);
    var m := bit / 2;
    assert BlockAddress(s, bit) == 16 * (s.base / 16 + 224 + m) + 8;
    ModOfMultiplePlus(s.base / 16 + 224 + m, 8);
  }

  lemma ModOfMultiplePlus(q: int, r: int)
    requires 0 <= r < 16
    ensures (16 * q + r) % 16 == r
  {
  }

  /**
   * On every page size above 4 KiB class 64 has all 64 blocks, and the
   * alignment flips: the even bits sit at 8 mod 16 and the odd bits are
   * 16-byte aligned.
   */
  lemma EvenBitsMisalignedOnLargerPages(s: Slab, ps: int, bit: nat)
    requires SlabOk(s, ps) && ps > DefaultPageSize && s.blockSize == 64 && bit < s.cap
    ensures s.cap == 64
    ensures BlockAddress(s, bit) % 16 == if bit % 2 == 0 then 8 else 0
  {
    LargerPageSize(ps);
    PageSizeMod16(s.base, ps);
    var m := bit / 2;
    if bit % 2 == 0 {
      assert BlockAddress(s, bit) == 16 * (s.base / 16 + 223 + m) + 8;
      ModOfMultiplePlus(s.base / 16 + 223 + m, 8);
    } else {
      assert BlockAddress(s, bit) == 16 * (s.base / 16 + 224 + m);
      ModOfMultiplePlus(s.base / 16 + 224 + m, 0);
    }
  }

  /**
   * The 8 bytes before any block but the first lie inside the block before
   * it: when no range holds a block, the word `my_free` and the size query
   * read as a region header is another block's data.
   */
  lemma HeaderWordInPreviousBlock(s: Slab, bit: nat)
    requires IsClass(s.blockSize) && 1 <= bit < s.cap
    ensures BlockAddress(s, bit - 1) <= BlockAddress(s, bit) - MetaSize < BlockAddress(s, bit - 1) + s.blockSize
  {
    BlockStride(s, bit - 1);
  }

  /**
   * The number of blocks of a class that end inside a 4 KiB page: the
   * first 57, 25, 9, 1 and 0 of the classes 64 .. 1024.
   */
  function InPage(bs: int): int {
    if bs == 64 then 57 else if bs == 128 then 25 else if bs == 256 then 9 else if bs == 512 then 1 else 0
  }

  /**
   * On 4 KiB pages the tail of every class runs past the end of its page:
   * class-64 bits 57-62, class-128 bits 25-30, class-256 bits 9-14,
   * class-512 bits 1-6 and every class-1024 block.
   */
  lemma PastPageEndOn4K(s: Slab, bit: nat)
    requires SlabOk(s, DefaultPageSize) && bit < s.cap
    ensures BlockAddress(s, bit) + s.blockSize > s.base + DefaultPageSize <==> bit >= InPage(s.blockSize)
  {
    BlockAddressOn4K(s, bit);
  }

  /**
   * On 4 KiB pages the word before a block never starts a page, so the
   * `munmap(ptr - 8, word)` the header path makes for a block no range
   * holds is refused for its address and unmaps nothing.
   */
  lemma HeaderWordNotPageAlignedOn4K(s: Slab, bit: nat)
    requires SlabOk(s, DefaultPageSize) && bit < s.cap
    ensures (BlockAddress(s, bit) - MetaSize) % DefaultPageSize != 0
  {
    BlockAddressOn4K(s, bit);
    var off := BlockAddress(s, bit) - MetaSize - s.base;
    assert 3576 <= off < 4088;
    assert BlockAddress(s, bit) - MetaSize == s.base + off;
    assert (s.base + off) % DefaultPageSize == off by {
      ModOfPageMultiplePlus(s.base, off);
    }
  }

  lemma ModOfPageMultiplePlus(b: int, off: int)
    requires b % DefaultPageSize == 0 && 0 <= off < DefaultPageSize
    ensures (b + off) % DefaultPageSize == off
  {
    var q := b / DefaultPageSize;
    assert b + off == q * DefaultPageSize + off;
  }

  /** With 64 KiB pages the first class-1024 block lies 4096 bytes before its page. */
  lemma Class1024BeforePage(s: Slab)
    requires SlabOk(s, 0x1_0000) && s.blockSize == 1024
    ensures s.cap == 63
    ensures BlockAddress(s, 0) == s.base - 4096
  {
  }

  /**
   * With 64 KiB pages class 64 has all 64 blocks, and freeing the pointer
   * of bit 63 clears bit 63 itself: the index `my_free` computes is the
   * block's own bit there.
   */
  lemma LastBlockFreesOwnBitOn64K(s: Slab)
    requires SlabOk(s, 0x1_0000) && s.blockSize == 64
    ensures s.cap == 64
    ensures BlockAddress(s, 63) == s.base + 4080
    ensures Covers(s, BlockAddress(s, 63), 0)
    ensures FreeBit(s, BlockAddress(s, 63)) == 63
  {
    assert Wrap(BlockAddress(s, 63) - (s.base + HeaderSize)) == 4048;
  }

  /**
   * The numbers of blocks the two ownership ranges reach on 4 KiB pages:
   * the free range [page, page + bs*cap) holds the first 56, 24, 8, 0, 0
   * blocks of the classes 64 .. 1024, the size range [page + 32, page + 32
   * + bs*cap) the first 60, 26, 9, 1, 0.
   */
  function FreeReach(bs: int): int {
    if bs == 64 then 56 else if bs == 128 then 24 else if bs == 256 then 8 else 0
  }

  function SizeReach(bs: int): int {
    if bs == 64 then 60 else if bs == 128 then 26 else if bs == 256 then 9 else if bs == 512 then 1 else 0
  }

  lemma CoverageOn4K(s: Slab, bit: nat)
    requires SlabOk(s, DefaultPageSize) && bit < s.cap
    ensures Covers(s, BlockAddress(s, bit), 0) <==> bit < FreeReach(s.blockSize)
    ensures Covers(s, BlockAddress(s, bit), HeaderSize) <==> bit < SizeReach(s.blockSize)
  {
    BlockAddressOn4K(s, bit);
  }

  /**
   * The index `my_free` computes for a pointer its range holds is below
   * capacity, or at least 64 (and then nothing is cleared) exactly when the
   * pointer lies inside the 32-byte header.
   */
  lemma FreeBitBelowCap(s: Slab, ps: int, ptr: int)
    requires SlabOk(s, ps) && Covers(s, ptr, 0)
    ensures ptr < s.base + HeaderSize ==> FreeBit(s, ptr) >= 64
    ensures ptr >= s.base + HeaderSize ==> FreeBit(s, ptr) < s.cap
  {
    var bs := s.blockSize;
    var off := Wrap(ptr - (s.base + HeaderSize));
    if ptr < s.base + HeaderSize {
      assert off >= Word - HeaderSize;
      DivAtLeast(off, bs, 64);
    } else {
      assert off < bs * s.cap;
      DivBelow(off, bs, s.cap);
    }
  }

  lemma DivAtLeast(x: int, b: int, q: int)
    requires 0 < b <= 1024 && 0 <= q <= 64 && x >= Word - HeaderSize
    ensures x / b >= q
  {
    assert q * b <= x;
  }

  lemma DivBelow(x: int, b: int, q: int)
    requires b > 0 && 0 <= x < b * q
    ensures x / b < q
  {
  }

  /** Class 64 on 4 KiB pages: bit 0 is returned at page + 3584, and freeing that pointer clears bit 55. */
  lemma FirstBlockFreesBit55(s: Slab)
    requires SlabOk(s, DefaultPageSize) && s.blockSize == 64
    ensures BlockAddress(s, 0) == s.base + 3584
    ensures Covers(s, BlockAddress(s, 0), 0)
    ensures FreeBit(s, BlockAddress(s, 0)) == 55
  {
    BlockAddressOn4K(s, 0);
  }
}
