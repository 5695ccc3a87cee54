/**
 * What the engine's entry points do, stated over all states that satisfy
 * the allocator invariant: which slab and bit `my_malloc` claims, when it
 * returns NULL, what the large path records, what `my_free` clears or
 * unmaps, what the size query reports, and how far a free undoes a malloc.
 */
module Properties {
  import opened Sizes
  import opened Bitmap
  import opened Slabs
  import opened Engine

  // ---------------------------------------------------------------------
  // my_malloc

  /**
   * When a slab of the request's class has a free block, `my_malloc` takes
   * the first such slab in list order, sets its lowest clear bit (which is
   * below capacity) and nothing else, and returns that block's address.
   */
  lemma MallocClaimsLowestFree(st: State, ps: int, size: int, os: MapResult)
    requires Wf(st, ps) && 1 <= size <= SmallLimit
    requires FirstFit(st.slabs, BlockClass(size)) < |st.slabs|
    ensures var k := FirstFit(st.slabs, BlockClass(size));
            var s := st.slabs[k];
            var r := LowestClear(s.bitmap, s.cap);
            var o := MallocSpec(st, ps, size, os);
            && s.blockSize == BlockClass(size)
            && (forall j :: 0 <= j < k ==> !Fits(st.slabs[j], BlockClass(size)))
            && r < s.cap && !s.bitmap[r]
            && o.ptr == BlockAddress(s, r)
            && o.st.big == st.big && |o.st.slabs| == |st.slabs|
            && (forall j :: 0 <= j < |st.slabs| && j != k ==> o.st.slabs[j] == st.slabs[j])
            && o.st.slabs[k].base == s.base && o.st.slabs[k].blockSize == s.blockSize
            && o.st.slabs[k].cap == s.cap
            && (forall i :: 0 <= i < 64 ==> (o.st.slabs[k].bitmap[i] <==> i == r || s.bitmap[i]))
  {
    var k := FirstFit(st.slabs, BlockClass(size));
    var s := st.slabs[k];
    assert SlabOk(s, ps);
    ClearBitBelowCap(s.bitmap, s.cap);
  }

  /**
   * With no usable slab and a successful `mmap`, `my_malloc` puts a new
   * slab of the class at the head of the list, claims its bit 0 and returns
   * the address of block 0.
   */
  lemma MallocOnNewPage(st: State, ps: int, size: int, os: MapResult)
    requires Wf(st, ps) && 1 <= size <= SmallLimit && os.Mapped?
    requires FirstFit(st.slabs, BlockClass(size)) == |st.slabs|
    ensures var cls := BlockClass(size);
            var cap := Capacity(ps, cls);
            var o := MallocSpec(st, ps, size, os);
            && |o.st.slabs| == |st.slabs| + 1 && o.st.slabs[1..] == st.slabs && o.st.big == st.big
            && o.st.slabs[0].base == os.base && o.st.slabs[0].blockSize == cls
            && o.st.slabs[0].cap == cap && 1 <= cap <= 64
            && (forall i :: 0 <= i < 64 ==> (o.st.slabs[0].bitmap[i] <==> i == 0 || cap <= i))
            && o.ptr == os.base + AddressSpan - (cap + 1) * (cls / 8)
  {
    var cls := BlockClass(size);
    var s := NewSlab(os.base, cls, ps);
    assert !s.bitmap[0];
    assert LowestClear(s.bitmap, s.cap) == 0;
    var o := MallocSpec(st, ps, size, os);
    assert o.st.slabs[1..] == st.slabs;
  }

  /**
   * `my_malloc` returns NULL exactly for size 0 and when the `mmap` it
   * needs fails; a NULL result leaves the state unchanged.
   */
  lemma MallocNull(st: State, ps: int, size: int, os: MapResult)
    requires Wf(st, ps) && IsWord(size) && MapOk(st, os, MapLength(size, ps), ps)
    ensures var o := MallocSpec(st, ps, size, os);
            && (o.ptr == Null <==>
                  size == 0 ||
                  (os.MapFailed? && (size > SmallLimit || FirstFit(st.slabs, BlockClass(size)) == |st.slabs|)))
            && (o.ptr == Null ==> o.st == st)
  {
    if 1 <= size <= SmallLimit && (FirstFit(st.slabs, BlockClass(size)) < |st.slabs| || os.Mapped?) {
      SmallBlockNotNull(st, ps, size, os);
    }
  }

  /** A block address is never NULL, so a small `my_malloc` that claims a block returns non-NULL. */
  lemma SmallBlockNotNull(st: State, ps: int, size: int, os: MapResult)
    requires Wf(st, ps) && IsWord(size) && MapOk(st, os, MapLength(size, ps), ps)
    requires 1 <= size <= SmallLimit
    requires FirstFit(st.slabs, BlockClass(size)) < |st.slabs| || os.Mapped?
    ensures MallocSpec(st, ps, size, os).ptr != Null
  {
    var cls := BlockClass(size);
    var k := FirstFit(st.slabs, cls);
    if k < |st.slabs| {
      var s := st.slabs[k];
      assert SlabOk(s, ps);
      BlockAddressInRange(s, ps, LowestClear(s.bitmap, s.cap));
    } else {
      NewSlabOk(os.base, cls, ps);
      var s := NewSlab(os.base, cls, ps);
      BlockAddressInRange(s, ps, LowestClear(s.bitmap, s.cap));
    }
  }

  /** Whatever `my_malloc` returns, NULL comes with the state left as it was. */
  lemma NullLeavesState(st: State, ps: int, size: int, os: MapResult)
    requires Wf(st, ps) && IsWord(size) && MapOk(st, os, MapLength(size, ps), ps)
    ensures MallocSpec(st, ps, size, os).ptr == Null ==> MallocSpec(st, ps, size, os).st == st
  {
    if 1 <= size <= SmallLimit && (FirstFit(st.slabs, BlockClass(size)) < |st.slabs| || os.Mapped?) {
      SmallBlockNotNull(st, ps, size, os);
    }
  }

  /**
   * A request above 1024 bytes leaves the slab list alone: the new region's
   * header holds the size rounded up to a page multiple, the pointer is the
   * region start plus 8, and the size query then reports the header minus
   * 8, which is below the request when the request is a page multiple.
   */
  lemma LargeMalloc(st: State, ps: int, size: int, os: MapResult)
    requires Wf(st, ps) && SmallLimit < size && IsWord(size) && os.Mapped?
    requires MapOk(st, os, AlignUp(size, ps), ps)
    ensures var o := MallocSpec(st, ps, size, os);
            var len := AlignUp(size, ps);
            && o.st.slabs == st.slabs
            && o.ptr == os.base + MetaSize
            && os.base !in st.big && o.st.big == st.big[os.base := len]
            && len % ps == 0
            && (size + ps - 1 < Word ==> size <= len < size + ps)
            && UsableSize(o.st, o.ptr) == len - MetaSize
            && (size + ps - 1 < Word && size % ps == 0 ==> UsableSize(o.st, o.ptr) < size)
  {
    var o := MallocSpec(st, ps, size, os);
    if size + ps - 1 < Word {
      AlignUpSpec(size, ps);
      if size % ps == 0 {
        AlignUpIgnoresHeader(size, ps);
      }
    }
    MallocPreservesWf(st, ps, size, os);
    RegionPointer(o.st, ps, os.base);
  }

  /** A large allocation followed by `my_free` of its pointer restores the state exactly. */
  lemma LargeRoundTrip(st: State, ps: int, size: int, os: MapResult)
    requires Wf(st, ps) && SmallLimit < size && IsWord(size) && os.Mapped?
    requires MapOk(st, os, AlignUp(size, ps), ps)
    ensures var o := MallocSpec(st, ps, size, os);
            Wf(o.st, ps) && FreeSpec(o.st, ps, o.ptr) == st
  {
    var o := MallocSpec(st, ps, size, os);
    LargeMalloc(st, ps, size, os);
    MallocPreservesWf(st, ps, size, os);
    RegionPointer(o.st, ps, os.base);
    assert o.st.big - {os.base} == st.big;
  }

  // ---------------------------------------------------------------------
  // Pointers into a mapping

  /** No slab's ranges reach into a large region. */
  lemma RegionNotCovered(st: State, ps: int, b: int, ptr: int, lo: int)
    requires Wf(st, ps) && b in st.big && b <= ptr < b + st.big[b] && 0 <= lo <= HeaderSize
    ensures FirstCovering(st.slabs, ptr, lo) == |st.slabs|
  {
    var k := FirstCovering(st.slabs, ptr, lo);
    if k < |st.slabs| {
      var s := st.slabs[k];
      assert SlabOk(s, ps);
      CapacityFits(ps, s.blockSize);
      assert false;
    }
  }

  /**
   * For the pointer of a large region, the size query reports the header
   * minus 8 and `my_free` unmaps exactly that region.
   */
  lemma RegionPointer(st: State, ps: int, b: int)
    requires Wf(st, ps) && b in st.big
    ensures UsableSize(st, b + MetaSize) == st.big[b] - MetaSize
    ensures FreeSpec(st, ps, b + MetaSize) == st.(big := st.big - {b})
  {
    RegionUsable(st, ps, b);
    RegionFree(st, ps, b);
  }

  /** The pointer of a large region sits at 8 mod 16: it is not 16-byte aligned. */
  lemma RegionPointerMisaligned(st: State, ps: int, b: int)
    requires Wf(st, ps) && b in st.big
    ensures (b + MetaSize) % 16 == 8
  {
    assert RegionOk(b, st.big[b], ps);
    PageSizeMod16(b, ps);
    ModOfMultiplePlus(b / 16, 8);
  }

  lemma RegionUsable(st: State, ps: int, b: int)
    requires Wf(st, ps) && b in st.big
    ensures UsableSize(st, b + MetaSize) == st.big[b] - MetaSize
  {
    assert RegionOk(b, st.big[b], ps);
    MultipleAtLeast(st.big[b], ps);
    RegionNotCovered(st, ps, b, b + MetaSize, HeaderSize);
  }

  lemma RegionFree(st: State, ps: int, b: int)
    requires Wf(st, ps) && b in st.big
    ensures FreeSpec(st, ps, b + MetaSize) == st.(big := st.big - {b})
  {
    assert RegionOk(b, st.big[b], ps);
    MultipleAtLeast(st.big[b], ps);
    RegionNotCovered(st, ps, b, b + MetaSize, 0);
  }

  /**
   * A pointer inside slab page `k` is owned by that slab or by none: the
   * other slabs' ranges and the large regions lie outside the page.
   */
  lemma OwnPageOnly(st: State, ps: int, k: nat, ptr: int, lo: int)
    requires Wf(st, ps) && k < |st.slabs| && 0 <= lo <= HeaderSize
    requires st.slabs[k].base + MetaSize <= ptr < st.slabs[k].base + ps
    ensures FirstCovering(st.slabs, ptr, lo) == if Covers(st.slabs[k], ptr, lo) then k else |st.slabs|
    ensures HeaderWord(st, ptr) == 0
  {
    var f := FirstCovering(st.slabs, ptr, lo);
    if f < |st.slabs| && f != k {
      var s := st.slabs[f];
      assert SlabOk(s, ps);
      CapacityFits(ps, s.blockSize);
      assert false;
    }
    if ptr - MetaSize in st.big {
      assert false;
    }
  }

  // ---------------------------------------------------------------------
  // my_free

  /**
   * On the slab path `my_free` clears only bit FreeBit (nothing when the
   * pointer lies in the header), keeps every other slab and every region,
   * and unlinks the slab, keeping the others in order, exactly when its
   * word becomes 0, which needs a capacity of 64.
   */
  lemma FreeSlabPath(st: State, ps: int, ptr: int)
    requires Wf(st, ps) && ptr != Null && FirstCovering(st.slabs, ptr, 0) < |st.slabs|
    ensures var k := FirstCovering(st.slabs, ptr, 0);
            var s := st.slabs[k];
            var b := ReleasedWord(s, ptr);
            var st' := FreeSpec(st, ps, ptr);
            && st'.big == st.big
            && (forall i :: 0 <= i < 64 ==> (b[i] <==> s.bitmap[i] && i != FreeBit(s, ptr)))
            && (ptr < s.base + HeaderSize ==> b == s.bitmap)
            && (ptr >= s.base + HeaderSize ==> FreeBit(s, ptr) < s.cap)
            && OverflowSet(b, s.cap)
            && (b == Zero ==> s.cap == 64 && st'.slabs == st.slabs[..k] + st.slabs[k + 1..])
            && (b != Zero ==> st'.slabs == st.slabs[k := s.(bitmap := b)])
  {
    var k := FirstCovering(st.slabs, ptr, 0);
    var s := st.slabs[k];
    assert SlabOk(s, ps);
    FreeBitBelowCap(s, ps, ptr);
    ReleaseKeepsOverflow(s, ps, ptr);
    EmptyNeedsFullCapacity(ReleasedWord(s, ptr), s.cap);
  }

  /** With 4 KiB pages no slab holds 64 blocks, so `my_free` never unmaps a slab. */
  lemma SlabsNeverUnmappedOn4K(st: State, ptr: int)
    requires Wf(st, DefaultPageSize)
    ensures |FreeSpec(st, DefaultPageSize, ptr).slabs| == |st.slabs|
  {
    if ptr != Null {
      var k := FirstCovering(st.slabs, ptr, 0);
      if k < |st.slabs| {
        FreeSlabPath(st, DefaultPageSize, ptr);
        CapacityOn4K();
        assert SlabOk(st.slabs[k], DefaultPageSize);
      }
    }
  }

  /**
   * Freeing block `bit` of slab `k` on 4 KiB pages: when the block lies in
   * the free range (bit < FreeReach, so never for classes 512 and 1024) one
   * bit of that slab is cleared; otherwise nothing changes at all.
   */
  lemma FreeOfBlockOn4K(st: State, k: nat, bit: nat)
    requires Wf(st, DefaultPageSize) && k < |st.slabs| && bit < st.slabs[k].cap
    ensures var s := st.slabs[k];
            var a := BlockAddress(s, bit);
            && (bit < FreeReach(s.blockSize) ==>
                  FreeBit(s, a) < s.cap &&
                  FreeSpec(st, DefaultPageSize, a) == st.(slabs := st.slabs[k := s.(bitmap := ClearBit(s.bitmap, FreeBit(s, a)))]))
            && (bit >= FreeReach(s.blockSize) ==> FreeSpec(st, DefaultPageSize, a) == st)
  {
    var s := st.slabs[k];
    var a := BlockAddress(s, bit);
    assert SlabOk(s, DefaultPageSize);
    BlockAddressOn4K(s, bit);
    CoverageOn4K(s, bit);
    OwnPageOnly(st, DefaultPageSize, k, a, 0);
    if bit < FreeReach(s.blockSize) {
      FreeSlabPath(st, DefaultPageSize, a);
      CapacityOn4K();
      FreeBitBelowCap(s, DefaultPageSize, a);
    }
  }

  /**
   * On 4 KiB pages the index `my_free` computes for a block it reaches is
   * always above the block's own bit, so it never releases the bit that was
   * claimed for that block.
   */
  lemma FreeBitAboveClaimedBitOn4K(s: Slab, bit: nat)
    requires SlabOk(s, DefaultPageSize) && bit < s.cap && bit < FreeReach(s.blockSize)
    ensures FreeBit(s, BlockAddress(s, bit)) > bit
  {
    BlockAddressOn4K(s, bit);
    CapacityOn4K();
    var off := 3552 + bit * (s.blockSize / 8);
    assert Wrap(BlockAddress(s, bit) - (s.base + HeaderSize)) == off;
    assert (bit + 1) * s.blockSize <= off by {
      assert bit * (s.blockSize / 8) >= 0;
      if s.blockSize == 64 {
        assert (bit + 1) * 64 <= 3552 + bit * 8;
      } else if s.blockSize == 128 {
        assert (bit + 1) * 128 <= 3552 + bit * 16;
      } else {
        assert (bit + 1) * 256 <= 3552 + bit * 32;
      }
    }
    DivAtLeastMul(off, s.blockSize, bit + 1);
  }

  lemma DivAtLeastMul(x: int, b: int, q: int)
    requires b > 0 && q >= 0 && q * b <= x
    ensures x / b >= q
  {
    var d := x / b;
    assert x == d * b + x % b;
    if d < q {
      MulMono(d, q - 1, b);
      assert false;
    }
  }

  /**
   * On 4 KiB pages `my_free` never undoes a small `my_malloc`: whatever
   * `my_malloc` returned, freeing that pointer leaves a state different
   * from the one before the allocation (the claimed bit stays set, or the
   * new slab stays in the list).
   */
  lemma SmallRoundTripLeaks(st: State, size: int, os: MapResult)
    requires Wf(st, DefaultPageSize) && 1 <= size <= SmallLimit
    requires MapOk(st, os, DefaultPageSize, DefaultPageSize)
    ensures var o := MallocSpec(st, DefaultPageSize, size, os);
            && Wf(o.st, DefaultPageSize)
            && (o.ptr != Null ==> FreeSpec(o.st, DefaultPageSize, o.ptr) != st)
  {
    var ps := DefaultPageSize;
    var o := MallocSpec(st, ps, size, os);
    MallocPreservesWf(st, ps, size, os);
    if o.ptr != Null {
      var k := FirstFit(st.slabs, BlockClass(size));
      if k < |st.slabs| {
        ClaimThenFreeKeepsBitOn4K(st, k);
      } else {
        SlabsNeverUnmappedOn4K(o.st, o.ptr);
      }
    }
  }

  /** On 4 KiB pages, claiming a block of slab k and freeing its pointer leaves the claimed bit set. */
  lemma ClaimThenFreeKeepsBitOn4K(st: State, k: nat)
    requires Wf(st, DefaultPageSize) && k < |st.slabs| && st.slabs[k].bitmap != AllOnes
    ensures var o := ClaimSpec(st, k);
            var s := st.slabs[k];
            var r := LowestClear(s.bitmap, s.cap);
            && Wf(o.st, DefaultPageSize)
            && r < s.cap && !s.bitmap[r]
            && k < |FreeSpec(o.st, DefaultPageSize, o.ptr).slabs|
            && FreeSpec(o.st, DefaultPageSize, o.ptr).slabs[k].bitmap[r]
  {
    var ps := DefaultPageSize;
    var s := st.slabs[k];
    assert SlabOk(s, ps);
    ClearBitBelowCap(s.bitmap, s.cap);
    ClaimKeepsWf(st, ps, k);
    var o := ClaimSpec(st, k);
    var r := LowestClear(s.bitmap, s.cap);
    var s' := o.st.slabs[k];
    assert BlockAddress(s', r) == o.ptr;
    FreeOfBlockOn4K(o.st, k, r);
    if r < FreeReach(s.blockSize) {
      FreeBitAboveClaimedBitOn4K(s', r);
    }
  }

  // ---------------------------------------------------------------------
  // get_allocation_size_internal

  /**
   * The size query for block `bit` of slab `k` on 4 KiB pages: the class
   * when the block lies in the size range (bit < SizeReach), 0 otherwise;
   * so class-1024 blocks always report 0.
   */
  lemma UsableSizeOfBlockOn4K(st: State, k: nat, bit: nat)
    requires Wf(st, DefaultPageSize) && k < |st.slabs| && bit < st.slabs[k].cap
    ensures var s := st.slabs[k];
            UsableSize(st, BlockAddress(s, bit)) == if bit < SizeReach(s.blockSize) then s.blockSize else 0
  {
    var s := st.slabs[k];
    var a := BlockAddress(s, bit);
    assert SlabOk(s, DefaultPageSize);
    BlockAddressOn4K(s, bit);
    CoverageOn4K(s, bit);
    OwnPageOnly(st, DefaultPageSize, k, a, HeaderSize);
  }
}
