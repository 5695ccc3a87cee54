/**
 * The allocator as the source runs it: `g_alloc.pages` and the large
 * regions are fields updated in place, and `new_page`, `alloc_big`,
 * `my_malloc` and `my_free` keep the source's loops. Each method is proved
 * to leave exactly the state the matching function of the Engine module
 * describes, and to keep the allocator invariant.
 */
module Heap {
  import opened Sizes
  import opened Bitmap
  import opened Slabs
  import opened Engine
  import Memory

  class Allocator {
    /** The page size `sysconf(_SC_PAGESIZE)` reports, 4096 when it reports none. */
    const pageSize: int
    /** `g_alloc.pages`, head first. */
    var slabs: seq<Slab>
    /** The large regions: region start -> length header. */
    var big: map<int, int>
    /** The bytes the facade writes. */
    var mem: Memory.Bytes

    function Current(): State
      reads this
    {
      State(slabs, big)
    }

    ghost predicate Valid()
      reads this
    {
      Wf(Current(), pageSize)
    }

    /** The process starts with no slabs and no regions; `sys` is what `sysconf` reports. */
    constructor (sys: int)
      requires sys <= 0 || PageSizeOk(sys)
      ensures pageSize == PageSize(sys)
      ensures slabs == [] && big == map[] && mem == map[]
      ensures Valid()
    {
      pageSize := PageSize(sys);
      slabs := [];
      big := map[];
      mem := map[];
    }

    /**
     * `new_page(bs)`: on a successful `mmap`, write the header (capacity,
     * preset word built by the XOR loop) and push the slab on the list.
     */
    method NewPage(bs: int, os: MapResult) returns (ok: bool)
      requires Valid() && IsClass(bs) && MapOk(Current(), os, pageSize, pageSize)
      modifies this
      ensures Valid() && mem == old(mem)
      ensures ok == os.Mapped?
      ensures ok ==> Current() == NewPageSpec(old(Current()), pageSize, bs, os.base)
      ensures !ok ==> Current() == old(Current())
    {
      if os.MapFailed? {
        return false;
      }
      CapacityFits(pageSize, bs);
      var cap := Capacity(pageSize, bs);
      var bitmap := AllOnes;
      var bit := 0;
      while bit < cap
        invariant 0 <= bit <= cap
        invariant bitmap == Preset(bit)
      {
        bitmap := Flip(bitmap, bit);
        bit := bit + 1;
      }
      slabs := [Slab(os.base, bs, cap, bitmap)] + slabs;
      NewPageKeepsWf(old(Current()), pageSize, bs, os);
      return true;
    }

    /** `alloc_big(size)`: map the rounded length and record it in the header word. */
    method AllocBig(size: int, os: MapResult) returns (p: int)
      requires Valid() && IsWord(size) && MapOk(Current(), os, AlignUp(size, pageSize), pageSize)
      modifies this
      ensures Valid() && mem == old(mem)
      ensures Outcome(Current(), p) == AllocBigSpec(old(Current()), pageSize, size, os)
    {
      var aligned := AlignUp(size, pageSize);
      if os.MapFailed? {
        return Null;
      }
      AllocBigKeepsWf(Current(), pageSize, size, os);
      big := big[os.base := aligned];
      p := os.base + MetaSize;
    }

    /** The scan of `my_malloc`: the first slab of class `cls` whose word is not all ones. */
    method FindFit(cls: int) returns (k: nat)
      ensures k == FirstFit(slabs, cls)
    {
      k := 0;
      while k < |slabs|
        invariant k <= |slabs|
        invariant forall j :: 0 <= j < k ==> !Fits(slabs[j], cls)
      {
        if slabs[k].blockSize == cls && slabs[k].bitmap != AllOnes {
          return;
        }
        k := k + 1;
      }
    }

    /**
     * The claim of `my_malloc` in slab `k`: the loop over the bits below
     * capacity stops at the first clear one and sets it; the pointer is
     * computed from wherever the loop stopped.
     */
    method Claim(k: nat) returns (p: int)
      requires Valid() && k < |slabs|
      modifies this
      ensures Valid() && mem == old(mem)
      ensures Outcome(Current(), p) == ClaimSpec(old(Current()), k)
    {
      ClaimKeepsWf(Current(), pageSize, k);
      var page := slabs[k];
      var bitmap := page.bitmap;
      var bit := 0;
      while bit < page.cap
        invariant bit <= page.cap
        invariant forall j :: 0 <= j < bit ==> page.bitmap[j]
        invariant bitmap == page.bitmap
      {
        if !page.bitmap[bit] {
          bitmap := SetBit(bitmap, bit);
          break;
        }
        bit := bit + 1;
      }
      assert bit == LowestClear(page.bitmap, page.cap);
      slabs := slabs[k := page.(bitmap := bitmap)];
      p := page.base + AddressSpan - (page.cap + 1 - bit) * (page.blockSize / 8);
    }

    /**
     * `my_malloc(size)`: the class, the first-fit scan, the `new_page`
     * fallback and the claim.
     */
    method MyMalloc(size: int, os: MapResult) returns (p: int)
      requires Valid() && IsWord(size) && MapOk(Current(), os, MapLength(size, pageSize), pageSize)
      modifies this
      ensures Valid() && mem == old(mem)
      ensures Outcome(Current(), p) == MallocSpec(old(Current()), pageSize, size, os)
    {
      if size == 0 {
        return Null;
      }
      if size > SmallLimit {
        p := AllocBig(size, os);
        return;
      }
      var blockSize := NextPow2(size);
      if blockSize < 64 {
        blockSize := 64;
      }
      assert blockSize == BlockClass(size);
      var k := FindFit(blockSize);
      if k == |slabs| {
        var ok := NewPage(blockSize, os);
        if !ok {
          return Null;
        }
        k := 0;
      }
      p := Claim(k);
    }

    /** The scan of `my_free`: the first slab whose range `[page, page + block_size * blocks_per_page)` holds `ptr`. */
    method FindOwner(ptr: int) returns (k: nat)
      ensures k == FirstCovering(slabs, ptr, 0)
    {
      k := 0;
      while k < |slabs|
        invariant k <= |slabs|
        invariant forall j :: 0 <= j < k ==> !Covers(slabs[j], ptr, 0)
      {
        var pageStart := slabs[k].base;
        var pageEnd := pageStart + slabs[k].blockSize * slabs[k].cap;
        if pageStart <= ptr < pageEnd {
          return;
        }
        k := k + 1;
      }
    }

    /**
     * The slab path of `my_free` for the owner `k`: clear bit (ptr - page -
     * 32) / block_size when it is below 64, and unlink the slab (through
     * `prev` or the list head) when its word becomes 0.
     */
    method Release(k: nat, ptr: int)
      requires Valid() && ptr != Null && k == FirstCovering(slabs, ptr, 0) < |slabs|
      modifies this
      ensures Valid() && mem == old(mem)
      ensures Current() == FreeSpec(old(Current()), pageSize, ptr)
    {
      FreePreservesWf(Current(), pageSize, ptr);
      var page := slabs[k];
      var offset := Wrap(ptr - (page.base + HeaderSize));
      var bit := offset / page.blockSize;
      var bitmap := page.bitmap;
      if bit < 64 {
        bitmap := ClearBit(bitmap, bit);
      }
      assert bitmap == ReleasedWord(page, ptr);
      if bitmap == Zero {
        if k > 0 {
          // prev->next = page->next
          slabs := slabs[..k] + slabs[k + 1..];
        } else {
          // g_alloc.pages = page->next
          assert slabs[1..] == slabs[..0] + slabs[1..];
          slabs := slabs[1..];
        }
      } else {
        slabs := slabs[k := page.(bitmap := bitmap)];
      }
    }

    /**
     * `my_free(ptr)`: the owner scan, then the slab path, or the header
     * path for a pointer no slab owns.
     */
    method MyFree(ptr: int)
      requires Valid()
      modifies this
      ensures Valid() && mem == old(mem)
      ensures Current() == FreeSpec(old(Current()), pageSize, ptr)
    {
      if ptr == Null {
        return;
      }
      var k := FindOwner(ptr);
      if k < |slabs| {
        Release(k, ptr);
        return;
      }
      FreePreservesWf(Current(), pageSize, ptr);
      var allocSize := HeaderWord(Current(), ptr);
      if allocSize == 0 {
        return;
      }
      big := big - {ptr - MetaSize};
    }
  }
}
