/**
 * The allocator state and the effect of each entry point of the engine on
 * it, as pure functions: `my_malloc` (with `new_page` and `alloc_big`),
 * `my_free` and `get_allocation_size_internal`. The class in heap.dfy runs
 * the source's loops and is proved to produce exactly these results.
 *
 * `mmap` is an oracle: each call that maps memory receives a `MapResult`
 * that is either a failure or a fresh page-aligned base disjoint from every
 * mapping the allocator holds (`MapOk`).
 */
module Engine {
  import opened Sizes
  import opened Bitmap
  import opened Slabs

  /**
   * `g_alloc.pages` as the sequence of its slabs in list order, and the
   * large regions as a map from region start (where the length header is)
   * to the header value.
   */
  datatype State = State(slabs: seq<Slab>, big: map<int, int>)

  datatype MapResult = MapFailed | Mapped(base: int)

  /** The state after a call and the pointer it returns (0 for NULL). */
  datatype Outcome = Outcome(st: State, ptr: int)

  const Null: int := 0

  predicate Disjoint(a: int, alen: int, b: int, blen: int) {
    a + alen <= b || b + blen <= a
  }

  predicate RegionOk(b: int, len: int, ps: int)
    requires ps > 0
  {
    b > 0 && b % ps == 0 && len > 0 && len % ps == 0 && b + len <= Word
  }

  predicate SlabsOk(slabs: seq<Slab>, ps: int) {
    forall k :: 0 <= k < |slabs| ==> SlabOk(slabs[k], ps)
  }

  predicate PagesDisjoint(slabs: seq<Slab>, ps: int) {
    forall i, j :: 0 <= i < j < |slabs| ==> Disjoint(slabs[i].base, ps, slabs[j].base, ps)
  }

  predicate RegionsOk(big: map<int, int>, ps: int)
    requires ps > 0
  {
    forall b :: b in big ==> RegionOk(b, big[b], ps)
  }

  predicate RegionsDisjoint(big: map<int, int>) {
    forall b, c :: b in big && c in big && b != c ==> Disjoint(b, big[b], c, big[c])
  }

  predicate SlabsAvoidRegions(slabs: seq<Slab>, big: map<int, int>, ps: int) {
    forall k, b :: 0 <= k < |slabs| && b in big ==> Disjoint(slabs[k].base, ps, b, big[b])
  }

  /**
   * The invariant of the allocator: every slab is well formed with its
   * overflow bits set, every region is page aligned, and no two mappings
   * overlap.
   */
  predicate Wf(st: State, ps: int) {
    && PageSizeOk(ps)
    && SlabsOk(st.slabs, ps)
    && PagesDisjoint(st.slabs, ps)
    && RegionsOk(st.big, ps)
    && RegionsDisjoint(st.big)
    && SlabsAvoidRegions(st.slabs, st.big, ps)
  }

  /** What the oracle promises for a mapping of `len` bytes: a fresh, aligned, disjoint base. */
  predicate MapOk(st: State, os: MapResult, len: int, ps: int) {
    os.Mapped? ==>
      && ps > 0 && os.base > 0 && os.base % ps == 0 && len > 0 && os.base + len <= Word
      && (forall k :: 0 <= k < |st.slabs| ==> Disjoint(st.slabs[k].base, ps, os.base, len))
      && (forall b :: b in st.big ==> Disjoint(b, st.big[b], os.base, len))
  }

  /** The length `my_malloc` asks `mmap` for: a rounded region on the large path, one page otherwise. */
  function MapLength(size: int, ps: int): int
    requires IsWord(size) && ps > 0
  {
    if size > SmallLimit then AlignUp(size, ps) else ps
  }

  /** `alloc_big`: map the rounded length, store it in the header word and return the address after it. */
  function AllocBigSpec(st: State, ps: int, size: int, os: MapResult): Outcome
    requires IsWord(size) && ps > 0
  {
    match os
    case MapFailed => Outcome(st, Null)
    case Mapped(base) => Outcome(st.(big := st.big[base := AlignUp(size, ps)]), base + MetaSize)
  }

  /** `new_page` after a successful `mmap`: the new slab becomes the head of the list. */
  function NewPageSpec(st: State, ps: int, bs: int, base: int): State
    requires PageSizeOk(ps) && IsClass(bs)
  {
    st.(slabs := [NewSlab(base, bs, ps)] + st.slabs)
  }

  /** The claim loop and the address computation of `my_malloc` on slab `k`. */
  function ClaimSpec(st: State, k: nat): Outcome
    requires k < |st.slabs| && st.slabs[k].cap <= 64
  {
    var s := st.slabs[k];
    var bit := LowestClear(s.bitmap, s.cap);
    var s' := if bit < s.cap then s.(bitmap := SetBit(s.bitmap, bit)) else s;
    Outcome(st.(slabs := st.slabs[k := s']), BlockAddress(s, bit))
  }

  /** `my_malloc(size)`; `os` is what `mmap` returns if the call maps memory. */
  function MallocSpec(st: State, ps: int, size: int, os: MapResult): Outcome
    requires Wf(st, ps) && IsWord(size)
  {
    if size == 0 then Outcome(st, Null)
    else if size > SmallLimit then AllocBigSpec(st, ps, size, os)
    else
      var cls := BlockClass(size);
      var k := FirstFit(st.slabs, cls);
      if k < |st.slabs| then ClaimSpec(st, k)
      else match os
        case MapFailed => Outcome(st, Null)
        case Mapped(base) => ClaimSpec(NewPageSpec(st, ps, cls, base), 0)
  }

  /** The word `*((size_t *)ptr - 1)`: the header of the region starting there, 0 when there is none. */
  function HeaderWord(st: State, ptr: int): int {
    if ptr - MetaSize in st.big then st.big[ptr - MetaSize] else 0
  }

  /** The word `my_free` leaves in slab `s` for `ptr`: bit FreeBit cleared when it is below 64. */
  function ReleasedWord(s: Slab, ptr: int): Word64
    requires s.blockSize > 0
  {
    var bit := FreeBit(s, ptr);
    if bit < 64 then ClearBit(s.bitmap, bit) else s.bitmap
  }

  /** `my_free(ptr)`. */
  function FreeSpec(st: State, ps: int, ptr: int): State
    requires Wf(st, ps)
  {
    if ptr == Null then st
    else
      var k := FirstCovering(st.slabs, ptr, 0);
      if k < |st.slabs| then
        var s := st.slabs[k];
        var b := ReleasedWord(s, ptr);
        if b == Zero then st.(slabs := st.slabs[..k] + st.slabs[k + 1..])
        else st.(slabs := st.slabs[k := s.(bitmap := b)])
      else if HeaderWord(st, ptr) == 0 then st
      else st.(big := st.big - {ptr - MetaSize})
  }

  /** `get_allocation_size_internal(ptr)`. */
  function UsableSize(st: State, ptr: int): int
    requires forall k :: 0 <= k < |st.slabs| ==> st.slabs[k].blockSize > 0
  {
    if ptr == Null then 0
    else
      var k := FirstCovering(st.slabs, ptr, HeaderSize);
      if k < |st.slabs| then st.slabs[k].blockSize
      else
        var h := HeaderWord(st, ptr);
        if h != 0 then Wrap(h - MetaSize) else 0
  }

  // ---------------------------------------------------------------------
  // The invariant is preserved.

  /** Two slab lists with the same pages, classes and capacities. */
  predicate SameLayout(a: seq<Slab>, b: seq<Slab>) {
    |a| == |b| &&
    forall i :: 0 <= i < |a| ==> a[i].base == b[i].base && a[i].blockSize == b[i].blockSize && a[i].cap == b[i].cap
  }

  lemma LayoutKeepsWf(st: State, slabs: seq<Slab>, ps: int)
    requires Wf(st, ps) && SameLayout(st.slabs, slabs)
    requires forall k :: 0 <= k < |slabs| ==> OverflowSet(slabs[k].bitmap, slabs[k].cap)
    ensures Wf(st.(slabs := slabs), ps)
  {
    assert forall k :: 0 <= k < |slabs| ==> SlabOk(st.slabs[k], ps);
  }

  lemma ClaimKeepsWf(st: State, ps: int, k: nat)
    requires Wf(st, ps) && k < |st.slabs|
    ensures Wf(ClaimSpec(st, k).st, ps)
  {
    var s := st.slabs[k];
    var bit := LowestClear(s.bitmap, s.cap);
    var slabs := ClaimSpec(st, k).st.slabs;
    assert SlabOk(s, ps);
    assert OverflowSet(slabs[k].bitmap, s.cap);
    LayoutKeepsWf(st, slabs, ps);
  }

  lemma NewPageKeepsWf(st: State, ps: int, bs: int, os: MapResult)
    requires Wf(st, ps) && IsClass(bs) && os.Mapped? && MapOk(st, os, ps, ps)
    ensures Wf(NewPageSpec(st, ps, bs, os.base), ps)
  {
    NewSlabOk(os.base, bs, ps);
    var st' := NewPageSpec(st, ps, bs, os.base);
    assert forall k :: 1 <= k < |st'.slabs| ==> st'.slabs[k] == st.slabs[k - 1];
  }

  lemma AllocBigKeepsWf(st: State, ps: int, size: int, os: MapResult)
    requires Wf(st, ps) && IsWord(size) && MapOk(st, os, AlignUp(size, ps), ps)
    ensures Wf(AllocBigSpec(st, ps, size, os).st, ps)
  {
    if os.Mapped? {
      var len := AlignUp(size, ps);
      var big := st.big[os.base := len];
      assert os.base !in st.big;
      assert RegionsOk(big, ps);
      assert RegionsDisjoint(big);
    }
  }

  /** `my_malloc` keeps the allocator invariant, in particular the preset overflow bits. */
  lemma MallocPreservesWf(st: State, ps: int, size: int, os: MapResult)
    requires Wf(st, ps) && IsWord(size) && MapOk(st, os, MapLength(size, ps), ps)
    ensures Wf(MallocSpec(st, ps, size, os).st, ps)
  {
    if size == 0 {
    } else if size > SmallLimit {
      AllocBigKeepsWf(st, ps, size, os);
    } else {
      var cls := BlockClass(size);
      var k := FirstFit(st.slabs, cls);
      if k < |st.slabs| {
        ClaimKeepsWf(st, ps, k);
      } else if os.Mapped? {
        NewPageKeepsWf(st, ps, cls, os);
        ClaimKeepsWf(NewPageSpec(st, ps, cls, os.base), ps, 0);
      }
    }
  }

  lemma ReleaseKeepsOverflow(s: Slab, ps: int, ptr: int)
    requires SlabOk(s, ps) && Covers(s, ptr, 0)
    ensures OverflowSet(ReleasedWord(s, ptr), s.cap)
  {
    FreeBitBelowCap(s, ps, ptr);
  }

  lemma RemoveKeepsWf(st: State, ps: int, k: nat)
    requires Wf(st, ps) && k < |st.slabs|
    ensures Wf(st.(slabs := st.slabs[..k] + st.slabs[k + 1..]), ps)
  {
    var slabs := st.slabs[..k] + st.slabs[k + 1..];
    assert forall i :: 0 <= i < |slabs| ==> slabs[i] == st.slabs[if i < k then i else i + 1];
  }

  /** `my_free` keeps the allocator invariant: it never clears an overflow bit. */
  lemma FreePreservesWf(st: State, ps: int, ptr: int)
    requires Wf(st, ps)
    ensures Wf(FreeSpec(st, ps, ptr), ps)
  {
    if ptr != Null {
      var k := FirstCovering(st.slabs, ptr, 0);
      if k < |st.slabs| {
        var s := st.slabs[k];
        var b := ReleasedWord(s, ptr);
        if b == Zero {
          RemoveKeepsWf(st, ps, k);
        } else {
          ReleaseKeepsOverflow(s, ps, ptr);
          LayoutKeepsWf(st, st.slabs[k := s.(bitmap := b)], ps);
        }
      }
    }
  }
}
