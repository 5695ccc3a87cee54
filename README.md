# A Dafny model of the slab `malloc` engine

This project models the allocation engine of a user-space `malloc`
replacement. The engine has two paths:

- **Small requests** (1 to 1024 bytes) go to a size class of 64, 128, 256,
  512 or 1024 bytes. Each class is served from page-sized slabs. A slab
  carries a 32-byte header (`block_size`, `blocks_per_page`, a 64-bit
  occupancy `bitmap`, `next`) and sits on one process-wide list,
  `g_alloc.pages`.
- **Large requests** get a mapping of their own. The mapping starts with an
  8-byte length header, and the caller receives the address just after it.

On top of the engine sit the four exported entry points: `malloc`, `free`,
`calloc` and `realloc`. The model includes them and the usable-size query
that `realloc` relies on.

## Modules

- **Sizes** (`sizes.dfy`): `next_pow2`, the class clamp, the page-size
  fallback, `alloc_big`'s rounding and a slab's capacity.
- **Bitmap** (`bitmap.dfy`): the 64-bit occupancy word.
  - It is modelled as a sequence of 64 booleans, bit *i* at index *i*.
  - It covers the preset loop of `new_page`, the search of the claim loop
    and the bit clear of `my_free`.
- **Slabs** (`slabs.dfy`): the slab record and everything computed from one
  slab.
  - The first-fit scan of `my_malloc` and the owner scans of `my_free` and
    the size query.
  - The block-address formula of `my_malloc` and the bit index `my_free`
    computes, with lemmas that show how the two relate.
- **Engine** (`engine.dfy`): the whole allocator state as a value, with
  each entry point as a function from one state to the next.
  - The state is the slab list plus a map from large-region start to
    header word.
  - The functions are `MallocSpec`, `FreeSpec` and `UsableSize`.
  - The allocator invariant `Wf`, and lemmas that `my_malloc` and `my_free`
    keep it.
- **Properties** (`properties.dfy`): what the entry points do, over every
  state that satisfies the invariant.
- **Memory** (`memory.dfy`): the bytes that `calloc`'s `memset` and
  `realloc`'s `memcpy` write.
- **Heap** (`heap.dfy`): class `Allocator`, with the list, the regions and
  the bytes as fields.
  - `new_page`, `alloc_big`, `my_malloc` and `my_free` are methods with the
    source's loops (the XOR preset loop, the first-fit scan, the claim loop
    and the owner scan).
  - Each method is proved to leave exactly the state the matching Engine
    function gives, and to keep the invariant.
- **Facade** (`facade.dfy`): `malloc`, `free`, `calloc` and `realloc` as
  methods over an `Allocator`.

## Operating-system calls

- **`mmap`**: a call that may map memory takes a parameter
  `os: MapResult`, which is either `MapFailed` or `Mapped(base)`. The
  precondition `MapOk` constrains it: the base is page aligned, below 2^64,
  and disjoint from every slab page and region.
- **`munmap`**: it drops the slab from the list, or the region from the map.
- **`sysconf(_SC_PAGESIZE)`**: its result goes through `PageSize`, including
  the 4096 fallback, when the `Allocator` is constructed. The model admits
  page sizes that are powers of two from 4 KiB to 4 GiB, and takes
  `sysconf` to report one of them, or 0 or less.

## Where the code contradicts itself

The model follows the code, with the exceptions listed under "Left out".
Three of them bear on the statements below:

- the three bit shifts get 64-bit semantics, which matters only for slabs
  with more than 31 blocks (on 4 KiB pages, class 64 alone);
- the word before a pointer that is not a large-region start reads 0
  (`Engine.HeaderWord`);
- the byte map is writable at every address (`Facade.Calloc`,
  `Facade.Realloc`).

The model proves the following as lemmas, where the code disagrees with
its own other parts, with its tests, or with the C standard's contract
for `free`:

- **Where small blocks land.** `my_free` computes a block's bit as
  `(ptr - (page + 1)) / block_size` (malloc/src/my_free.c:28-29). The size
  query's range also starts at `page + 1` (malloc/src/malloc.c:41-42). Both
  assume that block *i* starts at `page + 32 + i * block_size`. `my_malloc`
  instead returns
  `page + 4096 - (blocks_per_page + 1 - bit) * (block_size / 8)`
  (malloc/src/my_malloc.c:107-110; `Slabs.BlockAddressOn4K`,
  `Slabs.BlockStride`).
  - On 4 KiB pages every block starts in the last 512 bytes of its page.
  - Neighbouring blocks overlap.
  - On 4 KiB pages the last blocks of every class end past the page end:
    class-64 bits 57 to 62, class-128 bits 25 to 30, class-256 bits 9 to
    14, class-512 bits 1 to 6, and every class-1024 block
    (`Slabs.PastPageEndOn4K`).
  - On 64 KiB pages the first class-1024 block starts 4096 bytes before
    its page (`Slabs.Class1024BeforePage`).
- **16-byte alignment.** The alignment test at
  malloc/tests/test_extensive.c:150-155 expects every `malloc(64)` result
  to be a multiple of 16. Half of the class-64 blocks are at 8 mod 16:
  the odd bits on 4 KiB pages (`Slabs.OddBitsMisaligned`), and the even
  bits, bit 0 included, on every larger page size
  (`Slabs.EvenBitsMisalignedOnLargerPages`). Every large region's pointer
  is at 8 mod 16 as well (`Properties.RegionPointerMisaligned`).
- **Freeing a small block.** Under the C standard (section 7.22.3.3 of
  ISO/IEC 9899:2011), `free` makes the block available for allocation
  again. On 4 KiB pages, `my_free` clears a different bit, or none at all
  (`Slabs.FirstBlockFreesBit55`, `Properties.FreeBitAboveClaimedBitOn4K`,
  `Properties.SmallRoundTripLeaks`).
  - For a block its range misses, `my_free` falls through to the
    large-region path (malloc/src/my_free.c:53-59). On 4 KiB pages these
    are class-64 bits 56 to 62, class-128 bits 24 to 30, class-256 bits 8
    to 14, and every class-512 and class-1024 block (`Slabs.CoverageOn4K`).
  - That path reads the 8 bytes before the block as a length. For every
    block but the first, those bytes lie inside the previous block
    (`Slabs.HeaderWordInPreviousBlock`), so they are user data.
  - When that word is non-zero, the source calls `munmap(ptr - 8, word)`.
    On 4 KiB pages `ptr - 8` is never page aligned
    (`Slabs.HeaderWordNotPageAlignedOn4K`). `munmap` refuses an address
    that is not page aligned (EINVAL on Linux), so the call unmaps
    nothing. The model's "nothing changes" (it reads the word as 0) is
    therefore what the source does too.
- **Unmapping empty slabs.** `my_free` has a branch that unlinks and unmaps
  a slab whose word becomes 0 (malloc/src/my_free.c:34-46). The preset
  overflow bits keep the word non-zero unless the capacity is 64, so on
  4 KiB pages that branch is never taken (`Properties.SlabsNeverUnmappedOn4K`).
  - For classes 128 to 1024 (capacity 31 or less) this holds of the code
    as written.
  - For class 64 (capacity 63) it holds under the 64-bit reading of the
    shifts. As written, the preset and claim loops shift an `int` by 31 to
    62, which the C standard leaves undefined.
- **Usable size of a large allocation.** `realloc` trusts the size query
  (malloc/src/malloc.c:69-71). For a request that is a page multiple, the
  query reports 8 bytes less than was requested (`Properties.LargeMalloc`).

## Model

| member | source | states |
|---|---|---|
| Sizes.PageSize | malloc/src/my_malloc.c:24-26 | when `sysconf` reports an admitted page size or 0 or less, the page size in use is admitted (a power of two from 4 KiB to 4 GiB), and a positive report is used unchanged |
| Sizes.NextPow2 | malloc/src/my_malloc.c:5-20 | computes `next_pow2`: 16 up to 16, n itself above 2048, and otherwise n - 1 with every lower bit smeared in by the shift-or cascade, plus one |
| Sizes.NextPow2Spec | malloc/src/my_malloc.c:5-20 | `next_pow2(n)` is 16 for n <= 16 and n for n > 2048; otherwise it is a power of two with n <= r < 2n, one of 32 .. 2048 |
| Sizes.BlockClass | malloc/src/my_malloc.c:74-76 | the class of a request of 1..1024 bytes is one of 64, 128, 256, 512, 1024, holds the request, and is the least class that does |
| Sizes.AlignUp | malloc/src/my_malloc.c:54 | `alloc_big`'s rounding, with the sum wrapping as a `size_t`, is a multiple of the page size that fits in a `size_t` |
| Sizes.AlignUpSpec | malloc/src/my_malloc.c:54 | without wrap-around, `alloc_big` records the least page multiple >= size |
| Sizes.AlignUpIgnoresHeader | malloc/src/my_malloc.c:54-63 | a page-multiple request maps exactly that many bytes, so the usable bytes after the 8-byte header fall below the request |
| Sizes.AlignUpWraps | malloc/src/my_malloc.c:54 | for every admitted page size, a request within one page of 2^64 rounds, through `size_t` wrap-around, to a length of 0 |
| Sizes.Capacity | malloc/src/my_malloc.c:35-38 | computes `blocks_per_page`: (page size - 32) / block size, capped at 64 |
| Sizes.CapacityFits | malloc/src/my_malloc.c:35-38 | every slab holds 1 to 64 blocks, and that many blocks after the 32-byte header fit in the page |
| Sizes.CapacityOn4K | malloc/src/my_malloc.c:35-38 | on 4 KiB pages the classes hold 63, 31, 15, 7 and 3 blocks |
| Bitmap.PresetBits | malloc/src/my_malloc.c:39-41 | after the XOR loop exactly the bits at index >= capacity are set |
| Bitmap.LowestClear | malloc/src/my_malloc.c:99-106 | the claim loop stops at a clear bit below capacity with every lower bit set, or at capacity when there is none |
| Bitmap.ClearBitBelowCap | malloc/src/my_malloc.c:83 | with the overflow bits set, `bitmap != UINT64_MAX` holds exactly when the claim loop finds a bit below capacity |
| Bitmap.EmptyNeedsFullCapacity | malloc/src/my_free.c:34 | with the overflow bits set, the word can be 0 only when the capacity is 64 |
| Slabs.NewSlab | malloc/src/my_malloc.c:33-41 | a fresh header has the class, a capacity of 1..64 that fits in the page, and exactly the bits at index >= capacity set |
| Slabs.NewSlabOk | malloc/src/my_malloc.c:33-41 | a fresh header satisfies the slab invariant and its bit 0 is free |
| Slabs.FirstFit | malloc/src/my_malloc.c:80-86 | the scan stops at the first slab in list order with the class and a word that is not all ones, or runs off the list |
| Slabs.FirstCovering | malloc/src/my_free.c:13-24 | the owner scan stops at the first slab whose range holds the pointer, or runs off the list |
| Slabs.BlockAddress | malloc/src/my_malloc.c:107-110 | computes the pointer `my_malloc` returns for a bit: page + 4096 - (capacity + 1 - bit) * (block_size / 8) |
| Slabs.FreeBit | malloc/src/my_free.c:28-29 | computes the index `my_free` clears: the pointer minus (page + 32), as a `size_t`, divided by the block size |
| Slabs.BlockStride | malloc/src/my_malloc.c:107-110 | consecutive bits are block_size/8 bytes apart, which is less than a block, so neighbouring blocks overlap |
| Slabs.BlockAddressIncreasing | malloc/src/my_malloc.c:107-110 | the block address grows strictly with the bit, so distinct bits give distinct pointers |
| Slabs.BlockAddressInRange | malloc/src/my_malloc.c:107-110 | every block address is a non-null address below 2^64 |
| Slabs.BlockAddressOn4K | malloc/src/my_malloc.c:107-110 | on 4 KiB pages block `bit` is at page + 3584 + bit * (block_size/8), inside the page's last 512 bytes |
| Slabs.OddBitsMisaligned | malloc/src/my_malloc.c:107-110 | in class 64 on 4 KiB pages every odd bit's block is at 8 mod 16 |
| Slabs.EvenBitsMisalignedOnLargerPages | malloc/src/my_malloc.c:107-110 | on every page size above 4 KiB class 64 has 64 blocks, even bits are at 8 mod 16 and odd bits are 16-byte aligned |
| Slabs.HeaderWordInPreviousBlock | malloc/src/my_free.c:53-54 | the 8 bytes before any block but the first lie inside the previous block |
| Slabs.PastPageEndOn4K | malloc/src/my_malloc.c:107-110 | on 4 KiB pages a block ends past its page exactly when its bit is at least 57, 25, 9, 1 or 0 for the classes 64 .. 1024 |
| Slabs.HeaderWordNotPageAlignedOn4K | malloc/src/my_free.c:53-59 | on 4 KiB pages the address `ptr - 8` that the header path passes to `munmap` for a block is never page aligned |
| Slabs.Class1024BeforePage | malloc/src/my_malloc.c:109-110 | on 64 KiB pages the first class-1024 block starts 4096 bytes before its page |
| Slabs.LastBlockFreesOwnBitOn64K | malloc/src/my_free.c:28-29 | on 64 KiB pages class 64 has 64 blocks, and freeing the pointer of bit 63 (page + 4080) clears bit 63 itself |
| Slabs.CoverageOn4K | malloc/src/my_free.c:15-19 | on 4 KiB pages the free range reaches the first 56/24/8/0/0 blocks of each class and the size range the first 60/26/9/1/0 |
| Slabs.FreeBitBelowCap | malloc/src/my_free.c:28-32 | for a pointer in a slab's free range, the index is >= 64 when the pointer is in the header, and below capacity otherwise |
| Slabs.FirstBlockFreesBit55 | malloc/src/my_free.c:28-29 | class 64, bit 0 is returned at page + 3584, and freeing that pointer clears bit 55 |
| Engine.AllocBigSpec | malloc/src/my_malloc.c:54-63 | computes `alloc_big` on a state: NULL with the state unchanged when `mmap` fails, otherwise the region recorded with the rounded length and region + 8 returned |
| Engine.NewPageSpec | malloc/src/my_malloc.c:42-43 | computes `new_page`'s push: the fresh slab for the class becomes the list head, with the old list behind it |
| Engine.ClaimSpec | malloc/src/my_malloc.c:98-110 | computes the claim in slab k: the lowest clear bit below capacity is set (nothing when there is none) and the address for the bit where the loop stopped is returned |
| Engine.MallocSpec | malloc/src/my_malloc.c:66-116 | computes `my_malloc` on a state: NULL for 0 bytes, `alloc_big` above 1024, otherwise the claim in the first fitting slab or, after a successful `mmap`, in a new head slab; NULL with the state unchanged when that `mmap` fails |
| Engine.HeaderWord | malloc/src/my_free.c:53-54 | computes the word before a pointer: the recorded length when a large region starts 8 bytes before it, 0 otherwise |
| Engine.ReleasedWord | malloc/src/my_free.c:28-32 | computes the word `my_free` leaves in the owner: the bit `FreeBit` gives is cleared when it is below 64, and the word is unchanged otherwise |
| Engine.FreeSpec | malloc/src/my_free.c:3-60 | computes `my_free` on a state: NULL and a zero header change nothing; the owner's word loses the computed bit when it is below 64, and the owner is unlinked when its word becomes 0; a region whose header is non-zero is removed |
| Engine.UsableSize | malloc/src/malloc.c:31-56 | computes the size query: 0 for NULL, the class of the first slab whose range [page + 32, page + 32 + bs * cap) holds the pointer, otherwise the header minus 8, or 0 for a zero header |
| Engine.ClaimKeepsWf | malloc/src/my_malloc.c:98-106 | setting the claimed bit keeps the allocator invariant |
| Engine.NewPageKeepsWf | malloc/src/my_malloc.c:33-43 | prepending a fresh slab on a fresh page keeps the allocator invariant |
| Engine.AllocBigKeepsWf | malloc/src/my_malloc.c:54-63 | recording a fresh large region keeps the allocator invariant |
| Engine.MallocPreservesWf | malloc/src/my_malloc.c:66-116 | `my_malloc` keeps the allocator invariant, including the preset overflow bits |
| Engine.FreePreservesWf | malloc/src/my_free.c:3-60 | `my_free` keeps the allocator invariant; it never clears an overflow bit |
| Properties.MallocClaimsLowestFree | malloc/src/my_malloc.c:80-110 | with a usable slab, `my_malloc` takes the first one, sets its lowest clear bit (below capacity) and no other bit, changes no other slab or region, and returns that block's address |
| Properties.MallocOnNewPage | malloc/src/my_malloc.c:88-110 | with no usable slab and a successful `mmap`, the new slab heads the list with the old list behind it, bit 0 is claimed, and its address is returned |
| Properties.MallocNull | malloc/src/my_malloc.c:66-95 | `my_malloc` returns NULL exactly for size 0 or a failed `mmap` that was needed, and then the state is unchanged |
| Properties.SmallBlockNotNull | malloc/src/my_malloc.c:98-115 | a small request that finds or creates a slab never returns NULL |
| Properties.NullLeavesState | malloc/src/my_malloc.c:88-95 | whenever `my_malloc` returns NULL the allocator state is unchanged |
| Properties.LargeMalloc | malloc/src/my_malloc.c:48-72 | a request above 1024 bytes leaves the slab list alone, records the rounded length for a fresh region, returns region + 8, and the size query then reports length - 8 |
| Properties.LargeRoundTrip | malloc/src/my_free.c:53-60 | freeing the pointer of a large allocation restores the state before it |
| Properties.RegionNotCovered | malloc/src/my_free.c:13-24 | no slab range reaches into a large region |
| Properties.RegionPointer | malloc/src/malloc.c:54-55 | for a region's pointer, the size query reports header - 8 and `my_free` removes exactly that region |
| Properties.RegionPointerMisaligned | malloc/src/my_malloc.c:61-63 | the pointer of a large region is at 8 mod 16 |
| Properties.OwnPageOnly | malloc/src/my_free.c:13-24 | a pointer inside slab k's page is owned by slab k or by no slab, and no region header precedes it |
| Properties.FreeSlabPath | malloc/src/my_free.c:26-46 | on the slab path only the computed bit is cleared (none for a pointer in the header), regions are kept, and the slab is unlinked, with the rest in order, exactly when its word becomes 0, which needs capacity 64 |
| Properties.SlabsNeverUnmappedOn4K | malloc/src/my_free.c:34-46 | with 4 KiB pages `my_free` never removes a slab |
| Properties.FreeOfBlockOn4K | malloc/src/my_free.c:13-32 | freeing block `bit` on 4 KiB pages clears one bit below capacity in its slab when the free range reaches the block, and otherwise changes nothing |
| Properties.FreeBitAboveClaimedBitOn4K | malloc/src/my_free.c:28-29 | on 4 KiB pages, the bit `my_free` clears for a block it reaches is above that block's own bit |
| Properties.ClaimThenFreeKeepsBitOn4K | malloc/src/my_free.c:28-32 | on 4 KiB pages, after claiming a block, freeing its pointer leaves the claimed bit set |
| Properties.SmallRoundTripLeaks | malloc/src/my_free.c:26-46 | on 4 KiB pages, freeing what a small `my_malloc` returned never restores the state before it |
| Properties.UsableSizeOfBlockOn4K | malloc/src/malloc.c:31-56 | the size query for block `bit` reports the class when the size range reaches it, and 0 otherwise |
| Memory.Fill | malloc/src/malloc.c:27 | after `memset(p, 0, n)` the n bytes from p read 0 and every other byte is unchanged |
| Memory.Copy | malloc/src/malloc.c:78 | after `memcpy(dst, src, n)` the n bytes from dst read as the bytes from src did, and every other byte is unchanged |
| Heap.Allocator.constructor | malloc/src/my_malloc.c:3 | the allocator starts with an empty list, no regions and the page size `sysconf` gives (4096 for a report of 0 or less), and satisfies the invariant |
| Heap.Allocator.NewPage | malloc/src/my_malloc.c:22-46 | on a failed `mmap` nothing changes; otherwise the XOR loop's header becomes the list head, with the invariant kept |
| Heap.Allocator.AllocBig | malloc/src/my_malloc.c:48-64 | the region's rounded length is recorded and region + 8 returned, or NULL with nothing changed |
| Heap.Allocator.FindFit | malloc/src/my_malloc.c:80-86 | the scan loop returns the first-fit index |
| Heap.Allocator.Claim | malloc/src/my_malloc.c:98-112 | the claim loop sets the lowest clear bit below capacity and returns the block address |
| Heap.Allocator.MyMalloc | malloc/src/my_malloc.c:66-116 | `my_malloc` leaves exactly the state and pointer `MallocSpec` gives, and keeps the invariant |
| Heap.Allocator.FindOwner | malloc/src/my_free.c:10-24 | the owner loop returns the first slab whose range holds the pointer |
| Heap.Allocator.Release | malloc/src/my_free.c:26-46 | the slab path clears the computed bit when it is below 64 and unlinks the slab through `prev` or the head when the word becomes 0, leaving exactly the state `FreeSpec` gives |
| Heap.Allocator.MyFree | malloc/src/my_free.c:3-60 | `my_free` leaves exactly the state `FreeSpec` gives (NULL ignored, slab path, or header path releasing a region whose header is non-zero), and keeps the invariant |
| Facade.Malloc | malloc/src/malloc.c:3-8 | `malloc(0)` is NULL; any other size is `my_malloc` |
| Facade.Free | malloc/src/malloc.c:10-15 | `free(NULL)` changes nothing; any other pointer is `my_free` |
| Facade.Calloc | malloc/src/malloc.c:17-29 | a product that overflows `size_t`, or is 0, gives NULL; otherwise the result is `my_malloc`'s, and on success the `total` bytes from the pointer are 0 |
| Facade.Realloc | malloc/src/malloc.c:58-82 | NULL is `malloc(n)`; size 0 frees p and gives NULL; a usable size >= n gives p back with nothing changed; a failed allocation gives NULL with state and bytes unchanged; otherwise exactly the old usable size's bytes are copied from p and p is freed |

## Left out

- Locking: the mutex calls only serialise threads. Every operation is one
  atomic step on the allocator.
- `mmap`, `munmap` and `sysconf` are not modelled as calls; they are
  replaced as described under "Operating-system calls".
  - `sysconf` is read once, when the allocator is built. The source reads
    it on every call, which gives the same value in one process.
  - `my_free` unmaps one page for a removed slab. That is modelled by
    dropping the slab, not by tracking pages.
- Bit operations:
  - The claim and preset loops shift an `int` (`1 << bit` at
    malloc/src/my_malloc.c:41 and :101), which is undefined for bit 31
    and above. The model gives all three shifts 64-bit semantics, like
    `1ULL << bit` in `my_free`.
  - This reading matters only for slabs with a capacity above 31: class
    64 on every admitted page size, class 128 from 8 KiB pages, class 256
    from 16 KiB, class 512 from 32 KiB and class 1024 from 64 KiB. On 4 KiB
    pages, classes 128 to 1024 (capacity 31 or less) are modelled as
    written.
    `Bitmap.PresetBits`, `Bitmap.LowestClear`,
    `Properties.SlabsNeverUnmappedOn4K` and everything built on them hold
    for class 64 only under this reading.
  - The occupancy word is a sequence of 64 booleans, not a machine word.
- Sizes.AlignUp: the mask `& ~(pagesize - 1)` is modelled as subtracting
  the remainder modulo the page size. The two agree for the power-of-two
  page sizes the model admits.
- Engine.HeaderWord: the word before a pointer that is not a large-region
  start reads 0. In the source it is whatever is in memory there. Besides
  stray pointers, this is the path of valid small blocks that the
  ownership ranges miss (`Slabs.CoverageOn4K`). For every such block but
  the first, the word lies inside the previous block
  (`Slabs.HeaderWordInPreviousBlock`), so it is user data.
- Properties.FreeOfBlockOn4K: for a block the free range misses, the
  model reads the word before it as 0. When that word is not 0, the
  source calls `munmap(ptr - 8, word)` (malloc/src/my_free.c:53-59). The
  address is never page aligned (`Slabs.HeaderWordNotPageAlignedOn4K`),
  so `munmap` refuses it and "nothing changes" still holds. Only the
  failed system call itself is not modelled.
- Properties.UsableSizeOfBlockOn4K: its 0 for a block the size range
  misses holds only while the 8 bytes before the block are 0. When they
  are not, the source reports that word minus 8 (malloc/src/malloc.c:54-55).
  `realloc` then uses it as the old size and copies that many bytes
  (malloc/src/malloc.c:69-78), where the model copies none.
- Facade.Calloc: the byte map treats every address as writable, so the
  model promises `total` zero bytes even where the `memset` runs outside
  the mapping. `calloc(1, 4096)` maps 4096 bytes at some b and clears
  [b + 8, b + 4104). On 4 KiB pages the last blocks of every class run
  past their page (`Slabs.PastPageEndOn4K`): class-64 bits 57 to 62,
  class-128 bits 25 to 30, class-256 bits 9 to 14, class-512 bits 1 to 6,
  and every class-1024 block. There the source faults or overwrites a
  neighbouring mapping.
- Facade.Realloc: the `memcpy` is modelled on the same writable byte map,
  so a copy that reads or writes past a mapping is recorded as an
  ordinary copy. On 4 KiB pages that is a copy from or into the tail
  blocks `Slabs.PastPageEndOn4K` lists, or a copy whose old size is a
  neighbour's data (`Properties.UsableSizeOfBlockOn4K` above).
- Memory:
  - Program bytes are a map in which unwritten addresses read 0.
  - `mmap`'s zero fill and the loss of unmapped bytes are not tracked.
  - Slab headers and region headers are not part of the byte map.
  - How overlapping blocks corrupt each other's bytes is out of scope.
- Alignment: nothing is claimed about 16-byte alignment beyond the lemmas
  showing it fails.
- Misuse: double free and freeing foreign pointers are not ruled out. The
  operations are defined for every pointer value, exactly as the code
  computes them.
- Not modelled because they are not program logic:
  - symbol visibility attributes;
  - the declared but undefined helpers in malloc/src/malloc.h:34-38;
  - the unused `ALIGNMENT` constant;
  - the test programs.
