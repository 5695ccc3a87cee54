/**
 * Size arithmetic of the allocator: machine-word constants, the power-of-two
 * rounding `next_pow2`, the small-object size classes, the page rounding of
 * the large-object path and the number of blocks a slab holds.
 * Models the pure parts of malloc/src/my_malloc.c.
 */
module Sizes {

  /** 2^64: every `size_t` value and every address lies in [0, Word). */
  const Word: int := 0x1_0000_0000_0000_0000

  /** `sizeof(struct page_header)`: four 8-byte words. */
  const HeaderSize: int := 32

  /** `sizeof(size_t)`: the length header in front of a large block. */
  const MetaSize: int := 8

  /** Requests above this many bytes take the large-object path. */
  const SmallLimit: int := 1024

  /** The page size used when `sysconf` reports none. */
  const DefaultPageSize: int := 4096

  predicate IsWord(n: int) {
    0 <= n < Word
  }

  /** Unsigned wrap-around of a `size_t` computation. */
  function Wrap(x: int): (r: int)
    ensures IsWord(r)
    ensures IsWord(x) ==> r == x
  {
    x % Word
  }

  predicate IsPow2(x: int)
    decreases if x < 0 then 0 else x
  {
    x == 1 || (x >= 2 && x % 2 == 0 && IsPow2(x / 2))
  }

  /** The page sizes the model admits: powers of two from 4 KiB to 4 GiB. */
  predicate PageSizeOk(ps: int) {
    DefaultPageSize <= ps <= 0x1_0000_0000 && IsPow2(ps)
  }

  /**
   * `sysconf(_SC_PAGESIZE)` with the fallback used when it reports <= 0.
   * Whatever the system reports, as long as it is a page size the model
   * admits, the page size in use is one too, and a positive report is
   * used unchanged.
   */
  function PageSize(sys: int): (ps: int)
    requires sys <= 0 || PageSizeOk(sys)
    ensures PageSizeOk(ps)
    ensures sys > 0 ==> ps == sys
  {
    if sys <= 0 then
      PowersOfTwo();
      assert IsPow2(DefaultPageSize);
      DefaultPageSize
    else sys
  }

  /** The five block widths of the small-object path. */
  predicate IsClass(c: int) {
    c == 64 || c == 128 || c == 256 || c == 512 || c == 1024
  }

  /** `n | n >> 1 | ... | n >> 32`: every bit below the highest set bit becomes set. */
  function Smear(m: bv64): bv64 {
    var a := m | (m >> 1);
    var b := a | (a >> 2);
    var c := b | (b >> 4);
    var d := c | (c >> 8);
    var e := d | (d >> 16);
    e | (e >> 32)
  }

  /**
   * `next_pow2`: 16 for small inputs, the input itself above 2048, else the
   * bit trick on n - 1. In that branch n - 1 < 2048, so the 64-bit word
   * holding it is the zero extension of its low 16 bits.
   */
  function NextPow2(n: int): int
    requires IsWord(n)
  {
    if n <= 16 then 16
    else if n > 2048 then n
    else (Smear(((n - 1) as bv16) as bv64) as int) + 1
  }

  /** On [p, 2p) the smear yields 2p - 1, for each power of two p the classifier meets. */
  lemma SmearPow(k: bv64, p: bv64)
    requires p == 16 || p == 32 || p == 64 || p == 128 || p == 256 || p == 512 || p == 1024
    requires p <= k < 2 * p
    ensures Smear(k) == 2 * p - 1
  {
  }

  // The smear of n - 1, one power-of-two range of n at a time: the
  // conversion of n - 1 to a 64-bit word and the smear itself are separate
  // bit-vector queries.
  lemma SmearTo32(n: int)
    requires 16 < n <= 32
    ensures Smear(((n - 1) as bv16) as bv64) as int == 31
  {
    Below32(n);
    SmearPow(((n - 1) as bv16) as bv64, 16);
  }

  lemma Below32(n: int)
    requires 16 < n <= 32
    ensures 16 <= ((n - 1) as bv16) as bv64 < 32
  {
  }

  lemma SmearTo64(n: int)
    requires 32 < n <= 64
    ensures Smear(((n - 1) as bv16) as bv64) as int == 63
  {
    Below64(n);
    SmearPow(((n - 1) as bv16) as bv64, 32);
  }

  lemma Below64(n: int)
    requires 32 < n <= 64
    ensures 32 <= ((n - 1) as bv16) as bv64 < 64
  {
  }

  lemma SmearTo128(n: int)
    requires 64 < n <= 128
    ensures Smear(((n - 1) as bv16) as bv64) as int == 127
  {
    Below128(n);
    SmearPow(((n - 1) as bv16) as bv64, 64);
  }

  lemma Below128(n: int)
    requires 64 < n <= 128
    ensures 64 <= ((n - 1) as bv16) as bv64 < 128
  {
  }

  lemma SmearTo256(n: int)
    requires 128 < n <= 256
    ensures Smear(((n - 1) as bv16) as bv64) as int == 255
  {
    Below256(n);
    SmearPow(((n - 1) as bv16) as bv64, 128);
  }

  lemma Below256(n: int)
    requires 128 < n <= 256
    ensures 128 <= ((n - 1) as bv16) as bv64 < 256
  {
  }

  lemma SmearTo512(n: int)
    requires 256 < n <= 512
    ensures Smear(((n - 1) as bv16) as bv64) as int == 511
  {
    Below512(n);
    SmearPow(((n - 1) as bv16) as bv64, 256);
  }

  lemma Below512(n: int)
    requires 256 < n <= 512
    ensures 256 <= ((n - 1) as bv16) as bv64 < 512
  {
  }

  lemma SmearTo1024(n: int)
    requires 512 < n <= 1024
    ensures Smear(((n - 1) as bv16) as bv64) as int == 1023
  {
    Below1024(n);
    SmearPow(((n - 1) as bv16) as bv64, 512);
  }

  lemma Below1024(n: int)
    requires 512 < n <= 1024
    ensures 512 <= ((n - 1) as bv16) as bv64 < 1024
  {
  }

  lemma SmearTo2048(n: int)
    requires 1024 < n <= 2048
    ensures Smear(((n - 1) as bv16) as bv64) as int == 2047
  {
    Below2048(n);
    SmearPow(((n - 1) as bv16) as bv64, 1024);
  }

  lemma Below2048(n: int)
    requires 1024 < n <= 2048
    ensures 1024 <= ((n - 1) as bv16) as bv64 < 2048
  {
  }

  lemma PowersOfTwo()
    ensures IsPow2(16) && IsPow2(32) && IsPow2(64) && IsPow2(128)
    ensures IsPow2(256) && IsPow2(512) && IsPow2(1024) && IsPow2(2048)
  {
    assert IsPow2(1);
    assert IsPow2(2);
    assert IsPow2(4);
    assert IsPow2(8);
    assert IsPow2(16);
    assert IsPow2(32);
    assert IsPow2(64);
    assert IsPow2(128);
    assert IsPow2(256);
    assert IsPow2(512);
    assert IsPow2(1024);
  }

  /** A page-aligned address is a multiple of 16, for every admitted page size. */
  lemma PageSizeMod16(b: int, ps: int)
    requires PageSizeOk(ps) && b % ps == 0
    ensures b % 16 == 0
  {
    SmallPow2(ps);
    var q := ps / 16;
    assert b == (b / ps) * q * 16;
    MultipleMod(b / ps * q, 16);
  }

  /** A power of two is 1, 2, 4 or 8, or a multiple of 16. */
  lemma {:induction false} SmallPow2(x: int)
    requires IsPow2(x)
    ensures x < 16 ==> x == 1 || x == 2 || x == 4 || x == 8
    ensures x >= 16 ==> x % 16 == 0
    decreases x
  {
    if x != 1 {
      SmallPow2(x / 2);
    }
  }

  /** No power of two lies strictly between k and 2k. */
  lemma {:induction false} Pow2Gap(x: int, k: int)
    requires IsPow2(x) && IsPow2(k) && k < x
    ensures 2 * k <= x
    decreases k
  {
    if k != 1 {
      Pow2Gap(x / 2, k / 2);
    }
  }

  /** An admitted page size above 4 KiB is at least 8 KiB. */
  lemma LargerPageSize(ps: int)
    requires PageSizeOk(ps) && ps > DefaultPageSize
    ensures ps >= 2 * DefaultPageSize
  {
    PowersOfTwo();
    assert IsPow2(DefaultPageSize);
    Pow2Gap(ps, DefaultPageSize);
  }

  /**
   * `next_pow2(n)` is 16 up to 16, `n` itself above 2048 and otherwise the
   * least power of two that is at least `n`.
   */
  lemma NextPow2Spec(n: int)
    requires IsWord(n)
    ensures n <= 16 ==> NextPow2(n) == 16
    ensures n > 2048 ==> NextPow2(n) == n
    ensures 16 < n <= 2048 ==> IsPow2(NextPow2(n)) && n <= NextPow2(n) < 2 * n
    ensures 16 < n <= 2048 ==> NextPow2(n) in {32, 64, 128, 256, 512, 1024, 2048}
  {
    if 16 < n <= 2048 {
      PowersOfTwo();
      if n <= 32 {
        SmearTo32(n);
      } else if n <= 64 {
        SmearTo64(n);
      } else if n <= 128 {
        SmearTo128(n);
      } else if n <= 256 {
        SmearTo256(n);
      } else if n <= 512 {
        SmearTo512(n);
      } else if n <= 1024 {
        SmearTo1024(n);
      } else {
        SmearTo2048(n);
      }
    }
  }

  /**
   * The class of a small request: `next_pow2(size)` raised to at least 64.
   * It is the least class that holds `size`.
   */
  function BlockClass(size: int): (c: int)
    requires 1 <= size <= SmallLimit
    ensures IsClass(c) && size <= c
    ensures forall d :: IsClass(d) && size <= d ==> c <= d
  {
    NextPow2Spec(size);
    var b := NextPow2(size);
    if b < 64 then 64 else b
  }

  /**
   * `alloc_big`'s rounding `(size + pagesize - 1) & ~(pagesize - 1)`. The sum
   * wraps as a `size_t`; for a power-of-two page size clearing the low bits
   * is subtracting the remainder.
   */
  function AlignUp(size: int, ps: int): (r: int)
    requires IsWord(size) && ps > 0
    ensures IsWord(r) && r % ps == 0
  {
    var x := Wrap(size + ps - 1);
    RoundDown(x, ps);
    x - x % ps
  }

  /** Clearing the remainder of a word leaves a multiple of the divisor within the word. */
  lemma RoundDown(x: int, ps: int)
    requires IsWord(x) && ps > 0
    ensures IsWord(x - x % ps) && (x - x % ps) % ps == 0
  {
    var q := x / ps;
    assert x - x % ps == q * ps;
    MultipleMod(q, ps);
  }

  /** Without wrap-around the header records the least page multiple >= size. */
  lemma AlignUpSpec(size: int, ps: int)
    requires IsWord(size) && ps > 0 && size + ps - 1 < Word
    ensures AlignUp(size, ps) % ps == 0
    ensures size <= AlignUp(size, ps) < size + ps
    ensures IsWord(AlignUp(size, ps))
  {
    var x := size + ps - 1;
    assert Wrap(x) == x;
    var r := x - x % ps;
    assert r == (x / ps) * ps;
    assert r % ps == 0 by {
      MultipleMod(x / ps, ps);
    }
  }

  lemma MulAtLeast(x: int, ps: int)
    requires x >= 1 && ps > 0
    ensures x * ps >= ps
  {
  }

  lemma MultipleMod(q: int, ps: int)
    requires ps > 0
    ensures (q * ps) % ps == 0
  {
    var a := q * ps;
    var m, d := a % ps, a / ps;
    assert a == d * ps + m;
    assert (q - d) * ps == m;
    if q - d >= 1 {
      MulAtLeast(q - d, ps);
    } else if q - d <= -1 {
      MulAtLeast(d - q, ps);
    }
  }

  /**
   * The header bytes are not added to the request: a size that is already a
   * page multiple gets exactly that many bytes mapped, so 8 fewer are usable.
   */
  lemma AlignUpIgnoresHeader(size: int, ps: int)
    requires IsWord(size) && ps > 0 && size + ps - 1 < Word
    requires size > 0 && size % ps == 0
    ensures AlignUp(size, ps) == size
    ensures AlignUp(size, ps) - MetaSize < size
  {
    AlignUpSpec(size, ps);
    var r := AlignUp(size, ps);
    ModDiff(r, size, ps);
    SmallMod(r - size, ps);
  }

  lemma SmallMod(d: int, ps: int)
    requires 0 <= d < ps
    ensures d % ps == d
  {
  }

  lemma ModDiff(a: int, b: int, ps: int)
    requires ps > 0 && a % ps == 0 && b % ps == 0 && a >= b
    ensures (a - b) % ps == 0
  {
    var qa, qb := a / ps, b / ps;
    assert a == qa * ps && b == qb * ps;
    assert a - b == (qa - qb) * ps;
    MultipleMod(qa - qb, ps);
  }

  /** A request within one page of the top of the address space wraps to 0 bytes, whatever the page size. */
  lemma AlignUpWraps(size: int, ps: int)
    requires PageSizeOk(ps) && Word - ps < size < Word
    ensures AlignUp(size, ps) == 0
  {
    var x := Wrap(size + ps - 1);
    assert x == size + ps - 1 - Word;
    assert 0 <= x < ps;
    SmallMod(x, ps);
  }

  /** `new_page`'s `(pagesize - sizeof(struct page_header)) / block_size`, capped at 64. */
  function Capacity(ps: int, bs: int): int
    requires ps >= HeaderSize && bs > 0
  {
    var c := (ps - HeaderSize) / bs;
    if c > 64 then 64 else c
  }

  /**
   * Every slab holds between 1 and 64 blocks, and that many blocks after the
   * header fit in the page.
   */
  lemma CapacityFits(ps: int, bs: int)
    requires PageSizeOk(ps) && IsClass(bs)
    ensures 1 <= Capacity(ps, bs) <= 64
    ensures HeaderSize + bs * Capacity(ps, bs) <= ps
  {
    var c := (ps - HeaderSize) / bs;
    QuotientBounds(ps - HeaderSize, bs);
    var cap := Capacity(ps, bs);
    MulMono(cap, c, bs);
  }

  lemma QuotientBounds(a: int, b: int)
    requires 0 < b <= a
    ensures (a / b) * b <= a && a / b >= 1
  {
  }

  lemma MulMono(x: int, y: int, b: int)
    requires 0 <= x <= y && b > 0
    ensures b * x <= b * y
  {
  }

  /** On 4 KiB pages the classes 64..1024 hold 63, 31, 15, 7 and 3 blocks. */
  lemma CapacityOn4K()
    ensures Capacity(4096, 64) == 63 && Capacity(4096, 128) == 31
    ensures Capacity(4096, 256) == 15 && Capacity(4096, 512) == 7
    ensures Capacity(4096, 1024) == 3
  {
  }
}
