/**
 * The four exported entry points of malloc/src/malloc.c over one
 * allocator: `malloc`, `free`, `calloc` and `realloc`. The `mmap` a call
 * may make is the parameter `os`.
 */
module Facade {
  import opened Sizes
  import opened Engine
  import opened Memory
  import opened Heap
  import Properties

  /** `malloc(size)`: 0 bytes give NULL, anything else is `my_malloc`. */
  method Malloc(a: Allocator, size: int, os: MapResult) returns (p: int)
    requires a.Valid() && IsWord(size)
    requires MapOk(a.Current(), os, MapLength(size, a.pageSize), a.pageSize)
    modifies a
    ensures a.Valid() && a.mem == old(a.mem)
    ensures Outcome(a.Current(), p) == MallocSpec(old(a.Current()), a.pageSize, size, os)
  {
    if size == 0 {
      return Null;
    }
    p := a.MyMalloc(size, os);
  }

  /** `free(ptr)`: NULL is ignored, anything else is `my_free`. */
  method Free(a: Allocator, ptr: int)
    requires a.Valid()
    modifies a
    ensures a.Valid() && a.mem == old(a.mem)
    ensures a.Current() == FreeSpec(old(a.Current()), a.pageSize, ptr)
  {
    if ptr == Null {
      return;
    }
    a.MyFree(ptr);
  }

  /**
   * `calloc(nmemb, size)`: NULL when the product does not fit in `size_t`;
   * otherwise `my_malloc` of the product (NULL for a product of 0), whose
   * bytes are then all zero.
   */
  method Calloc(a: Allocator, nmemb: int, size: int, os: MapResult) returns (p: int)
    requires a.Valid() && IsWord(nmemb) && IsWord(size)
    requires nmemb * size < Word ==> MapOk(a.Current(), os, MapLength(nmemb * size, a.pageSize), a.pageSize)
    modifies a
    ensures a.Valid()
    ensures nmemb * size >= Word || nmemb * size == 0 ==> p == Null
    ensures nmemb * size < Word ==>
      Outcome(a.Current(), p) == MallocSpec(old(a.Current()), a.pageSize, nmemb * size, os)
    ensures p == Null ==> a.Current() == old(a.Current()) && a.mem == old(a.mem)
    ensures p != Null ==> a.mem == Fill(old(a.mem), p, nmemb * size)
    ensures p != Null ==> forall addr :: p <= addr < p + nmemb * size ==> Read(a.mem, addr) == 0
  {
    if nmemb * size >= Word {
      return Null;
    }
    var total := nmemb * size;
    p := a.MyMalloc(total, os);
    if p == Null {
      Properties.NullLeavesState(old(a.Current()), a.pageSize, total, os);
      return Null;
    }
    a.mem := Fill(a.mem, p, total);
  }

  /**
   * `realloc(ptr, size)`: NULL is `malloc`; size 0 frees and gives NULL; a
   * block whose usable size already holds `size` is returned as is;
   * otherwise a new block receives the old usable size's worth of bytes
   * and the old one is freed, unless the new allocation fails, which
   * leaves everything as it was.
   */
  method Realloc(a: Allocator, ptr: int, size: int, os: MapResult) returns (p: int)
    requires a.Valid() && IsWord(size)
    requires MapOk(a.Current(), os, MapLength(size, a.pageSize), a.pageSize)
    modifies a
    ensures a.Valid()
    ensures ptr == Null ==>
      Outcome(a.Current(), p) == MallocSpec(old(a.Current()), a.pageSize, size, os) && a.mem == old(a.mem)
    ensures ptr != Null && size == 0 ==>
      p == Null && a.Current() == FreeSpec(old(a.Current()), a.pageSize, ptr) && a.mem == old(a.mem)
    ensures ptr != Null && size != 0 && UsableSize(old(a.Current()), ptr) >= size ==>
      p == ptr && a.Current() == old(a.Current()) && a.mem == old(a.mem)
    ensures ptr != Null && size != 0 && UsableSize(old(a.Current()), ptr) < size ==>
      var o := MallocSpec(old(a.Current()), a.pageSize, size, os);
      p == o.ptr
      && (p == Null ==> a.Current() == old(a.Current()) && a.mem == old(a.mem))
      && (p != Null ==>
            Wf(o.st, a.pageSize)
            && a.Current() == FreeSpec(o.st, a.pageSize, ptr)
            && a.mem == Copy(old(a.mem), p, ptr, UsableSize(old(a.Current()), ptr)))
  {
    if ptr == Null {
      p := Malloc(a, size, os);
      return;
    }
    if size == 0 {
      a.MyFree(ptr);
      return Null;
    }
    var oldSize := UsableSize(a.Current(), ptr);
    if oldSize >= size {
      return ptr;
    }
    var newptr := a.MyMalloc(size, os);
    if newptr == Null {
      Properties.NullLeavesState(old(a.Current()), a.pageSize, size, os);
      return Null;
    }
    var copySize := if oldSize < size then oldSize else size;
    a.mem := Copy(a.mem, newptr, ptr, copySize);
    a.MyFree(ptr);
    return newptr;
  }
}
