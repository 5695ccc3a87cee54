/**
 * Program memory as the facade sees it: a byte map written only by the
 * `memset` of `calloc` and the `memcpy` of `realloc`. An address with no
 * entry reads as 0, the content of a fresh anonymous mapping.
 */
module Memory {

  type Bytes = map<int, bv8>

  function Read(m: Bytes, a: int): bv8 {
    if a in m then m[a] else 0
  }

  /** `memset(p, 0, n)`. */
  function Fill(m: Bytes, p: int, n: int): (r: Bytes)
    ensures forall a :: p <= a < p + n ==> Read(r, a) == 0
    ensures forall a :: !(p <= a < p + n) ==> Read(r, a) == Read(m, a)
  {
    if n <= 0 then m
    else
      var r0 := Fill(m, p, n - 1);
      var r := r0[p + n - 1 := 0];
      assert forall a :: Read(r, a) == if a == p + n - 1 then 0 else Read(r0, a);
      r
  }

  /** `memcpy(dst, src, n)`: every byte is read from memory as it was before the copy. */
  function Copy(m: Bytes, dst: int, src: int, n: int): (r: Bytes)
    ensures forall a :: dst <= a < dst + n ==> Read(r, a) == Read(m, src + (a - dst))
    ensures forall a :: !(dst <= a < dst + n) ==> Read(r, a) == Read(m, a)
  {
    if n <= 0 then m
    else
      var r0 := Copy(m, dst, src, n - 1);
      var last := dst + n - 1;
      var r := r0[last := Read(m, src + n - 1)];
      assert forall a :: Read(r, a) == if a == last then Read(m, src + n - 1) else Read(r0, a);
      r
  }
}
