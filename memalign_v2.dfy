// Model of Data_Struct_Implementation/alignedMalloc/memalign_v2.c:
// `my_aligned_malloc` over-allocates, rounds the address up with a mask and
// keeps the raw pointer in `p[-1]`; `my_aligned_free` frees that pointer.
module MemalignV2 {

  import opened AlignMask

  /** `my_aligned_malloc(size, alignment)` on the raw block `raw` that
      `malloc(size + sizeof(void *) + alignment - 1)` returned: the result
      leaves the back pointer and `size` bytes inside the block, is a
      multiple of a power-of-two alignment, and the word below it now
      holds `raw`. */
  method MyAlignedMalloc(h: Heap, raw: nat, size: nat, alignment: nat) returns (p: nat)
    requires alignment >= 1
    modifies h
    ensures raw + WordSize <= p <= raw + WordSize + (alignment - 1)
    ensures p + size <= raw + (size + WordSize + (alignment - 1))
    ensures IsPow2(alignment) ==> p % alignment == 0
    ensures h.words == StoreBack(old(h.words), p, raw) && h.freed == old(h.freed)
  {
    p := AlignUp(raw, alignment);
    AlignUpBounds(raw, alignment, size);
    if IsPow2(alignment) {
      AlignUpAligned(raw, alignment);
    }
    h.words := StoreBack(h.words, p, raw);
  }

  /** `my_aligned_free(ptr)`: frees the pointer stored below `ptr`. */
  method MyAlignedFree(h: Heap, ptr: nat)
    requires ptr - WordSize in h.words
    modifies h
    ensures h.freed == old(h.freed) + [BackPointer(old(h.words), ptr)]
    ensures h.words == old(h.words)
  {
    h.freed := h.freed + [BackPointer(h.words, ptr)];
  }

  /** What `main` does with each block: allocate aligned, then free. The
      block freed is the raw one `malloc` gave. */
  method AllocThenFree(h: Heap, raw: nat, size: nat, alignment: nat) returns (p: nat)
    requires alignment >= 1
    modifies h
    ensures h.freed == old(h.freed) + [raw]
  {
    p := MyAlignedMalloc(h, raw, size, alignment);
    MyAlignedFree(h, p);
  }
}
