// Model of Data_Struct_Implementation/endianess/endianess.c, which despite
// its name holds an aligned allocator: `aligned_memory` stores the raw
// pointer `p1` below the aligned address `p2`, and `free_aligned` frees
// `((void **)p)[-1]`.
module EndianessAlign {

  import opened AlignMask

  /** `aligned_memory(required, alignment)` on the raw block `p1` that
      `malloc(alignment - 1 + sizeof(void *) + required)` returned: the
      result leaves the back pointer and `required` bytes inside the block,
      is a multiple of a power-of-two alignment, and the word below it
      holds `p1`. */
  method AlignedMemory(h: Heap, p1: nat, required: nat, alignment: nat) returns (p2: nat)
    requires alignment >= 1
    modifies h
    ensures p1 + WordSize <= p2 <= p1 + WordSize + (alignment - 1)
    ensures p2 + required <= p1 + (required + WordSize + (alignment - 1))
    ensures IsPow2(alignment) ==> p2 % alignment == 0
    ensures h.words == StoreBack(old(h.words), p2, p1) && h.freed == old(h.freed)
  {
    p2 := AlignUp(p1, alignment);
    AlignUpBounds(p1, alignment, required);
    if IsPow2(alignment) {
      AlignUpAligned(p1, alignment);
    }
    h.words := StoreBack(h.words, p2, p1);
  }

  /** `free_aligned(p)`: frees the pointer stored below `p`. */
  method FreeAligned(h: Heap, p: nat)
    requires p - WordSize in h.words
    modifies h
    ensures h.freed == old(h.freed) + [BackPointer(old(h.words), p)]
    ensures h.words == old(h.words)
  {
    h.freed := h.freed + [BackPointer(h.words, p)];
  }

  /** `free_aligned(aligned_memory(required, alignment))` frees exactly
      the raw block. */
  method AllocThenFree(h: Heap, p1: nat, required: nat, alignment: nat) returns (p2: nat)
    requires alignment >= 1
    modifies h
    ensures h.freed == old(h.freed) + [p1]
  {
    p2 := AlignedMemory(h, p1, required, alignment);
    FreeAligned(h, p2);
  }
}
