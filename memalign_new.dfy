// Model of Data_Struct_Implementation/alignedMalloc/memalign_new.c:
// `aligned_memory` is the allocator of the other two files, but
// `free_aligned` indexes `&p`, the address of its own parameter, so the
// word it frees is the one below that parameter's stack slot rather than
// the back pointer stored below `p`.
module MemalignNew {

  import opened AlignMask

  /** `aligned_memory(required, alignment)` on the raw block `ptr` that
      `malloc(required + (alignment - 1) + sizeof(void *))` returned: the
      result leaves the back pointer and `required` bytes inside the
      block, is a multiple of a power-of-two alignment, and the word below
      it holds `ptr`. */
  method AlignedMemory(h: Heap, ptr: nat, required: nat, alignment: nat) returns (retPtr: nat)
    requires alignment >= 1
    modifies h
    ensures ptr + WordSize <= retPtr <= ptr + WordSize + (alignment - 1)
    ensures retPtr + required <= ptr + (required + WordSize + (alignment - 1))
    ensures IsPow2(alignment) ==> retPtr % alignment == 0
    ensures h.words == StoreBack(old(h.words), retPtr, ptr) && h.freed == old(h.freed)
  {
    retPtr := AlignUp(ptr, alignment);
    AlignUpBounds(ptr, alignment, required);
    if IsPow2(alignment) {
      AlignUpAligned(ptr, alignment);
    }
    h.words := StoreBack(h.words, retPtr, ptr);
  }

  /** The word `free_aligned` as written passes to `free`: `_p = &p` is
      the address `slot` where the parameter `p` lives, and `_p[-1]` is
      the word below that slot; `p` itself is not read. */
  function FreedAsWritten(words: map<int, nat>, p: nat, slot: nat): nat
    requires slot - WordSize in words
  {
    words[slot - WordSize]
  }

  /** `free_aligned(p)` as written. */
  method FreeAlignedAsWritten(h: Heap, p: nat, slot: nat)
    requires slot - WordSize in h.words
    modifies h
    ensures h.freed == old(h.freed) + [FreedAsWritten(old(h.words), p, slot)]
    ensures h.words == old(h.words)
  {
    h.freed := h.freed + [FreedAsWritten(h.words, p, slot)];
  }

  /** The word freed depends only on the stack slot: the raw block at 32,
      aligned to 16, gives 48 with 32 below it, yet with the parameter's
      slot at 1000 and 0 in the word below that, 0 is freed instead. */
  lemma {:induction false} FreeAsWrittenMisses()
    ensures var words := StoreBack(map[1000 - WordSize := 0], AlignUp(32, 16), 32);
            AlignUp(32, 16) == 48 && BackPointer(words, 48) == 32 &&
            FreedAsWritten(words, 48, 1000) == 0
  {
    assert AndNot(3, 0) == 3;
    assert AndNot(6, 1) == 6;
    assert AndNot(13, 3) == 12;
    assert AndNot(27, 7) == 24;
  }

  /** `free_aligned(p)` as intended, `free(((void **)p)[-1])`: frees the
      back pointer stored below `p`. */
  method FreeAligned(h: Heap, p: nat)
    requires p - WordSize in h.words
    modifies h
    ensures h.freed == old(h.freed) + [BackPointer(old(h.words), p)]
    ensures h.words == old(h.words)
  {
    h.freed := h.freed + [BackPointer(h.words, p)];
  }

  /** With the intended `free_aligned`, freeing what `aligned_memory`
      returned frees the raw block. */
  method AllocThenFree(h: Heap, ptr: nat, required: nat, alignment: nat) returns (retPtr: nat)
    requires alignment >= 1
    modifies h
    ensures h.freed == old(h.freed) + [ptr]
  {
    retPtr := AlignedMemory(h, ptr, required, alignment);
    FreeAligned(h, retPtr);
  }
}
