// The address arithmetic shared by the three aligned allocators of
// Data_Struct_Implementation/alignedMalloc and Data_Struct_Implementation/
// endianess: a raw block from `malloc` is over-allocated by one pointer
// and `alignment - 1` bytes, the address one pointer and `alignment - 1`
// bytes in is rounded down with the mask `~(alignment - 1)`, and the raw
// pointer is stored in the word just below the result. Addresses are
// unbounded naturals; a pointer is 8 bytes.
module AlignMask {

  import opened Division

  /** `sizeof(void *)` on the 64-bit targets these allocators are written for. */
  const WordSize: nat := 8

  function Pow2(k: nat): (r: nat)
    ensures r >= 1
  {
    if k == 0 then 1 else 2 * Pow2(k - 1)
  }

  ghost predicate IsPow2(a: nat)
  {
    exists k: nat :: a == Pow2(k)
  }

  /** `x & ~m`: the bits of `x` where `m` has a 0, bit by bit from the
      lowest. For `x` below 2^64 this is the C expression on `size_t`,
      since `~m` has a 1 in every bit above those of `m`. */
  function AndNot(x: nat, m: nat): nat
    decreases x
  {
    if x == 0 then 0 else 2 * AndNot(x / 2, m / 2) + (if x % 2 == 1 && m % 2 == 0 then 1 else 0)
  }

  /** `x >> k`. */
  function Shr(x: nat, k: nat): nat
  {
    if k == 0 then x else Shr(x / 2, k - 1)
  }

  /** Clearing bits only lowers `x`, and by no more than `m`: what is
      cleared is `x & m`. */
  lemma {:induction false} MaskBounds(x: nat, m: nat)
    ensures AndNot(x, m) <= x && x - AndNot(x, m) <= m
    decreases x
  {
    if x > 0 {
      MaskBounds(x / 2, m / 2);
    }
  }

  lemma {:induction false} MaskNothing(x: nat)
    ensures AndNot(x, 0) == x
    decreases x
  {
    if x > 0 {
      MaskNothing(x / 2);
    }
  }

  lemma {:induction false} ShrZero(k: nat)
    ensures Shr(0, k) == 0
  {
    if k > 0 {
      ShrZero(k - 1);
    }
  }

  /** With a power of two the mask `~(2^k - 1)` clears the low `k` bits:
      the result is `x >> k` whole units of `2^k`. */
  lemma {:induction false} MaskPow2(x: nat, k: nat)
    ensures AndNot(x, Pow2(k) - 1) == Shr(x, k) * Pow2(k)
    decreases k
  {
    if k == 0 {
      MaskNothing(x);
    } else if x == 0 {
      ShrZero(k);
    } else {
      var p := Pow2(k - 1);
      var sh := Shr(x / 2, k - 1);
      MaskPow2(x / 2, k - 1);
      MaskOddStep(x, 2 * p - 1);
      assert Pow2(k) - 1 == 2 * p - 1 && (2 * p - 1) / 2 == p - 1;
      Twice(sh, p);
    }
  }

  /** Dropping the lowest bit of `x` and of an odd mask. */
  lemma MaskOddStep(x: nat, m: nat)
    requires x > 0 && m % 2 == 1
    ensures AndNot(x, m) == 2 * AndNot(x / 2, m / 2)
  {
  }

  lemma Twice(s: nat, p: nat)
    ensures 2 * (s * p) == s * (2 * p)
  {
  }

  /** The address `my_aligned_malloc`, `aligned_memory` and their copies
      return for the raw block `raw`: `(raw + sizeof(void *) + (alignment
      - 1)) & ~(alignment - 1)`. */
  function AlignUp(raw: nat, alignment: nat): nat
    requires alignment >= 1
  {
    AndNot(raw + WordSize + (alignment - 1), alignment - 1)
  }

  /** Whatever the alignment, the result leaves room for the back pointer
      after the start of the block and lies at most `alignment - 1` bytes
      past that: with the `size + sizeof(void *) + alignment - 1` bytes
      requested, the back pointer and `size` bytes fit in the block. */
  lemma {:induction false} AlignUpBounds(raw: nat, alignment: nat, size: nat)
    requires alignment >= 1
    ensures raw + WordSize <= AlignUp(raw, alignment) <= raw + WordSize + (alignment - 1)
    ensures AlignUp(raw, alignment) + size <= raw + (size + WordSize + (alignment - 1))
  {
    MaskBounds(raw + WordSize + (alignment - 1), alignment - 1);
  }

  /** With a power-of-two alignment the result is a multiple of it. */
  lemma {:induction false} AlignUpAligned(raw: nat, alignment: nat)
    requires alignment >= 1 && IsPow2(alignment)
    ensures AlignUp(raw, alignment) % alignment == 0
  {
    var k: nat :| alignment == Pow2(k);
    MaskPow2(raw + WordSize + (alignment - 1), k);
    MultipleMod(Shr(raw + WordSize + (alignment - 1), k), alignment);
  }

  /** Alignment 72, as `main` of memalign_v2.c asks for, is not a power of
      two, and the mask then does not give a multiple of it: from the raw
      block at 16 the result is 24. */
  lemma {:induction false} Mask72()
    ensures AlignUp(16, 72) == 24 && AlignUp(16, 72) % 72 != 0
  {
    assert AndNot(1, 1) == 0;
    assert AndNot(2, 2) == 0;
    assert AndNot(5, 4) == 1;
    assert AndNot(11, 8) == 3;
    assert AndNot(23, 17) == 6;
    assert AndNot(47, 35) == 12;
  }

  /** Memory as far as the allocators touch it: the pointer-sized words
      written (address to value) and the addresses handed to `free`, in
      order. `malloc` itself is not modelled: the raw address it returns
      is a parameter. */
  class Heap {
    var words: map<int, nat>
    var freed: seq<nat>

    constructor()
      ensures words == map[] && freed == []
    {
      words := map[];
      freed := [];
    }
  }

  /** `p[-1] = raw`: the word below `p` holds the raw pointer. */
  function StoreBack(words: map<int, nat>, p: nat, raw: nat): map<int, nat>
  {
    words[p - WordSize := raw]
  }

  /** `((void **)p)[-1]`: the word below `p`. */
  function BackPointer(words: map<int, nat>, p: nat): nat
    requires p - WordSize in words
  {
    words[p - WordSize]
  }

  /** The back pointer lies inside the raw block, and what was stored
      there is read back from the aligned address: freeing through it
      frees the raw block. */
  lemma {:induction false} BackPointerRoundTrip(words: map<int, nat>, raw: nat, alignment: nat)
    requires alignment >= 1
    ensures var p := AlignUp(raw, alignment);
            raw <= p - WordSize && p - WordSize in StoreBack(words, p, raw) &&
            BackPointer(StoreBack(words, p, raw), p) == raw
  {
    AlignUpBounds(raw, alignment, 0);
  }
}
