// Model of Data_Struct_Implementation/memoryPoolAllocator/pool.c with the
// `pool` record of pool.h: a pool hands out fixed-size elements carved from
// blocks of `blockSize` elements, recycling freed elements through a LIFO
// free list first. The memory itself is not modelled: an element is named
// by its block number and its index in the block (the address
// `blocks[block] + index * elementSize`), a block pointer by whether it is
// NULL, and the free list, which the source threads through the freed
// elements themselves, by the sequence of freed elements, head first.
module MemoryPool {

  const PoolBlocksInitial: nat := 1

  /** `sizeof(poolFreed)`: one pointer, taken as 8 bytes. */
  const PtrSize: nat := 8

  datatype Slot = Slot(block: nat, index: nat)

  /** Where the bump allocator stands, counted in elements from the start
      of block 0; -1 right after `poolFreeAll`. */
  function Pos(used: nat, block: int, blockSize: nat): int
  {
    block * blockSize + used
  }

  /** The `used`/`block` update of `poolMalloc` when the free list is
      empty: the next index, wrapping to index 0 of the next block at the
      end of a block. */
  function Advance(used: nat, block: int, blockSize: nat): (r: (nat, int))
    requires used < blockSize
    ensures r.0 < blockSize && r.1 >= block
    ensures Pos(r.0, r.1, blockSize) == Pos(used, block, blockSize) + 1
  {
    if used + 1 == blockSize then (0, block + 1) else (used + 1, block)
  }

  /** Successive fresh allocations never meet: `n` advances from a position
      reach exactly `n` elements further on. */
  function AdvanceN(used: nat, block: int, blockSize: nat, n: nat): (r: (nat, int))
    requires used < blockSize
    ensures r.0 < blockSize
    decreases n
  {
    if n == 0 then (used, block)
    else
      var s := Advance(used, block, blockSize);
      AdvanceN(s.0, s.1, blockSize, n - 1)
  }

  lemma {:induction false} AdvanceNPos(used: nat, block: int, blockSize: nat, n: nat)
    requires used < blockSize
    ensures var r := AdvanceN(used, block, blockSize, n);
            Pos(r.0, r.1, blockSize) == Pos(used, block, blockSize) + n
    decreases n
  {
    if n > 0 {
      var s := Advance(used, block, blockSize);
      AdvanceNPos(s.0, s.1, blockSize, n - 1);
    }
  }

  /** Two different numbers of advances from the same start land on
      different elements. */
  lemma {:induction false} AdvanceDistinct(used: nat, block: int, blockSize: nat, m: nat, n: nat)
    requires used < blockSize && m < n
    ensures AdvanceN(used, block, blockSize, m) != AdvanceN(used, block, blockSize, n)
  {
    AdvanceNPos(used, block, blockSize, m);
    AdvanceNPos(used, block, blockSize, n);
  }

  /** Distinct positions are distinct elements: an element's position
      determines its block and index. */
  lemma {:induction false} PosInjective(u1: nat, b1: int, u2: nat, b2: int, blockSize: nat)
    requires u1 < blockSize && u2 < blockSize
    requires Pos(u1, b1, blockSize) == Pos(u2, b2, blockSize)
    ensures u1 == u2 && b1 == b2
  {
    if b1 < b2 {
      assert b2 * blockSize - b1 * blockSize == (b2 - b1) * blockSize;
      MulAtLeast(b2 - b1, blockSize);
    } else if b2 < b1 {
      assert b1 * blockSize - b2 * blockSize == (b1 - b2) * blockSize;
      MulAtLeast(b1 - b2, blockSize);
    }
  }

  lemma {:induction false} MulAtLeast(k: int, n: nat)
    requires k >= 1
    ensures k * n >= n
    decreases k
  {
    if k > 1 {
      MulAtLeast(k - 1, n);
      assert k * n == (k - 1) * n + n;
    }
  }

  /** An element handed out lies inside its block of
      `elementSize * blockSize` bytes. */
  lemma {:induction false} SlotInsideBlock(index: nat, elementSize: nat, blockSize: nat)
    requires index < blockSize
    ensures index * elementSize + elementSize <= elementSize * blockSize
  {
    assert index * elementSize + elementSize == (index + 1) * elementSize;
    assert (index + 1) * elementSize <= blockSize * elementSize;
  }

  class Pool {
    var elementSize: nat
    var blockSize: nat
    var used: nat
    var block: int
    var freed: seq<Slot>
    var blocksUsed: nat
    var blocks: array<bool>

    /** `used` is an index into the current block, the current block (once
        there is one) has been allocated, and the block table has
        `blocksUsed` entries. Before the first element of a block is handed
        out the position is the last index of block -1. */
    ghost predicate Valid()
      reads this, blocks
    {
      && blockSize >= 1 && used < blockSize
      && blocksUsed >= 1 && blocks.Length == blocksUsed
      && -1 <= block < blocksUsed
      && (block == -1 ==> used == blockSize - 1)
      && (block >= 0 ==> blocks[block])
    }

    /** `poolInitialize`: elements are at least one free-list link wide,
        nothing is handed out yet (as after `poolFreeAll`), and the block
        table has one NULL entry. A block of no elements is excluded. */
    constructor (elemSize: nat, blkSize: nat)
      requires blkSize >= 1
      ensures Valid() && fresh(blocks)
      ensures elementSize == if elemSize < PtrSize then PtrSize else elemSize
      ensures blockSize == blkSize && used == blkSize - 1 && block == -1 && freed == []
      ensures blocksUsed == PoolBlocksInitial && !blocks[0]
    {
      elementSize := if elemSize < PtrSize then PtrSize else elemSize;
      blockSize := blkSize;
      // poolFreeAll
      used := blkSize - 1;
      block := -1;
      freed := [];
      blocksUsed := PoolBlocksInitial;
      blocks := new bool[PoolBlocksInitial];
      new;
      var i := 0;
      while i < blocksUsed
        invariant 0 <= i <= blocksUsed && blocks.Length == blocksUsed
        invariant forall j :: 0 <= j < i ==> !blocks[j]
        modifies blocks
      {
        blocks[i] := false;
        i := i + 1;
      }
    }

    /** `poolFreeAll`: forget every element handed out; the blocks stay. */
    method FreeAll()
      requires Valid()
      modifies this`used, this`block, this`freed
      ensures Valid() && used == blockSize - 1 && block == -1 && freed == []
    {
      used := blockSize - 1;
      block := -1;
      freed := [];
    }

    /** `poolFree`: the element becomes the head of the free list. */
    method Free(ptr: Slot)
      requires Valid()
      modifies this`freed
      ensures Valid() && freed == [ptr] + old(freed)
    {
      freed := [ptr] + freed;
    }

    /** `poolMalloc`: the most recently freed element when there is one;
        otherwise the next element of the current block, moving to the next
        block (and doubling the block table when it is full, the new entries
        NULL) at the end of a block, and allocating that block if it has no
        memory yet. */
    method Malloc() returns (r: Slot)
      requires Valid()
      modifies this`used, this`block, this`freed, this`blocksUsed, this`blocks, blocks
      ensures Valid() && blockSize == old(blockSize) && elementSize == old(elementSize)
      ensures blocks == old(blocks) || fresh(blocks)
      ensures old(freed) != [] ==>
                r == old(freed[0]) && freed == old(freed[1..]) &&
                used == old(used) && block == old(block) && blocks == old(blocks) && blocks[..] == old(blocks[..])
      ensures old(freed) == [] ==>
                && freed == []
                && (used, block) == Advance(old(used), old(block), blockSize)
                && r == Slot(block, used)
                && blocksUsed == (if block == old(blocksUsed) then 2 * old(blocksUsed) else old(blocksUsed))
                && blocks[block]
                && (forall i :: 0 <= i < old(blocksUsed) && i != block ==> blocks[i] == old(blocks[i]))
                && (forall i :: old(blocksUsed) <= i < blocksUsed && i != block ==> !blocks[i])
    {
      if freed != [] {
        r := freed[0];
        freed := freed[1..];
        return;
      }
      used := used + 1;
      if used == blockSize {
        used := 0;
        block := block + 1;
        if block == blocksUsed {
          Grow();
        }
        if !blocks[block] {
          blocks[block] := true;
        }
      }
      r := Slot(block, used);
    }

    /** The realloc of the block table to twice its entries: the old entries
        are kept and the new half is set to NULL. */
    method Grow()
      requires blocks.Length == blocksUsed && blocksUsed >= 1
      modifies this`blocksUsed, this`blocks
      ensures blocksUsed == 2 * old(blocksUsed) && fresh(blocks) && blocks.Length == blocksUsed
      ensures forall i :: 0 <= i < old(blocksUsed) ==> blocks[i] == old(blocks[i])
      ensures forall i :: old(blocksUsed) <= i < blocksUsed ==> !blocks[i]
    {
      var half := blocksUsed;
      var nb := new bool[2 * half];
      var i := 0;
      while i < half
        invariant 0 <= i <= half
        invariant forall j :: 0 <= j < i ==> nb[j] == blocks[j]
        modifies nb
      {
        nb[i] := blocks[i];
        i := i + 1;
      }
      while i < 2 * half
        invariant half <= i <= 2 * half
        invariant forall j :: 0 <= j < half ==> nb[j] == blocks[j]
        invariant forall j :: half <= j < i ==> !nb[j]
        modifies nb
      {
        nb[i] := false;
        i := i + 1;
      }
      blocksUsed := 2 * half;
      blocks := nb;
    }
  }

  /** The checks of `test_pool`: two allocations from a fresh pool are
      slots 0 and 1 of block 0, both real and distinct. Beyond the test,
      which frees the first and then frees the pool, one more allocation
      after that free hands the freed slot out again. */
  method TestPool(elemSize: nat, blkSize: nat) returns (p1: Slot, p2: Slot, p3: Slot)
    requires blkSize >= 2
    ensures p1 == Slot(0, 0) && p2 == Slot(0, 1) && p1 != p2
    ensures p3 == p1
  {
    var pool := new Pool(elemSize, blkSize);
    p1 := pool.Malloc();
    p2 := pool.Malloc();
    pool.Free(p1);
    p3 := pool.Malloc();
  }
}
