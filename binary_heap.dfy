// Model of Data_Struct_Implementation/binaryHeap/binaryHeap.c: a bounded
// max-priority queue of ints kept as an implicit binary heap in an array.
module BinaryHeap {
  import opened HeapSpec
  import opened SortSpec

  /** `pop` returns `uint32_t`: both the popped int and the INT_MIN of the
      empty case are converted modulo 2^32. */
  function ToU32(x: int): (r: nat)
    ensures r < 0x1_0000_0000 && (r - x) % 0x1_0000_0000 == 0
    ensures 0 <= x < 0x1_0000_0000 ==> r == x
  {
    x % 0x1_0000_0000
  }

  /** What `pop` on an empty queue hands back: INT_MIN seen as uint32_t. */
  const EmptyPop: nat := 0x8000_0000

  lemma EmptyPopIsIntMin()
    ensures ToU32(-0x8000_0000) == EmptyPop
  {
  }

  class PriorityQueue {
    var curIdx: nat
    var capacity: nat
    var data: array<int>

    ghost predicate Valid()
      reads this
    {
      data.Length == capacity && curIdx <= capacity
    }

    /** The queued values in heap layout. */
    ghost function Elements(): (s: seq<int>)
      requires Valid()
      reads this, data
      ensures |s| == curIdx
    {
      data[..curIdx]
    }

    ghost predicate HeapValid()
      reads this, data
    {
      Valid() && IsHeap(data[..], curIdx)
    }

    /** `createPriorityQueue`: an empty queue over `size` cells. */
    constructor (size: nat)
      ensures HeapValid() && fresh(data)
      ensures capacity == size && curIdx == 0 && Elements() == []
    {
      capacity := size;
      curIdx := 0;
      data := new int[size];
    }

    /** The three-assignment exchange through `temp` that `heapify` and
        `insert` both perform. */
    method SwapCells(i: nat, j: nat)
      requires Valid() && i < data.Length && j < data.Length
      modifies data
      ensures data[..] == Swap(old(data[..]), i, j)
    {
      var temp := data[i];
      data[i] := data[j];
      data[j] := temp;
    }

    /** `heapify`: sifts the value at `eleIdx` down, swapping it with its
        larger child until neither child is larger. It repairs a heap that
        is broken only between `eleIdx` and its children. */
    method Heapify(eleIdx: nat)
      requires Valid()
      requires HeapBelow(data[..], curIdx, eleIdx) && GrandparentBounds(data[..], curIdx, eleIdx)
      modifies data
      ensures HeapValid()
      ensures multiset(data[..curIdx]) == old(multiset(data[..curIdx]))
      ensures data[curIdx..] == old(data[curIdx..])
      decreases curIdx - eleIdx, 1
    {
      var left := LeftChild(eleIdx);
      var right := RightChild(eleIdx);
      ChildrenParent(eleIdx);
      var largest := eleIdx;
      if left < curIdx && data[left] > data[largest] {
        largest := left;
      }
      if right < curIdx && data[right] > data[largest] {
        largest := right;
      }
      if largest != eleIdx {
        SwapDown(eleIdx, largest);
      } else {
        SiftDownDone(data[..], curIdx, eleIdx);
      }
    }

    /** The branch of `heapify` that found a child `c` of `i` larger than
        `i` and than its sibling: swap the two and carry on from `c`. */
    method SwapDown(i: nat, c: nat)
      requires Valid() && i < c < curIdx && Parent(c) == i && data[c] > data[i]
      requires forall j {:trigger Parent(j)} :: 0 < j < curIdx && Parent(j) == i ==> data[c] >= data[j]
      requires HeapBelow(data[..], curIdx, i) && GrandparentBounds(data[..], curIdx, i)
      modifies data
      ensures HeapValid()
      ensures multiset(data[..curIdx]) == old(multiset(data[..curIdx]))
      ensures data[curIdx..] == old(data[curIdx..])
      decreases curIdx - i, 0
    {
      SiftDownStep(data[..], curIdx, i, c);
      SwapPrefix(data[..], i, c, curIdx);
      SwapCells(i, c);
      Heapify(c);
    }

    /** `insert`: a no-op on a full queue; otherwise the value is placed in
        the next free cell and sifted up past every smaller parent. */
    method Insert(newEntry: int)
      requires HeapValid()
      modifies this`curIdx, data
      ensures HeapValid()
      ensures old(curIdx) == capacity ==> curIdx == old(curIdx) && data[..] == old(data[..])
      ensures old(curIdx) < capacity ==>
                curIdx == old(curIdx) + 1 &&
                multiset(Elements()) == old(multiset(Elements())) + multiset{newEntry}
    {
      if curIdx == capacity {
        return;
      }
      PlaceAtEnd(data[..], curIdx, newEntry);
      data[curIdx] := newEntry;
      curIdx := curIdx + 1;
      SiftUp(curIdx - 1, newEntry);
    }

    /** The loop of `insert`: while the new value at `k` is larger than its
        parent, the two are exchanged. Only the order of the queued values
        changes. */
    method SiftUp(k0: nat, newEntry: int)
      requires Valid() && k0 < curIdx && data[k0] == newEntry
      requires HeapAbove(data[..], curIdx, k0) && GrandparentBounds(data[..], curIdx, k0)
      modifies data
      ensures HeapValid()
      ensures multiset(data[..curIdx]) == old(multiset(data[..curIdx]))
    {
      var k: nat := k0;
      while k != 0 && data[Parent(k)] < newEntry
        invariant Valid() && k < curIdx && data[k] == newEntry
        invariant HeapAbove(data[..], curIdx, k) && GrandparentBounds(data[..], curIdx, k)
        invariant multiset(data[..curIdx]) == old(multiset(data[..curIdx]))
        decreases k
      {
        k := SwapUp(k);
      }
      SiftUpDone(data[..], curIdx, k);
    }

    /** One round of the loop of `insert`: the value at `k` is larger than
        its parent, so the two are exchanged and the broken spot moves up to
        the parent `p`. */
    method SwapUp(k: nat) returns (p: nat)
      requires Valid() && 0 < k < curIdx && data[Parent(k)] < data[k]
      requires HeapAbove(data[..], curIdx, k) && GrandparentBounds(data[..], curIdx, k)
      modifies data
      ensures p == Parent(k) && p < k && data[p] == old(data[k])
      ensures HeapAbove(data[..], curIdx, p) && GrandparentBounds(data[..], curIdx, p)
      ensures multiset(data[..curIdx]) == old(multiset(data[..curIdx]))
    {
      p := Parent(k);
      SiftUpStep(data[..], curIdx, k);
      SwapPrefix(data[..], p, k, curIdx);
      SwapCells(p, k);
    }

    /** `pop`: on an empty queue INT_MIN (as uint32_t) and no change;
        otherwise the root, which is the largest queued value, is removed:
        the last value takes its place and is sifted down. */
    method Pop() returns (r: nat)
      requires HeapValid()
      modifies this`curIdx, data
      ensures HeapValid()
      ensures old(curIdx) == 0 ==> r == EmptyPop && curIdx == 0
      ensures old(curIdx) > 0 ==>
                && curIdx == old(curIdx) - 1
                && IsMaxOf(old(multiset(Elements())), old(data[0]))
                && r == ToU32(old(data[0]))
                && multiset(Elements()) == old(multiset(Elements())) - multiset{old(data[0])}
    {
      if curIdx == 0 {
        return EmptyPop;
      }
      RootIsMaxOf(data[..], curIdx);
      RemoveRoot(data[..], curIdx);
      var result := data[0];
      data[0] := data[curIdx - 1];
      curIdx := curIdx - 1;
      Heapify(0);
      r := ToU32(result);
    }
  }
}
