// Model of Data_Struct_Implementation/binaryHeap/binaryHeap_2.c: a bounded
// max-heap of ints in an array, with recursive sift-up and sift-down. Each
// array operation is specified by a function on the array's contents; the
// heap properties are lemmas about those functions.
//
// `down_heapify` compares both children with the node itself rather than
// with the larger of the two, so when both children exceed the node it
// always picks the right one, even when the left one is larger. The
// function `DownHeapifyAsWritten` models that code and
// `PopAsWrittenBreaksHeap` exhibits a heap it leaves broken; `DownHeapify`
// is the intended sift-down, used by `Pop`.
module MaxHeap2 {
  import opened HeapSpec
  import opened SortSpec

  /** `up_heapify` on the cell contents `s`: swap node `i` with its parent
      while the parent is smaller. */
  function UpHeapifyF(s: seq<int>, i: nat): (r: seq<int>)
    requires i < |s|
    ensures |r| == |s|
    decreases i
  {
    if i == 0 || s[Parent(i)] >= s[i] then s
    else UpHeapifyF(Swap(s, Parent(i), i), Parent(i))
  }

  /** `down_heapify` as written, on the first `n` cells: each child is
      compared with node `i` itself, so the right child wins whenever both
      exceed the node. */
  function DownHeapifyAsWritten(s: seq<int>, n: nat, i: nat): (r: seq<int>)
    requires n <= |s|
    ensures |r| == |s|
    decreases n - i
  {
    var t := TargetAsWritten(s, n, i);
    if t == i then s else DownHeapifyAsWritten(Swap(s, t, i), n, t)
  }

  /** The cell `down_heapify` as written swaps node `i` with: the right
      child if it exceeds the node, else the left child if that does, else
      the node itself. */
  function TargetAsWritten(s: seq<int>, n: nat, i: nat): (t: nat)
    requires n <= |s|
    ensures t == i || (i < t < n && Parent(t) == i && s[t] > s[i])
  {
    var l := LeftChild(i);
    var r := RightChild(i);
    if r < n && s[r] > s[i] then r
    else if l < n && s[l] > s[i] then l
    else i
  }

  /** The cell the intended sift-down swaps node `i` with: the largest of
      the node and its children within the first `n` cells (the node when
      it ties). */
  function Target(s: seq<int>, n: nat, i: nat): (t: nat)
    requires n <= |s|
    ensures t == i || (i < t < n && Parent(t) == i && s[t] > s[i])
    ensures forall j {:trigger Parent(j)} :: 0 < j < n && Parent(j) == i ==> s[t] >= s[j]
    ensures i < n ==> s[t] >= s[i]
  {
    var l := LeftChild(i);
    var r := RightChild(i);
    ChildrenParent(i);
    var t1 := if l < n && s[l] > s[i] then l else i;
    if r < n && s[r] > s[t1] then r else t1
  }

  /** The intended `down_heapify`: the right child is compared with the
      larger of the node and its left child. */
  function DownHeapify(s: seq<int>, n: nat, i: nat): (r: seq<int>)
    requires n <= |s|
    ensures |r| == |s|
    decreases n - i
  {
    var t := Target(s, n, i);
    if t == i then s else DownHeapify(Swap(s, t, i), n, t)
  }

  /** `insert` on cells `s` of which `n` are in use (the capacity is |s|):
      the contents are unchanged when full. */
  function InsertF(s: seq<int>, n: nat, value: int): (r: seq<int>)
    requires n <= |s|
    ensures |r| == |s|
  {
    if n == |s| then s else UpHeapifyF(s[n := value], n)
  }

  /** `pop` as written: the root is swapped with the last element, which
      is then sifted down by the faulty `down_heapify`. */
  function PopAsWrittenF(s: seq<int>, n: nat): (r: seq<int>)
    requires n <= |s|
    ensures |r| == |s|
  {
    if n == 0 then s else DownHeapifyAsWritten(Swap(s, 0, n - 1), n - 1, 0)
  }

  /** `pop` with the intended sift-down. */
  function PopF(s: seq<int>, n: nat): (r: seq<int>)
    requires n <= |s|
    ensures |r| == |s|
  {
    if n == 0 then s else DownHeapify(Swap(s, 0, n - 1), n - 1, 0)
  }

  /** `get_max`: -1 when empty, otherwise the root. */
  function GetMaxF(s: seq<int>, n: nat): (r: int)
    requires n <= |s|
    ensures n == 0 ==> r == -1
    ensures n > 0 ==> r in multiset(s[..n])
  {
    if n == 0 then -1 else s[0]
  }

  /** On a non-empty heap `get_max` answers a largest element. */
  lemma {:induction false} GetMaxIsLargest(s: seq<int>, n: nat)
    requires 0 < n <= |s| && IsHeap(s, n)
    ensures IsMaxOf(multiset(s[..n]), GetMaxF(s, n))
  {
    RootIsMaxOf(s, n);
  }

  /** Sifting up from a node that alone may exceed its parent yields a heap
      over the same elements, leaving the cells past the heap alone. */
  lemma {:induction false} UpHeapifyRestores(s: seq<int>, n: nat, i: nat)
    requires i < n <= |s|
    requires HeapAbove(s, n, i) && GrandparentBounds(s, n, i)
    ensures |UpHeapifyF(s, i)| == |s| && IsHeap(UpHeapifyF(s, i), n)
    ensures multiset(UpHeapifyF(s, i)[..n]) == multiset(s[..n])
    ensures UpHeapifyF(s, i)[n..] == s[n..]
    decreases i
  {
    if i == 0 || s[Parent(i)] >= s[i] {
      SiftUpDone(s, n, i);
    } else {
      SiftUpStep(s, n, i);
      SwapPrefix(s, Parent(i), i, n);
      UpHeapifyRestores(Swap(s, Parent(i), i), n, Parent(i));
    }
  }

  /** The intended sift-down repairs a heap broken only below node `i`. */
  lemma {:induction false} DownHeapifyRestores(s: seq<int>, n: nat, i: nat)
    requires n <= |s|
    requires HeapBelow(s, n, i) && GrandparentBounds(s, n, i)
    ensures |DownHeapify(s, n, i)| == |s| && IsHeap(DownHeapify(s, n, i), n)
    decreases n - i
  {
    var t := Target(s, n, i);
    if t == i {
      SiftDownDone(s, n, i);
    } else {
      SiftDownStep(s, n, i, t);
      SwapSymmetric(s, i, t);
      DownHeapifyRestores(Swap(s, t, i), n, t);
    }
  }

  /** The intended sift-down only permutes the heap's cells. */
  lemma {:induction false} DownHeapifyPermutes(s: seq<int>, n: nat, i: nat)
    requires n <= |s|
    ensures |DownHeapify(s, n, i)| == |s|
    ensures multiset(DownHeapify(s, n, i)[..n]) == multiset(s[..n])
    ensures DownHeapify(s, n, i)[n..] == s[n..]
    decreases n - i
  {
    var t := Target(s, n, i);
    if t != i {
      SwapPrefix(s, t, i, n);
      DownHeapifyPermutes(Swap(s, t, i), n, t);
    }
  }

  /** Whatever it does to the order, the sift-down as written only permutes
      the heap's cells. */
  lemma {:induction false} DownHeapifyAsWrittenPermutes(s: seq<int>, n: nat, i: nat)
    requires n <= |s|
    ensures |DownHeapifyAsWritten(s, n, i)| == |s|
    ensures multiset(DownHeapifyAsWritten(s, n, i)[..n]) == multiset(s[..n])
    ensures DownHeapifyAsWritten(s, n, i)[n..] == s[n..]
    decreases n - i
  {
    var t := TargetAsWritten(s, n, i);
    if t != i {
      SwapPrefix(s, t, i, n);
      DownHeapifyAsWrittenPermutes(Swap(s, t, i), n, t);
    }
  }

  /** `insert` into a heap with room yields a heap holding one more
      element, the new value. */
  lemma {:induction false} InsertKeepsHeap(s: seq<int>, n: nat, value: int)
    requires n < |s| && IsHeap(s, n)
    ensures |InsertF(s, n, value)| == |s| && IsHeap(InsertF(s, n, value), n + 1)
    ensures multiset(InsertF(s, n, value)[..n + 1]) == multiset(s[..n]) + multiset{value}
  {
    PlaceAtEnd(s, n, value);
    UpHeapifyRestores(s[n := value], n + 1, n);
  }

  /** `pop` with the intended sift-down removes a largest element of a
      non-empty heap, leaves the rest a heap, and parks the removed value
      just past the end. */
  lemma {:induction false} PopKeepsHeap(s: seq<int>, n: nat)
    requires 0 < n <= |s| && IsHeap(s, n)
    ensures IsMaxOf(multiset(s[..n]), s[0])
    ensures |PopF(s, n)| == |s| && IsHeap(PopF(s, n), n - 1)
    ensures multiset(PopF(s, n)[..n - 1]) == multiset(s[..n]) - multiset{s[0]}
    ensures PopF(s, n)[n - 1] == s[0]
  {
    RootIsMaxOf(s, n);
    var t := Swap(s, 0, n - 1);
    SwapRootToEnd(s, n);
    SwapRootToEndElements(s, n);
    DownHeapifyRestores(t, n - 1, 0);
    DownHeapifyPermutes(t, n - 1, 0);
    assert PopF(s, n)[n - 1..][0] == t[n - 1..][0];
  }

  /** The heap [4, 3, 2, 1] (which the driver builds from 1, 2, 3, 4, 5 and
      one pop) becomes [2, 3, 1] after a pop with the sift-down as written:
      a child larger than the root, so `get_max` answers 2 while 3 is
      stored. The intended sift-down gives [3, 1, 2]. */
  lemma {:induction false} PopAsWrittenBreaksHeap()
    ensures IsHeap([4, 3, 2, 1], 4)
    ensures PopAsWrittenF([4, 3, 2, 1], 4)[..3] == [2, 3, 1]
    ensures !IsHeap(PopAsWrittenF([4, 3, 2, 1], 4), 3)
    ensures PopF([4, 3, 2, 1], 4)[..3] == [3, 1, 2]
  {
    assert Parent(1) == 0 && Parent(2) == 0 && Parent(3) == 1;
    var t := [1, 3, 2, 4];
    assert Swap([4, 3, 2, 1], 0, 3) == t;
    // as written: both children exceed 1, so the right one (2) is taken
    assert TargetAsWritten(t, 3, 0) == 2;
    var u := [2, 3, 1, 4];
    assert Swap(t, 2, 0) == u;
    assert TargetAsWritten(u, 3, 2) == 2;
    assert DownHeapifyAsWritten(u, 3, 2) == u;
    assert PopAsWrittenF([4, 3, 2, 1], 4) == u;
    assert u[Parent(1)] < u[1];
    // intended: the larger child (3) is taken
    assert Target(t, 3, 0) == 1;
    var w := [3, 1, 2, 4];
    assert Swap(t, 1, 0) == w;
    assert Target(w, 3, 1) == 1;
    assert DownHeapify(w, 3, 1) == w;
    assert PopF([4, 3, 2, 1], 4) == w;
  }

  /** The five inserts of the driver fill the heap [5, 4, 2, 1, 3],
      whatever the uninitialised cells held; the sixth finds it full. */
  lemma {:induction false} DriverInserts(g: seq<int>)
    requires |g| == 5
    ensures InsertF(g, 0, 1) == [1] + g[1..]
    ensures InsertF([1] + g[1..], 1, 2) == [2, 1] + g[2..]
    ensures InsertF([2, 1] + g[2..], 2, 3) == [3, 1, 2] + g[3..]
    ensures InsertF([3, 1, 2] + g[3..], 3, 4) == [4, 3, 2, 1] + g[4..]
    ensures InsertF([4, 3, 2, 1] + g[4..], 4, 5) == [5, 4, 2, 1, 3]
    ensures InsertF([5, 4, 2, 1, 3], 5, 6) == [5, 4, 2, 1, 3]
  {
    assert Parent(1) == 0 && Parent(2) == 0 && Parent(3) == 1 && Parent(4) == 1;
    assert Swap(([1] + g[1..])[1 := 2], 0, 1) == [2, 1] + g[2..];
    assert Swap(([2, 1] + g[2..])[2 := 3], 0, 2) == [3, 1, 2] + g[3..];
    var a := ([3, 1, 2] + g[3..])[3 := 4];
    assert Swap(a, 1, 3) == [3, 4, 2, 1] + g[4..];
    assert Swap([3, 4, 2, 1] + g[4..], 0, 1) == [4, 3, 2, 1] + g[4..];
    assert ([4, 3, 2, 1] + g[4..])[4 := 5] == [4, 3, 2, 1, 5];
    assert Swap([4, 3, 2, 1, 5], 1, 4) == [4, 5, 2, 1, 3];
    assert Swap([4, 5, 2, 1, 3], 0, 1) == [5, 4, 2, 1, 3];
  }

  /** The six pops of the driver with the sift-down as written, and the
      final insert. The second pop leaves [2, 3, 1], so the driver's
      `get_max` reports 2 while 3 is stored. */
  lemma {:induction false} DriverPopsAsWritten()
    ensures PopAsWrittenF([5, 4, 2, 1, 3], 5) == [4, 3, 2, 1, 5]
    ensures PopAsWrittenF([4, 3, 2, 1, 5], 4) == [2, 3, 1, 4, 5]
    ensures PopAsWrittenF([2, 3, 1, 4, 5], 3) == [3, 1, 2, 4, 5]
    ensures PopAsWrittenF([3, 1, 2, 4, 5], 2) == [1, 3, 2, 4, 5]
    ensures PopAsWrittenF([1, 3, 2, 4, 5], 1) == [1, 3, 2, 4, 5]
    ensures PopAsWrittenF([1, 3, 2, 4, 5], 0) == [1, 3, 2, 4, 5]
    ensures InsertF([1, 3, 2, 4, 5], 0, 6) == [6, 3, 2, 4, 5]
  {
    assert Swap([5, 4, 2, 1, 3], 0, 4) == [3, 4, 2, 1, 5];
    assert TargetAsWritten([3, 4, 2, 1, 5], 4, 0) == 1;
    assert Swap([3, 4, 2, 1, 5], 1, 0) == [4, 3, 2, 1, 5];
    assert TargetAsWritten([4, 3, 2, 1, 5], 4, 1) == 1;
    assert Swap([4, 3, 2, 1, 5], 0, 3) == [1, 3, 2, 4, 5];
    assert TargetAsWritten([1, 3, 2, 4, 5], 3, 0) == 2;
    assert Swap([1, 3, 2, 4, 5], 2, 0) == [2, 3, 1, 4, 5];
    assert TargetAsWritten([2, 3, 1, 4, 5], 3, 2) == 2;
    assert Swap([2, 3, 1, 4, 5], 0, 2) == [1, 3, 2, 4, 5];
    assert TargetAsWritten([1, 3, 2, 4, 5], 2, 0) == 1;
    assert Swap([1, 3, 2, 4, 5], 1, 0) == [3, 1, 2, 4, 5];
    assert TargetAsWritten([3, 1, 2, 4, 5], 2, 1) == 1;
    assert Swap([3, 1, 2, 4, 5], 0, 1) == [1, 3, 2, 4, 5];
    assert TargetAsWritten([1, 3, 2, 4, 5], 1, 0) == 0;
    assert Swap([1, 3, 2, 4, 5], 0, 0) == [1, 3, 2, 4, 5];
    assert TargetAsWritten([1, 3, 2, 4, 5], 0, 0) == 0;
  }

  /** The six pops of the driver with the intended sift-down, and the
      final insert: the maxima after each pop are 4, 3, 2, 1. */
  lemma {:induction false} DriverPopsIntended()
    ensures PopF([5, 4, 2, 1, 3], 5) == [4, 3, 2, 1, 5]
    ensures PopF([4, 3, 2, 1, 5], 4) == [3, 1, 2, 4, 5]
    ensures PopF([3, 1, 2, 4, 5], 3) == [2, 1, 3, 4, 5]
    ensures PopF([2, 1, 3, 4, 5], 2) == [1, 2, 3, 4, 5]
    ensures PopF([1, 2, 3, 4, 5], 1) == [1, 2, 3, 4, 5]
    ensures PopF([1, 2, 3, 4, 5], 0) == [1, 2, 3, 4, 5]
    ensures InsertF([1, 2, 3, 4, 5], 0, 6) == [6, 2, 3, 4, 5]
  {
    assert Swap([5, 4, 2, 1, 3], 0, 4) == [3, 4, 2, 1, 5];
    assert Target([3, 4, 2, 1, 5], 4, 0) == 1;
    assert Swap([3, 4, 2, 1, 5], 1, 0) == [4, 3, 2, 1, 5];
    assert Target([4, 3, 2, 1, 5], 4, 1) == 1;
    assert Swap([4, 3, 2, 1, 5], 0, 3) == [1, 3, 2, 4, 5];
    assert Target([1, 3, 2, 4, 5], 3, 0) == 1;
    assert Swap([1, 3, 2, 4, 5], 1, 0) == [3, 1, 2, 4, 5];
    assert Target([3, 1, 2, 4, 5], 3, 1) == 1;
    assert Swap([3, 1, 2, 4, 5], 0, 2) == [2, 1, 3, 4, 5];
    assert Target([2, 1, 3, 4, 5], 2, 0) == 0;
    assert Swap([2, 1, 3, 4, 5], 0, 1) == [1, 2, 3, 4, 5];
    assert Target([1, 2, 3, 4, 5], 1, 0) == 0;
    assert Swap([1, 2, 3, 4, 5], 0, 0) == [1, 2, 3, 4, 5];
  }

  class MaxHeap {
    var curIndex: nat
    var capacity: nat
    var data: array<int>

    ghost predicate Valid()
      reads this
    {
      data.Length == capacity && curIndex <= capacity
    }

    /** `max_head_init`: an empty heap over `size` cells of unspecified
        contents. */
    constructor (size: nat)
      ensures Valid() && fresh(data) && capacity == size && curIndex == 0
    {
      curIndex := 0;
      capacity := size;
      data := new int[size];
    }

    /** `swap` on two cells of the array. */
    method SwapCells(i: nat, j: nat)
      requires Valid() && i < data.Length && j < data.Length
      modifies data
      ensures data[..] == Swap(old(data[..]), i, j)
    {
      var tmp := data[i];
      data[i] := data[j];
      data[j] := tmp;
    }

    /** `get_max`. */
    method GetMax() returns (r: int)
      requires Valid()
      ensures r == GetMaxF(data[..], curIndex)
    {
      if curIndex == 0 {
        return -1;
      }
      return data[0];
    }

    /** `up_heapify`. */
    method UpHeapify(index: nat)
      requires Valid() && index < curIndex
      modifies data
      ensures data[..] == UpHeapifyF(old(data[..]), index)
      decreases index
    {
      var parentIndex := Parent(index);
      if index == 0 || data[parentIndex] >= data[index] {
        return;
      }
      SwapCells(parentIndex, index);
      UpHeapify(parentIndex);
    }

    /** `down_heapify` exactly as written. */
    method DownHeapifyAsWrittenM(index: nat)
      requires Valid()
      modifies data
      ensures data[..] == DownHeapifyAsWritten(old(data[..]), curIndex, index)
      decreases curIndex - index
    {
      var leftI := LeftChild(index);
      var rightI := RightChild(index);
      var targetIndex := index;
      if leftI < curIndex && data[leftI] > data[index] {
        targetIndex := leftI;
      }
      if rightI < curIndex && data[rightI] > data[index] {
        targetIndex := rightI;
      }
      if targetIndex == index {
        return;
      }
      SwapCells(targetIndex, index);
      DownHeapifyAsWrittenM(targetIndex);
    }

    /** The intended `down_heapify`. */
    method DownHeapifyM(index: nat)
      requires Valid()
      modifies data
      ensures data[..] == DownHeapify(old(data[..]), curIndex, index)
      decreases curIndex - index
    {
      var leftI := LeftChild(index);
      var rightI := RightChild(index);
      var targetIndex := index;
      if leftI < curIndex && data[leftI] > data[index] {
        targetIndex := leftI;
      }
      if rightI < curIndex && data[rightI] > data[targetIndex] {
        targetIndex := rightI;
      }
      if targetIndex == index {
        return;
      }
      SwapCells(targetIndex, index);
      DownHeapifyM(targetIndex);
    }

    /** `insert`: -1 and no change when full, otherwise 0 with the value
        written at the end and sifted up. */
    method Insert(value: int) returns (r: int)
      requires Valid()
      modifies this`curIndex, data
      ensures Valid()
      ensures r == (if old(curIndex) == capacity then -1 else 0)
      ensures curIndex == old(curIndex) + (if r == 0 then 1 else 0)
      ensures data[..] == InsertF(old(data[..]), old(curIndex), value)
    {
      if curIndex == capacity {
        return -1;
      }
      data[curIndex] := value;
      curIndex := curIndex + 1;
      UpHeapify(curIndex - 1);
      return 0;
    }

    /** `pop` exactly as written: -1 when empty, otherwise 0 with the root
        swapped to the end and the faulty sift-down applied. */
    method PopAsWritten() returns (r: int)
      requires Valid()
      modifies this`curIndex, data
      ensures Valid()
      ensures r == (if old(curIndex) == 0 then -1 else 0)
      ensures curIndex == old(curIndex) - (if r == 0 then 1 else 0)
      ensures data[..] == PopAsWrittenF(old(data[..]), old(curIndex))
    {
      if curIndex == 0 {
        return -1;
      }
      SwapCells(0, curIndex - 1);
      curIndex := curIndex - 1;
      DownHeapifyAsWrittenM(0);
      return 0;
    }

    /** `pop` with the intended sift-down. */
    method Pop() returns (r: int)
      requires Valid()
      modifies this`curIndex, data
      ensures Valid()
      ensures r == (if old(curIndex) == 0 then -1 else 0)
      ensures curIndex == old(curIndex) - (if r == 0 then 1 else 0)
      ensures data[..] == PopF(old(data[..]), old(curIndex))
    {
      if curIndex == 0 {
        return -1;
      }
      SwapCells(0, curIndex - 1);
      curIndex := curIndex - 1;
      DownHeapifyM(0);
      return 0;
    }
  }
}
