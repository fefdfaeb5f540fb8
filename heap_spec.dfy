// Index arithmetic and the max-heap property shared by the two array heaps
// (Data_Struct_Implementation/binaryHeap/binaryHeap.c and binaryHeap_2.c).
module HeapSpec {

  import opened SortSpec

  /** `(i - 1) / 2` with C's division, which truncates toward zero: the
      parent of the root is the root itself. */
  function Parent(i: nat): (p: nat)
    ensures i == 0 ==> p == 0
    ensures i > 0 ==> p < i && (i == 2 * p + 1 || i == 2 * p + 2)
  {
    if i == 0 then 0 else (i - 1) / 2
  }

  function LeftChild(i: nat): nat { 2 * i + 1 }

  function RightChild(i: nat): nat { 2 * i + 2 }

  /** Both children of a node name it as their parent. */
  lemma ChildrenParent(i: nat)
    ensures Parent(LeftChild(i)) == i && Parent(RightChild(i)) == i
    ensures LeftChild(i) > i && RightChild(i) == LeftChild(i) + 1
  {
  }

  /** The first n cells form a max-heap: no node exceeds its parent. */
  ghost predicate IsHeap(s: seq<int>, n: nat)
    requires n <= |s|
  {
    forall j {:trigger Parent(j)} :: 0 < j < n ==> s[Parent(j)] >= s[j]
  }

  /** The root of a heap is at least every element of it. */
  lemma {:induction false} RootIsMax(s: seq<int>, n: nat, j: nat)
    requires n <= |s| && IsHeap(s, n) && j < n
    ensures s[0] >= s[j]
    decreases j
  {
    if j > 0 {
      RootIsMax(s, n, Parent(j));
    }
  }

  /** A heap except that the children of node `i` may exceed it: the shape
      `heapify` repairs. */
  ghost predicate HeapBelow(s: seq<int>, n: nat, i: nat)
    requires n <= |s|
  {
    forall j {:trigger Parent(j)} :: 0 < j < n && Parent(j) != i ==> s[Parent(j)] >= s[j]
  }

  /** A heap except that node `k` may exceed its parent: the shape of the
      sift-up loop of `insert`. */
  ghost predicate HeapAbove(s: seq<int>, n: nat, k: nat)
    requires n <= |s|
  {
    forall j {:trigger Parent(j)} :: 0 < j < n && j != k ==> s[Parent(j)] >= s[j]
  }

  /** The parent of a non-root node `i` bounds the children of `i`, so that
      moving `i` away keeps the heap shape around it. */
  ghost predicate GrandparentBounds(s: seq<int>, n: nat, i: nat)
    requires n <= |s|
  {
    0 < i < n ==> forall j {:trigger Parent(j)} :: 0 < j < n && Parent(j) == i ==> s[Parent(i)] >= s[j]
  }

  /** `x` is a largest element of `m`. */
  ghost predicate IsMaxOf(m: multiset<int>, x: int)
  {
    x in m && forall v :: v in m ==> x >= v
  }

  /** The root of a non-empty heap is its largest element. */
  lemma {:induction false} RootIsMaxOf(s: seq<int>, n: nat)
    requires 0 < n <= |s| && IsHeap(s, n)
    ensures IsMaxOf(multiset(s[..n]), s[0])
  {
    forall v | v in multiset(s[..n])
      ensures s[0] >= v
    {
      var j :| 0 <= j < n && s[j] == v;
      RootIsMax(s, n, j);
    }
  }

  /** Moving the last element of a heap into the root leaves a shape that
      sifting down from the root repairs, holding every element but the
      old root. */
  lemma {:induction false} RemoveRoot(s: seq<int>, n: nat)
    requires 0 < n <= |s| && IsHeap(s, n)
    ensures HeapBelow(s[0 := s[n - 1]], n - 1, 0) && GrandparentBounds(s[0 := s[n - 1]], n - 1, 0)
    ensures multiset(s[0 := s[n - 1]][..n - 1]) == multiset(s[..n]) - multiset{s[0]}
  {
    var t := s[0 := s[n - 1]];
    if n > 1 {
      assert s[..n] == ([s[0]] + s[1..n - 1]) + [s[n - 1]];
      assert t[..n - 1] == [s[n - 1]] + s[1..n - 1];
      ThreeParts(s[0], s[1..n - 1], s[n - 1]);
    } else {
      assert s[..n] == [s[0]];
    }
    forall j | 0 < j < n - 1 && Parent(j) != 0
      ensures t[Parent(j)] >= t[j]
    {
      assert t[j] == s[j] && t[Parent(j)] == s[Parent(j)];
    }
  }

  /** Writing a value into the first free cell of a heap leaves a shape
      that sifting up from that cell repairs, holding one more element. */
  lemma {:induction false} PlaceAtEnd(s: seq<int>, n: nat, v: int)
    requires n < |s| && IsHeap(s, n)
    ensures HeapAbove(s[n := v], n + 1, n) && GrandparentBounds(s[n := v], n + 1, n)
    ensures multiset(s[n := v][..n + 1]) == multiset(s[..n]) + multiset{v}
    ensures s[n := v][n + 1..] == s[n + 1..]
  {
    var t := s[n := v];
    assert t[..n + 1] == s[..n] + [v];
    forall j | 0 < j < n + 1 && j != n
      ensures t[Parent(j)] >= t[j]
    {
      assert t[j] == s[j] && t[Parent(j)] == s[Parent(j)];
    }
  }

  /** Swapping the root of a non-empty heap with its last element and
      shrinking the range leaves a shape that sifting down from the root
      repairs. */
  lemma {:induction false} SwapRootToEnd(s: seq<int>, n: nat)
    requires 0 < n <= |s| && IsHeap(s, n)
    ensures HeapBelow(Swap(s, 0, n - 1), n - 1, 0) && GrandparentBounds(Swap(s, 0, n - 1), n - 1, 0)
  {
    var t := Swap(s, 0, n - 1);
    forall j | 0 < j < n - 1 && Parent(j) != 0
      ensures t[Parent(j)] >= t[j]
    {
      assert t[j] == s[j] && t[Parent(j)] == s[Parent(j)];
    }
  }

  /** After that swap the shrunk range holds every element but the old
      root, which sits just past it. */
  lemma {:induction false} SwapRootToEndElements(s: seq<int>, n: nat)
    requires 0 < n <= |s|
    ensures multiset(Swap(s, 0, n - 1)[..n - 1]) == multiset(s[..n]) - multiset{s[0]}
    ensures Swap(s, 0, n - 1)[n - 1..] == [s[0]] + s[n..]
  {
    var u := s[0 := s[n - 1]];
    var t := u[n - 1 := s[0]];
    assert Swap(s, 0, n - 1) == t;
    assert t[..n - 1] == u[..n - 1];
    assert t[n - 1..] == [s[0]] + s[n..];
    if n > 1 {
      var mid := s[1..n - 1];
      assert s[..n] == ([s[0]] + mid) + [s[n - 1]];
      assert u[..n - 1] == [s[n - 1]] + mid;
      ThreeParts(s[0], mid, s[n - 1]);
    } else {
      assert s[..n] == [s[0]];
    }
  }

  lemma {:induction false} ThreeParts(a: int, mid: seq<int>, b: int)
    ensures multiset([b] + mid) == multiset(([a] + mid) + [b]) - multiset{a}
  {
    assert multiset(([a] + mid) + [b]) == multiset{a} + multiset(mid) + multiset{b};
    assert multiset([b] + mid) == multiset{b} + multiset(mid);
  }

  /** The order of the two cells does not matter. */
  lemma SwapSymmetric(s: seq<int>, i: nat, j: nat)
    requires i < |s| && j < |s|
    ensures Swap(s, i, j) == Swap(s, j, i)
  {
  }

  /** Swapping two cells of a prefix permutes the prefix and leaves what
      lies beyond it alone. */
  lemma {:induction false} SwapPrefix(s: seq<int>, i: nat, j: nat, n: nat)
    requires i < n && j < n && n <= |s|
    ensures multiset(Swap(s, i, j)[..n]) == multiset(s[..n])
    ensures Swap(s, i, j)[n..] == s[n..]
  {
    assert Swap(s, i, j)[..n] == Swap(s[..n], i, j);
  }

  /** One step of sifting down: swapping node `i` with its largest child
      `c`, which exceeds it, moves the broken spot to `c`. */
  lemma {:induction false} SiftDownStep(s: seq<int>, n: nat, i: nat, c: nat)
    requires n <= |s| && i < c < n && Parent(c) == i && s[c] > s[i]
    requires forall j {:trigger Parent(j)} :: 0 < j < n && Parent(j) == i ==> s[c] >= s[j]
    requires HeapBelow(s, n, i) && GrandparentBounds(s, n, i)
    ensures HeapBelow(Swap(s, i, c), n, c) && GrandparentBounds(Swap(s, i, c), n, c)
  {
    var t := Swap(s, i, c);
    forall j | 0 < j < n && Parent(j) != c
      ensures t[Parent(j)] >= t[j]
    {
      if j == c {
      } else if Parent(j) == i {
      } else if j == i {
      } else {
        assert t[j] == s[j];
      }
    }
  }

  /** Sifting down stops once no child of `i` exceeds it: then the whole
      range is a heap. */
  lemma {:induction false} SiftDownDone(s: seq<int>, n: nat, i: nat)
    requires n <= |s| && HeapBelow(s, n, i)
    requires forall j {:trigger Parent(j)} :: 0 < j < n && Parent(j) == i ==> s[i] >= s[j]
    ensures IsHeap(s, n)
  {
    forall j | 0 < j < n
      ensures s[Parent(j)] >= s[j]
    {
      if Parent(j) == i {
      }
    }
  }

  /** One step of sifting up: swapping node `k` with its smaller parent
      moves the broken spot to the parent. */
  lemma {:induction false} SiftUpStep(s: seq<int>, n: nat, k: nat)
    requires n <= |s| && 0 < k < n && s[Parent(k)] < s[k]
    requires HeapAbove(s, n, k) && GrandparentBounds(s, n, k)
    ensures HeapAbove(Swap(s, Parent(k), k), n, Parent(k))
    ensures GrandparentBounds(Swap(s, Parent(k), k), n, Parent(k))
  {
    var p := Parent(k);
    var t := Swap(s, p, k);
    forall j | 0 < j < n && j != p
      ensures t[Parent(j)] >= t[j]
    {
      if j == k {
      } else if Parent(j) == k {
      } else if Parent(j) == p {
      } else {
        assert t[j] == s[j];
      }
    }
    if 0 < p {
      forall j | 0 < j < n && Parent(j) == p
        ensures t[Parent(p)] >= t[j]
      {
        assert s[Parent(p)] >= s[p];
        if j != k {
          assert s[p] >= s[j];
        }
      }
    }
  }

  /** Sifting up stops at the root or below a parent at least as large:
      then the whole range is a heap. */
  lemma SiftUpDone(s: seq<int>, n: nat, k: nat)
    requires n <= |s| && k < n && HeapAbove(s, n, k)
    requires k > 0 ==> s[Parent(k)] >= s[k]
    ensures IsHeap(s, n)
  {
  }
}
