// Model of Data_Struct_Implementation/insertionSort/insertionSort.c: the
// first `size` cells of an int array are sorted in place by inserting each
// cell, in turn, into the sorted run before it.
module InsertionSort {

  import opened SortSpec

  /** Inserting `v` into `s` the way the inner loop does: scanning from
      the right end, every element greater than `v` moves one cell to the
      right, and `v` lands just after the first element (from the right)
      that is at most `v`, or at the front. */
  function InsertRight(s: seq<int>, v: int): (r: seq<int>)
    ensures |r| == |s| + 1
  {
    if s == [] then [v]
    else if s[|s| - 1] <= v then s + [v]
    else InsertRight(s[..|s| - 1], v) + [s[|s| - 1]]
  }

  /** Insertion sort as a function: the last element is inserted into the
      sorted rest. */
  function Sort(s: seq<int>): (r: seq<int>)
    ensures |r| == |s|
  {
    if s == [] then [] else InsertRight(Sort(s[..|s| - 1]), s[|s| - 1])
  }

  /** The scan stops at cell `j` exactly when the cell before it (if any)
      is at most `v` and every cell from `j` on is greater: then `v` goes
      in at `j`. */
  lemma {:induction false} InsertRightAt(s: seq<int>, v: int, j: nat)
    requires j <= |s| && (j == 0 || s[j - 1] <= v)
    requires forall k :: j <= k < |s| ==> s[k] > v
    ensures InsertRight(s, v) == s[..j] + [v] + s[j..]
    decreases |s|
  {
    if j < |s| {
      var u := s[..|s| - 1];
      assert u[..j] == s[..j] && (j == 0 || u[j - 1] <= v);
      InsertRightAt(u, v, j);
      assert s[j..] == u[j..] + [s[|s| - 1]];
    } else if s != [] {
      assert s[..j] == s && s[j..] == [];
    }
  }

  /** Inserting loses and invents nothing. */
  lemma {:induction false} InsertRightPermutes(s: seq<int>, v: int)
    ensures multiset(InsertRight(s, v)) == multiset(s) + multiset{v}
    decreases |s|
  {
    if s != [] && s[|s| - 1] > v {
      var u := s[..|s| - 1];
      InsertRightPermutes(u, v);
      assert s == u + [s[|s| - 1]];
    }
  }

  /** Inserting into a sorted run keeps it sorted. */
  lemma {:induction false} InsertRightSorted(s: seq<int>, v: int)
    requires Sorted(s)
    ensures Sorted(InsertRight(s, v))
    decreases |s|
  {
    if s != [] && s[|s| - 1] > v {
      var u, last := s[..|s| - 1], s[|s| - 1];
      var w := InsertRight(u, v);
      assert Sorted(u) by {
        assert forall k :: 0 <= k < |u| ==> u[k] == s[k];
      }
      InsertRightSorted(u, v);
      assert multiset(u + [v]) == multiset(w) by {
        InsertRightPermutes(u, v);
      }
      assert AllAtMost(u + [v], last) by {
        assert forall k :: 0 <= k < |u| ==> u[k] == s[k] <= last;
      }
      PermutedBounds(u + [v], w, last);
      SortedConcat(w, [last], last);
      assert InsertRight(s, v) == w + [last];
    }
  }

  /** The function sorts: the result is in order and holds the same
      elements. */
  lemma {:induction false} SortSorts(s: seq<int>)
    ensures Sorted(Sort(s)) && multiset(Sort(s)) == multiset(s)
    decreases |s|
  {
    if s != [] {
      var u := s[..|s| - 1];
      SortSorts(u);
      InsertRightSorted(Sort(u), s[|s| - 1]);
      InsertRightPermutes(Sort(u), s[|s| - 1]);
      assert s == u + [s[|s| - 1]];
    }
  }

  /** One round of the outer loop: cell `i` is saved in `temp`, the cells
      before it that exceed it move right one by one, the scan stopping
      (the `break`) at the first cell that is at most `temp`, and `temp`
      is written into the gap. */
  method InsertCell(a: array<int>, i: nat)
    requires i < a.Length
    modifies a
    ensures a[..i + 1] == InsertRight(old(a[..i]), old(a[i]))
    ensures a[i + 1..] == old(a[i + 1..])
  {
    ghost var a0 := a[..];
    var temp := a[i];
    var j := i;
    while j >= 1
      invariant 0 <= j <= i
      invariant forall k :: 0 <= k < j ==> a[k] == a0[k]
      invariant forall k :: j < k <= i ==> a[k] == a0[k - 1]
      invariant forall k :: i < k < a.Length ==> a[k] == a0[k]
      invariant forall k :: j <= k < i ==> a0[k] > temp
    {
      if a[j - 1] <= temp {
        break;
      }
      a[j] := a[j - 1];
      j := j - 1;
    }
    a[j] := temp;
    ghost var p := a0[..i];
    InsertRightAt(p, temp, j);
    assert a[..i + 1] == p[..j] + [temp] + p[j..];
    assert a[i + 1..] == a0[i + 1..];
  }

  /** `insertionSort`: the first `size` cells end up as the function
      `Sort` of what they held, that is sorted and holding the same
      elements; the rest of the array does not change. */
  method InsertionSortArray(a: array<int>, size: nat)
    requires size <= a.Length
    modifies a
    ensures a[..size] == Sort(old(a[..size]))
    ensures Sorted(a[..size]) && multiset(a[..size]) == multiset(old(a[..size]))
    ensures a[size..] == old(a[size..])
  {
    ghost var a0 := a[..];
    var i := 0;
    while i < size
      invariant 0 <= i <= size
      invariant a[..i] == Sort(a0[..i])
      invariant a[i..] == a0[i..]
    {
      ghost var before := a[..];
      assert before[..i] == Sort(a0[..i]);
      assert before[i] == a0[i] && before[i + 1..] == a0[i + 1..] by {
        assert a[i..][0] == a[i] && a[i..][1..] == a[i + 1..];
      }
      InsertCell(a, i);
      assert a[..i + 1] == InsertRight(Sort(a0[..i]), a0[i]);
      assert a[..i + 1] == Sort(a0[..i + 1]) by {
        ghost var t := a0[..i + 1];
        assert t[..i] == a0[..i] && t[i] == a0[i];
      }
      assert a[i + 1..] == a0[i + 1..];
      i := i + 1;
    }
    assert a0[..size] == old(a[..size]) && a0[size..] == old(a[size..]);
    SortSorts(a0[..size]);
  }
}
