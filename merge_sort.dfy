// Model of Data_Struct_Implementation/mergeSort/mergesort.c: top-down merge
// sort of an int array in place. Each run is split after its middle cell,
// both halves are sorted, and `merge_helper` merges them through a
// temporary array that is then copied back over the run.
module MergeSort {

  import opened SortSpec

  /** The merge of `merge_helper`: the smaller head goes first, and on a tie
      the head of the left run. */
  function Merge(x: seq<int>, y: seq<int>): (r: seq<int>)
    ensures |r| == |x| + |y|
    decreases |x| + |y|
  {
    if x == [] then y
    else if y == [] then x
    else if x[0] > y[0] then [y[0]] + Merge(x, y[1..])
    else [x[0]] + Merge(x[1..], y)
  }

  /** Merging loses and invents nothing. */
  lemma {:induction false} MergePermutes(x: seq<int>, y: seq<int>)
    ensures multiset(Merge(x, y)) == multiset(x) + multiset(y)
    decreases |x| + |y|
  {
    if |x| > 0 && |y| > 0 {
      if x[0] > y[0] {
        MergePermutes(x, y[1..]);
        MergeTakesRight(x, y);
      } else {
        MergePermutes(x[1..], y);
        MergeTakesLeft(x, y);
      }
    }
  }

  lemma {:induction false} MergeTakesRight(x: seq<int>, y: seq<int>)
    requires x != [] && y != [] && x[0] > y[0]
    ensures multiset(Merge(x, y)) == multiset{y[0]} + multiset(Merge(x, y[1..]))
    ensures multiset(y) == multiset{y[0]} + multiset(y[1..])
  {
    assert Merge(x, y) == [y[0]] + Merge(x, y[1..]);
    assert y == [y[0]] + y[1..];
  }

  lemma {:induction false} MergeTakesLeft(x: seq<int>, y: seq<int>)
    requires x != [] && y != [] && x[0] <= y[0]
    ensures multiset(Merge(x, y)) == multiset{x[0]} + multiset(Merge(x[1..], y))
    ensures multiset(x) == multiset{x[0]} + multiset(x[1..])
  {
    assert Merge(x, y) == [x[0]] + Merge(x[1..], y);
    assert x == [x[0]] + x[1..];
  }

  /** A lower bound on both runs bounds their merge. */
  lemma {:induction false} MergeAtLeast(x: seq<int>, y: seq<int>, b: int)
    requires AllAtLeast(x, b) && AllAtLeast(y, b)
    ensures AllAtLeast(Merge(x, y), b)
    decreases |x| + |y|
  {
    if |x| > 0 && |y| > 0 {
      if x[0] > y[0] {
        MergeAtLeast(x, y[1..], b);
      } else {
        MergeAtLeast(x[1..], y, b);
      }
    }
  }

  /** Merging two sorted runs gives one sorted run. */
  lemma {:induction false} MergeSorted(x: seq<int>, y: seq<int>)
    requires Sorted(x) && Sorted(y)
    ensures Sorted(Merge(x, y))
    decreases |x| + |y|
  {
    if |x| > 0 && |y| > 0 {
      if x[0] > y[0] {
        MergeSorted(x, y[1..]);
        MergeAtLeast(x, y[1..], y[0]);
        SortedCons(y[0], Merge(x, y[1..]));
      } else {
        MergeSorted(x[1..], y);
        MergeAtLeast(x[1..], y, x[0]);
        SortedCons(x[0], Merge(x[1..], y));
      }
    }
  }

  lemma SortedCons(v: int, t: seq<int>)
    requires Sorted(t) && AllAtLeast(t, v)
    ensures Sorted([v] + t)
  {
  }

  /** Runs already in order merge into their concatenation: the merge
      leaves the left run first when nothing in the right run is smaller. */
  lemma {:induction false} MergeOrdered(x: seq<int>, y: seq<int>)
    requires Sorted(x + y)
    ensures Merge(x, y) == x + y
    decreases |x|
  {
    if |x| > 0 && |y| > 0 {
      assert (x + y)[0] == x[0] && (x + y)[|x|] == y[0];
      assert x[1..] + y == (x + y)[1..];
      MergeOrdered(x[1..], y);
      assert [x[0]] + (x[1..] + y) == x + y;
    }
  }

  /** The three loops of `merge_helper` that fill its temporary buffer,
      written front to back: while both runs have cells the smaller head is
      taken (the left one on a tie), then the rest of whichever run is
      left. */
  method MergeRuns(x: seq<int>, y: seq<int>) returns (arr: seq<int>)
    ensures arr == Merge(x, y)
  {
    var i, j := 0, 0;
    arr := [];
    while i < |x| && j < |y|
      invariant 0 <= i <= |x| && 0 <= j <= |y| && |arr| == i + j
      invariant arr + Merge(x[i..], y[j..]) == Merge(x, y)
    {
      ghost var xs, ys := x[i..], y[j..];
      assert xs[0] == x[i] && ys[0] == y[j];
      if x[i] > y[j] {
        assert ys[1..] == y[j + 1..];
        assert Merge(xs, ys) == [y[j]] + Merge(xs, y[j + 1..]);
        assert (arr + [y[j]]) + Merge(xs, y[j + 1..]) == arr + Merge(xs, ys);
        arr := arr + [y[j]];
        j := j + 1;
      } else {
        assert xs[1..] == x[i + 1..];
        assert Merge(xs, ys) == [x[i]] + Merge(x[i + 1..], ys);
        assert (arr + [x[i]]) + Merge(x[i + 1..], ys) == arr + Merge(xs, ys);
        arr := arr + [x[i]];
        i := i + 1;
      }
    }
    if i == |x| {
      assert x[i..] == [];
    } else {
      assert y[j..] == [];
    }
    arr := CopyRest(arr, x[i..]);
    arr := CopyRest(arr, y[j..]);
  }

  /** The loops of `merge_helper` that copy what is left of one run to the
      end of the buffer, cell by cell. */
  method CopyRest(arr: seq<int>, rest: seq<int>) returns (out: seq<int>)
    ensures out == arr + rest
  {
    out := arr;
    var i := 0;
    while i < |rest|
      invariant 0 <= i <= |rest| && out == arr + rest[..i]
    {
      assert rest[..i + 1] == rest[..i] + [rest[i]];
      out := out + [rest[i]];
      i := i + 1;
    }
    assert rest[..i] == rest;
  }

  /** `s` is `s0` with `[lo, hi)` replaced by the merge of `s0`'s runs
      `[lo, mid)` and `[mid, hi)`. */
  ghost predicate MergedRun(s: seq<int>, s0: seq<int>, lo: nat, mid: nat, hi: nat)
    requires lo <= mid <= hi <= |s0|
  {
    && |s| == |s0|
    && s[lo..hi] == Merge(s0[lo..mid], s0[mid..hi])
    && forall t :: 0 <= t < |s| && !(lo <= t < hi) ==> s[t] == s0[t]
  }

  /** `merge_helper`: merges `[stA, stB)` and `[stB, stA + size)` into the
      temporary buffer, then copies it back over the run; no other cell
      changes. */
  method MergeHelper(a: array<int>, stA: nat, stB: nat, size: nat)
    requires stA <= stB <= stA + size <= a.Length
    modifies a
    ensures MergedRun(a[..], old(a[..]), stA, stB, stA + size)
  {
    ghost var a0 := a[..];
    var arr := MergeRuns(a[stA..stB], a[stB..stA + size]);
    assert a[stA..stB] == a0[stA..stB] && a[stB..stA + size] == a0[stB..stA + size];
    var k := 0;
    while k < size
      invariant 0 <= k <= size
      invariant forall t :: stA <= t < stA + k ==> a[t] == arr[t - stA]
      invariant forall t :: 0 <= t < stA ==> a[t] == a0[t]
      invariant forall t :: stA + k <= t < a.Length ==> a[t] == a0[t]
    {
      a[stA + k] := arr[k];
      k := k + 1;
    }
    assert a[..][stA..stA + size] == arr;
  }

  /** `sort_helper` on the inclusive range `[st, end]`: the range ends up
      sorted, holding the same elements, and the cells outside it do not
      change. The left half ends at the middle cell `(end - st) / 2 + st`. */
  method SortHelper(a: array<int>, st: int, end: int)
    requires 0 <= st <= end + 1 <= a.Length
    modifies a
    ensures SortedRun(a[..], old(a[..]), st, end + 1)
    decreases end - st, 2
  {
    var mid := (end - st) / 2 + st;
    if st < end {
      SortAndMerge(a, st, mid, end);
    } else {
      ShortRunSorted(a[..], st, end + 1);
    }
  }

  /** The body of `sort_helper` for a range of two cells or more: sort
      both halves, then merge `[st, mid]` with `[mid + 1, end]`, a run of
      `end - st + 1` cells. */
  method SortAndMerge(a: array<int>, st: int, mid: int, end: int)
    requires 0 <= st <= mid < end < a.Length
    modifies a
    ensures SortedRun(a[..], old(a[..]), st, end + 1)
    decreases end - st, 1
  {
    ghost var s0 := a[..];
    SortHalves(a, st, mid, end);
    ghost var s2 := a[..];
    var size := end - st + 1;
    MergeHelper(a, st, mid + 1, size);
    SortStep(s0, s2, a[..], st, mid + 1, end + 1, st + size);
  }

  /** `s` is `s0` with both `[lo, mid)` and `[mid, hi)` sorted. */
  ghost predicate HalvesSorted(s: seq<int>, s0: seq<int>, lo: nat, mid: nat, hi: nat)
    requires lo <= mid <= hi <= |s0|
  {
    && |s| == |s0|
    && Sorted(s[lo..mid]) && multiset(s[lo..mid]) == multiset(s0[lo..mid])
    && Sorted(s[mid..hi]) && multiset(s[mid..hi]) == multiset(s0[mid..hi])
    && forall t :: 0 <= t < |s| && !(lo <= t < hi) ==> s[t] == s0[t]
  }

  /** The two recursive calls of `sort_helper`: `[st, mid]`, then
      `[mid + 1, end]`. */
  method SortHalves(a: array<int>, st: int, mid: int, end: int)
    requires 0 <= st <= mid < end < a.Length
    modifies a
    ensures HalvesSorted(a[..], old(a[..]), st, mid + 1, end + 1)
    decreases end - st, 0
  {
    ghost var s0 := a[..];
    SortHelper(a, st, mid);
    ghost var s1 := a[..];
    SortHelper(a, mid + 1, end);
    BothHalves(s0, s1, a[..], st, mid + 1, end + 1);
  }

  /** Sorting one half and then the other leaves both sorted. */
  lemma {:induction false} BothHalves(s0: seq<int>, s1: seq<int>, s2: seq<int>, lo: nat, mid: nat, hi: nat)
    requires lo <= mid <= hi <= |s0|
    ensures SortedRun(s1, s0, lo, mid) && SortedRun(s2, s1, mid, hi) ==> HalvesSorted(s2, s0, lo, mid, hi)
  {
    if SortedRun(s1, s0, lo, mid) && SortedRun(s2, s1, mid, hi) {
      Untouched(s2, s1, mid, hi, lo, mid);
      Untouched(s1, s0, lo, mid, mid, hi);
    }
  }

  /** Merging two sorted halves sorts the run; `hi'` is the end of the
      run as `merge_helper` computes it, `stA + size`. */
  lemma {:induction false} SortStep(s0: seq<int>, s2: seq<int>, s3: seq<int>, lo: nat, mid: nat, hi: nat, hi': nat)
    requires lo <= mid <= hi <= |s0| && hi' == hi
    ensures HalvesSorted(s2, s0, lo, mid, hi) && MergedRun(s3, s2, lo, mid, hi') ==> SortedRun(s3, s0, lo, hi)
  {
    if HalvesSorted(s2, s0, lo, mid, hi) && MergedRun(s3, s2, lo, mid, hi') {
      SortStepHolds(s0, s2, s3, lo, mid, hi);
    }
  }

  /** The same, for inputs known to meet both facts. */
  lemma {:induction false} SortStepHolds(s0: seq<int>, s2: seq<int>, s3: seq<int>, lo: nat, mid: nat, hi: nat)
    requires lo <= mid <= hi <= |s0|
    requires HalvesSorted(s2, s0, lo, mid, hi)
    requires MergedRun(s3, s2, lo, mid, hi)
    ensures SortedRun(s3, s0, lo, hi)
  {
    var x, y := s2[lo..mid], s2[mid..hi];
    MergeSorted(x, y);
    MergedMultiset(s0, s3, x, y, lo, mid, hi);
  }

  /** The merge of two runs holding the elements of `s0`'s `[lo, mid)` and
      `[mid, hi)` holds the elements of `s0`'s `[lo, hi)`. */
  lemma {:induction false} MergedMultiset(s0: seq<int>, s3: seq<int>, x: seq<int>, y: seq<int>, lo: nat, mid: nat, hi: nat)
    requires lo <= mid <= hi <= |s0| == |s3| && s3[lo..hi] == Merge(x, y)
    requires multiset(x) == multiset(s0[lo..mid]) && multiset(y) == multiset(s0[mid..hi])
    ensures multiset(s3[lo..hi]) == multiset(s0[lo..hi])
  {
    MergePermutes(x, y);
    assert multiset(s0[lo..hi]) == multiset(s0[lo..mid]) + multiset(s0[mid..hi]) by {
      assert s0[lo..hi] == s0[lo..mid] + s0[mid..hi];
    }
  }

  /** `mergesort`: the first `size` cells end up sorted, holding the same
      elements; the rest of the array does not change. */
  method MergeSortArray(a: array<int>, size: nat)
    requires size <= a.Length
    modifies a
    ensures Sorted(a[..size]) && multiset(a[..size]) == multiset(old(a[..size]))
    ensures a[size..] == old(a[size..])
  {
    SortHelper(a, 0, size - 1);
    assert a[..][..size] == a[..size];
  }
}
