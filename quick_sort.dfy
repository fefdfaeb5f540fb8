// Model of Data_Struct_Implementation/quickSort/quicksort.c: quicksort of an
// int array in place, partitioning the inclusive range [st, end] around the
// value of its middle cell with two indices that move towards each other
// and swap the cells they stop at.
//
// The partition loop stops either with the indices crossed (right + 1 ==
// left, after a swap) or with both on one cell m. In the second case the
// source still recurses on [st, m - 1] and [m + 1, end], so cell m is never
// compared with the rest: QuickSortAsWritten models that and
// AsWrittenMissesCell exhibits an input it leaves unsorted. QuickSort is the
// corrected recursion, which puts m on the side its value belongs to.
module QuickSort {

  import opened SortSpec

  /** The cells after a partition and where its two indices stopped. */
  datatype Cut = Cut(s: seq<int>, left: int, right: int)

  /** The first inner loop: `left` moves up past cells below the pivot,
      never past `right`. */
  function ScanUp(s: seq<int>, left: int, right: int, p: int): (r: int)
    requires 0 <= left && right < |s|
    ensures left <= r && (left <= right ==> r <= right) && (left >= right ==> r == left)
    decreases right - left
  {
    if left < right && s[left] < p then ScanUp(s, left + 1, right, p) else left
  }

  /** Every cell `left` passed is below the pivot, and it stopped before
      `right` only at one that is not. */
  lemma {:induction false} ScanUpStops(s: seq<int>, left: int, right: int, p: int)
    requires 0 <= left && right < |s|
    ensures var r := ScanUp(s, left, right, p);
            && (forall t :: left <= t < r ==> s[t] < p)
            && (r < right ==> s[r] >= p)
    decreases right - left
  {
    if left < right && s[left] < p {
      ScanUpStops(s, left + 1, right, p);
    }
  }

  /** The second inner loop: `right` moves down past cells above the pivot,
      never past `left`. */
  function ScanDown(s: seq<int>, left: int, right: int, p: int): (r: int)
    requires 0 <= left && right < |s|
    ensures r <= right && (left <= right ==> left <= r) && (left >= right ==> r == right)
    decreases right - left
  {
    if left < right && s[right] > p then ScanDown(s, left, right - 1, p) else right
  }

  /** Every cell `right` passed is above the pivot, and it stopped after
      `left` only at one that is not. */
  lemma {:induction false} ScanDownStops(s: seq<int>, left: int, right: int, p: int)
    requires 0 <= left && right < |s|
    ensures var r := ScanDown(s, left, right, p);
            && (forall t :: r < t <= right ==> s[t] > p)
            && (left < r ==> s[r] <= p)
    decreases right - left
  {
    if left < right && s[right] > p {
      ScanDownStops(s, left, right - 1, p);
    }
  }

  /** One pass of the outer `while (left < right)` loop of `sort_helper`
      with pivot value `p`: both scans, then a swap of the cells they stopped
      at when they have not met. The range left to partition shrinks. */
  function Step(s: seq<int>, left: int, right: int, p: int): (c: Cut)
    requires 0 <= left < right < |s|
    ensures |c.s| == |s|
    ensures left <= c.left <= c.right + 1 && c.right <= right
    ensures c.right - c.left < right - left
  {
    var l := ScanUp(s, left, right, p);
    var r := ScanDown(s, l, right, p);
    if l < r then Cut(Swap(s, l, r), l + 1, r - 1) else Cut(s, l, r)
  }

  /** A pass only swaps, and only inside `[left, right]`. */
  lemma {:induction false} StepPermutes(s: seq<int>, left: int, right: int, p: int)
    requires 0 <= left < right < |s|
    ensures var c := Step(s, left, right, p);
            && multiset(c.s) == multiset(s)
            && forall t :: 0 <= t < |s| && !(left <= t <= right) ==> c.s[t] == s[t]
  {
    var l := ScanUp(s, left, right, p);
    var r := ScanDown(s, l, right, p);
    if l < r {
      SwapPermutes(s, l, r);
    }
  }

  /** What the indices passed is at most `p` on the left and at least `p`
      on the right. */
  lemma {:induction false} StepBounds(s: seq<int>, left: int, right: int, p: int)
    requires 0 <= left < right < |s|
    ensures var c := Step(s, left, right, p);
            && (forall t :: left <= t < c.left ==> c.s[t] <= p)
            && (forall t :: c.right < t <= right ==> c.s[t] >= p)
  {
    var l := ScanUp(s, left, right, p);
    ScanUpStops(s, left, right, p);
    ScanDownStops(s, l, right, p);
  }

  /** An index that did not move means no swap happened, the other index
      came all the way to it, and every cell it passed was strictly on its
      side of `p`. */
  lemma {:induction false} StepUnmoved(s: seq<int>, left: int, right: int, p: int)
    requires 0 <= left < right < |s|
    ensures var c := Step(s, left, right, p);
            && (c.left == left ==> c.s == s && c.right == left && forall t :: left < t <= right ==> s[t] > p)
            && (c.right == right ==> c.s == s && c.left == right && forall t :: left <= t < right ==> s[t] < p)
  {
    var l := ScanUp(s, left, right, p);
    ScanUpStops(s, left, right, p);
    ScanDownStops(s, l, right, p);
  }

  /** The whole outer loop: passes until the indices meet or cross. They
      end inside the range when it had two cells or more. */
  function Partition(s: seq<int>, left: int, right: int, p: int): (c: Cut)
    requires 0 <= left <= right + 1 && right < |s|
    ensures |c.s| == |s|
    ensures left <= c.left && c.right <= right
    ensures c.left == c.right || c.left == c.right + 1
    ensures left < right ==> c.left <= right && left <= c.right
    decreases right - left
  {
    if left >= right then Cut(s, left, right)
    else
      var d := Step(s, left, right, p);
      Partition(d.s, d.left, d.right, p)
  }

  /** Partitioning changes no cell outside `[left, right]`. */
  lemma {:induction false} PartitionFrame(s: seq<int>, left: int, right: int, p: int)
    requires 0 <= left <= right + 1 && right < |s|
    ensures var c := Partition(s, left, right, p);
            forall t :: 0 <= t < |s| && !(left <= t <= right) ==> c.s[t] == s[t]
    decreases right - left
  {
    if left < right {
      var d := Step(s, left, right, p);
      StepPermutes(s, left, right, p);
      PartitionFrame(d.s, d.left, d.right, p);
    }
  }

  /** Everything left of the final `left` is at most `p`, everything right
      of the final `right` at least `p`. */
  lemma {:induction false} PartitionBounds(s: seq<int>, left: int, right: int, p: int)
    requires 0 <= left <= right + 1 && right < |s|
    ensures var c := Partition(s, left, right, p);
            && (forall t :: left <= t < c.left ==> c.s[t] <= p)
            && (forall t :: c.right < t <= right ==> c.s[t] >= p)
    decreases right - left
  {
    if left < right {
      var d := Step(s, left, right, p);
      StepBounds(s, left, right, p);
      PartitionBounds(d.s, d.left, d.right, p);
      PartitionFrame(d.s, d.left, d.right, p);
    }
  }

  /** An index that never moved means no swap happened and the scan from
      the other side passed every other cell. */
  lemma {:induction false} PartitionUnmoved(s: seq<int>, left: int, right: int, p: int)
    requires 0 <= left <= right + 1 && right < |s|
    ensures var c := Partition(s, left, right, p);
            && (c.left == left ==> c.s == s && forall t :: left < t <= right ==> s[t] > p)
            && (c.right == right ==> c.s == s && forall t :: left <= t < right ==> s[t] < p)
  {
    if left < right {
      StepUnmoved(s, left, right, p);
    }
  }

  /** Partitioning only swaps. */
  lemma {:induction false} PartitionPermutes(s: seq<int>, left: int, right: int, p: int)
    requires 0 <= left <= right + 1 && right < |s|
    ensures multiset(Partition(s, left, right, p).s) == multiset(s)
    decreases right - left
  {
    if left < right {
      var d := Step(s, left, right, p);
      StepPermutes(s, left, right, p);
      PartitionPermutes(d.s, d.left, d.right, p);
    }
  }

  /** The pivot index of `sort_helper`. */
  function Mid(st: int, end: int): int
  {
    st + (end - st) / 2
  }

  /** `sort_helper` as written: a range of at most one cell is left
      alone. */
  function QuickSortAsWritten(s: seq<int>, st: int, end: int): (r: seq<int>)
    requires 0 <= st <= end + 1 <= |s|
    ensures |r| == |s|
    decreases end - st, 2
  {
    if st >= end then s else AsWrittenPass(s, st, end)
  }

  /** A longer range is partitioned around its middle cell's value, then
      `sort_helper` recurses on `[st, left - 1]` and `[right + 1, end]`,
      both strictly smaller than `[st, end]`. */
  function AsWrittenPass(s: seq<int>, st: int, end: int): (r: seq<int>)
    requires 0 <= st < end < |s|
    ensures |r| == |s|
    decreases end - st, 1
  {
    AsWrittenSides(Partition(s, st, end, s[Mid(st, end)]), st, end)
  }

  /** The two recursive calls of `sort_helper` as written. */
  function AsWrittenSides(c: Cut, st: int, end: int): (r: seq<int>)
    requires 0 <= st <= c.left <= end < |c.s| && st <= c.right <= end
    ensures |r| == |c.s|
    decreases end - st, 0
  {
    QuickSortAsWritten(QuickSortAsWritten(c.s, st, c.left - 1), c.right + 1, end)
  }

  /** The sort as written only permutes. */
  lemma {:induction false} AsWrittenPermutes(s: seq<int>, st: int, end: int)
    requires 0 <= st <= end + 1 <= |s|
    ensures multiset(QuickSortAsWritten(s, st, end)) == multiset(s)
    decreases end - st, 2
  {
    if st < end {
      PassPermutes(s, st, end);
    }
  }

  lemma {:induction false} PassPermutes(s: seq<int>, st: int, end: int)
    requires 0 <= st < end < |s|
    ensures multiset(AsWrittenPass(s, st, end)) == multiset(s)
    decreases end - st, 1
  {
    var p := s[Mid(st, end)];
    PartitionPermutes(s, st, end, p);
    SidesPermute(Partition(s, st, end, p), st, end);
  }

  /** Both recursive calls only permute. */
  lemma {:induction false} SidesPermute(c: Cut, st: int, end: int)
    requires 0 <= st <= c.left <= end < |c.s| && st <= c.right <= end
    ensures multiset(AsWrittenSides(c, st, end)) == multiset(c.s)
    decreases end - st, 0
  {
    var s1 := QuickSortAsWritten(c.s, st, c.left - 1);
    AsWrittenPermutes(c.s, st, c.left - 1);
    AsWrittenPermutes(s1, c.right + 1, end);
  }

  /** The sort as written changes no cell outside `[st, end]`. */
  lemma {:induction false} AsWrittenFrame(s: seq<int>, st: int, end: int)
    requires 0 <= st <= end + 1 <= |s|
    ensures var r := QuickSortAsWritten(s, st, end);
            forall t :: 0 <= t < |s| && !(st <= t <= end) ==> r[t] == s[t]
    decreases end - st, 2
  {
    if st < end {
      PassFrame(s, st, end);
    }
  }

  lemma {:induction false} PassFrame(s: seq<int>, st: int, end: int)
    requires 0 <= st < end < |s|
    ensures var r := AsWrittenPass(s, st, end);
            forall t :: 0 <= t < |s| && !(st <= t <= end) ==> r[t] == s[t]
    decreases end - st, 1
  {
    var p := s[Mid(st, end)];
    PartitionFrame(s, st, end, p);
    SidesFrame(Partition(s, st, end, p), st, end);
  }

  lemma {:induction false} SidesFrame(c: Cut, st: int, end: int)
    requires 0 <= st <= c.left <= end < |c.s| && st <= c.right <= end
    ensures var r := AsWrittenSides(c, st, end);
            forall t :: 0 <= t < |c.s| && !(st <= t <= end) ==> r[t] == c.s[t]
    decreases end - st, 0
  {
    var s1 := QuickSortAsWritten(c.s, st, c.left - 1);
    var s2 := QuickSortAsWritten(s1, c.right + 1, end);
    AsWrittenFrame(c.s, st, c.left - 1);
    AsWrittenFrame(s1, c.right + 1, end);
    SidesUnfold(c, st, end, s1, s2);
    FrameChain(c.s, s1, s2, st, end, c.left - 1, c.right + 1);
  }

  /** Two changes inside `[st, end]` make a change inside `[st, end]`. */
  lemma FrameChain(s0: seq<int>, s1: seq<int>, s2: seq<int>, st: int, end: int, m: int, n: int)
    requires |s0| == |s1| == |s2| && m <= end && st <= n
    requires forall t :: 0 <= t < |s0| && !(st <= t <= m) ==> s1[t] == s0[t]
    requires forall t :: 0 <= t < |s1| && !(n <= t <= end) ==> s2[t] == s1[t]
    ensures forall t :: 0 <= t < |s0| && !(st <= t <= end) ==> s2[t] == s0[t]
  {
  }

  /** {5, 1, 3, 6, 7}: the pivot 3 is swapped with 5, the indices meet on
      the 1, and the recursion skips it, leaving {3, 1, 5, 6, 7}. */
  lemma {:induction false} AsWrittenMissesCell()
    ensures QuickSortAsWritten([5, 1, 3, 6, 7], 0, 4) == [3, 1, 5, 6, 7]
    ensures !Sorted(QuickSortAsWritten([5, 1, 3, 6, 7], 0, 4))
  {
    var s := [5, 1, 3, 6, 7];
    assert ScanUp(s, 0, 4, 3) == 0;
    assert ScanDown(s, 0, 2, 3) == 2;
    assert ScanDown(s, 0, 3, 3) == 2;
    assert ScanDown(s, 0, 4, 3) == 2;
    var s1 := [3, 1, 5, 6, 7];
    assert Swap(s, 0, 2) == s1;
    assert Partition(s1, 1, 1, 3) == Cut(s1, 1, 1);
    assert Partition(s, 0, 4, 3) == Cut(s1, 1, 1);
    assert QuickSortAsWritten(s, 0, 4) == AsWrittenSides(Cut(s1, 1, 1), 0, 4);
    assert AsWrittenSides(Cut(s1, 1, 1), 0, 4) == QuickSortAsWritten(QuickSortAsWritten(s1, 0, 0), 2, 4);
    assert QuickSortAsWritten(s1, 0, 0) == s1;
    assert ScanUp(s1, 3, 4, 6) == 3;
    assert ScanUp(s1, 2, 4, 6) == 3;
    assert ScanDown(s1, 3, 4, 6) == 3;
    assert Partition(s1, 2, 4, 6) == Cut(s1, 3, 3);
    assert QuickSortAsWritten(s1, 2, 4) == AsWrittenSides(Cut(s1, 3, 3), 2, 4);
    assert AsWrittenSides(Cut(s1, 3, 3), 2, 4) == QuickSortAsWritten(QuickSortAsWritten(s1, 2, 2), 4, 4);
    assert QuickSortAsWritten(s1, 2, 4) == s1;
    assert s1[0] > s1[1];
  }

  /** The last cell of the left side when the corrected recursion splits
      `[st, end]`: `right` when the indices crossed; when they met on a
      cell, that cell if its value is at most the pivot and the one before
      it otherwise. */
  function Split(c: Cut, p: int): int
    requires 0 <= c.left < |c.s|
  {
    if c.left > c.right then c.right else if c.s[c.left] <= p then c.left else c.left - 1
  }

  /** Both sides of the corrected split are non-empty, and it separates the
      values at most the pivot from those at least the pivot. */
  lemma {:induction false} SplitProgress(s: seq<int>, st: int, end: int, p: int, c: Cut)
    requires 0 <= st < end < |s| && p == s[Mid(st, end)]
    requires c == Partition(s, st, end, p)
    ensures var k := Split(c, p);
            && st <= k < end
            && AllAtMost(c.s[st..k + 1], p) && AllAtLeast(c.s[k + 1..end + 1], p)
  {
    PartitionBounds(s, st, end, p);
    PartitionUnmoved(s, st, end, p);
    SplitCut(s, c, st, end, Mid(st, end), p);
  }

  /** The same on the facts about the partition it needs: the pivot value
      sits at `m`, and an index that never moved passed only cells strictly
      on its side. */
  lemma {:induction false} SplitCut(s: seq<int>, c: Cut, st: int, end: int, m: int, p: int)
    requires 0 <= st <= m < end < |s| == |c.s| && s[m] == p
    requires st <= c.left <= end && st <= c.right <= end && (c.left == c.right || c.left == c.right + 1)
    requires forall t :: st <= t < c.left ==> c.s[t] <= p
    requires forall t :: c.right < t <= end ==> c.s[t] >= p
    requires c.left == st ==> c.s[st] == s[st] && forall t :: st < t <= end ==> s[t] > p
    requires c.right == end ==> forall t :: st <= t < end ==> s[t] < p
    ensures var k := Split(c, p);
            && st <= k < end
            && AllAtMost(c.s[st..k + 1], p) && AllAtLeast(c.s[k + 1..end + 1], p)
  {
    var k := Split(c, p);
    assert forall t :: st <= t <= k ==> c.s[t] <= p;
    assert forall t :: k < t <= end ==> c.s[t] >= p;
    SliceAtMost(c.s, st, k + 1, p);
    SliceAtLeast(c.s, k + 1, end + 1, p);
  }

  /** The corrected `sort_helper`: a range of at most one cell is left
      alone. */
  function QuickSort(s: seq<int>, st: int, end: int): (r: seq<int>)
    requires 0 <= st <= end + 1 <= |s|
    ensures |r| == |s|
    ensures st >= end ==> r == s
    decreases end - st, 2
  {
    if st >= end then s else PartitionAndSort(s, st, end)
  }

  /** A longer range is partitioned around its middle cell's value and the
      two sides of the split are sorted. */
  function PartitionAndSort(s: seq<int>, st: int, end: int): (r: seq<int>)
    requires 0 <= st < end < |s|
    ensures |r| == |s|
    decreases end - st, 1
  {
    var p := s[Mid(st, end)];
    var c := Partition(s, st, end, p);
    SplitProgress(s, st, end, p, c);
    SortBoth(c.s, st, Split(c, p), end)
  }

  /** The two recursive calls of the corrected `sort_helper`, on
      `[st, k]` and `[k + 1, end]`. */
  function SortBoth(x: seq<int>, st: int, k: int, end: int): (r: seq<int>)
    requires 0 <= st <= k < end < |x|
    ensures |r| == |x|
    decreases end - st, 0
  {
    QuickSort(QuickSort(x, st, k), k + 1, end)
  }

  /** The corrected sort sorts `[st, end]`, holding the same elements
      there, and changes nothing else. */
  lemma {:induction false} QuickSortSorts(s: seq<int>, st: int, end: int)
    requires 0 <= st <= end + 1 <= |s|
    ensures SortedRun(QuickSort(s, st, end), s, st, end + 1)
    decreases end - st, 3
  {
    if st < end {
      PartitionAndSortSorts(s, st, end);
    } else {
      ShortRunSorted(s, st, end + 1);
    }
  }

  lemma {:induction false} PartitionAndSortSorts(s: seq<int>, st: int, end: int)
    requires 0 <= st < end < |s|
    ensures SortedRun(PartitionAndSort(s, st, end), s, st, end + 1)
    decreases end - st, 2
  {
    var p := s[Mid(st, end)];
    var c := Partition(s, st, end, p);
    var k := Split(c, p);
    FixedUnfold(s, st, end, c, k);
    SplitSorts(s, st, end, c, k);
  }

  /** Sorting both sides of the corrected split of the partition sorts the
      original range. */
  lemma {:induction false} SplitSorts(s: seq<int>, st: int, end: int, c: Cut, k: int)
    requires 0 <= st < end < |s| && c == Partition(s, st, end, s[Mid(st, end)])
    requires k == Split(c, s[Mid(st, end)])
    ensures st <= k < end && |c.s| == |s|
    ensures SortedRun(SortBoth(c.s, st, k, end), s, st, end + 1)
    decreases end - st, 1
  {
    var p := s[Mid(st, end)];
    SplitProgress(s, st, end, p, c);
    SortBothSorts(c.s, st, k, end, p);
    PartitionedRun(s, st, end, p, c, SortBoth(c.s, st, k, end));
  }

  /** Sorting `[st, end]` after partitioning it sorts the original range. */
  lemma {:induction false} PartitionedRun(s: seq<int>, st: int, end: int, p: int, c: Cut, r: seq<int>)
    requires 0 <= st <= end < |s| && c == Partition(s, st, end, p)
    requires SortedRun(r, c.s, st, end + 1)
    ensures SortedRun(r, s, st, end + 1)
  {
    PartitionPermutes(s, st, end, p);
    PartitionFrame(s, st, end, p);
    PartitionRun(s, c.s, r, st, end + 1);
  }

  /** Sorting both sides of a split that separates the small values from
      the large ones sorts the whole range. */
  lemma {:induction false} SortBothSorts(x: seq<int>, st: int, k: int, end: int, p: int)
    requires 0 <= st <= k < end < |x|
    requires AllAtMost(x[st..k + 1], p) && AllAtLeast(x[k + 1..end + 1], p)
    ensures SortedRun(SortBoth(x, st, k, end), x, st, end + 1)
    decreases end - st, 0
  {
    var s1 := QuickSort(x, st, k);
    QuickSortSorts(x, st, k);
    QuickSortSorts(s1, k + 1, end);
    SortSides(x, s1, QuickSort(s1, k + 1, end), st, k + 1, end + 1, p);
  }

  /** Sorting the two sides of a partitioned run one after the other sorts
      the run. */
  lemma {:induction false} SortSides(c: seq<int>, s1: seq<int>, s2: seq<int>, lo: nat, k: nat, hi: nat, p: int)
    requires lo <= k <= hi <= |c|
    requires AllAtMost(c[lo..k], p) && AllAtLeast(c[k..hi], p)
    requires SortedRun(s1, c, lo, k) && SortedRun(s2, s1, k, hi)
    ensures SortedRun(s2, c, lo, hi)
  {
    Untouched(s2, s1, k, hi, lo, k);
    Untouched(s1, c, lo, k, k, hi);
    PermutedBounds(c[lo..k], s1[lo..k], p);
    PermutedBounds(c[k..hi], s2[k..hi], p);
    SortedConcat(s2[lo..k], s2[k..hi], p);
    assert s2[lo..hi] == s2[lo..k] + s2[k..hi];
    assert c[lo..hi] == c[lo..k] + c[k..hi];
  }

  /** A sorted run of a permutation that only touched the run is a sorted
      run of the original. */
  lemma {:induction false} PartitionRun(s: seq<int>, c: seq<int>, r: seq<int>, lo: nat, hi: nat)
    requires lo <= hi <= |s| == |c| && multiset(c) == multiset(s)
    requires forall t :: 0 <= t < |s| && !(lo <= t < hi) ==> c[t] == s[t]
    requires SortedRun(r, c, lo, hi)
    ensures SortedRun(r, s, lo, hi)
  {
    Untouched(c, s, lo, hi, 0, lo);
    Untouched(c, s, lo, hi, hi, |s|);
    SliceMultiset(c, s, lo, hi);
  }

  /** `swap` on two cells of the array. */
  method SwapCells(a: array<int>, i: nat, j: nat)
    requires i < a.Length && j < a.Length
    modifies a
    ensures a[..] == Swap(old(a[..]), i, j)
  {
    var temp := a[i];
    a[i] := a[j];
    a[j] := temp;
  }

  /** The partition loop of `sort_helper` on the array, with pivot value
      `pivot`: it ends where Partition says, leaving the cells Partition
      gives. */
  method PartitionCells(a: array<int>, st: int, end: int, pivot: int) returns (left: int, right: int)
    requires 0 <= st <= end + 1 <= a.Length
    modifies a
    ensures Cut(a[..], left, right) == Partition(old(a[..]), st, end, pivot)
  {
    left, right := st, end;
    while left < right
      invariant st <= left <= right + 1 && right <= end
      invariant Partition(a[..], left, right, pivot) == Partition(old(a[..]), st, end, pivot)
      decreases right - left
    {
      left, right := PassCells(a, left, right, pivot);
    }
  }

  /** One pass of the partition loop on the array: the two scans, then the
      swap and the step inwards when the indices have not met. */
  method PassCells(a: array<int>, l0: int, r0: int, pivot: int) returns (left: int, right: int)
    requires 0 <= l0 < r0 < a.Length
    modifies a
    ensures Cut(a[..], left, right) == Step(old(a[..]), l0, r0, pivot)
  {
    ghost var s := a[..];
    left, right := l0, r0;
    while left < right && a[left] < pivot
      invariant l0 <= left <= right
      invariant ScanUp(s, left, right, pivot) == ScanUp(s, l0, right, pivot)
      modifies {}
    {
      left := left + 1;
    }
    ghost var l := left;
    while left < right && a[right] > pivot
      invariant l <= right <= r0
      invariant ScanDown(s, left, right, pivot) == ScanDown(s, left, r0, pivot)
      modifies {}
    {
      right := right - 1;
    }
    if left < right {
      SwapCells(a, left, right);
      left, right := left + 1, right - 1;
    }
  }

  /** `sort_helper` as written, on the array. */
  method SortHelper(a: array<int>, st: int, end: int)
    requires 0 <= st <= end + 1 <= a.Length
    modifies a
    ensures a[..] == QuickSortAsWritten(old(a[..]), st, end)
    decreases end - st, 1
  {
    if st >= end {
      return;
    }
    var left, right := PartitionAsWritten(a, st, end);
    SortSidesAsWritten(a, st, end, left, right);
  }

  /** The two recursive calls of `sort_helper` as written, on
      `[st, left - 1]` and then `[right + 1, end]`. */
  method SortSidesAsWritten(a: array<int>, st: int, end: int, left: int, right: int)
    requires 0 <= st <= left <= end < a.Length && st <= right <= end
    modifies a
    ensures a[..] == AsWrittenSides(Cut(old(a[..]), left, right), st, end)
    decreases end - st, 0
  {
    ghost var c := Cut(a[..], left, right);
    SortHelper(a, st, left - 1);
    ghost var t := a[..];
    SortHelper(a, right + 1, end);
    SidesUnfold(c, st, end, t, a[..]);
  }

  /** The two recursive calls, one after the other, give AsWrittenSides. */
  lemma SidesUnfold(c: Cut, st: int, end: int, t: seq<int>, u: seq<int>)
    requires 0 <= st <= c.left <= end < |c.s| && st <= c.right <= end
    requires t == QuickSortAsWritten(c.s, st, c.left - 1)
    requires u == QuickSortAsWritten(t, c.right + 1, end)
    ensures AsWrittenSides(c, st, end) == u
  {
  }

  /** The part of `sort_helper` before its recursive calls: the middle
      cell's value is the pivot and the range is partitioned around it.
      What is left to do is the as-written recursion on the two sides. */
  method PartitionAsWritten(a: array<int>, st: int, end: int) returns (left: int, right: int)
    requires 0 <= st < end < a.Length
    modifies a
    ensures st <= left <= end && st <= right <= end
    ensures AsWrittenSides(Cut(a[..], left, right), st, end) == QuickSortAsWritten(old(a[..]), st, end)
  {
    var pivot := a[st + (end - st) / 2];
    left, right := PartitionCells(a, st, end, pivot);
  }

  /** `quicksort`: `sort_helper` on `[0, size - 1]`. It only permutes
      the first `size` cells (AsWrittenPermutes) but need not sort them
      (AsWrittenMissesCell). */
  method QuickSortArray(a: array<int>, size: nat)
    requires size <= a.Length
    modifies a
    ensures a[..] == QuickSortAsWritten(old(a[..]), 0, size - 1)
  {
    SortHelper(a, 0, size - 1);
  }

  /** The corrected `sort_helper` on the array. */
  method SortHelperFixed(a: array<int>, st: int, end: int)
    requires 0 <= st <= end + 1 <= a.Length
    modifies a
    ensures a[..] == QuickSort(old(a[..]), st, end)
    decreases end - st, 1
  {
    if st >= end {
      return;
    }
    var k := PartitionFixed(a, st, end);
    SortSidesFixed(a, st, k, end);
  }

  /** The two recursive calls of the corrected `sort_helper`, on `[st, k]`
      and then `[k + 1, end]`. */
  method SortSidesFixed(a: array<int>, st: int, k: int, end: int)
    requires 0 <= st <= k < end < a.Length
    modifies a
    ensures a[..] == SortBoth(old(a[..]), st, k, end)
    decreases end - st, 0
  {
    SortHelperFixed(a, st, k);
    SortHelperFixed(a, k + 1, end);
  }

  /** The corrected part before the recursive calls: partition around the
      middle cell's value as before, then, when the indices met on one
      cell, let that cell join the left side if it is at most the pivot and
      the right side otherwise. The split `k` is where SortBoth continues. */
  method PartitionFixed(a: array<int>, st: int, end: int) returns (k: int)
    requires 0 <= st < end < a.Length
    modifies a
    ensures st <= k < end
    ensures SortBoth(a[..], st, k, end) == QuickSort(old(a[..]), st, end)
  {
    ghost var s := a[..];
    var pivot := a[st + (end - st) / 2];
    assert pivot == s[Mid(st, end)];
    var left, right := PartitionCells(a, st, end, pivot);
    ghost var c := Cut(a[..], left, right);
    assert c == Partition(s, st, end, pivot);
    k := right;
    if left == right && a[left] > pivot {
      k := left - 1;
    }
    assert k == Split(c, pivot);
    FixedUnfold(s, st, end, c, k);
  }

  /** One level of the corrected recursion, for the partition `c` split
      after cell `k`. */
  lemma {:induction false} FixedUnfold(s: seq<int>, st: int, end: int, c: Cut, k: int)
    requires 0 <= st < end < |s| && c == Partition(s, st, end, s[Mid(st, end)])
    requires k == Split(c, s[Mid(st, end)])
    ensures st <= k < end && |c.s| == |s|
    ensures PartitionAndSort(s, st, end) == SortBoth(c.s, st, k, end)
    ensures QuickSort(s, st, end) == SortBoth(c.s, st, k, end)
  {
    SplitProgress(s, st, end, s[Mid(st, end)], c);
  }

  /** The corrected `quicksort`: the first `size` cells end up sorted,
      holding the same elements, and no other cell changes. */
  method QuickSortFixed(a: array<int>, size: nat)
    requires size <= a.Length
    modifies a
    ensures SortedRun(a[..], old(a[..]), 0, size)
  {
    QuickSortSorts(a[..], 0, size - 1);
    SortHelperFixed(a, 0, size - 1);
  }
}
