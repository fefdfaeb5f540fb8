// What the in-place sorts and the array heaps promise, stated on the
// sequence of an array's cells: non-decreasing order, exchanging two cells,
// and the bounds a partition puts on its two sides.
module SortSpec {

  /** Non-decreasing order. */
  ghost predicate Sorted(s: seq<int>)
  {
    forall i, j :: 0 <= i < j < |s| ==> s[i] <= s[j]
  }

  /** Exchanging two cells of a sequence. */
  function Swap(s: seq<int>, i: nat, j: nat): (r: seq<int>)
    requires i < |s| && j < |s|
    ensures |r| == |s| && r[i] == s[j] && r[j] == s[i]
    ensures forall k :: 0 <= k < |s| && k != i && k != j ==> r[k] == s[k]
  {
    s[i := s[j]][j := s[i]]
  }

  /** A swap only permutes. */
  lemma SwapPermutes(s: seq<int>, i: nat, j: nat)
    requires i < |s| && j < |s|
    ensures multiset(Swap(s, i, j)) == multiset(s)
  {
  }

  ghost predicate AllAtMost(s: seq<int>, p: int)
  {
    forall k :: 0 <= k < |s| ==> s[k] <= p
  }

  ghost predicate AllAtLeast(s: seq<int>, p: int)
  {
    forall k :: 0 <= k < |s| ==> s[k] >= p
  }

  /** A bound on every element survives any permutation. */
  lemma {:induction false} PermutedBounds(s: seq<int>, t: seq<int>, p: int)
    requires multiset(s) == multiset(t)
    ensures AllAtMost(s, p) ==> AllAtMost(t, p)
    ensures AllAtLeast(s, p) ==> AllAtLeast(t, p)
  {
    forall k | 0 <= k < |t|
      ensures t[k] in multiset(s)
    {
      assert t[k] in multiset(t);
    }
  }

  /** Two sorted runs, every element of the first at most every element of
      the second, form one sorted run. */
  lemma SortedConcat(x: seq<int>, y: seq<int>, p: int)
    requires Sorted(x) && Sorted(y) && AllAtMost(x, p) && AllAtLeast(y, p)
    ensures Sorted(x + y)
  {
  }

  /** Two sequences that agree outside `[lo, hi)` and hold the same elements
      hold the same elements inside `[lo, hi)` too. */
  lemma {:induction false} SliceMultiset(s: seq<int>, t: seq<int>, lo: nat, hi: nat)
    requires lo <= hi <= |s| == |t| && multiset(s) == multiset(t)
    requires s[..lo] == t[..lo] && s[hi..] == t[hi..]
    ensures multiset(s[lo..hi]) == multiset(t[lo..hi])
  {
    assert s == s[..lo] + s[lo..hi] + s[hi..];
    assert t == t[..lo] + t[lo..hi] + t[hi..];
    assert multiset(s) == multiset(s[..lo]) + multiset(s[lo..hi]) + multiset(s[hi..]);
    assert multiset(t) == multiset(t[..lo]) + multiset(t[lo..hi]) + multiset(t[hi..]);
    assert multiset(s[lo..hi]) == multiset(s) - multiset(s[..lo]) - multiset(s[hi..]);
    assert multiset(t[lo..hi]) == multiset(t) - multiset(t[..lo]) - multiset(t[hi..]);
  }

  /** `s` is `s0` with `[lo, hi)` sorted: the same elements there, in
      order, and every other cell unchanged. */
  ghost predicate SortedRun(s: seq<int>, s0: seq<int>, lo: nat, hi: nat)
    requires lo <= hi <= |s0|
  {
    && |s| == |s0|
    && Sorted(s[lo..hi]) && multiset(s[lo..hi]) == multiset(s0[lo..hi])
    && forall t :: 0 <= t < |s| && !(lo <= t < hi) ==> s[t] == s0[t]
  }

  /** Cells outside the changed range `[lo, hi)` keep their values, so does
      any slice `[i, j)` clear of it. */
  lemma {:induction false} Untouched(s: seq<int>, s0: seq<int>, lo: nat, hi: nat, i: nat, j: nat)
    requires |s| == |s0| && i <= j <= |s| && (j <= lo || hi <= i)
    requires forall t :: 0 <= t < |s| && !(lo <= t < hi) ==> s[t] == s0[t]
    ensures s[i..j] == s0[i..j]
  {
    assert forall t :: 0 <= t < j - i ==> s[i..j][t] == s[i + t];
  }

  /** A bound on the cells `[lo, hi)` is a bound on that slice. */
  lemma {:induction false} SliceAtMost(s: seq<int>, lo: nat, hi: nat, p: int)
    requires lo <= hi <= |s| && forall t :: lo <= t < hi ==> s[t] <= p
    ensures AllAtMost(s[lo..hi], p)
  {
    assert forall t :: 0 <= t < hi - lo ==> s[lo..hi][t] == s[lo + t];
  }

  lemma {:induction false} SliceAtLeast(s: seq<int>, lo: nat, hi: nat, p: int)
    requires lo <= hi <= |s| && forall t :: lo <= t < hi ==> s[t] >= p
    ensures AllAtLeast(s[lo..hi], p)
  {
    assert forall t :: 0 <= t < hi - lo ==> s[lo..hi][t] == s[lo + t];
  }

  /** A run of at most one cell is already sorted. */
  lemma ShortRunSorted(s: seq<int>, lo: nat, hi: nat)
    requires lo <= hi <= |s| && hi <= lo + 1
    ensures SortedRun(s, s, lo, hi)
  {
  }
}
