/** The in-place quicksort of testcase/src/quick-sort.c, whose partition moves a
    hole through the range instead of swapping. */
module QuickSort {

  ghost predicate Sorted(s: seq<int>) {
    forall j, k :: 0 <= j < k < |s| ==> s[j] <= s[k]
  }

  ghost predicate Permutation(s: seq<int>, t: seq<int>) {
    multiset(s) == multiset(t)
  }

  /** s and t differ at most in [lo, hi), where one is a permutation of the other. */
  ghost predicate Rearranged(s: seq<int>, t: seq<int>, lo: nat, hi: nat)
    requires lo <= hi <= |s| == |t|
  {
    && s[..lo] == t[..lo] && s[hi..] == t[hi..]
    && Permutation(s[lo..hi], t[lo..hi])
  }

  /** With the pivot put back in the hole, the array is what it was up to order. */
  ghost predicate HoleFilled(s: seq<int>, t: seq<int>, lo: nat, hi: nat, hole: nat, pivot: int)
    requires lo <= hole < hi <= |s| == |t|
  {
    Rearranged(s, t[hole := pivot], lo, hi)
  }

  lemma SplitMultiset(s: seq<int>, lo: nat, mid: nat, hi: nat)
    requires lo <= mid <= hi <= |s|
    ensures multiset(s[lo..hi]) == multiset(s[lo..mid]) + multiset(s[mid..hi])
  {
    assert s[lo..hi] == s[lo..mid] + s[mid..hi];
  }

  lemma RearrangedTrans(s: seq<int>, t: seq<int>, u: seq<int>, lo: nat, hi: nat, lo': nat, hi': nat)
    requires lo <= lo' <= hi' <= hi <= |s| == |t| == |u|
    requires Rearranged(s, t, lo, hi) && Rearranged(t, u, lo', hi')
    ensures Rearranged(s, u, lo, hi)
  {
    SplitMultiset(t, lo, lo', hi);
    SplitMultiset(t, lo', hi', hi);
    SplitMultiset(u, lo, lo', hi);
    SplitMultiset(u, lo', hi', hi);
    assert t[lo..lo'] == t[..lo'][lo..] == u[lo..lo'];
    assert t[hi'..hi] == t[hi'..][..hi - hi'] == u[hi'..hi];
    assert t[..lo] == t[..lo'][..lo] == u[..lo];
    assert t[hi..] == t[hi'..][hi - hi'..] == u[hi..];
  }

  function Swap(s: seq<int>, i: nat, j: nat): (r: seq<int>)
    requires i < |s| && j < |s|
    ensures |r| == |s|
  {
    s[i := s[j]][j := s[i]]
  }

  lemma SwapPermutes(s: seq<int>, i: nat, j: nat)
    requires i < |s| && j < |s|
    ensures Permutation(s, Swap(s, i, j))
  {
  }

  lemma SwapRearranges(s: seq<int>, i: nat, j: nat, lo: nat, hi: nat)
    requires lo <= i < hi <= |s| && lo <= j < hi
    ensures Rearranged(s, Swap(s, i, j), lo, hi)
  {
    SwapInside(s, i, j, lo, hi);
    SwapPermutes(s[lo..hi], i - lo, j - lo);
  }

  lemma SwapInside(s: seq<int>, i: nat, j: nat, lo: nat, hi: nat)
    requires lo <= i < hi <= |s| && lo <= j < hi
    ensures Swap(s, i, j)[lo..hi] == Swap(s[lo..hi], i - lo, j - lo)
    ensures Swap(s, i, j)[..lo] == s[..lo] && Swap(s, i, j)[hi..] == s[hi..]
  {
  }

  /** Filling the hole from another place moves the hole there. */
  lemma HoleMoves(s: seq<int>, t: seq<int>, lo: nat, hi: nat, hole: nat, from: nat, pivot: int)
    requires lo <= hole < hi <= |s| == |t| && lo <= from < hi
    requires HoleFilled(s, t, lo, hi, hole, pivot)
    ensures HoleFilled(s, t[hole := t[from]], lo, hi, from, pivot)
  {
    var u := t[hole := pivot];
    var v := t[hole := t[from]][from := pivot];
    assert v == Swap(u, hole, from);
    SwapRearranges(u, hole, from, lo, hi);
    RearrangedTrans(s, u, v, lo, hi, lo, hi);
  }

  /** Values that hold of every element survive a rearrangement. */
  lemma StaysBelow(s: seq<int>, t: seq<int>, lo: nat, hi: nat, pivot: int)
    requires lo <= hi <= |s| == |t| && Rearranged(s, t, lo, hi)
    requires forall k :: lo <= k < hi ==> s[k] <= pivot
    ensures forall k :: lo <= k < hi ==> t[k] <= pivot
  {
    forall k | lo <= k < hi ensures t[k] <= pivot {
      var x := t[lo..hi][k - lo];
      assert x in multiset(t[lo..hi]);
      assert x in s[lo..hi];
    }
  }

  lemma StaysAbove(s: seq<int>, t: seq<int>, lo: nat, hi: nat, pivot: int)
    requires lo <= hi <= |s| == |t| && Rearranged(s, t, lo, hi)
    requires forall k :: lo <= k < hi ==> s[k] > pivot
    ensures forall k :: lo <= k < hi ==> t[k] > pivot
  {
    forall k | lo <= k < hi ensures t[k] > pivot {
      var x := t[lo..hi][k - lo];
      assert x in multiset(t[lo..hi]);
      assert x in s[lo..hi];
    }
  }

  /** Everything in [p, i) is at most the pivot and everything in (j, q] above it. */
  ghost predicate Parted(s: seq<int>, p: nat, q: nat, i: int, j: int, pivot: int)
    requires q < |s|
  {
    && p <= i <= j <= q
    && (forall k :: p <= k < i ==> s[k] <= pivot)
    && (forall k :: j < k <= q ==> s[k] > pivot)
  }

  method ScanDown(a: array<int>, ghost p: nat, q: nat, i: nat, j0: nat, pivot: int) returns (j: nat)
    requires q < a.Length && Parted(a[..], p, q, i, j0, pivot)
    ensures j <= j0 && Parted(a[..], p, q, i, j, pivot)
    ensures i < j ==> a[j] <= pivot
  {
    j := j0;
    while i < j && a[j] > pivot
      invariant j <= j0 && Parted(a[..], p, q, i, j, pivot)
    {
      j := j - 1;
    }
  }

  method ScanUp(a: array<int>, ghost p: nat, q: nat, i0: nat, j: nat, pivot: int) returns (i: nat)
    requires q < a.Length && Parted(a[..], p, q, i0, j, pivot)
    ensures i >= i0 && Parted(a[..], p, q, i, j, pivot)
    ensures i < j ==> a[i] > pivot
  {
    i := i0;
    while i < j && a[i] <= pivot
      invariant i >= i0 && Parted(a[..], p, q, i, j, pivot)
    {
      i := i + 1;
    }
  }

  method Partition(a: array<int>, p: nat, q: nat) returns (m: nat)
    requires p <= q < a.Length
    modifies a
    ensures p <= m <= q && Rearranged(old(a[..]), a[..], p, q + 1)
    ensures forall k :: p <= k < m ==> a[k] <= a[m]
    ensures forall k :: m < k <= q ==> a[k] > a[m]
  {
    var pivot := a[p];
    var i, j := p, q;
    ghost var before := a[..];
    assert before[p := pivot] == before;
    while i < j
      invariant Parted(a[..], p, q, i, j, pivot)
      invariant HoleFilled(before, a[..], p, q + 1, i, pivot)
      decreases j - i
    {
      i, j := MoveHole(a, before, p, q, i, j, pivot);
    }
    a[i] := pivot;
    return i;
  }

  /** The body of the outer loop of partition. */
  method MoveHole(a: array<int>, ghost before: seq<int>, ghost p: nat, q: nat, i0: nat, j0: nat, pivot: int)
    returns (i: nat, j: nat)
    requires q < a.Length == |before| && i0 < j0
    requires Parted(a[..], p, q, i0, j0, pivot) && HoleFilled(before, a[..], p, q + 1, i0, pivot)
    modifies a
    ensures i0 <= i && j <= j0 && j - i < j0 - i0
    ensures Parted(a[..], p, q, i, j, pivot) && HoleFilled(before, a[..], p, q + 1, i, pivot)
  {
    j := ScanDown(a, p, q, i0, j0, pivot);
    Fill(a, before, p, q, i0, j, i0, j, pivot);
    i := ScanUp(a, p, q, i0, j, pivot);
    assert i0 < j ==> i0 < i;
    Fill(a, before, p, q, j, i, i, j, pivot);
  }

  /** Moves the hole: the element at from goes into it. */
  method Fill(a: array<int>, ghost before: seq<int>, ghost p: nat, ghost q: nat, hole: nat, from: nat,
              ghost i: nat, ghost j: nat, ghost pivot: int)
    requires q < a.Length == |before| && i <= hole <= j && i <= from <= j
    requires Parted(a[..], p, q, i, j, pivot) && HoleFilled(before, a[..], p, q + 1, hole, pivot)
    modifies a
    ensures Parted(a[..], p, q, i, j, pivot) && HoleFilled(before, a[..], p, q + 1, from, pivot)
    ensures a[hole] == old(a[from])
  {
    ghost var t := a[..];
    HoleMoves(before, t, p, q + 1, hole, from, pivot);
    a[hole] := a[from];
    assert a[..] == t[hole := t[from]];
  }

  /** Sorted halves around a pivot that separates them. */
  lemma Assembled(s: seq<int>, lo: nat, m: nat, hi: nat)
    requires lo <= m < hi <= |s|
    requires Sorted(s[lo..m]) && Sorted(s[m + 1..hi])
    requires forall k :: lo <= k < m ==> s[k] <= s[m]
    requires forall k :: m < k < hi ==> s[k] > s[m]
    ensures Sorted(s[lo..hi])
  {
    forall j, k | 0 <= j < k < hi - lo ensures s[lo..hi][j] <= s[lo..hi][k] {
      if lo + k < m {
        assert s[lo..m][j] <= s[lo..m][k];
      } else if lo + j > m {
        assert s[m + 1..hi][lo + j - (m + 1)] <= s[m + 1..hi][lo + k - (m + 1)];
      }
    }
  }

  /** t is s with the elements of [lo, hi) put in order. */
  ghost predicate SortedVersion(s: seq<int>, t: seq<int>, lo: nat, hi: nat)
    requires lo <= hi <= |s| == |t|
  {
    Sorted(t[lo..hi]) && Rearranged(s, t, lo, hi)
  }

  lemma ShortRange(s: seq<int>, lo: nat, hi: nat)
    requires lo <= hi <= |s| && hi <= lo + 1
    ensures SortedVersion(s, s, lo, hi)
  {
  }

  /** After partitioning, sorting the part below the pivot and then the part above
      it sorts the whole. */
  lemma HalvesSorted(parted: seq<int>, lower: seq<int>, done: seq<int>, lo: nat, m: nat, hi: nat)
    requires lo <= m < hi <= |parted| == |lower| == |done|
    requires forall k :: lo <= k < m ==> parted[k] <= parted[m]
    requires forall k :: m < k < hi ==> parted[k] > parted[m]
    requires SortedVersion(parted, lower, lo, m) && SortedVersion(lower, done, m + 1, hi)
    ensures SortedVersion(parted, done, lo, hi)
  {
    var pivot := parted[m];
    assert lower[m..] == parted[m..] && done[..m + 1] == lower[..m + 1];
    assert lower[m] == parted[m..][0] && done[m] == lower[..m + 1][m];
    StaysBelow(parted, lower, lo, m, pivot);
    forall k | m < k < hi ensures lower[k] > pivot {
      assert lower[k] == lower[m..][k - m] == parted[m..][k - m];
    }
    StaysAbove(lower, done, m + 1, hi, pivot);
    forall k | lo <= k < m ensures done[k] == lower[k] {
      assert done[..m + 1][k] == lower[..m + 1][k];
    }
    assert done[lo..m] == lower[lo..m];
    Assembled(done, lo, m, hi);
    Widened(parted, lower, lo, m, lo, hi);
    RearrangedTrans(parted, lower, done, lo, hi, m + 1, hi);
  }

  lemma Widened(s: seq<int>, t: seq<int>, lo': nat, hi': nat, lo: nat, hi: nat)
    requires lo <= lo' <= hi' <= hi <= |s| == |t| && Rearranged(s, t, lo', hi')
    ensures Rearranged(s, t, lo, hi)
  {
    RearrangedTrans(s, s, t, lo, hi, lo', hi');
  }

  /** What quick_sort makes of s: the bounds are inclusive, and nothing happens
      when p >= q. */
  ghost predicate After(s: seq<int>, t: seq<int>, p: int, q: int) {
    if p < q then 0 <= p && q < |s| == |t| && SortedVersion(s, t, p, q + 1) else t == s
  }

  lemma AfterRange(s: seq<int>, t: seq<int>, p: int, q: int)
    requires After(s, t, p, q) && 0 <= p <= q + 1 <= |s|
    ensures |s| == |t| && SortedVersion(s, t, p, q + 1)
  {
    if p >= q {
      ShortRange(s, p, q + 1);
    }
  }

  lemma BothHalves(s: seq<int>, parted: seq<int>, lower: seq<int>, done: seq<int>, p: nat, m: int, q: nat)
    requires p <= m <= q < |s| == |parted| && p < q
    requires Rearranged(s, parted, p, q + 1)
    requires forall k :: p <= k < m ==> parted[k] <= parted[m]
    requires forall k :: m < k <= q ==> parted[k] > parted[m]
    requires After(parted, lower, p, m - 1) && After(lower, done, m + 1, q)
    ensures After(s, done, p, q)
  {
    AfterHalves(parted, lower, done, p, m, q);
    HalvesSorted(parted, lower, done, p, m, q + 1);
    SortedBefore(s, parted, done, p, q + 1);
  }

  lemma AfterHalves(s: seq<int>, lower: seq<int>, done: seq<int>, p: nat, m: int, q: nat)
    requires p <= m <= q < |s| && After(s, lower, p, m - 1) && After(lower, done, m + 1, q)
    ensures |s| == |lower| == |done|
    ensures SortedVersion(s, lower, p, m) && SortedVersion(lower, done, m + 1, q + 1)
  {
    AfterRange(s, lower, p, m - 1);
    AfterRange(lower, done, m + 1, q);
  }

  lemma SortedBefore(s: seq<int>, r: seq<int>, t: seq<int>, lo: nat, hi: nat)
    requires lo <= hi <= |s| == |r| == |t| && Rearranged(s, r, lo, hi) && SortedVersion(r, t, lo, hi)
    ensures SortedVersion(s, t, lo, hi)
  {
    RearrangedTrans(s, r, t, lo, hi, lo, hi);
  }

  method Sort(a: array<int>, p: int, q: int)
    requires p < q ==> 0 <= p && q < a.Length
    modifies a
    ensures After(old(a[..]), a[..], p, q)
    decreases q - p
  {
    if p >= q {
      return;
    }
    ghost var before := a[..];
    var m: int := Partition(a, p, q);
    ghost var parted := a[..];
    Sort(a, p, m - 1);
    ghost var lower := a[..];
    Sort(a, m + 1, q);
    BothHalves(before, parted, lower, a[..], p, m, q);
  }

  /** The program's own call: the whole array ends up sorted and holds the same
      values; a second call changes nothing. */
  method SortAll(a: array<int>)
    modifies a
    ensures Sorted(a[..]) && Permutation(old(a[..]), a[..])
    ensures Sorted(old(a[..])) ==> a[..] == old(a[..])
  {
    Sort(a, 0, a.Length - 1);
    AfterRange(old(a[..]), a[..], 0, a.Length - 1);
    assert a[..] == a[0..a.Length] && old(a[..]) == old(a[..])[0..a.Length];
    if Sorted(old(a[..])) {
      SortedUnique(old(a[..]), a[..]);
    }
  }

  lemma HeadIsLeast(s: seq<int>, x: int)
    requires Sorted(s) && x in multiset(s)
    ensures |s| > 0 && s[0] <= x
  {
    var k :| 0 <= k < |s| && s[k] == x;
  }

  lemma RestIs(s: seq<int>)
    requires Sorted(s) && |s| > 0
    ensures Sorted(s[1..]) && multiset(s[1..]) == multiset(s) - multiset{s[0]}
  {
    assert s == [s[0]] + s[1..];
  }

  /** The sorted order of given values is unique, so sorting is a function of them. */
  lemma {:induction false} SortedUnique(s: seq<int>, t: seq<int>)
    requires Sorted(s) && Sorted(t) && Permutation(s, t)
    ensures s == t
    decreases |s|
  {
    SameLength(s, t);
    if |s| > 0 {
      SameHead(s, t);
      RestIs(s);
      RestIs(t);
      SortedUnique(s[1..], t[1..]);
      Rejoined(s, t);
    }
  }

  lemma SameLength(s: seq<int>, t: seq<int>)
    requires Permutation(s, t)
    ensures |s| == |t|
  {
    assert |s| == |multiset(s)| == |multiset(t)| == |t|;
  }

  lemma SameHead(s: seq<int>, t: seq<int>)
    requires Sorted(s) && Sorted(t) && Permutation(s, t) && |s| > 0 && |t| > 0
    ensures s[0] == t[0]
  {
    assert s[0] in multiset(s) && t[0] in multiset(t);
    HeadIsLeast(t, s[0]);
    HeadIsLeast(s, t[0]);
  }

  lemma Rejoined(s: seq<int>, t: seq<int>)
    requires |s| > 0 && |t| > 0 && s[0] == t[0] && s[1..] == t[1..]
    ensures s == t
  {
    assert s == [s[0]] + s[1..] && t == [t[0]] + t[1..];
  }
}
