/** NULL-terminated lists threaded through an array of records by index. */
module Chains {
  const NULL := -1

  function At(ids: seq<int>, k: nat): int {
    if k < |ids| then ids[k] else NULL
  }

  /** The links of an array of records. */
  function Links<N>(pool: seq<N>, next: N -> int): (r: seq<int>)
    ensures |r| == |pool| && forall i :: 0 <= i < |pool| ==> r[i] == next(pool[i])
  {
    seq(|pool|, i requires 0 <= i < |pool| => next(pool[i]))
  }

  ghost predicate Link(nexts: seq<int>, ids: seq<int>, k: nat)
    requires k < |ids| && 0 <= ids[k] < |nexts|
  {
    nexts[ids[k]] == At(ids, k + 1)
  }

  /** The records ids, in this order, are the NULL-terminated list from first. */
  ghost predicate Linked(nexts: seq<int>, first: int, ids: seq<int>) {
    && first == At(ids, 0)
    && (forall k :: 0 <= k < |ids| ==> 0 <= ids[k] < |nexts|)
    && (forall k :: 0 <= k < |ids| ==> Link(nexts, ids, k))
  }

  ghost predicate Distinct(ids: seq<int>) {
    forall j, k :: 0 <= j < k < |ids| ==> ids[j] != ids[k]
  }

  /** The list from a given record is determined by the links. */
  lemma {:induction false} LinkedUnique(nexts: seq<int>, first: int, a: seq<int>, b: seq<int>)
    requires Linked(nexts, first, a) && Linked(nexts, first, b)
    ensures a == b
    decreases |a|
  {
    if |a| > 0 && |b| > 0 {
      Tail(nexts, first, a);
      Tail(nexts, first, b);
      LinkedUnique(nexts, nexts[first], a[1..], b[1..]);
      assert a == [a[0]] + a[1..] && b == [b[0]] + b[1..];
    }
  }

  lemma Tail(nexts: seq<int>, first: int, ids: seq<int>)
    requires Linked(nexts, first, ids) && |ids| > 0
    ensures Linked(nexts, nexts[first], ids[1..])
  {
    assert Link(nexts, ids, 0);
    forall k | 0 <= k < |ids| - 1 ensures Link(nexts, ids[1..], k) {
      assert ids[1..][k] == ids[k + 1] && Link(nexts, ids, k + 1);
    }
  }

  /** Prepending a record that is on no list. */
  lemma Pushed(nexts: seq<int>, nexts': seq<int>, first: int, ids: seq<int>, p: int)
    requires Linked(nexts, first, ids) && 0 <= p < |nexts| == |nexts'| && p !in ids
    requires nexts'[p] == first
    requires forall i :: 0 <= i < |nexts| && i != p ==> nexts'[i] == nexts[i]
    ensures Linked(nexts', p, [p] + ids)
  {
    forall k | 0 <= k <= |ids| ensures Link(nexts', [p] + ids, k) {
      assert k > 0 ==> ids[k - 1] in ids && Link(nexts, ids, k - 1);
    }
  }

  /** A list does not notice changes to records that are not on it. */
  lemma Framed(nexts: seq<int>, nexts': seq<int>, first: int, ids: seq<int>)
    requires Linked(nexts, first, ids) && |nexts| == |nexts'|
    requires forall i :: i in ids ==> 0 <= i < |nexts| && nexts'[i] == nexts[i]
    ensures Linked(nexts', first, ids)
  {
    forall k | 0 <= k < |ids| ensures Link(nexts', ids, k) {
      assert ids[k] in ids && Link(nexts, ids, k);
    }
  }

  lemma Unlinked(nexts: seq<int>, nexts': seq<int>, first: int, ids: seq<int>, p: int)
    requires Linked(nexts, first, ids) && 0 <= p < |nexts| == |nexts'| && p !in ids
    requires forall i :: 0 <= i < |nexts| && i != p ==> nexts'[i] == nexts[i]
    ensures Linked(nexts', first, ids)
  {
    forall k | 0 <= k < |ids| ensures Link(nexts', ids, k) {
      assert ids[k] in ids && Link(nexts, ids, k);
    }
  }

  /** s without the element at k. */
  function Cut<T>(s: seq<T>, k: nat): seq<T>
    requires k < |s|
  {
    s[..k] + s[k + 1..]
  }

  lemma CutMembers(ids: seq<int>, k: nat)
    requires k < |ids| && Distinct(ids)
    ensures Distinct(Cut(ids, k)) && forall x :: x in Cut(ids, k) <==> x in ids && x != ids[k]
  {
    forall x | x in ids && x != ids[k] ensures x in Cut(ids, k) {
      var j :| 0 <= j < |ids| && ids[j] == x;
      assert Cut(ids, k)[if j < k then j else j - 1] == x;
    }
  }

  /** Unlinking the record at k by redirecting its predecessor. */
  lemma CutLinked(nexts: seq<int>, nexts': seq<int>, first: int, ids: seq<int>, k: nat)
    requires Linked(nexts, first, ids) && k < |ids| && Distinct(ids) && |nexts'| == |nexts|
    requires k > 0 ==> nexts' == nexts[ids[k - 1] := nexts[ids[k]]]
    requires k == 0 ==> nexts' == nexts
    ensures Linked(nexts', if k == 0 then nexts[ids[0]] else first, Cut(ids, k))
  {
    var cut := Cut(ids, k);
    assert Link(nexts, ids, k);
    forall j | 0 <= j < |cut| ensures Link(nexts', cut, j) {
      var i := if j < k then j else j + 1;
      assert cut[j] == ids[i] && Link(nexts, ids, i);
      assert k > 0 && j + 1 != k ==> ids[i] != ids[k - 1];
    }
  }

  function Find(ids: seq<int>, x: int): (k: nat)
    ensures k <= |ids| && (k < |ids| ==> ids[k] == x) && forall j :: 0 <= j < k ==> ids[j] != x
  {
    if ids == [] || ids[0] == x then 0 else Find(ids[1..], x) + 1
  }

  lemma FindAt(ids: seq<int>, x: int, k: nat)
    requires k <= |ids| && (k < |ids| ==> ids[k] == x)
    requires forall j :: 0 <= j < k ==> ids[j] != x
    ensures Find(ids, x) == k
  {
  }
}
