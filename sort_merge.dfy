/** MergeSort: top-down recursive mergesort of a[lo..hi] (inclusive) through
    an auxiliary array, merging with ties taken from the left half. */
module MergeSort {
  import opened Sorting

  /** The merge of two sequences: the smaller head first, the left head
      when they are equal. */
  function Merge(left: seq<int32>, right: seq<int32>): seq<int32>
  {
    if left == [] then right
    else if right == [] then left
    else if right[0] < left[0] then [right[0]] + Merge(left, right[1..])
    else [left[0]] + Merge(left[1..], right)
  }

  /** The merge is a permutation of the two inputs together. */
  lemma {:induction false} MergePermutation(left: seq<int32>, right: seq<int32>)
    ensures multiset(Merge(left, right)) == multiset(left) + multiset(right)
    decreases |left| + |right|
  {
    if left == [] || right == [] {
    } else if right[0] < left[0] {
      MergePermutation(left, right[1..]);
      assert right == [right[0]] + right[1..];
    } else {
      MergePermutation(left[1..], right);
      assert left == [left[0]] + left[1..];
    }
  }

  /** The merge is as long as its two inputs together. */
  lemma {:induction false} MergeLength(left: seq<int32>, right: seq<int32>)
    ensures |Merge(left, right)| == |left| + |right|
    decreases |left| + |right|
  {
    if left == [] || right == [] {
    } else if right[0] < left[0] {
      MergeLength(left, right[1..]);
    } else {
      MergeLength(left[1..], right);
    }
  }

  predicate LowerBound(x: int32, s: seq<int32>) { forall p :: 0 <= p < |s| ==> x <= s[p] }

  lemma {:induction false} MergeLowerBound(x: int32, left: seq<int32>, right: seq<int32>)
    requires LowerBound(x, left) && LowerBound(x, right)
    ensures LowerBound(x, Merge(left, right))
    decreases |left| + |right|
  {
    if left == [] || right == [] {
    } else if right[0] < left[0] {
      MergeLowerBound(x, left, right[1..]);
    } else {
      MergeLowerBound(x, left[1..], right);
    }
  }

  lemma ConsSorted(x: int32, s: seq<int32>)
    requires Sorted(s) && LowerBound(x, s)
    ensures Sorted([x] + s)
  {
  }

  /** Merging two sorted sequences gives a sorted sequence. */
  lemma {:induction false} MergeSorted(left: seq<int32>, right: seq<int32>)
    requires Sorted(left) && Sorted(right)
    ensures Sorted(Merge(left, right))
    decreases |left| + |right|
  {
    if left == [] || right == [] {
    } else if right[0] < left[0] {
      MergeSorted(left, right[1..]);
      MergeLowerBound(right[0], left, right[1..]);
      ConsSorted(right[0], Merge(left, right[1..]));
    } else {
      MergeSorted(left[1..], right);
      MergeLowerBound(left[0], left[1..], right);
      ConsSorted(left[0], Merge(left[1..], right));
    }
  }

  /** One step of the merge loop, where merged[n..] is what is still to be
      produced from l and r: the next element comes from r when l is used up
      or the head of r is strictly smaller... */
  lemma MergeTakesRight(merged: seq<int32>, n: nat, l: seq<int32>, r: seq<int32>)
    requires n <= |merged| && r != [] && (l == [] || r[0] < l[0])
    requires merged[n..] == Merge(l, r)
    ensures n < |merged| && merged[n] == r[0]
    ensures merged[n + 1..] == Merge(l, r[1..])
  {
    if l == [] {
      assert r == [r[0]] + r[1..];
    }
    assert merged[n + 1..] == merged[n..][1..];
  }

  /** ...and from l otherwise, ties included. */
  lemma MergeTakesLeft(merged: seq<int32>, n: nat, l: seq<int32>, r: seq<int32>)
    requires n <= |merged| && l != [] && (r == [] || !(r[0] < l[0]))
    requires merged[n..] == Merge(l, r)
    ensures n < |merged| && merged[n] == l[0]
    ensures merged[n + 1..] == Merge(l[1..], r)
  {
    if r == [] {
      assert l == [l[0]] + l[1..];
    }
    assert merged[n + 1..] == merged[n..][1..];
  }

  /** The first loop of merge: aux[lo..hi] receives a copy of a[lo..hi]. */
  method CopyToAux(a: array<int32>, aux: array<int32>, lo: nat, hi: nat)
    requires aux != a && aux.Length == a.Length && lo <= hi < a.Length
    modifies aux
    ensures aux[lo..hi + 1] == a[lo..hi + 1]
  {
    for k := lo to hi + 1
      invariant forall p :: lo <= p < k ==> aux[p] == a[p]
    {
      aux[k] := a[k];
    }
  }

  /** The second loop of merge: a[lo..hi] receives the merge of aux[lo..mid]
      and aux[mid+1..hi]; nothing outside lo..hi changes. */
  method MergeFromAux(a: array<int32>, aux: array<int32>, lo: nat, mid: nat, hi: nat)
    requires aux != a && aux.Length == a.Length
    requires lo <= mid < hi < a.Length
    modifies a
    ensures a[lo..hi + 1] == Merge(aux[lo..mid + 1], aux[mid + 1..hi + 1])
    ensures forall p :: 0 <= p < a.Length && !(lo <= p <= hi) ==> a[p] == old(a[p])
  {
    ghost var left, right := aux[lo..mid + 1], aux[mid + 1..hi + 1];
    ghost var merged := Merge(left, right);
    MergeLength(left, right);
    var i, j := lo, mid + 1;
    ghost var l, r := left, right;
    for k := lo to hi + 1
      invariant lo <= i <= mid + 1 && mid + 1 <= j <= hi + 1 && k == i + j - mid - 1
      invariant l == aux[i..mid + 1] && r == aux[j..hi + 1]
      invariant merged[k - lo..] == Merge(l, r)
      invariant forall p :: lo <= p < k ==> a[p] == merged[p - lo]
      invariant forall p :: 0 <= p < a.Length && !(lo <= p <= hi) ==> a[p] == old(a[p])
    {
      i, j, l, r := MergeOne(a, aux, lo, mid, hi, k, i, j, l, r, merged);
    }
    assert a[lo..hi + 1] == merged;
  }

  /** The body of merge's second loop: a[k] receives the next element of the
      merge, where merged[k-lo..] is the merge of l = aux[i..mid] and
      r = aux[j..hi], what is still to be merged. */
  method MergeOne(a: array<int32>, aux: array<int32>, lo: nat, mid: nat, hi: nat, k: nat, i: nat, j: nat,
                  ghost l: seq<int32>, ghost r: seq<int32>, ghost merged: seq<int32>)
    returns (i': nat, j': nat, ghost l': seq<int32>, ghost r': seq<int32>)
    requires aux != a && aux.Length == a.Length && lo <= mid < hi < a.Length
    requires lo <= i <= mid + 1 && mid + 1 <= j <= hi + 1 && k == i + j - mid - 1 && k <= hi
    requires l == aux[i..mid + 1] && r == aux[j..hi + 1]
    requires lo <= k < lo + |merged| && merged[k - lo..] == Merge(l, r)
    modifies a
    ensures a[k] == merged[k - lo] && forall p :: 0 <= p < a.Length && p != k ==> a[p] == old(a[p])
    ensures lo <= i' <= mid + 1 && mid + 1 <= j' <= hi + 1 && k + 1 == i' + j' - mid - 1
    ensures l' == aux[i'..mid + 1] && r' == aux[j'..hi + 1]
    ensures merged[k + 1 - lo..] == Merge(l', r')
  {
    if i > mid || (j <= hi && aux[j] < aux[i]) {
      MergeTakesRight(merged, k - lo, l, r);
      a[k] := aux[j];
      i', j', l', r' := i, j + 1, l, r[1..];
    } else {
      MergeTakesLeft(merged, k - lo, l, r);
      a[k] := aux[i];
      i', j', l', r' := i + 1, j, l[1..], r;
    }
  }

  /** after differs from before only in [lo, hi], inclusive. */
  ghost predicate SameOutside(before: seq<int32>, after: seq<int32>, lo: int, hi: int)
  {
    |after| == |before| && forall p :: 0 <= p < |before| && !(lo <= p <= hi) ==> after[p] == before[p]
  }

  /** What merge(a, aux, lo, mid, hi) does to the array's contents. */
  ghost predicate MergesRange(before: seq<int32>, after: seq<int32>, lo: nat, mid: nat, hi: nat)
  {
    && lo <= mid < hi < |before|
    && SameOutside(before, after, lo, hi)
    && after[lo..hi + 1] == Merge(before[lo..mid + 1], before[mid + 1..hi + 1])
  }

  /** What sort(a, aux, lo, hi) does to the array's contents: a[lo..hi] is
      sorted and a permutation of what it was, nothing else changes. */
  ghost predicate SortsRange(before: seq<int32>, after: seq<int32>, lo: nat, hi: int)
  {
    && hi < |before|
    && SameOutside(before, after, lo, hi)
    && (lo <= hi ==> Sorted(after[lo..hi + 1]) && multiset(after[lo..hi + 1]) == multiset(before[lo..hi + 1]))
  }

  /** merge(a, aux, lo, mid, hi): a[lo..hi] becomes the merge of the old
      a[lo..mid] and a[mid+1..hi]; nothing outside lo..hi changes. */
  method MergeHalves(a: array<int32>, aux: array<int32>, lo: nat, mid: nat, hi: nat)
    requires aux != a && aux.Length == a.Length
    requires lo <= mid < hi < a.Length
    modifies a, aux
    ensures MergesRange(old(a[..]), a[..], lo, mid, hi)
  {
    ghost var left, right := a[lo..mid + 1], a[mid + 1..hi + 1];
    CopyToAux(a, aux, lo, hi);
    assert aux[lo..mid + 1] == aux[lo..hi + 1][..mid + 1 - lo] == left;
    assert aux[mid + 1..hi + 1] == aux[lo..hi + 1][mid + 1 - lo..] == right;
    MergeFromAux(a, aux, lo, mid, hi);
  }

  /** Why sort(a, aux, lo, hi) is correct, over the four states: s0 before,
      s1 after sorting the left half, s2 after sorting the right half, s3
      after the merge. */
  lemma SortRangeSteps(s0: seq<int32>, s1: seq<int32>, s2: seq<int32>, s3: seq<int32>, lo: nat, mid: nat, hi: nat)
    requires SortsRange(s0, s1, lo, mid) && SortsRange(s1, s2, mid + 1, hi) && MergesRange(s2, s3, lo, mid, hi)
    ensures SortsRange(s0, s3, lo, hi)
  {
    assert s2[lo..mid + 1] == s1[lo..mid + 1];
    assert s1[mid + 1..hi + 1] == s0[mid + 1..hi + 1];
    MergeSorted(s2[lo..mid + 1], s2[mid + 1..hi + 1]);
    MergePermutation(s2[lo..mid + 1], s2[mid + 1..hi + 1]);
    assert s0[lo..hi + 1] == s0[lo..mid + 1] + s0[mid + 1..hi + 1];
  }

  /** sort(a, aux, lo, hi): sorts a[lo..hi], inclusive, and changes nothing
      outside it. */
  method SortRange(a: array<int32>, aux: array<int32>, lo: nat, hi: int)
    requires aux != a && aux.Length == a.Length && hi < a.Length
    modifies a, aux
    ensures SortsRange(old(a[..]), a[..], lo, hi)
    decreases hi - lo
  {
    if hi <= lo {
      return;
    }
    var mid := lo + (hi - lo) / 2;
    ghost var s0 := a[..];
    SortRange(a, aux, lo, mid);
    ghost var s1 := a[..];
    SortRange(a, aux, mid + 1, hi);
    ghost var s2 := a[..];
    MergeHalves(a, aux, lo, mid, hi);
    SortRangeSteps(s0, s1, s2, a[..], lo, mid, hi);
  }

  /** sort(array, k): sort(array, aux, 0, min(k - 1, array.length - 1)),
      with k - 1 computed on Java `int`s. */
  method Sort(a: array<int32>, k: int32)
    requires a.Length <= MAX_VALUE as int  // a Java array's length is an int
    modifies a
    ensures SortsPrefix(old(a[..]), a[..], WrappedPrefixLen(k, a.Length))
  {
    var aux := new int32[a.Length];
    var km1 := Pred32(k) as int;
    var hi := if km1 < a.Length - 1 then km1 else a.Length - 1;
    SortRange(a, aux, 0, hi);
    ghost var N := WrappedPrefixLen(k, a.Length);
    assert hi + 1 == N || (hi < 0 && N == 0);
    assert a[N..] == old(a[N..]);
  }
}
