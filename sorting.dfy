/** What the sorting algorithms of the benchmark share: Java `int`
    elements, sortedness and permutation of a prefix, and `swap`. */
module Sorting {

  newtype int32 = x: int | -0x8000_0000 <= x < 0x8000_0000

  const MAX_VALUE: int32 := 0x7FFF_FFFF

  /** The length of the prefix `sort(array, k)` is asked to sort:
      min(k, array.length), and nothing for a k below one. */
  function PrefixLen(k: int, len: nat): (n: nat)
    ensures n <= len
    ensures (k <= 0 ==> n == 0) && (0 <= k <= len ==> n == k) && (k >= len ==> n == len)
  {
    if k <= 0 then 0 else if k < len then k else len
  }

  /** The length of the prefix the merge sort and the quicksort sort: one
      more than min(k - 1, array.length - 1), where the Java `int` k - 1
      wraps to MAX_VALUE at k == Integer.MIN_VALUE and so sorts the whole
      array. */
  function WrappedPrefixLen(k: int32, len: nat): (n: nat)
    ensures n <= len
    ensures k == -0x8000_0000 ==> n == len
    ensures k != -0x8000_0000 ==> n == PrefixLen(k as int, len)
  {
    if k == -0x8000_0000 then len else PrefixLen(k as int, len)
  }

  /** k - 1 on Java `int`s. */
  function Pred32(k: int32): (r: int32)
    ensures k != -0x8000_0000 ==> r as int == k as int - 1
    ensures k == -0x8000_0000 ==> r == MAX_VALUE
  {
    if k == -0x8000_0000 then MAX_VALUE else k - 1
  }

  predicate Sorted(s: seq<int32>)
  {
    forall p, q :: 0 <= p < q < |s| ==> s[p] <= s[q]
  }

  predicate SortedBetween(s: seq<int32>, lo: int, hi: int)
    requires 0 <= lo <= hi <= |s|
  {
    forall p, q :: lo <= p < q < hi ==> s[p] <= s[q]
  }

  /** The contract every k-limited sort keeps: the first n elements end up
      sorted and a permutation of what they were, the rest untouched. */
  predicate SortsPrefix(before: seq<int32>, after: seq<int32>, n: nat)
  {
    && |after| == |before| && n <= |before|
    && Sorted(after[..n])
    && multiset(after[..n]) == multiset(before[..n])
    && after[n..] == before[n..]
  }

  /** swap(a, i, j) */
  method Swap(a: array<int32>, i: nat, j: nat)
    requires i < a.Length && j < a.Length
    modifies a
    ensures a[..] == old(a[..])[i := old(a[j])][j := old(a[i])]
    ensures multiset(a[..]) == multiset(old(a[..]))
  {
    var t := a[i];
    a[i] := a[j];
    a[j] := t;
  }

  /** A permutation of the whole sequence that leaves a suffix alone
      permutes the prefix. */
  lemma PrefixPermutation(s: seq<int32>, t: seq<int32>, n: nat)
    requires |s| == |t| && n <= |s|
    requires multiset(s) == multiset(t) && s[n..] == t[n..]
    ensures multiset(s[..n]) == multiset(t[..n])
  {
    assert s == s[..n] + s[n..];
    assert t == t[..n] + t[n..];
    assert multiset(s) == multiset(s[..n]) + multiset(s[n..]);
    assert multiset(t) == multiset(t[..n]) + multiset(t[n..]);
    assert multiset(s[..n]) == multiset(s) - multiset(s[n..]);
    assert multiset(t[..n]) == multiset(t) - multiset(t[n..]);
  }

  /** A swap inside [lo, hi) permutes that slice and leaves the rest. */
  lemma SwapSlice(s: seq<int32>, i: nat, j: nat, lo: nat, hi: nat)
    requires lo <= i < hi && lo <= j < hi && hi <= |s|
    ensures var t := s[i := s[j]][j := s[i]];
            multiset(t[lo..hi]) == multiset(s[lo..hi]) && t[..lo] == s[..lo] && t[hi..] == s[hi..]
  {
    var t := s[i := s[j]][j := s[i]];
    assert t[lo..hi] == s[lo..hi][i - lo := s[j]][j - lo := s[i]];
  }
}
