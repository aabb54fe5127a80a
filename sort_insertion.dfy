/** InsertionSort: each element of the prefix is swapped leftwards until it
    is not smaller than its left neighbour. */
module InsertionSort {
  import opened Sorting

  method Sort(a: array<int32>, k: int)
    modifies a
    ensures SortsPrefix(old(a[..]), a[..], PrefixLen(k, a.Length))
  {
    var n := if k < a.Length then k else a.Length;
    ghost var N := PrefixLen(k, a.Length);
    assert n <= 0 ==> N == 0;
    assert n > 0 ==> N == n;
    var i := 0;
    while i < n
      invariant 0 <= i && (n > 0 ==> i <= n) && (n <= 0 ==> i == 0)
      invariant SortedBetween(a[..], 0, i)
      invariant multiset(a[..]) == multiset(old(a[..]))
      invariant forall p :: N <= p < a.Length ==> a[p] == old(a[p])
    {
      InsertOne(a, i);
      i := i + 1;
    }
    assert a[N..] == old(a[N..]);
    PrefixPermutation(a[..], old(a[..]), N);
  }

  /** One pass of the outer loop: a[i] is swapped leftwards into the sorted
      a[0..i), which then takes in a[0..i]; nothing beyond i moves. */
  method InsertOne(a: array<int32>, i: nat)
    requires i < a.Length && SortedBetween(a[..], 0, i)
    modifies a
    ensures SortedBetween(a[..], 0, i + 1)
    ensures multiset(a[..]) == multiset(old(a[..]))
    ensures forall p :: i < p < a.Length ==> a[p] == old(a[p])
  {
    var j := i;
    while j > 0 && a[j] < a[j - 1]
      invariant 0 <= j <= i
      invariant forall p, q :: 0 <= p < q <= i && q != j ==> a[p] <= a[q]
      invariant multiset(a[..]) == multiset(old(a[..]))
      invariant forall p :: i < p < a.Length ==> a[p] == old(a[p])
    {
      Swap(a, j, j - 1);
      j := j - 1;
    }
  }
}
