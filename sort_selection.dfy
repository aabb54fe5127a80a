/** SelectionSort: pass i swaps the smallest element of a[i..N) into
    position i. */
module SelectionSort {
  import opened Sorting

  method Sort(a: array<int32>, k: int)
    modifies a
    ensures SortsPrefix(old(a[..]), a[..], PrefixLen(k, a.Length))
  {
    var n := if k < a.Length then k else a.Length;
    ghost var N := PrefixLen(k, a.Length);
    assert n > 0 ==> N == n;
    var i := 0;
    while i < n
      invariant 0 <= i && (n > 0 ==> i <= n) && (n <= 0 ==> i == 0)
      invariant SortedBetween(a[..], 0, i)
      invariant forall p, q :: 0 <= p < i <= q < N ==> a[p] <= a[q]
      invariant multiset(a[..]) == multiset(old(a[..]))
      invariant forall p :: N <= p < a.Length ==> a[p] == old(a[p])
    {
      SelectOne(a, i, n);
      i := i + 1;
    }
    assert a[N..] == old(a[N..]);
    PrefixPermutation(a[..], old(a[..]), N);
  }

  /** Pass i: the smallest element of a[i..n) is swapped into a[i], so a[i]
      is the minimum of a[i..n); nothing outside a[i..n) moves. */
  method SelectOne(a: array<int32>, i: nat, n: nat)
    requires i < n <= a.Length
    requires SortedBetween(a[..], 0, i)
    requires forall p, q :: 0 <= p < i <= q < n ==> a[p] <= a[q]
    modifies a
    ensures forall q :: i <= q < n ==> a[i] <= a[q]
    ensures SortedBetween(a[..], 0, i + 1)
    ensures forall p, q :: 0 <= p < i + 1 <= q < n ==> a[p] <= a[q]
    ensures multiset(a[..]) == multiset(old(a[..]))
    ensures forall p :: 0 <= p < a.Length && !(i <= p < n) ==> a[p] == old(a[p])
  {
    var min := MinFrom(a, i, n);
    Swap(a, i, min);
  }

  /** The inner loop of a pass: the index of a smallest element of
      a[i..n). */
  method MinFrom(a: array<int32>, i: nat, n: nat) returns (min: nat)
    requires i < n <= a.Length
    ensures i <= min < n
    ensures forall q :: i <= q < n ==> a[min] <= a[q]
  {
    min := i;
    for j := i + 1 to n
      invariant i <= min < n
      invariant forall q :: i <= q < j ==> a[min] <= a[q]
    {
      if a[j] < a[min] {
        min := j;
      }
    }
  }
}
