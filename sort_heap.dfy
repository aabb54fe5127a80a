/** HeapSort: the prefix is made a max-heap by sinking every inner node,
    then the root is repeatedly exchanged with the last heap element and
    the new root sunk. Node numbers are one-based, as in the source:
    node m is a[m - 1] and its children are nodes 2m and 2m + 1. */
module HeapSort {
  import opened Sorting
  import opened Heaps

  method Sort(a: array<int32>, k: int)
    modifies a
    ensures SortsPrefix(old(a[..]), a[..], PrefixLen(k, a.Length))
  {
    // min(array.length, k); a k below one leaves both loops empty, as an
    // empty prefix does
    var N: nat := PrefixLen(k, a.Length);
    Heapify(a, N);
    ghost var heap := a[..];
    SortDown(a, N);
    Splice(old(a[..]), heap, N, N);
    Splice(heap, a[..], N, N);
  }

  /** The first loop of sort: every inner node, last first, is sunk, which
      makes a[..N] a heap. */
  method Heapify(a: array<int32>, N: nat)
    requires N <= a.Length
    modifies a
    ensures HeapFrom(a[..], 0, N)
    ensures multiset(a[..N]) == multiset(old(a[..N])) && a[N..] == old(a[N..])
  {
    var m := N / 2;
    while m >= 1
      invariant 0 <= m <= N / 2
      invariant HeapFrom(a[..], m, N)
      invariant multiset(a[..N]) == multiset(old(a[..N])) && a[N..] == old(a[N..])
    {
      ghost var s := a[..];
      HeapifyStep(s, m, N);
      SinkPermutes(s, N, m - 1);
      Sink(a, m, N);
      m := m - 1;
    }
  }

  /** The second loop of sort: the root is exchanged with the last heap
      element, the heap shrinks by one and the new root is sunk, until one
      element is left. */
  method SortDown(a: array<int32>, N: nat)
    requires N <= a.Length && HeapFrom(a[..], 0, N)
    modifies a
    ensures Sorted(a[..N])
    ensures multiset(a[..N]) == multiset(old(a[..N])) && a[N..] == old(a[N..])
  {
    var size: nat := N;
    while size > 1
      invariant size <= N && (N > 0 ==> size >= 1)
      invariant SortingDown(a[..], size, N)
      invariant multiset(a[..N]) == multiset(old(a[..N])) && a[N..] == old(a[N..])
    {
      ghost var s := a[..];
      ExtractStep(s, size, N);
      Swap(a, 0, size - 1);
      assert a[..] == s[0 := s[size - 1]][size - 1 := s[0]];
      size := size - 1;
      Sink(a, 1, size);
    }
    assert SortedBetween(a[..], 0, N);
    assert a[..][..N] == a[..N];
  }

  /** The state of the sort-down with a heap of the given size: a[..size]
      is a heap, a[size..n] is sorted and no element of the heap exceeds
      one of the sorted part. */
  ghost predicate SortingDown(s: seq<int32>, size: nat, n: nat)
    requires size <= n <= |s|
  {
    && HeapFrom(s, 0, size) && SortedBetween(s, size, n)
    && forall p, q :: 0 <= p < size <= q < n ==> s[p] <= s[q]
  }

  /** sink(pq, m, N): node m moves down, each time exchanged with its larger
      child while that child is larger. */
  method Sink(a: array<int32>, m: nat, N: nat)
    requires 1 <= m <= N <= a.Length
    modifies a
    ensures a[..] == SinkSeq(old(a[..]), N, m - 1)
  {
    var node := m;
    ghost var sunk := SinkSeq(a[..], N, m - 1);
    while 2 * node <= N
      invariant m <= node <= N
      invariant SinkSeq(a[..], N, node - 1) == sunk
      decreases N - node
    {
      ghost var s := a[..];
      var next := SinkRound(a, node, N);
      if next == 0 {
        SinkStays(s, N, node - 1);
        break;
      }
      SinkMoves(s, N, node - 1);
      node := next;
    }
    if 2 * node > N {
      SinkStays(a[..], N, node - 1);
    }
  }

  /** One round of sink's loop at node m, which has a child: when the
      larger child is larger, the two are exchanged and the child's node
      is returned; otherwise nothing changes and 0 is returned. */
  method SinkRound(a: array<int32>, m: nat, N: nat) returns (next: nat)
    requires 1 <= m && 2 * m <= N <= a.Length
    modifies a
    ensures var t := Larger(old(a[..]), N, m - 1);
      if old(a[m - 1]) < old(a[t]) then
        next == t + 1 && a[..] == old(a[..])[m - 1 := old(a[t])][t := old(a[m - 1])]
      else
        next == 0 && a[..] == old(a[..])
  {
    var j := 2 * m;
    if j < N && a[j - 1] < a[j] {
      j := j + 1;
    }
    assert j - 1 == Larger(a[..], N, m - 1);
    if !(a[m - 1] < a[j - 1]) {
      return 0;
    }
    Swap(a, m - 1, j - 1);
    return j;
  }

  /** A node without a larger child stays where it is. */
  lemma SinkStays(s: seq<int32>, n: nat, p: nat)
    requires n <= |s| && p < n
    requires 2 * p + 1 < n ==> !(s[p] < s[Larger(s, n, p)])
    ensures SinkSeq(s, n, p) == s
  {
  }

  /** A node with a larger child is exchanged with it and sinks on from
      the child's place. */
  lemma SinkMoves(s: seq<int32>, n: nat, p: nat)
    requires n <= |s| && 2 * p + 1 < n && s[p] < s[Larger(s, n, p)]
    ensures var t := Larger(s, n, p);
      SinkSeq(s, n, p) == SinkSeq(s[p := s[t]][t := s[p]], n, t)
  {
  }

  /** One pass of the sort-down: exchanging the root, the largest element
      of the heap, with the last heap element and sinking the new root
      grows the sorted suffix by one and keeps the rest a heap. */
  lemma ExtractStep(s: seq<int32>, N: nat, n: nat)
    requires 2 <= N <= n <= |s| && SortingDown(s, N, n)
    ensures var r := SinkSeq(s[0 := s[N - 1]][N - 1 := s[0]], N - 1, 0);
      && SortingDown(r, N - 1, n)
      && multiset(r[..n]) == multiset(s[..n]) && r[n..] == s[n..]
  {
    var t := s[0 := s[N - 1]][N - 1 := s[0]];
    SwapRoot(s, N, n);
    SwapSlice(s, 0, N - 1, 0, n);
    HeapifyStep(t, 1, N - 1);
    var r := SinkSeq(t, N - 1, 0);
    SinkPermutes(t, N - 1, 0);
    Reshuffle(t, r, N - 1, n);
    Splice(t, r, N - 1, n);
  }

  /** The exchange of the root with the last heap element. */
  lemma SwapRoot(s: seq<int32>, N: nat, n: nat)
    requires 2 <= N <= n <= |s| && SortingDown(s, N, n)
    ensures var t := s[0 := s[N - 1]][N - 1 := s[0]];
      && HeapFrom(t, 1, N - 1) && SortedBetween(t, N - 1, n)
      && (forall p, q :: 0 <= p < N - 1 <= q < n ==> t[p] <= t[q])
  {
    forall c | 0 <= c < N
      ensures s[0] >= s[c]
    {
      RootMax(s, N, c);
    }
  }

  /** A permutation of the first N elements keeps every one of them at
      most each element of s[N..n), and keeps s[N..n) sorted. */
  lemma Reshuffle(s: seq<int32>, t: seq<int32>, N: nat, n: nat)
    requires N <= n <= |s| == |t| && multiset(t[..N]) == multiset(s[..N])
    requires forall p, q :: 0 <= p < N <= q < n ==> s[p] <= s[q]
    requires SortedBetween(s, N, n)
    requires t[N..] == s[N..]
    ensures forall p, q :: 0 <= p < N <= q < n ==> t[p] <= t[q]
    ensures SortedBetween(t, N, n)
  {
    forall q | N <= q < |s|
      ensures t[q] == s[q]
    {
      assert s[N..][q - N] == t[N..][q - N];
    }
    forall p, q | 0 <= p < N <= q < n
      ensures t[p] <= t[q]
    {
      assert t[p] in multiset(t[..N]) by {
        assert t[..N][p] == t[p];
      }
      assert t[p] in s[..N];
      var p' :| 0 <= p' < N && s[..N][p'] == t[p];
    }
  }

  /** A permutation of s[..N] that leaves s[N..] alone permutes every
      longer prefix too. */
  lemma Splice(s: seq<int32>, t: seq<int32>, N: nat, n: nat)
    requires N <= n <= |s| == |t| && multiset(t[..N]) == multiset(s[..N])
    requires t[N..] == s[N..]
    ensures multiset(t[..n]) == multiset(s[..n]) && t[n..] == s[n..]
  {
    assert t[..n] == t[..N] + t[N..n];
    assert s[..n] == s[..N] + s[N..n];
    assert t[N..n] == t[N..][..n - N];
    assert s[N..n] == s[N..][..n - N];
    assert t[n..] == t[N..][n - N..];
    assert s[n..] == s[N..][n - N..];
  }
}
