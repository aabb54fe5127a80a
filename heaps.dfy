/** Max-heap order on a prefix of a sequence laid out as a complete binary
    tree with the root at index 0 and the children of i at 2i + 1 and
    2i + 2; shared by HeapSort and IntHeap. */
module Heaps {
  import opened Sorting

  /** The parent of a non-root index. */
  function Up(c: nat): nat
    requires c > 0
  {
    (c - 1) / 2
  }

  /** Every node of s[..n] whose parent is at lo or below it in index
      order is at most its parent. */
  ghost predicate HeapFrom(s: seq<int32>, lo: nat, n: nat)
  {
    forall c {:trigger Up(c)} :: 0 < c < n && c < |s| && lo <= Up(c) ==> s[Up(c)] >= s[c]
  }

  /** The state while the element at j sinks: the order holds everywhere
      except between j and its children, and j's parent (when the order
      covers it) bounds j's children. */
  ghost predicate SinkingAt(s: seq<int32>, lo: nat, n: nat, j: nat)
  {
    && (forall c {:trigger Up(c)} :: 0 < c < n && c < |s| && lo <= Up(c) && Up(c) != j ==> s[Up(c)] >= s[c])
    && (j > 0 && lo <= Up(j) && Up(j) < |s| ==>
          forall c {:trigger Up(c)} :: 0 < c < n && c < |s| && Up(c) == j ==> s[Up(j)] >= s[c])
  }

  /** The children of j are exactly 2j + 1 and 2j + 2. */
  lemma Children(c: nat, j: nat)
    requires c > 0
    ensures Up(c) == j <==> c == 2 * j + 1 || c == 2 * j + 2
  {
  }

  /** Sinking starts at lo once everything below lo is in order. */
  lemma SinkStart(s: seq<int32>, lo: nat, n: nat)
    requires HeapFrom(s, lo + 1, n)
    ensures SinkingAt(s, lo, n, lo)
  {
  }

  /** Swapping j with its larger child t, which is larger than j, moves the
      sinking point to t. */
  lemma SinkStep(s: seq<int32>, lo: nat, n: nat, j: nat, t: nat)
    requires n <= |s| && lo <= j && 0 < t < n && Up(t) == j
    requires SinkingAt(s, lo, n, j) && s[t] > s[j]
    requires forall c :: 0 < c < n && Up(c) == j ==> s[t] >= s[c]
    ensures SinkingAt(s[j := s[t]][t := s[j]], lo, n, t)
  {
    var s' := s[j := s[t]][t := s[j]];
    forall c | 0 < c < n && lo <= Up(c) && Up(c) != t
      ensures s'[Up(c)] >= s'[c]
    {
      if c == t {
      } else if Up(c) == j {
      } else if c == j {
        assert s[Up(j)] >= s[t];
      } else {
        assert s[Up(c)] >= s[c];
      }
    }
  }

  /** Sinking ends when no child of j is larger than j. */
  lemma SinkDone(s: seq<int32>, lo: nat, n: nat, j: nat)
    requires SinkingAt(s, lo, n, j) && j < |s|
    requires forall c :: 0 < c < n && c < |s| && Up(c) == j ==> s[j] >= s[c]
    ensures HeapFrom(s, lo, n)
  {
  }

  /** The root of a heap is its largest element. */
  lemma {:induction false} RootMax(s: seq<int32>, n: nat, c: nat)
    requires HeapFrom(s, 0, n) && c < n <= |s|
    ensures s[0] >= s[c]
    decreases c
  {
    if c > 0 {
      RootMax(s, n, Up(c));
    }
  }

  /** The larger child of p, zero-based: the right child only when it
      exists and is strictly larger than the left. */
  function Larger(s: seq<int32>, n: nat, p: nat): (t: nat)
    requires 2 * p + 1 < n <= |s|
  {
    if 2 * p + 2 < n && s[2 * p + 1] < s[2 * p + 2] then 2 * p + 2 else 2 * p + 1
  }

  /** The larger child is a child of p in the heap and no smaller than
      either child. */
  lemma LargerIsMax(s: seq<int32>, n: nat, p: nat)
    requires 2 * p + 1 < n <= |s|
    ensures var t := Larger(s, n, p);
      0 < t < n && Up(t) == p && forall c :: 0 < c < n && Up(c) == p ==> s[t] >= s[c]
  {
    forall c | 0 < c < n && Up(c) == p
      ensures s[Larger(s, n, p)] >= s[c]
    {
      Children(c, p);
    }
  }

  /** Sift-down on s[..n]: the element at p is exchanged with its larger
      child for as long as that child is larger. */
  function SinkSeq(s: seq<int32>, n: nat, p: nat): (r: seq<int32>)
    requires n <= |s| && p < n
    ensures |r| == |s|
    decreases n - p
  {
    if 2 * p + 1 >= n then s
    else
      var t := Larger(s, n, p);
      if !(s[p] < s[t]) then s
      else SinkSeq(s[p := s[t]][t := s[p]], n, t)
  }

  /** Sinking permutes s[..n] and leaves the rest alone. */
  lemma {:induction false} SinkPermutes(s: seq<int32>, n: nat, p: nat)
    requires n <= |s| && p < n
    ensures var r := SinkSeq(s, n, p);
      multiset(r[..n]) == multiset(s[..n]) && r[n..] == s[n..]
    decreases n - p
  {
    if 2 * p + 1 < n {
      var t := Larger(s, n, p);
      if s[p] < s[t] {
        SwapSlice(s, p, t, 0, n);
        SinkPermutes(s[p := s[t]][t := s[p]], n, t);
      }
    }
  }

  /** Sinking a node whose subtrees are heaps makes its subtree a heap. */
  lemma {:induction false} SinkHeap(s: seq<int32>, lo: nat, n: nat, p: nat)
    requires n <= |s| && lo <= p < n && SinkingAt(s, lo, n, p)
    ensures HeapFrom(SinkSeq(s, n, p), lo, n)
    decreases n - p
  {
    if 2 * p + 1 >= n {
      SinkDone(s, lo, n, p);
    } else {
      var t := Larger(s, n, p);
      LargerIsMax(s, n, p);
      if !(s[p] < s[t]) {
        SinkDone(s, lo, n, p);
      } else {
        SinkStep(s, lo, n, p, t);
        SinkHeap(s[p := s[t]][t := s[p]], lo, n, t);
      }
    }
  }

  /** Sinking the element at m - 1 when the order already holds for every
      parent from m on extends the order to m - 1. */
  lemma HeapifyStep(s: seq<int32>, m: nat, N: nat)
    requires 1 <= m <= N <= |s| && HeapFrom(s, m, N)
    ensures HeapFrom(SinkSeq(s, N, m - 1), m - 1, N)
  {
    SinkStart(s, m - 1, N);
    SinkHeap(s, m - 1, N, m - 1);
  }
}
