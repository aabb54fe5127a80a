/** QuickSort: a[lo..hi] (both ends included, as in the source) is
    partitioned around a[lo] into the smaller, the equal and the larger
    elements, each group in its original order, and the two outer groups
    are sorted recursively. */
module QuickSort {
  import opened Sorting

  /** The elements of s smaller than p, in order. */
  function Below(s: seq<int32>, p: int32): seq<int32>
  {
    if s == [] then []
    else if s[|s| - 1] < p then Below(s[..|s| - 1], p) + [s[|s| - 1]]
    else Below(s[..|s| - 1], p)
  }

  /** The elements of s equal to p, in order. */
  function Same(s: seq<int32>, p: int32): seq<int32>
  {
    if s == [] then []
    else if s[|s| - 1] == p then Same(s[..|s| - 1], p) + [s[|s| - 1]]
    else Same(s[..|s| - 1], p)
  }

  /** The elements of s larger than p, in order. */
  function Above(s: seq<int32>, p: int32): seq<int32>
  {
    if s == [] then []
    else if s[|s| - 1] > p then Above(s[..|s| - 1], p) + [s[|s| - 1]]
    else Above(s[..|s| - 1], p)
  }

  /** Each group holds only elements of its kind. */
  lemma {:induction false} GroupBounds(s: seq<int32>, p: int32)
    ensures forall i :: 0 <= i < |Below(s, p)| ==> Below(s, p)[i] < p
    ensures forall i :: 0 <= i < |Same(s, p)| ==> Same(s, p)[i] == p
    ensures forall i :: 0 <= i < |Above(s, p)| ==> Above(s, p)[i] > p
    decreases |s|
  {
    if s != [] {
      GroupBounds(s[..|s| - 1], p);
    }
  }

  /** The three groups together: what partition writes back. */
  function Partitioned(s: seq<int32>, p: int32): seq<int32>
  {
    Below(s, p) + Same(s, p) + Above(s, p)
  }

  /** The three groups hold exactly the elements of s. */
  lemma {:induction false} PartitionPermutes(s: seq<int32>, p: int32)
    ensures multiset(Partitioned(s, p)) == multiset(s)
    decreases |s|
  {
    if s != [] {
      var init := s[..|s| - 1];
      PartitionPermutes(init, p);
      assert s == init + [s[|s| - 1]];
    }
  }

  /** With p taken from s, the equal group is not empty, so the pivot sits
      right after the smaller group, everything before it smaller and
      everything after it at least as large. */
  lemma PartitionOrder(s: seq<int32>, p: int32)
    requires p in s
    ensures var r := Partitioned(s, p); var m := |Below(s, p)|;
      && |r| == |s| && m < |r| && r[m] == p
      && (forall i :: 0 <= i < m ==> r[i] < r[m])
      && (forall i :: m < i < |r| ==> r[i] >= r[m])
  {
    var r := Partitioned(s, p);
    PartitionPermutes(s, p);
    GroupBounds(s, p);
    assert |r| == |multiset(r)| == |multiset(s)| == |s|;
    assert p in multiset(r);
    assert multiset(r) == multiset(Below(s, p)) + multiset(Same(s, p)) + multiset(Above(s, p));
    assert p !in Below(s, p) && p !in Above(s, p);
    assert p in multiset(Same(s, p));
    assert r[|Below(s, p)|] == Same(s, p)[0];
  }

  /** The sizes PartitionOrder implies. */
  lemma PartitionSizes(s: seq<int32>, p: int32)
    requires p in s
    ensures |Partitioned(s, p)| == |s| && |Below(s, p)| < |s|
  {
    PartitionOrder(s, p);
  }

  /** What partition(a, lo, hi) leaves in a: a[lo..hi] replaced by its
      three groups around the pivot a[lo]. */
  function PartitionSeq(s: seq<int32>, lo: nat, hi: nat): (r: seq<int32>)
    requires lo <= hi < |s|
    ensures |r| == |s|
  {
    PartitionSizes(s[lo..hi + 1], s[lo]);
    s[..lo] + Partitioned(s[lo..hi + 1], s[lo]) + s[hi + 1..]
  }

  /** What partition(a, lo, hi) returns: lo plus the size of the smaller
      group. */
  function Pivot(s: seq<int32>, lo: nat, hi: nat): (j: nat)
    requires lo <= hi < |s|
    ensures lo <= j <= hi
  {
    PartitionSizes(s[lo..hi + 1], s[lo]);
    lo + |Below(s[lo..hi + 1], s[lo])|
  }

  /** Partition leaves the pivot where SplitsAt says. */
  lemma PartitionSplits(s: seq<int32>, lo: nat, hi: nat)
    requires lo <= hi < |s|
    ensures SplitsAt(s, PartitionSeq(s, lo, hi), lo, Pivot(s, lo, hi), hi)
    ensures PartitionSeq(s, lo, hi)[Pivot(s, lo, hi)] == s[lo]
  {
    var seg := s[lo..hi + 1];
    var w := PartitionSeq(s, lo, hi);
    PartitionOrder(seg, seg[0]);
    PartitionPermutes(seg, seg[0]);
    Pieces(s[..lo], Partitioned(seg, seg[0]), s[hi + 1..]);
    Landed(w, lo, hi, seg);
  }

  /** A range of at most one element is sorted as it is. */
  lemma SortsShort(s: seq<int32>, lo: nat, hi: int)
    requires lo <= |s| && hi < |s| && hi <= lo
    ensures SortsRange(s, s, lo, End(lo, hi))
  {
    if hi == lo {
      assert s[lo..hi + 1] == [s[lo]];
    }
  }

  /** sort(array, k): quicksort(array, 0, min(k - 1, array.length - 1)),
      with k - 1 computed on Java `int`s. */
  method Sort(a: array<int32>, k: int32)
    requires a.Length <= MAX_VALUE as int  // a Java array's length is an int
    modifies a
    ensures SortsPrefix(old(a[..]), a[..], WrappedPrefixLen(k, a.Length))
  {
    var km1 := Pred32(k) as int;
    var N := if km1 < a.Length - 1 then km1 else a.Length - 1;
    Range(a, 0, N);
    assert a[..][..WrappedPrefixLen(k, a.Length)] == a[0..WrappedPrefixLen(k, a.Length)];
    assert old(a[..])[..WrappedPrefixLen(k, a.Length)] == old(a[..])[0..WrappedPrefixLen(k, a.Length)];
  }

  /** The end (exclusive) of the range quicksort(a, lo, hi) sorts; an empty
      range when hi <= lo sorts nothing, a one-element range is sorted. */
  function End(lo: nat, hi: int): (e: nat)
    ensures lo <= e && (hi >= lo ==> e == hi + 1)
  {
    if hi < lo then lo else hi + 1
  }

  /** after is before with before[lo..e) sorted: a sorted permutation of
      that slice, everything outside it untouched. */
  ghost predicate SortsRange(before: seq<int32>, after: seq<int32>, lo: nat, e: nat)
  {
    && |after| == |before| && lo <= e <= |before|
    && Sorted(after[lo..e]) && multiset(after[lo..e]) == multiset(before[lo..e])
    && after[..lo] == before[..lo] && after[e..] == before[e..]
  }

  /** after is before with before[lo..hi] permuted so that the element at j
      is larger than everything before it in the range and no larger than
      anything after it. */
  ghost predicate SplitsAt(before: seq<int32>, after: seq<int32>, lo: nat, j: nat, hi: nat)
  {
    && |after| == |before| && lo <= j <= hi < |before|
    && multiset(after[lo..hi + 1]) == multiset(before[lo..hi + 1])
    && after[..lo] == before[..lo] && after[hi + 1..] == before[hi + 1..]
    && (forall i :: lo <= i < j ==> after[i] < after[j])
    && (forall i :: j < i <= hi ==> after[i] >= after[j])
  }

  /** quicksort(a, lo, hi): sorts a[lo..hi] and touches nothing else. */
  method Range(a: array<int32>, lo: nat, hi: int)
    requires hi < a.Length && lo <= a.Length
    modifies a
    ensures SortsRange(old(a[..]), a[..], lo, End(lo, hi))
    decreases hi - lo
  {
    if hi <= lo {
      SortsShort(a[..], lo, hi);
      return;
    }
    ghost var s0 := a[..];
    var j := Partition(a, lo, hi);
    PartitionSplits(s0, lo, hi);
    ghost var s1 := a[..];
    Range(a, lo, j as int - 1);
    ghost var s2 := a[..];
    Range(a, j + 1, hi);
    assert End(lo, j as int - 1) == j && End(j + 1, hi) == hi + 1 && End(lo, hi) == hi + 1;
    Assemble(s0, s1, s2, a[..], lo, j, hi);
  }

  /** The two recursive calls sort both sides of the pivot; the pivot, at
      least every element of the left and at most every one of the right,
      makes the whole range sorted. */
  lemma Assemble(s0: seq<int32>, s1: seq<int32>, s2: seq<int32>, s3: seq<int32>, lo: nat, j: nat, hi: nat)
    requires SplitsAt(s0, s1, lo, j, hi) && SortsRange(s1, s2, lo, j) && SortsRange(s2, s3, j + 1, hi + 1)
    ensures SortsRange(s0, s3, lo, hi + 1)
  {
    Agree(s2, s1, j, |s1|);
    Agree(s3, s2, 0, j + 1);
    Agree(s3, s2, hi + 1, |s1|);
    Agree(s2, s1, 0, lo);
    Agree(s1, s0, 0, lo);
    Agree(s1, s0, hi + 1, |s1|);
    SortedAround(s1, s2, s3, lo, j, hi);
    Permuted(s0, s1, s2, s3, lo, j, hi);
    Apart(s3, s0, lo, hi + 1);
  }

  /** The sorted left side below the pivot, the pivot, and the sorted right
      side from the pivot up make a sorted range. */
  lemma SortedAround(s1: seq<int32>, s2: seq<int32>, s3: seq<int32>, lo: nat, j: nat, hi: nat)
    requires lo <= j <= hi < |s1| == |s2| == |s3|
    requires forall i :: lo <= i < j ==> s1[i] < s1[j]
    requires forall i :: j < i <= hi ==> s1[i] >= s1[j]
    requires Sorted(s2[lo..j]) && multiset(s2[lo..j]) == multiset(s1[lo..j])
    requires forall i :: j <= i < |s1| ==> s2[i] == s1[i]
    requires Sorted(s3[j + 1..hi + 1]) && multiset(s3[j + 1..hi + 1]) == multiset(s2[j + 1..hi + 1])
    requires forall i :: 0 <= i <= j ==> s3[i] == s2[i]
    ensures Sorted(s3[lo..hi + 1])
  {
    var pivot := s1[j];
    // the left side, sorted, still holds only elements below the pivot
    Bounded(s1, s2, lo, j, pivot, true);
    // the right side, sorted, still holds only elements from the pivot up
    Bounded(s2, s3, j + 1, hi + 1, pivot, false);
    forall p, q | lo <= p < q <= hi
      ensures s3[p] <= s3[q]
    {
      if q < j {
        assert s3[p] == s2[lo..j][p - lo] && s3[q] == s2[lo..j][q - lo];
      } else if p > j {
        assert s3[p] == s3[j + 1..hi + 1][p - j - 1] && s3[q] == s3[j + 1..hi + 1][q - j - 1];
      }
    }
  }

  /** Sequences equal on a slice, elementwise. */
  lemma Agree(s: seq<int32>, t: seq<int32>, lo: nat, hi: nat)
    requires lo <= hi <= |s| == |t|
    requires (lo == 0 && s[..hi] == t[..hi]) || (hi == |s| && s[lo..] == t[lo..]) || s[lo..hi] == t[lo..hi]
    ensures forall i :: lo <= i < hi ==> s[i] == t[i]
  {
    forall i | lo <= i < hi
      ensures s[i] == t[i]
    {
      if lo == 0 && s[..hi] == t[..hi] {
        assert s[..hi][i] == t[..hi][i];
      } else if hi == |s| && s[lo..] == t[lo..] {
        assert s[lo..][i - lo] == t[lo..][i - lo];
      } else {
        assert s[lo..hi][i - lo] == t[lo..hi][i - lo];
      }
    }
  }

  /** Sequences equal outside [lo, hi) have equal prefix and suffix. */
  lemma Apart(s: seq<int32>, t: seq<int32>, lo: nat, hi: nat)
    requires lo <= hi <= |s| == |t|
    requires forall i :: 0 <= i < lo || hi <= i < |s| ==> s[i] == t[i]
    ensures s[..lo] == t[..lo] && s[hi..] == t[hi..]
  {
  }

  /** A permutation of t[lo..hi] into s[lo..hi] keeps a strict upper bound
      (below) or a lower bound (not below) that every element meets. */
  lemma Bounded(s: seq<int32>, t: seq<int32>, lo: nat, hi: nat, p: int32, below: bool)
    requires lo <= hi <= |s| == |t| && multiset(t[lo..hi]) == multiset(s[lo..hi])
    requires below ==> forall i :: lo <= i < hi ==> s[i] < p
    requires !below ==> forall i :: lo <= i < hi ==> s[i] >= p
    ensures below ==> forall i :: lo <= i < hi ==> t[i] < p
    ensures !below ==> forall i :: lo <= i < hi ==> t[i] >= p
  {
    forall i | lo <= i < hi
      ensures below ==> t[i] < p
      ensures !below ==> t[i] >= p
    {
      assert t[i] == t[lo..hi][i - lo];
      assert t[i] in multiset(t[lo..hi]);
      assert t[i] in s[lo..hi];
    }
  }

  /** multiset(s[lo..hi]) splits at every mid. */
  lemma Split(s: seq<int32>, lo: nat, mid: nat, hi: nat)
    requires lo <= mid <= hi <= |s|
    ensures multiset(s[lo..hi]) == multiset(s[lo..mid]) + multiset(s[mid..hi])
  {
    assert s[lo..hi] == s[lo..mid] + s[mid..hi];
  }

  /** The three stages permute a[lo..hi]. */
  lemma Permuted(s0: seq<int32>, s1: seq<int32>, s2: seq<int32>, s3: seq<int32>, lo: nat, j: nat, hi: nat)
    requires lo <= j <= hi < |s0| == |s1| == |s2| == |s3|
    requires multiset(s1[lo..hi + 1]) == multiset(s0[lo..hi + 1])
    requires multiset(s2[lo..j]) == multiset(s1[lo..j])
    requires forall i :: j <= i < |s1| ==> s2[i] == s1[i]
    requires multiset(s3[j + 1..hi + 1]) == multiset(s2[j + 1..hi + 1])
    requires forall i :: 0 <= i <= j ==> s3[i] == s2[i]
    ensures multiset(s3[lo..hi + 1]) == multiset(s0[lo..hi + 1])
  {
    PermuteLeft(s1, s2, lo, j, hi + 1);
    PermuteRight(s2, s3, lo, j + 1, hi + 1);
  }

  /** Permuting s[lo..mid] and keeping s[mid..hi] permutes s[lo..hi]. */
  lemma PermuteLeft(s: seq<int32>, t: seq<int32>, lo: nat, mid: nat, hi: nat)
    requires lo <= mid <= hi <= |s| == |t|
    requires multiset(t[lo..mid]) == multiset(s[lo..mid])
    requires forall i :: mid <= i < hi ==> t[i] == s[i]
    ensures multiset(t[lo..hi]) == multiset(s[lo..hi])
  {
    Split(s, lo, mid, hi);
    Split(t, lo, mid, hi);
    assert t[mid..hi] == s[mid..hi];
  }

  /** Keeping s[lo..mid] and permuting s[mid..hi] permutes s[lo..hi]. */
  lemma PermuteRight(s: seq<int32>, t: seq<int32>, lo: nat, mid: nat, hi: nat)
    requires lo <= mid <= hi <= |s| == |t|
    requires multiset(t[mid..hi]) == multiset(s[mid..hi])
    requires forall i :: lo <= i < mid ==> t[i] == s[i]
    ensures multiset(t[lo..hi]) == multiset(s[lo..hi])
  {
    Split(s, lo, mid, hi);
    Split(t, lo, mid, hi);
    assert t[lo..mid] == s[lo..mid];
  }

  /** The pieces of x + y + z. */
  lemma Pieces(x: seq<int32>, y: seq<int32>, z: seq<int32>)
    ensures var w := x + y + z;
      w[..|x|] == x && w[|x|..|x| + |y|] == y && w[|x| + |y|..] == z
  {
  }

  /** System.arraycopy(src, 0, a, lo, src.length) */
  method ArrayCopy(src: seq<int32>, a: array<int32>, lo: nat)
    requires lo + |src| <= a.Length
    modifies a
    ensures a[..] == old(a[..lo]) + src + old(a[lo + |src|..])
  {
    var t := 0;
    while t < |src|
      invariant 0 <= t <= |src|
      invariant forall r :: lo <= r < lo + t ==> a[r] == src[r - lo]
      invariant forall r :: 0 <= r < lo || lo + t <= r < a.Length ==> a[r] == old(a[r])
    {
      a[lo + t] := src[t];
      t := t + 1;
    }
  }

  /** The loop of partition that distributes a[lo..hi] over the lists of
      the smaller, the equal and the larger elements, in order. */
  method Collect(a: array<int32>, lo: nat, hi: nat, pivot: int32)
    returns (smaller: seq<int32>, equal: seq<int32>, larger: seq<int32>)
    requires lo <= hi < a.Length
    ensures smaller == Below(a[lo..hi + 1], pivot)
    ensures equal == Same(a[lo..hi + 1], pivot)
    ensures larger == Above(a[lo..hi + 1], pivot)
  {
    smaller, equal, larger := [], [], [];
    var i := lo;
    while i <= hi
      invariant lo <= i <= hi + 1
      invariant smaller == Below(a[lo..i], pivot)
      invariant equal == Same(a[lo..i], pivot)
      invariant larger == Above(a[lo..i], pivot)
    {
      assert a[lo..i + 1][..i - lo] == a[lo..i];
      if a[i] < pivot {
        smaller := smaller + [a[i]];
      } else if a[i] > pivot {
        larger := larger + [a[i]];
      } else {
        equal := equal + [a[i]];
      }
      i := i + 1;
    }
  }

  /** partition(a, lo, hi): the elements of a[lo..hi] below, equal to and
      above the pivot a[lo] are collected in three lists, which are then
      copied back one after the other; the pivot's new index is returned. */
  method Partition(a: array<int32>, lo: nat, hi: nat) returns (j: nat)
    requires lo <= hi < a.Length
    modifies a
    ensures a[..] == PartitionSeq(old(a[..]), lo, hi) && j == Pivot(old(a[..]), lo, hi)
  {
    var pivot := a[lo];
    var smaller, equal, larger := Collect(a, lo, hi, pivot);
    var partitioned := smaller + equal + larger;
    PartitionOrder(a[lo..hi + 1], pivot);
    ArrayCopy(partitioned, a, lo);
    return |smaller| + lo;
  }

  /** Where partition leaves the pivot: written back over a[lo..hi], the
      three groups put the pivot at lo plus the size of the smaller group,
      with the smaller elements before it and the others after it. */
  lemma Landed(w: seq<int32>, lo: nat, hi: nat, s: seq<int32>)
    requires lo <= hi < |w| && |s| == hi + 1 - lo && w[lo..hi + 1] == Partitioned(s, s[0])
    ensures var j := lo + |Below(s, s[0])|;
      && lo <= j <= hi && w[j] == s[0]
      && (forall i :: lo <= i < j ==> w[i] < w[j]) && (forall i :: j < i <= hi ==> w[i] >= w[j])
  {
    PartitionOrder(s, s[0]);
    var r := Partitioned(s, s[0]);
    forall i | lo <= i <= hi
      ensures w[i] == r[i - lo]
    {
      assert w[lo..hi + 1][i - lo] == w[i];
    }
  }
}
