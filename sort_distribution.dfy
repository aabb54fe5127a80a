/** DistributionSort: a counting sort of the prefix through a count array
    of maxVal + 1 cells, the starting point of each value, and a scratch
    array the values are placed into before being copied back. */
module DistributionSort {
  import opened Common
  import opened Sorting

  const MIN_VALUE: int32 := -0x8000_0000

  /** The exceptions the sort can end in; the array is then untouched. */
  datatype SortException = NegativeArraySize | ArrayIndexOutOfBounds

  /** The largest of init and the elements of s. */
  function MaxOf(s: seq<int32>, init: int32): (m: int32)
    ensures init <= m && forall p :: 0 <= p < |s| ==> s[p] <= m
    ensures m == init || exists p :: 0 <= p < |s| && s[p] == m
  {
    if s == [] then init
    else
      var m := MaxOf(s[..|s| - 1], init);
      if s[|s| - 1] > m then s[|s| - 1] else m
  }

  /** `new int[maxVal + 1]` with Java's wrap-around: MAX_VALUE + 1 is
      MIN_VALUE. */
  function CountsSize(maxVal: int32): int32
  {
    if maxVal == MAX_VALUE then MIN_VALUE else maxVal + 1
  }

  /** How sort(array, k) ends on the prefix s: with no element the maximum
      stays MIN_VALUE and the count array has a negative size; so it does
      when the maximum is MAX_VALUE (the size wraps) or below -1; otherwise
      a negative element indexes the count array out of bounds. */
  function Outcome(s: seq<int32>): (r: Option<SortException>)
    ensures r.None? <==> s != [] && (forall p :: 0 <= p < |s| ==> 0 <= s[p] < MAX_VALUE)
  {
    var m := MaxOf(s, MIN_VALUE);
    if CountsSize(m) < 0 then Some(NegativeArraySize)
    else if exists p :: 0 <= p < |s| && s[p] < 0 then Some(ArrayIndexOutOfBounds)
    else None
  }

  /** The number of elements of s below v. */
  function CountLess(s: seq<int32>, v: int32): (c: nat)
    ensures c <= |s|
  {
    if s == [] then 0
    else CountLess(s[..|s| - 1], v) + if s[|s| - 1] < v then 1 else 0
  }

  /** c copies of v. */
  function Rep(v: int32, c: nat): (r: seq<int32>)
    ensures |r| == c && forall p :: 0 <= p < c ==> r[p] == v
  {
    seq(c, _ => v)
  }

  /** The values v..M of s in order, each as often as it occurs in s: what
      the placement loop writes into `sorted`. */
  function Spread(s: seq<int32>, v: int32, M: int32): seq<int32>
    requires 0 <= v && M < MAX_VALUE
    decreases M as int + 1 - v as int
  {
    if v > M then [] else Rep(v, multiset(s)[v]) + Spread(s, v + 1, M)
  }

  predicate InRange(s: seq<int32>, M: int32)
  {
    forall p :: 0 <= p < |s| ==> 0 <= s[p] <= M
  }

  /** sort(array, k): on success the prefix ends sorted and permuted, and it
      ends in a (modelled) exception with the array unchanged otherwise. */
  method Sort(a: array<int32>, k: int) returns (failure: Option<SortException>)
    modifies a
    ensures failure == Outcome(old(a[..PrefixLen(k, a.Length)]))
    ensures failure.Some? ==> a[..] == old(a[..])
    ensures failure.None? ==> SortsPrefix(old(a[..]), a[..], PrefixLen(k, a.Length))
  {
    var n := if k < a.Length then k else a.Length;
    var N := PrefixLen(k, a.Length);
    assert n > 0 ==> N == n;
    ghost var s := a[..N];
    var maxVal := FindMax(a, N);
    var size := CountsSize(maxVal);
    if size < 0 {
      return Some(NegativeArraySize);
    }
    var counts;
    counts, failure := CountValues(a, N, size);
    if failure.Some? {
      return;
    }
    assert InRange(s, maxVal);
    Distribute(a, N, counts, s);
  }

  /** The third to last loops, once the counts are in: the prefix becomes
      the spread of its values, which is sorted and a permutation. */
  method Distribute(a: array<int32>, N: nat, counts: array<int>, ghost s: seq<int32>)
    requires N <= a.Length && s == a[..N]
    requires 0 < counts.Length <= MAX_VALUE as int && InRange(s, (counts.Length - 1) as int32)
    requires forall v: int32 :: 0 <= v < counts.Length as int32 ==> counts[v] == multiset(s)[v]
    modifies a
    ensures SortsPrefix(old(a[..]), a[..], N)
  {
    ghost var M := (counts.Length - 1) as int32;
    var startingPoints := StartingPoints(s, counts);
    var sorted := Place(a, N, startingPoints, s);
    SpreadPermutation(s, M);
    SpreadSorted(s, 0, M);
    CopyBack(a, sorted);
    assert a[..N] == sorted[..];
  }

  /** The last loop: sorted is copied over the prefix. */
  method CopyBack(a: array<int32>, sorted: array<int32>)
    requires sorted.Length <= a.Length && a != sorted
    modifies a
    ensures a[..sorted.Length] == sorted[..] && a[sorted.Length..] == old(a[sorted.Length..])
  {
    for i := 0 to sorted.Length
      invariant forall p :: 0 <= p < i ==> a[p] == sorted[p]
      invariant forall p :: i <= p < a.Length ==> a[p] == old(a[p])
    {
      a[i] := sorted[i];
    }
  }

  /** The first loop: the largest element of the prefix, starting from
      MIN_VALUE. */
  method FindMax(a: array<int32>, n: nat) returns (maxVal: int32)
    requires n <= a.Length
    ensures maxVal == MaxOf(a[..n], MIN_VALUE)
  {
    maxVal := MIN_VALUE;
    for i := 0 to n
      invariant maxVal == MaxOf(a[..i], MIN_VALUE)
    {
      assert a[..i + 1][..i] == a[..i];
      if a[i] > maxVal {
        maxVal := a[i];
      }
    }
  }

  /** The second loop: counts[v] becomes the number of occurrences of v;
      the first negative element is an index out of bounds. */
  method CountValues(a: array<int32>, n: nat, size: int32) returns (counts: array<int>, failure: Option<SortException>)
    requires n <= a.Length && 0 <= size && size == CountsSize(MaxOf(a[..n], MIN_VALUE))
    ensures failure == Outcome(a[..n])
    ensures failure.None? ==> counts.Length == size as int && fresh(counts)
    ensures failure.None? ==> forall v: int32 :: 0 <= v < size ==> counts[v] == multiset(a[..n])[v]
  {
    ghost var M := MaxOf(a[..n], MIN_VALUE);
    assert n > 0;
    counts := new int[size](_ => 0);
    for i := 0 to n
      invariant forall p :: 0 <= p < i ==> 0 <= a[p]
      invariant forall v: int32 :: 0 <= v < size ==> counts[v] == multiset(a[..i])[v]
    {
      var dataPoint := a[i];
      if !(0 <= dataPoint < size) {
        assert dataPoint < 0 by {
          assert a[..n][i] == dataPoint;
        }
        assert a[..n][i] < 0;
        return counts, Some(ArrayIndexOutOfBounds);
      }
      assert a[..i + 1] == a[..i] + [dataPoint];
      counts[dataPoint] := counts[dataPoint] + 1;
    }
    assert forall p :: 0 <= p < n ==> 0 <= a[..n][p] < MAX_VALUE by {
      forall p | 0 <= p < n
        ensures 0 <= a[..n][p] < MAX_VALUE
      {
        assert a[..n][p] == a[p] <= M;
      }
    }
    failure := None;
  }

  /** The third loop: startingPoints[v] becomes the number of elements
      below v, where the first of the v's goes. */
  method StartingPoints(ghost s: seq<int32>, counts: array<int>) returns (startingPoints: array<int>)
    requires 0 < counts.Length <= MAX_VALUE as int && InRange(s, (counts.Length - 1) as int32)
    requires forall v: int32 :: 0 <= v < counts.Length as int32 ==> counts[v] == multiset(s)[v]
    ensures startingPoints.Length == counts.Length && fresh(startingPoints)
    ensures forall v: int32 :: 0 <= v < counts.Length as int32 ==> startingPoints[v] == CountLess(s, v)
  {
    var size := counts.Length as int32;
    startingPoints := new int[size](_ => 0);
    CountLessZero(s);
    for i: int32 := 1 to size
      invariant startingPoints[0] == 0
      invariant forall v: int32 :: 0 <= v < i ==> startingPoints[v] == CountLess(s, v)
    {
      CountLessStep(s, i - 1);
      startingPoints[i] := startingPoints[i - 1] + counts[i - 1];
    }
  }

  /** The fourth loop: each element goes to its value's starting point,
      which then moves on by one; the result is the spread of the
      prefix. */
  method Place(a: array<int32>, n: nat, startingPoints: array<int>, ghost s: seq<int32>) returns (sorted: array<int32>)
    requires n <= a.Length && s == a[..n]
    requires 0 < startingPoints.Length <= MAX_VALUE as int
    requires InRange(s, (startingPoints.Length - 1) as int32)
    requires forall v: int32 :: 0 <= v < startingPoints.Length as int32 ==> startingPoints[v] == CountLess(s, v)
    modifies startingPoints
    ensures fresh(sorted)
    ensures sorted.Length == n && sorted[..] == Spread(s, 0, (startingPoints.Length - 1) as int32)
  {
    ghost var M := (startingPoints.Length - 1) as int32;
    ghost var target := Spread(s, 0, M);
    sorted := new int32[n];
    PlacedStart(s, M, startingPoints[..], sorted[..], target);
    for i := 0 to n
      invariant Placed(s, i, M, startingPoints[..], sorted[..], target)
    {
      assert s[i] == a[i];
      PlaceOne(a[i], startingPoints, sorted, s, i, M, target);
    }
    PlacedAll(s, M, startingPoints[..], sorted[..], target);
  }

  /** The body of the fourth loop: dataPoint, the element at i, stored at
      its value's starting point, which moves on by one. */
  method PlaceOne(dataPoint: int32, startingPoints: array<int>, sorted: array<int32>,
                  ghost s: seq<int32>, ghost i: nat, ghost M: int32, ghost target: seq<int32>)
    requires M < MAX_VALUE && InRange(s, M) && target == Spread(s, 0, M)
    requires i < |s| && s[i] == dataPoint
    requires Placed(s, i, M, startingPoints[..], sorted[..], target)
    modifies startingPoints, sorted
    ensures Placed(s, i + 1, M, startingPoints[..], sorted[..], target)
  {
    ghost var sp, st := startingPoints[..], sorted[..];
    PlaceStep(s, i, M, sp, st, target);
    var targetLocation := startingPoints[dataPoint];
    sorted[targetLocation] := dataPoint;
    assert sorted[..] == st[targetLocation := dataPoint];
    startingPoints[dataPoint] := startingPoints[dataPoint] + 1;
    assert startingPoints[..] == sp[dataPoint := sp[dataPoint] + 1];
  }

  /** Before any element is placed, the starting points are the counts
      of smaller values and no block needs filling. */
  lemma PlacedStart(s: seq<int32>, M: int32, sp: seq<int>, sorted: seq<int32>, target: seq<int32>)
    requires 0 <= M < MAX_VALUE && InRange(s, M) && target == Spread(s, 0, M)
    requires |sp| == M as int + 1 && |sorted| == |s|
    requires forall v: int32 :: 0 <= v <= M ==> sp[v] == CountLess(s, v)
    ensures Placed(s, 0, M, sp, sorted, target)
  {
    SpreadLength(s, 0, M);
    CountLessZero(s);
    CountLessAll(s, M);
    assert s[..0] == [];
  }

  /** Once every element is placed, the blocks cover the whole target. */
  lemma PlacedAll(s: seq<int32>, M: int32, sp: seq<int>, sorted: seq<int32>, target: seq<int32>)
    requires M < MAX_VALUE && InRange(s, M) && target == Spread(s, 0, M)
    requires Placed(s, |s|, M, sp, sorted, target)
    ensures sorted == target
  {
    assert s[..|s|] == s;
    SpreadLength(s, 0, M);
    CountLessZero(s);
    CountLessAll(s, M);
    forall p | 0 <= p < |s|
      ensures sorted[p] == target[p]
    {
      var v := Owner(s, M, p, M);
      CountLessStep(s, v);
      assert Filled(sorted, target, CountLess(s, v), sp[v]);
    }
  }

  /** After the first i elements of s are placed: the starting point of v
      has moved past the v's among them, and each value's block is filled
      up to its starting point. */
  ghost predicate Placed(s: seq<int32>, i: nat, M: int32, sp: seq<int>, sorted: seq<int32>, target: seq<int32>)
  {
    && 0 <= M && i <= |s| && |sp| == M as int + 1 && |sorted| == |target|
    && forall v: int32 :: 0 <= v <= M ==>
         sp[v] == CountLess(s, v) + multiset(s[..i])[v] && Filled(sorted, target, CountLess(s, v), sp[v])
  }

  /** Placing s[i] at its starting point keeps Placed. */
  lemma PlaceStep(s: seq<int32>, i: nat, M: int32, sp: seq<int>, sorted: seq<int32>, target: seq<int32>)
    requires M < MAX_VALUE && InRange(s, M) && target == Spread(s, 0, M)
    requires Placed(s, i, M, sp, sorted, target) && i < |s|
    ensures 0 <= sp[s[i]] < |sorted|
    ensures Placed(s, i + 1, M, sp[s[i] := sp[s[i]] + 1], sorted[sp[s[i]] := s[i]], target)
  {
    var x := s[i];
    assert s[..i + 1] == s[..i] + [x];
    PrefixCount(s, i + 1, x);
    SpreadAt(s, 0, x, M, multiset(s[..i])[x]);
    CountLessZero(s);
    var q := sp[x];
    forall v: int32 | 0 <= v <= M
      ensures Filled(sorted[q := x], target, CountLess(s, v), if v == x then q + 1 else sp[v])
    {
      FilledUpdate(sorted, target, CountLess(s, v), sp[v], q);
    }
  }

  /** Positions lo..hi of t already hold what target has there. */
  ghost predicate Filled(t: seq<int32>, target: seq<int32>, lo: int, hi: int)
  {
    forall p :: lo <= p < hi && 0 <= p < |t| && p < |target| ==> t[p] == target[p]
  }

  lemma FilledUpdate(t: seq<int32>, target: seq<int32>, lo: int, hi: int, q: nat)
    requires Filled(t, target, lo, hi) && q < |t| && q < |target|
    ensures Filled(t[q := target[q]], target, lo, hi)
    ensures hi == q ==> Filled(t[q := target[q]], target, lo, hi + 1)
  {
  }

  /** One more occurrence in a prefix is still at most the count in the
      whole sequence. */
  lemma PrefixCount(s: seq<int32>, i: nat, v: int32)
    requires i <= |s|
    ensures multiset(s[..i])[v] <= multiset(s)[v]
  {
    assert s == s[..i] + s[i..];
  }

  lemma {:induction false} CountLessZero(s: seq<int32>)
    requires InRange(s, MAX_VALUE)
    ensures CountLess(s, 0) == 0
  {
    if s != [] {
      CountLessZero(s[..|s| - 1]);
    }
  }

  lemma {:induction false} CountLessAll(s: seq<int32>, M: int32)
    requires M < MAX_VALUE && InRange(s, M)
    ensures CountLess(s, M + 1) == |s|
  {
    if s != [] {
      CountLessAll(s[..|s| - 1], M);
    }
  }

  /** Moving the bound past v takes in the occurrences of v. */
  lemma {:induction false} CountLessStep(s: seq<int32>, v: int32)
    requires v < MAX_VALUE
    ensures CountLess(s, v + 1) == CountLess(s, v) + multiset(s)[v]
  {
    if s != [] {
      CountLessStep(s[..|s| - 1], v);
      assert s == s[..|s| - 1] + [s[|s| - 1]];
    }
  }

  lemma {:induction false} SpreadLength(s: seq<int32>, v: int32, M: int32)
    requires 0 <= v as int <= M as int + 1 && M < MAX_VALUE
    ensures |Spread(s, v, M)| == CountLess(s, M + 1) - CountLess(s, v)
    decreases M as int + 1 - v as int
  {
    if v <= M {
      SpreadLength(s, v + 1, M);
      CountLessStep(s, v);
    }
  }

  /** In the spread from w, the occurrences of v >= w sit right after the
      elements of s in [w, v). */
  lemma {:induction false} SpreadAt(s: seq<int32>, w: int32, v: int32, M: int32, d: nat)
    requires 0 <= w <= v <= M < MAX_VALUE && d < multiset(s)[v]
    ensures CountLess(s, w) <= CountLess(s, v)
    ensures CountLess(s, v) - CountLess(s, w) + d < |Spread(s, w, M)|
    ensures Spread(s, w, M)[CountLess(s, v) - CountLess(s, w) + d] == v
    decreases v - w
  {
    CountLessStep(s, w);
    SpreadLength(s, w, M);
    if w < v {
      SpreadAt(s, w + 1, v, M, d);
    }
  }

  /** The value whose block holds position p: searched downwards from w. */
  lemma {:induction false} Owner(s: seq<int32>, M: int32, p: nat, w: int32) returns (v: int32)
    requires 0 <= w <= M < MAX_VALUE && InRange(s, M)
    requires p < CountLess(s, w + 1)
    ensures 0 <= v <= w && CountLess(s, v) <= p < CountLess(s, v + 1)
    decreases w
  {
    if CountLess(s, w) <= p {
      v := w;
    } else {
      CountLessZero(s);
      v := Owner(s, M, p, w - 1);
    }
  }

  lemma {:induction false} SpreadSorted(s: seq<int32>, v: int32, M: int32)
    requires 0 <= v && M < MAX_VALUE
    ensures Sorted(Spread(s, v, M))
    ensures forall p :: 0 <= p < |Spread(s, v, M)| ==> v <= Spread(s, v, M)[p]
    decreases M as int + 1 - v as int
  {
    if v <= M {
      SpreadSorted(s, v + 1, M);
      var r, t := Rep(v, multiset(s)[v]), Spread(s, v + 1, M);
      assert Spread(s, v, M) == r + t;
      forall p, q | 0 <= p < q < |r + t|
        ensures (r + t)[p] <= (r + t)[q]
      {
        if p >= |r| {
          assert (r + t)[p] == t[p - |r|] && (r + t)[q] == t[q - |r|];
        } else if q >= |r| {
          assert (r + t)[q] == t[q - |r|];
        }
      }
    }
  }

  lemma {:induction false} RepCount(v: int32, c: nat)
    ensures multiset(Rep(v, c)) == multiset{}[v := c]
  {
    if c > 0 {
      RepCount(v, c - 1);
      assert Rep(v, c) == Rep(v, c - 1) + [v];
    }
  }

  /** The spread from v holds each value of [v, M] as often as s does. */
  lemma {:induction false} SpreadCount(s: seq<int32>, v: int32, M: int32, x: int32)
    requires 0 <= v && M < MAX_VALUE
    ensures multiset(Spread(s, v, M))[x] == if v <= x <= M then multiset(s)[x] else 0
    decreases M as int + 1 - v as int
  {
    if v <= M {
      SpreadCount(s, v + 1, M, x);
      var r, t := Rep(v, multiset(s)[v]), Spread(s, v + 1, M);
      RepCount(v, multiset(s)[v]);
      assert Spread(s, v, M) == r + t;
      assert multiset(r + t) == multiset(r) + multiset(t);
    }
  }

  /** The spread of a sequence of values in [0, M] is a permutation of
      it. */
  lemma SpreadPermutation(s: seq<int32>, M: int32)
    requires M < MAX_VALUE && InRange(s, M)
    ensures multiset(Spread(s, 0, M)) == multiset(s)
  {
    forall x: int32
      ensures multiset(Spread(s, 0, M))[x] == multiset(s)[x]
    {
      SpreadCount(s, 0, M, x);
      if !(0 <= x <= M) {
        assert x !in s;
      }
    }
  }
}
