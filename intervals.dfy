/** coveredLength: the intervals [x, y] of ints are sorted by their start
    and swept once, merging each into the current block when it starts at or
    before the block's end. The length covered is the number of unit cells
    [t, t + 1) inside some interval. */
module Intervals {
  import opened Common

  /** A two-element array {x, y}. */
  datatype Interval = Interval(x: int, y: int)

  /** What coveredLength assumes of its argument: Java ints with x <= y. */
  predicate WellFormed(ivs: seq<Interval>)
  {
    forall k :: 0 <= k < |ivs| ==> IsInt32(ivs[k].x) && IsInt32(ivs[k].y) && ivs[k].x <= ivs[k].y
  }

  /** The cells t with a <= t < b. */
  ghost function Range(a: int, b: int): set<int>
    decreases b - a
  {
    if b <= a then {} else Range(a, b - 1) + {b - 1}
  }

  lemma {:induction false} InRange(a: int, b: int, t: int)
    ensures t in Range(a, b) <==> a <= t < b
    decreases b - a
  {
    if a < b {
      InRange(a, b - 1, t);
    }
  }

  lemma RangeMembers(a: int, b: int)
    ensures forall t :: t in Range(a, b) <==> a <= t < b
  {
    forall t
      ensures t in Range(a, b) <==> a <= t < b
    {
      InRange(a, b, t);
    }
  }

  lemma {:induction false} RangeSize(a: int, b: int)
    requires a <= b
    ensures |Range(a, b)| == b - a
    decreases b - a
  {
    if a < b {
      InRange(a, b - 1, b - 1);
      RangeSize(a, b - 1);
    }
  }

  /** The cells covered by the union of the intervals. */
  ghost function Cells(ivs: seq<Interval>): set<int>
  {
    if ivs == [] then {} else Cells(ivs[..|ivs| - 1]) + Range(ivs[|ivs| - 1].x, ivs[|ivs| - 1].y)
  }

  /** A cell is covered exactly when some interval holds it. */
  lemma {:induction false} CellsCover(ivs: seq<Interval>, t: int)
    ensures t in Cells(ivs) <==> exists k :: 0 <= k < |ivs| && ivs[k].x <= t < ivs[k].y
    decreases |ivs|
  {
    if ivs != [] {
      var init := ivs[..|ivs| - 1];
      CellsCover(init, t);
      InRange(ivs[|ivs| - 1].x, ivs[|ivs| - 1].y, t);
      if exists k :: 0 <= k < |init| && init[k].x <= t < init[k].y {
        var k :| 0 <= k < |init| && init[k].x <= t < init[k].y;
        assert ivs[k] == init[k];
      }
      if exists k :: 0 <= k < |ivs| && ivs[k].x <= t < ivs[k].y {
        var k :| 0 <= k < |ivs| && ivs[k].x <= t < ivs[k].y;
        if k < |init| {
          assert init[k] == ivs[k];
        }
      }
    }
  }

  /** The cells depend only on which intervals there are, not on their
      order. */
  lemma CellsPermutation(s: seq<Interval>, u: seq<Interval>)
    requires multiset(s) == multiset(u)
    ensures Cells(s) == Cells(u)
  {
    forall t | t in Cells(s)
      ensures t in Cells(u)
    {
      Moved(s, u, t);
    }
    forall t | t in Cells(u)
      ensures t in Cells(s)
    {
      Moved(u, s, t);
    }
  }

  lemma Moved(s: seq<Interval>, u: seq<Interval>, t: int)
    requires multiset(s) == multiset(u) && t in Cells(s)
    ensures t in Cells(u)
  {
    CellsCover(s, t);
    var k :| 0 <= k < |s| && s[k].x <= t < s[k].y;
    assert s[k] in multiset(u);
    var k' :| 0 <= k' < |u| && u[k'] == s[k];
    CellsCover(u, t);
  }

  /** Two sets on either side of m add their sizes. */
  lemma DisjointUnion(A: set<int>, B: set<int>, m: int)
    requires forall t :: t in A ==> t < m
    requires forall t :: t in B ==> t >= m
    ensures |A + B| == |A| + |B|
  {
    assert A * B == {} by {
      forall t | t in A * B
        ensures false
      {
      }
    }
  }

  /** One step of the sweep: an interval that starts past the block's end
      closes the block, whose cells then join the counted ones; one that
      starts inside it and ends later extends it; any other lies inside
      it. */
  lemma Absorb(done: set<int>, start: int, end: int, x: int, y: int)
    requires start <= end && start <= x <= y
    requires forall t :: t in done ==> t < start
    ensures x > end ==>
      && |done + Range(start, end)| == |done| + (end - start)
      && (forall t :: t in done + Range(start, end) ==> t < x)
    ensures x <= end && y > end ==>
      done + Range(start, end) + Range(x, y) == done + Range(start, y)
    ensures !(x > end) && !(x <= end && y > end) ==>
      done + Range(start, end) + Range(x, y) == done + Range(start, end)
  {
    RangeMembers(start, end);
    RangeMembers(x, y);
    if x > end {
      RangeSize(start, end);
      DisjointUnion(done, Range(start, end), start);
    } else if y > end {
      RangeJoin(start, end, x, y);
    } else {
      RangeJoin(start, end, x, y);
    }
  }

  // The comparator of the sort.

  /** A Java int difference: wrapped to 32 bits. */
  function Wrap32(v: int): (r: int)
    ensures IsInt32(r)
    ensures IsInt32(v) ==> r == v
  {
    (v - INT_MIN) % 0x1_0000_0000 + INT_MIN
  }

  /** Wrapping to 32 bits takes away a multiple of 2^32. */
  lemma WrapShift(v: int)
    ensures exists m :: Wrap32(v) == v + m * 0x1_0000_0000
  {
    var q := (v - INT_MIN) / 0x1_0000_0000;
    assert v - INT_MIN == q * 0x1_0000_0000 + (v - INT_MIN) % 0x1_0000_0000;
    assert Wrap32(v) == v + (-q) * 0x1_0000_0000;
  }

  /** Values 2^32 apart wrap to the same int. */
  lemma WrapPeriodic(v: int, m: int)
    ensures Wrap32(v + m * 0x1_0000_0000) == Wrap32(v)
  {
    var M := 0x1_0000_0000;
    assert (v + m * M) - INT_MIN == (v - INT_MIN) + m * M;
    ModShift(v - INT_MIN, m);
  }

  lemma ModShift(a: int, m: int)
    ensures (a + m * 0x1_0000_0000) % 0x1_0000_0000 == a % 0x1_0000_0000
  {
    var M := 0x1_0000_0000;
    var q := a / M;
    assert a == q * M + a % M;
    assert a + m * M == (q + m) * M + a % M;
  }

  /** Java's `+=` on ints: adding wrapped values and wrapping again is
      wrapping the true sum. */
  lemma WrapAdd(a: int, b: int)
    ensures Wrap32(Wrap32(a) + Wrap32(b)) == Wrap32(a + b)
  {
    WrapShift(a);
    WrapShift(b);
    var m :| Wrap32(a) == a + m * 0x1_0000_0000;
    var n :| Wrap32(b) == b + n * 0x1_0000_0000;
    assert Wrap32(a) + Wrap32(b) == (a + b) + (m + n) * 0x1_0000_0000;
    WrapPeriodic(a + b, m + n);
  }

  /** (arr1, arr2) -> arr1[0] - arr2[0], as written. */
  function StartOrderAsWritten(a: Interval, b: Interval): (r: int)
    requires IsInt32(a.x) && IsInt32(b.x)
    ensures IsInt32(r)
    ensures IsInt32(a.x - b.x) ==> r == a.x - b.x
    ensures !IsInt32(a.x - b.x) ==> (r < 0 <==> a.x > b.x)
  {
    Wrap32(a.x - b.x)
  }

  /** The difference wraps for starts far apart: {MAX_VALUE, MAX_VALUE}
      compares below {-1, -1}. */
  lemma StartOrderOverflows()
    ensures var a, b := Interval(INT_MAX, INT_MAX), Interval(-1, -1);
      a.x > b.x && StartOrderAsWritten(a, b) < 0
  {
  }

  /** Integer.compare(arr1[0], arr2[0]): what the comparator means. */
  function StartOrder(a: Interval, b: Interval): (r: int)
  {
    if a.x < b.x then -1 else if a.x == b.x then 0 else 1
  }

  /** The comparator as written has the right sign whenever the difference
      fits an int, and StartOrder orders by start. */
  lemma StartOrderAgrees(a: Interval, b: Interval)
    ensures StartOrder(a, b) < 0 <==> a.x < b.x
    ensures StartOrder(a, b) == 0 <==> a.x == b.x
    ensures IsInt32(a.x) && IsInt32(b.x) && IsInt32(a.x - b.x) ==>
      (StartOrderAsWritten(a, b) < 0 <==> StartOrder(a, b) < 0)
      && (StartOrderAsWritten(a, b) == 0 <==> StartOrder(a, b) == 0)
  {
  }

  predicate SortedByStart(s: seq<Interval>)
  {
    forall p, q :: 0 <= p < q < |s| ==> s[p].x <= s[q].x
  }

  /** intervals.sort(comparator): a stable sort by start, here written as an
      insertion sort. */
  method SortByStart(a: array<Interval>)
    modifies a
    ensures SortedByStart(a[..]) && multiset(a[..]) == multiset(old(a[..]))
  {
    for i := 0 to a.Length
      invariant StartsSorted(a[..], i)
      invariant multiset(a[..]) == multiset(old(a[..]))
    {
      InsertOne(a, i);
    }
    assert a[..] == a[..][..a.Length];
  }

  ghost predicate StartsSorted(s: seq<Interval>, i: nat)
    requires i <= |s|
  {
    forall p, q :: 0 <= p < q < i ==> s[p].x <= s[q].x
  }

  /** One pass: a[i] moves left past every interval that starts later. */
  method InsertOne(a: array<Interval>, i: nat)
    requires i < a.Length && StartsSorted(a[..], i)
    modifies a
    ensures StartsSorted(a[..], i + 1)
    ensures multiset(a[..]) == multiset(old(a[..]))
  {
    var j := i;
    while j > 0 && StartOrder(a[j], a[j - 1]) < 0
      invariant 0 <= j <= i
      invariant Inserting(a[..], i, j)
      invariant multiset(a[..]) == multiset(old(a[..]))
    {
      ghost var s := a[..];
      a[j], a[j - 1] := a[j - 1], a[j];
      assert a[..] == s[j := s[j - 1]][j - 1 := s[j]];
      InsertStep(s, i, j);
      j := j - 1;
    }
    InsertDone(a[..], i, j);
  }

  /** The pass stops with the moving interval at j when j is 0 or the one
      before it starts no later: then a[..i + 1] is in order. */
  lemma InsertDone(s: seq<Interval>, i: nat, j: nat)
    requires j <= i < |s| && Inserting(s, i, j)
    requires j > 0 ==> s[j - 1].x <= s[j].x
    ensures StartsSorted(s, i + 1)
  {
    forall p, q | 0 <= p < q < i + 1
      ensures s[p].x <= s[q].x
    {
      if q == j && p < j - 1 {
        assert s[p].x <= s[j - 1].x;
      }
    }
  }

  /** The state of one pass with the moving interval at j: every pair of
      a[..i + 1] but those with j on the right is in order. */
  ghost predicate Inserting(s: seq<Interval>, i: nat, j: nat)
    requires j <= i < |s|
  {
    forall p, q :: 0 <= p < q <= i && q != j ==> s[p].x <= s[q].x
  }

  lemma InsertStep(s: seq<Interval>, i: nat, j: nat)
    requires 0 < j <= i < |s| && Inserting(s, i, j) && s[j].x < s[j - 1].x
    ensures var t := s[j := s[j - 1]][j - 1 := s[j]];
      Inserting(t, i, j - 1) && multiset(t) == multiset(s)
  {
  }

  /** coveredLength(intervals): sorts the list in place and returns the
      number of cells its union covers, as a Java int. */
  method CoveredLength(intervals: array<Interval>) returns (r: int)
    requires WellFormed(intervals[..])
    modifies intervals
    ensures r == Wrap32(|Cells(old(intervals[..]))|)
    ensures SortedByStart(intervals[..]) && multiset(intervals[..]) == multiset(old(intervals[..]))
  {
    SortByStart(intervals);
    CellsPermutation(old(intervals[..]), intervals[..]);
    assert intervals[..] == intervals[..intervals.Length];
    forall k | 0 <= k < intervals.Length
      ensures INT_MIN <= intervals[k].x <= intervals[k].y
    {
      assert intervals[k] in multiset(old(intervals[..]));
    }
    r := Sweep(intervals);
  }

  /** The loop of coveredLength over the sorted list, with Java's
      wrap-around on `end - start` and on `outerMeasure +=`. */
  method Sweep(intervals: array<Interval>) returns (outerMeasure: int)
    requires SortedByStart(intervals[..])
    requires forall k :: 0 <= k < intervals.Length ==> INT_MIN <= intervals[k].x <= intervals[k].y
    ensures outerMeasure == Wrap32(|Cells(intervals[..intervals.Length])|)
  {
    outerMeasure := 0;
    var start := INT_MIN;
    var end := INT_MIN;
    ghost var done: set<int> := {};
    for i := 0 to intervals.Length
      invariant INT_MIN <= start <= end
      invariant forall k :: i <= k < intervals.Length ==> start <= intervals[k].x
      invariant forall t :: t in done ==> t < start
      invariant outerMeasure == Wrap32(|done|)
      invariant Cells(intervals[..i]) == done + Range(start, end)
    {
      var iv := intervals[i];
      assert intervals[..i + 1][..i] == intervals[..i];
      Absorb(done, start, end, iv.x, iv.y);
      if iv.x > end {
        MeasureStep(done, start, end);
        outerMeasure := Wrap32(outerMeasure + Wrap32(end - start));
        done := done + Range(start, end);
        start := iv.x;
        end := iv.y;
      } else if iv.x <= end && iv.y > end {
        end := iv.y;
      }
    }
    MeasureStep(done, start, end);
    outerMeasure := Wrap32(outerMeasure + Wrap32(end - start));
  }

  /** The single interval {MIN_VALUE, MAX_VALUE} covers 2^32 - 1 cells,
      which coveredLength reports as the int -1. */
  lemma WholeRangeWraps()
    ensures var ivs := [Interval(INT_MIN, INT_MAX)];
      |Cells(ivs)| == 0xFFFF_FFFF && Wrap32(|Cells(ivs)|) == -1
  {
    OneInterval(INT_MIN, INT_MAX);
    WrapPeriodic(-1, 1);
  }

  lemma OneInterval(a: int, b: int)
    requires a <= b
    ensures |Cells([Interval(a, b)])| == b - a
  {
    var ivs := [Interval(a, b)];
    assert ivs[..0] == [];
    RangeSize(a, b);
  }

  /** Closing the block [start, end) adds its length to the cells done,
      and so, wrapped, to the measure. */
  lemma MeasureStep(done: set<int>, start: int, end: int)
    requires start <= end && forall t :: t in done ==> t < start
    ensures |done + Range(start, end)| == |done| + (end - start)
    ensures Wrap32(Wrap32(|done|) + Wrap32(end - start)) == Wrap32(|done + Range(start, end)|)
  {
    RangeMembers(start, end);
    RangeSize(start, end);
    DisjointUnion(done, Range(start, end), start);
    WrapAdd(|done|, end - start);
  }

  // The examples of the unit test, on the cells they cover.

  lemma CellsSnoc(s: seq<Interval>, iv: Interval)
    ensures Cells(s + [iv]) == Cells(s) + Range(iv.x, iv.y)
  {
    assert (s + [iv])[..|s|] == s;
  }

  lemma Cells5(A: Interval, B: Interval, C: Interval, D: Interval, E: Interval)
    ensures Cells([A, B, C, D, E])
      == Range(A.x, A.y) + Range(B.x, B.y) + Range(C.x, C.y) + Range(D.x, D.y) + Range(E.x, E.y)
  {
    assert [A, B, C, D, E][..4] == [A, B, C, D];
    assert [A, B, C, D][..3] == [A, B, C];
    assert [A, B, C][..2] == [A, B];
    assert [A, B][..1] == [A];
    assert Cells([A]) == Range(A.x, A.y) by {
      assert [A][..0] == [];
    }
    assert Cells([A, B, C, D]) == Cells([A, B]) + Range(C.x, C.y) + Range(D.x, D.y);
  }

  lemma Cells7(A: Interval, B: Interval, C: Interval, D: Interval, E: Interval, F: Interval, G: Interval)
    ensures Cells([A, B, C, D, E, F, G]) == Cells([A, B, C, D, E]) + Range(F.x, F.y) + Range(G.x, G.y)
  {
    assert [A, B, C, D, E, F, G][..6][..5] == [A, B, C, D, E];
  }

  lemma Regroup(X: set<int>, Y: set<int>, Z: set<int>, W: set<int>)
    requires Y + Z == W || Z + Y == W
    ensures X + Y + Z == X + W
  {
  }

  lemma Swallow(X: set<int>, W: set<int>, Z: set<int>)
    requires W + Z == W
    ensures X + W + Z == X + W
  {
  }

  /** Two ranges one after the other hold as many cells as both. */
  lemma TwoBlocks(a: int, b: int, c: int, d: int)
    requires a <= b <= c <= d
    ensures |Range(a, b) + Range(c, d)| == (b - a) + (d - c)
    ensures |Range(c, d) + Range(a, b)| == (b - a) + (d - c)
  {
    assert Range(c, d) + Range(a, b) == Range(a, b) + Range(c, d);
    RangeMembers(a, b);
    RangeMembers(c, d);
    RangeSize(a, b);
    RangeSize(c, d);
    DisjointUnion(Range(a, b), Range(c, d), c);
  }

  /** Two overlapping ranges join into one. */
  lemma RangeJoin(a: int, b: int, c: int, d: int)
    requires a <= c <= b
    ensures Range(a, b) + Range(c, d) == Range(a, if d > b then d else b)
  {
    var e := if d > b then d else b;
    forall t
      ensures t in Range(a, b) + Range(c, d) <==> t in Range(a, e)
    {
      InRange(a, b, t);
      InRange(c, d, t);
      InRange(a, e, t);
    }
  }

  lemma FiveIntervals(A: Interval, B: Interval, C: Interval, D: Interval, E: Interval)
    requires A == Interval(19, 30) && B == Interval(8, 15) && C == Interval(3, 10)
    requires D == Interval(6, 12) && E == Interval(4, 5)
    ensures |Cells([A, B, C, D, E])| == 23
  {
    Cells5(A, B, C, D, E);
    var RA, U := Range(A.x, A.y), Range(C.x, B.y);
    RangeJoin(C.x, C.y, B.x, B.y);
    Regroup(RA, Range(B.x, B.y), Range(C.x, C.y), U);
    RangeJoin(C.x, B.y, D.x, D.y);
    Swallow(RA, U, Range(D.x, D.y));
    RangeJoin(C.x, B.y, E.x, E.y);
    Swallow(RA, U, Range(E.x, E.y));
    TwoBlocks(C.x, B.y, A.x, A.y);
  }

  /** An interval {a, a} covers nothing. */
  lemma PointInterval(a: int)
    ensures |Cells([Interval(a, a)])| == 0
  {
    CellsSnoc([], Interval(a, a));
    assert [] + [Interval(a, a)] == [Interval(a, a)];
    RangeSize(a, a);
  }

  /** An interval inside another adds nothing to it. */
  lemma NestedInterval(a: int, b: int, c: int, d: int)
    requires a <= c <= d <= b
    ensures |Cells([Interval(a, b), Interval(c, d)])| == b - a
  {
    var A, B := Interval(a, b), Interval(c, d);
    CellsSnoc([], A);
    assert [] + [A] == [A];
    CellsSnoc([A], B);
    assert [A] + [B] == [A, B];
    RangeJoin(a, b, c, d);
    RangeSize(a, b);
  }

  lemma SevenIntervals(A: Interval, B: Interval, C: Interval, D: Interval, E: Interval, F: Interval, G: Interval)
    requires A == Interval(1, 10) && B == Interval(2, 8) && C == Interval(3, 11) && D == Interval(12, 12)
    requires E == Interval(12, 13) && F == Interval(12, 15) && G == Interval(12, 14)
    ensures |Cells([A, B, C, D, E, F, G])| == 13
  {
    Cells5(A, B, C, D, E);
    Cells7(A, B, C, D, E, F, G);
    var RA, U, V := Range(A.x, A.y), Range(A.x, C.y), Range(D.x, F.y);
    RangeJoin(A.x, A.y, B.x, B.y);
    Swallow({}, RA, Range(B.x, B.y));
    RangeJoin(A.x, A.y, C.x, C.y);
    Regroup({}, RA, Range(C.x, C.y), U);
    RangeJoin(D.x, D.y, E.x, E.y);
    Regroup(U, Range(D.x, D.y), Range(E.x, E.y), Range(D.x, E.y));
    RangeJoin(D.x, E.y, F.x, F.y);
    Regroup(U, Range(D.x, E.y), Range(F.x, F.y), V);
    RangeJoin(D.x, F.y, G.x, G.y);
    Swallow(U, V, Range(G.x, G.y));
    TwoBlocks(A.x, C.y, D.x, F.y);
  }
}
