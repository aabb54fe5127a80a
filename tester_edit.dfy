/** Levenshtein distance as computed by the test-script interpreter's
    dynamic-programming table. */
module TesterEditDistance {

  function Min3(a: int, b: int, c: int): int
  {
    if a <= b && a <= c then a else if b <= c then b else c
  }

  function Mismatch(x: char, y: char): int { if x != y then 1 else 0 }

  /** The edit distance between the first i characters of s and the first
      j characters of t: the recurrence the table cells satisfy. */
  function Dist(s: string, t: string, i: nat, j: nat): int
    requires i <= |s| && j <= |t|
    decreases i + j
  {
    if i == 0 || j == 0 then i + j
    else Min3(Dist(s, t, i - 1, j) + 1, Dist(s, t, i, j - 1) + 1,
              Dist(s, t, i - 1, j - 1) + Mismatch(s[i - 1], t[j - 1]))
  }

  /** The edit distance of two whole strings. */
  function Lev(s: string, t: string): int { Dist(s, t, |s|, |t|) }

  /** Fills the (|s1|+1) x (|s2|+1) table row by row and reads its last
      cell. */
  method EditDistance(s1: string, s2: string) returns (r: int)
    ensures r == Lev(s1, s2)
  {
    var m, n := |s1|, |s2|;
    var dist := new int[m + 1, n + 1];
    for j := 0 to n + 1
      invariant forall c :: 0 <= c < j ==> dist[0, c] == c
    {
      dist[0, j] := j;
    }
    for i := 1 to m + 1
      invariant forall c :: 0 <= c <= n ==> dist[0, c] == c
      invariant forall r :: 1 <= r < i ==> dist[r, 0] == r
    {
      dist[i, 0] := i;
    }
    for i := 1 to m + 1
      invariant forall r :: 0 <= r < i ==> RowDone(dist, s1, s2, r)
      invariant forall r :: i <= r <= m ==> dist[r, 0] == r
    {
      label before:
      FillRow(dist, s1, s2, i);
      forall r | 0 <= r < i
        ensures RowDone(dist, s1, s2, r)
      {
        assert old@before(RowDone(dist, s1, s2, r));
      }
    }
    assert RowDone(dist, s1, s2, m);
    r := dist[m, n];
  }

  /** Row r of the table holds the distances from the first r characters
      of s1. */
  ghost predicate RowDone(dist: array2<int>, s1: string, s2: string, r: nat)
    reads dist
    requires dist.Length0 == |s1| + 1 && dist.Length1 == |s2| + 1 && r <= |s1|
  {
    forall c {:trigger dist[r, c]} :: 0 <= c <= |s2| ==> dist[r, c] == Dist(s1, s2, r, c)
  }

  /** Row i of the table, from the row above it and its first cell. */
  method FillRow(dist: array2<int>, s1: string, s2: string, i: nat)
    requires dist.Length0 == |s1| + 1 && dist.Length1 == |s2| + 1 && 1 <= i <= |s1|
    requires RowDone(dist, s1, s2, i - 1) && dist[i, 0] == i
    modifies dist
    ensures RowDone(dist, s1, s2, i)
    ensures forall r, c :: 0 <= r <= |s1| && 0 <= c <= |s2| && r != i ==> dist[r, c] == old(dist[r, c])
  {
    for j := 1 to |s2| + 1
      invariant forall c {:trigger dist[i, c]} :: 0 <= c < j ==> dist[i, c] == Dist(s1, s2, i, c)
      invariant forall r, c :: 0 <= r <= |s1| && 0 <= c <= |s2| && r != i ==> dist[r, c] == old(dist[r, c])
    {
      var up, left, diag := dist[i - 1, j], dist[i, j - 1], dist[i - 1, j - 1];
      assert up == Dist(s1, s2, i - 1, j) && diag == Dist(s1, s2, i - 1, j - 1);
      dist[i, j] := Min3(up + 1, left + 1, diag + Mismatch(s1[i - 1], s2[j - 1]));
    }
  }

  lemma {:induction false} DistSelf(s: string, i: nat)
    requires i <= |s|
    ensures Dist(s, s, i, i) == 0
  {
    if i > 0 {
      DistSelf(s, i - 1);
      DistLower(s, s, i - 1, i);
      DistLower(s, s, i, i - 1);
    }
  }

  /** d(s, s) = 0. */
  lemma LevSelf(s: string)
    ensures Lev(s, s) == 0
  {
    DistSelf(s, |s|);
  }

  /** d("", t) = |t| and d(t, "") = |t|. */
  lemma LevFromEmpty(t: string)
    ensures Lev("", t) == |t| && Lev(t, "") == |t|
  {
  }

  lemma Min3Swap(a: int, b: int, c: int)
    ensures Min3(a, b, c) == Min3(b, a, c)
  {
  }

  lemma {:induction false} DistSymmetric(s: string, t: string, i: nat, j: nat)
    requires i <= |s| && j <= |t|
    ensures Dist(s, t, i, j) == Dist(t, s, j, i)
    decreases i + j
  {
    if i > 0 && j > 0 {
      DistSymmetric(s, t, i - 1, j);
      DistSymmetric(s, t, i, j - 1);
      DistSymmetric(s, t, i - 1, j - 1);
      var up, left, diag := Dist(s, t, i - 1, j), Dist(s, t, i, j - 1), Dist(s, t, i - 1, j - 1);
      var m := Mismatch(s[i - 1], t[j - 1]);
      assert Mismatch(t[j - 1], s[i - 1]) == m;
      Min3Swap(up + 1, left + 1, diag + m);
    }
  }

  /** d(s, t) = d(t, s). */
  lemma LevSymmetric(s: string, t: string)
    ensures Lev(s, t) == Lev(t, s)
  {
    DistSymmetric(s, t, |s|, |t|);
  }

  lemma {:induction false} DistLower(s: string, t: string, i: nat, j: nat)
    requires i <= |s| && j <= |t|
    ensures i - j <= Dist(s, t, i, j) && j - i <= Dist(s, t, i, j)
    decreases i + j
  {
    if i > 0 && j > 0 {
      DistLower(s, t, i - 1, j);
      DistLower(s, t, i, j - 1);
      DistLower(s, t, i - 1, j - 1);
    }
  }

  lemma {:induction false} DistUpper(s: string, t: string, i: nat, j: nat)
    requires i <= |s| && j <= |t|
    ensures Dist(s, t, i, j) <= if i >= j then i else j
    decreases i + j
  {
    if i > 0 && j > 0 {
      DistUpper(s, t, i - 1, j - 1);
    }
  }

  /** The distance is at least the difference of the lengths and at most
      the longer length. */
  lemma LevBounds(s: string, t: string)
    ensures |s| - |t| <= Lev(s, t) && |t| - |s| <= Lev(s, t)
    ensures Lev(s, t) <= if |s| >= |t| then |s| else |t|
  {
    DistLower(s, t, |s|, |t|);
    DistUpper(s, t, |s|, |t|);
  }

  lemma {:induction false} DistSamePrefix(s: string, t: string, i: nat)
    requires i <= |s| && i <= |t| && s[..i] == t[..i]
    ensures Dist(s, t, i, i) == 0
  {
    if i > 0 {
      assert s[i - 1] == s[..i][i - 1] == t[..i][i - 1] == t[i - 1];
      assert s[..i - 1] == s[..i][..i - 1];
      assert t[..i - 1] == t[..i][..i - 1];
      DistSamePrefix(s, t, i - 1);
      DistLower(s, t, i - 1, i);
      DistLower(s, t, i, i - 1);
    }
  }

  /** A single replaced last character costs exactly one. */
  lemma LevOneSubstitution(s: string, x: char, y: char)
    requires x != y
    ensures Lev(s + [x], s + [y]) == 1
  {
    var a, b := s + [x], s + [y];
    assert a[..|s|] == s == b[..|s|];
    DistSamePrefix(a, b, |s|);
    DistLower(a, b, |s|, |s| + 1);
    DistLower(a, b, |s| + 1, |s|);
  }
}
