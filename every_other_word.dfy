/** Lab 6's everyOtherWord and the haveSameItems check its main method
    uses. A Java Iterable is modelled by the sequence of items it yields;
    null by None. */
module EveryOtherWords {
  import opened Common

  /** The items at indices 0, 2, 4, ... of L, as a set. */
  function EvenIndexed(L: seq<string>): set<string>
  {
    if L == [] then {} else if |L| == 1 then {L[0]} else {L[0]} + EvenIndexed(L[2..])
  }

  /** x is among them exactly when it sits at some even index of L. */
  lemma {:induction false} EvenIndexedMeaning(L: seq<string>, x: string)
    ensures x in EvenIndexed(L) <==> exists i :: 0 <= i < |L| && i % 2 == 0 && L[i] == x
  {
    if |L| >= 2 {
      EvenIndexedMeaning(L[2..], x);
      if x in EvenIndexed(L[2..]) {
        var i :| 0 <= i < |L[2..]| && i % 2 == 0 && L[2..][i] == x;
        assert L[i + 2] == x;
      }
      if exists i :: 0 <= i < |L| && i % 2 == 0 && L[i] == x {
        var i :| 0 <= i < |L| && i % 2 == 0 && L[i] == x;
        if i >= 2 {
          assert L[2..][i - 2] == x;
        }
      }
    }
  }

  /** everyOtherWord(L): the iterator loop adds an item, then skips the
      next one if there is one. */
  method EveryOtherWord(L: seq<string>) returns (other: set<string>)
    ensures other == EvenIndexed(L)
  {
    other := {};
    var k := 0;
    while k < |L|
      invariant k <= |L| && (k % 2 == 0 || k == |L|)
      invariant other + EvenIndexed(L[k..]) == EvenIndexed(L)
    {
      assert |L[k..]| >= 2 ==> L[k..][2..] == L[k + 2..];
      other := other + {L[k]};
      k := k + 1;
      if k < |L| {
        k := k + 1;
      }
    }
  }

  /** The example of the lab's main method. */
  lemma EveryOtherWordExample(L: seq<string>)
    requires L == ["hey", "this", "fish", "eats", "fish", "that", "are", "green"]
    ensures EvenIndexed(L) == {"hey", "fish", "are"}
  {
    var L2, L4, L6 := L[2..], L[4..], L[6..];
    assert L2[2..] == L4 && L4[2..] == L6 && L6[2..] == [];
    assert EvenIndexed(L6) == {"are"};
    assert EvenIndexed(L4) == {"fish", "are"};
    assert EvenIndexed(L2) == {"fish", "are"};
  }

  // ---------------------------------------------------------------------
  // Collections.sort on strings, by String.compareTo.

  predicate SortedStrings(s: seq<string>)
  {
    forall i, j :: 0 <= i < j < |s| ==> CompareTo(s[i], s[j]) <= 0
  }

  function Insert(x: string, s: seq<string>): seq<string>
  {
    if s == [] || CompareTo(x, s[0]) <= 0 then [x] + s else [s[0]] + Insert(x, s[1..])
  }

  function Sort(s: seq<string>): seq<string>
  {
    if s == [] then [] else Insert(s[0], Sort(s[1..]))
  }

  /** A sorted sequence stays sorted with an item in front that comes
      before all of its items. */
  lemma SortedCons(h: string, t: seq<string>)
    requires SortedStrings(t)
    requires forall k :: 0 <= k < |t| ==> CompareTo(h, t[k]) <= 0
    ensures SortedStrings([h] + t)
  {
    var u := [h] + t;
    forall i, j | 0 <= i < j < |u|
      ensures CompareTo(u[i], u[j]) <= 0
    {
      if i > 0 {
        assert u[i] == t[i - 1] && u[j] == t[j - 1];
      } else {
        assert u[j] == t[j - 1];
      }
    }
  }

  lemma {:induction false} InsertSorted(x: string, s: seq<string>)
    requires SortedStrings(s)
    ensures SortedStrings(Insert(x, s)) && multiset(Insert(x, s)) == multiset(s) + multiset{x}
  {
    if s == [] || CompareTo(x, s[0]) <= 0 {
      if s != [] {
        forall k | 0 <= k < |s|
          ensures CompareTo(x, s[k]) <= 0
        {
          if k > 0 {
            assert CompareTo(s[0], s[k]) <= 0;
            LessEqTransitive(x, s[0], s[k]);
          }
        }
      }
      SortedCons(x, s);
    } else {
      var t := s[1..];
      assert s == [s[0]] + t;
      SortedTail(s);
      InsertSorted(x, t);
      CompareToAntisymmetric(x, s[0]);
      var r := Insert(x, t);
      assert Insert(x, s) == [s[0]] + r;
      forall k | 0 <= k < |r|
        ensures CompareTo(s[0], r[k]) <= 0
      {
        assert r[k] in multiset(r);
        if r[k] != x {
          assert r[k] in multiset(t);
          var m :| 0 <= m < |t| && t[m] == r[k];
          assert s[m + 1] == r[k];
        }
      }
      SortedCons(s[0], r);
    }
  }

  /** compareTo's "at most" is transitive. */
  lemma LessEqTransitive(a: string, b: string, c: string)
    requires CompareTo(a, b) <= 0 && CompareTo(b, c) <= 0
    ensures CompareTo(a, c) <= 0
  {
    if a != b && b != c {
      LessTransitive(a, b, c);
    }
  }

  /** Sorting gives a sorted permutation. */
  lemma {:induction false} SortSpec(s: seq<string>)
    ensures SortedStrings(Sort(s)) && multiset(Sort(s)) == multiset(s)
  {
    if s != [] {
      SortSpec(s[1..]);
      InsertSorted(s[0], Sort(s[1..]));
      assert s == [s[0]] + s[1..];
    }
  }

  /** Two sorted sequences with the same items are the same sequence. */
  lemma {:induction false} SortedUnique(a: seq<string>, b: seq<string>)
    requires SortedStrings(a) && SortedStrings(b) && multiset(a) == multiset(b)
    ensures a == b
  {
    if a != [] {
      SameLeast(a, b);
      assert a == [a[0]] + a[1..] && b == [b[0]] + b[1..];
      assert multiset(a) == multiset{a[0]} + multiset(a[1..]);
      assert multiset(b) == multiset{a[0]} + multiset(b[1..]);
      forall x
        ensures multiset(a[1..])[x] == multiset(b[1..])[x]
      {
        assert multiset(a)[x] == multiset{a[0]}[x] + multiset(a[1..])[x];
        assert multiset(b)[x] == multiset{a[0]}[x] + multiset(b[1..])[x];
      }
      assert multiset(a[1..]) == multiset(b[1..]);
      SortedTail(a);
      SortedTail(b);
      SortedUnique(a[1..], b[1..]);
    }
  }

  /** Two sorted sequences with the same items start with the same one. */
  lemma SameLeast(a: seq<string>, b: seq<string>)
    requires SortedStrings(a) && SortedStrings(b) && multiset(a) == multiset(b) && a != []
    ensures b != [] && a[0] == b[0]
  {
    assert a[0] in multiset(b);
    assert b[0] in multiset(a);
    var i :| 0 <= i < |b| && b[i] == a[0];
    var j :| 0 <= j < |a| && a[j] == b[0];
    assert CompareTo(b[0], b[i]) <= 0 || i == 0;
    assert CompareTo(a[0], a[j]) <= 0 || j == 0;
    CompareToAntisymmetric(a[0], b[0]);
  }

  lemma SortedTail(s: seq<string>)
    requires SortedStrings(s) && s != []
    ensures SortedStrings(s[1..])
  {
    var t := s[1..];
    forall p, q | 0 <= p < q < |t|
      ensures CompareTo(t[p], t[q]) <= 0
    {
      assert t[p] == s[p + 1] && t[q] == s[q + 1];
    }
  }

  /** Sorting then comparing tells whether two sequences hold the same
      items, as many times each. */
  lemma SortEqualIff(a: seq<string>, b: seq<string>)
    ensures Sort(a) == Sort(b) <==> multiset(a) == multiset(b)
  {
    SortSpec(a);
    SortSpec(b);
    if multiset(a) == multiset(b) {
      SortedUnique(Sort(a), Sort(b));
    }
  }

  /** haveSameItems(c1, c2): false when exactly one is null; both null
      reaches the loop over c1 and throws; otherwise the two sorted lists
      are compared. */
  function HaveSameItems(c1: Option<seq<string>>, c2: Option<seq<string>>): (r: Result<bool>)
    ensures c1.None? != c2.None? ==> r == Ok(false)
    ensures c1.None? && c2.None? ==> r.Err?
    ensures c1.Some? && c2.Some? ==> r == Ok(multiset(c1.value) == multiset(c2.value))
  {
    if c1.None? && c2.Some? then Ok(false)
    else if c1.Some? && c2.None? then Ok(false)
    else if c1.None? then Err("NullPointerException")
    else
      SortEqualIff(c1.value, c2.value);
      Ok(Sort(c1.value) == Sort(c2.value))
  }

  predicate Distinct(s: seq<string>)
  {
    forall i, j :: 0 <= i < j < |s| ==> s[i] != s[j]
  }

  /** A sequence without repetitions holds each of its items once. */
  lemma {:induction false} DistinctCount(s: seq<string>, x: string)
    requires Distinct(s)
    ensures multiset(s)[x] == if x in s then 1 else 0
  {
    if s != [] {
      assert s == [s[0]] + s[1..];
      DistinctCount(s[1..], x);
      assert s[0] !in s[1..];
    }
  }

  /** Any two enumerations of the same set, as the two HashSets of the
      main method yield, have the same items. */
  lemma SameSetSameItems(a: seq<string>, b: seq<string>)
    requires Distinct(a) && Distinct(b)
    requires forall x :: x in a <==> x in b
    ensures HaveSameItems(Some(a), Some(b)) == Ok(true)
  {
    forall x
      ensures multiset(a)[x] == multiset(b)[x]
    {
      DistinctCount(a, x);
      DistinctCount(b, x);
    }
    assert multiset(a) == multiset(b);
  }
}
