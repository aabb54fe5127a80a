/** The Lines of Action logger: a text log and listeners attached at int
    levels, kept in a map ordered by level. A message logged at a level
    goes to the listeners of that level and of every level below it, the
    highest level's first, and is appended to the log. */
module LoaLoggers {
  import opened Common

  /** The listener map, as its entries in ascending order of level: each
      level with the listeners attached at it, in attachment order. */
  predicate Sorted<L>(es: seq<(int, seq<L>)>)
  {
    forall i, j :: 0 <= i < j < |es| ==> es[i].0 < es[j].0
  }

  /** The number of levels below bound, counted from the top. */
  function CountBelow<L>(es: seq<(int, seq<L>)>, bound: int): (n: nat)
    ensures n <= |es|
  {
    if es == [] then 0
    else if es[|es| - 1].0 < bound then |es|
    else CountBelow(es[..|es| - 1], bound)
  }

  /** With the levels in order, the entries below bound are exactly the
      first CountBelow of them. */
  lemma {:induction false} CountBelowMeaning<L>(es: seq<(int, seq<L>)>, bound: int)
    requires Sorted(es)
    ensures forall i :: 0 <= i < |es| ==> (i < CountBelow(es, bound) <==> es[i].0 < bound)
  {
    if es != [] && es[|es| - 1].0 >= bound {
      CountBelowMeaning(es[..|es| - 1], bound);
    }
  }

  /** TreeMap.lowerEntry(bound): the entry of the greatest level strictly
      below bound, or null. */
  function LowerEntry<L>(es: seq<(int, seq<L>)>, bound: int): (r: Option<nat>)
    ensures r.Some? ==> r.value < |es|
  {
    var n := CountBelow(es, bound);
    if n == 0 then None else Some(n - 1)
  }

  /** lowerEntry finds a level below bound, and none below bound is
      greater; it finds nothing exactly when every level is at least
      bound. */
  lemma LowerEntryMeaning<L>(es: seq<(int, seq<L>)>, bound: int)
    requires Sorted(es)
    ensures var r := LowerEntry(es, bound);
            && (r.Some? ==> es[r.value].0 < bound && forall j :: 0 <= j < |es| && es[j].0 < bound ==> es[j].0 <= es[r.value].0)
            && (r.None? <==> forall j :: 0 <= j < |es| ==> es[j].0 >= bound)
  {
    CountBelowMeaning(es, bound);
  }

  /** The listeners of the first n entries, the last entry's first. */
  function Below<L>(es: seq<(int, seq<L>)>, n: nat): seq<L>
    requires n <= |es|
  {
    if n == 0 then [] else es[n - 1].1 + Below(es, n - 1)
  }

  /** The listeners a message reaches when the range query starts from
      bound: those of every level below bound, the highest level's
      first. With the levels in order, every listener attached below bound
      receives the message once per attachment, and no other listener
      receives it. */
  function Receivers<L>(es: seq<(int, seq<L>)>, bound: int): (r: seq<L>)
    ensures Sorted(es) ==> multiset(r) == AttachedBelow(es, bound)
  {
    var n := CountBelow(es, bound);
    if Sorted(es) then
      CountBelowMeaning(es, bound);
      BelowAttached(es, n, bound);
      Below(es, n)
    else Below(es, n)
  }

  /** The attachments at levels below bound, counted with multiplicity and
      without regard to order. */
  function AttachedBelow<L>(es: seq<(int, seq<L>)>, bound: int): multiset<L>
  {
    if es == [] then multiset{}
    else Share(es[0], bound) + AttachedBelow(es[1..], bound)
  }

  lemma {:induction false} BelowAttached<L>(es: seq<(int, seq<L>)>, n: nat, bound: int)
    requires n <= |es|
    requires forall i :: 0 <= i < |es| ==> (i < n <==> es[i].0 < bound)
    ensures multiset(Below(es, n)) == AttachedBelow(es, bound)
  {
    if es == [] {
    } else if n == 0 {
      NoneBelow(es, bound);
    } else {
      SplitBelow(es, n, bound);
      BelowAttached(es[1..], n - 1, bound);
      BelowShift(es, n);
    }
  }

  /** When the first n entries are those below bound, the first is below
      bound and the first n - 1 of the rest are those below bound. */
  lemma SplitBelow<L>(es: seq<(int, seq<L>)>, n: nat, bound: int)
    requires 1 <= n <= |es|
    requires forall i :: 0 <= i < |es| ==> (i < n <==> es[i].0 < bound)
    ensures Share(es[0], bound) == multiset(es[0].1)
    ensures forall i :: 0 <= i < |es[1..]| ==> (i < n - 1 <==> es[1..][i].0 < bound)
  {
    assert es[0].0 < bound;
    forall i | 0 <= i < |es[1..]|
      ensures i < n - 1 <==> es[1..][i].0 < bound
    {
      assert es[1..][i] == es[i + 1];
    }
  }

  lemma {:induction false} NoneBelow<L>(es: seq<(int, seq<L>)>, bound: int)
    requires forall i :: 0 <= i < |es| ==> es[i].0 >= bound
    ensures AttachedBelow(es, bound) == multiset{}
  {
    if es != [] {
      NoneBelow(es[1..], bound);
    }
  }

  /** Below(es, n) holds the first entry's listeners and, after them, those
      of the next n - 1 entries. */
  lemma {:induction false} BelowShift<L>(es: seq<(int, seq<L>)>, n: nat)
    requires 1 <= n <= |es|
    ensures multiset(Below(es, n)) == multiset(es[0].1) + multiset(Below(es[1..], n - 1))
  {
    if n > 1 {
      BelowShift(es, n - 1);
      assert es[1..][n - 2] == es[n - 1];
    }
  }

  /** Java's int addition: the sum of two ints wraps around. */
  function AddInt(a: int, b: int): (r: int)
    requires IsInt32(a) && IsInt32(b)
    ensures IsInt32(r)
    ensures IsInt32(a + b) ==> r == a + b
  {
    var s := a + b;
    if s > INT_MAX then s - 0x1_0000_0000 else if s < INT_MIN then s + 0x1_0000_0000 else s
  }

  /** What log(message, level) as written delivers: `level += 1` is an int
      addition, so the range query of a message logged at Integer.MAX_VALUE
      starts below Integer.MIN_VALUE. */
  function LogReceiversAsWritten<L>(es: seq<(int, seq<L>)>, level: int): (r: seq<L>)
    requires IsInt32(level)
    ensures level < INT_MAX ==> r == Receivers(es, level + 1)
    ensures level == INT_MAX && Sorted(es) && (forall i :: 0 <= i < |es| ==> IsInt32(es[i].0)) ==> r == []
  {
    if Sorted(es) then
      CountBelowMeaning(es, AddInt(level, 1));
      Receivers(es, AddInt(level, 1))
    else Receivers(es, AddInt(level, 1))
  }

  /** A listener attached at level 0 does not receive a message logged at
      Integer.MAX_VALUE, though 0 is below it; with the bound computed
      without wrap-around it does. */
  lemma LogAtMaxLevelIsLost<L>(x: L)
    ensures LogReceiversAsWritten([(0, [x])], INT_MAX) == []
    ensures Receivers([(0, [x])], INT_MAX + 1) == [x]
  {
  }

  /** The levels of the map. */
  function Levels<L>(es: seq<(int, seq<L>)>): set<int>
  {
    set i | 0 <= i < |es| :: es[i].0
  }

  /** _listeners.get(level), or the empty list when there is none. */
  function ListenersAt<L>(es: seq<(int, seq<L>)>, level: int): seq<L>
  {
    if es == [] then [] else if es[0].0 == level then es[0].1 else ListenersAt(es[1..], level)
  }

  /** attach's get, put and add: listener appended to its level's list,
      which is made empty first when the level is new. */
  function Insert<L>(es: seq<(int, seq<L>)>, level: int, listener: L): seq<(int, seq<L>)>
  {
    if es == [] then [(level, [listener])]
    else if es[0].0 == level then [(level, es[0].1 + [listener])] + es[1..]
    else if level < es[0].0 then [(level, [listener])] + es
    else [es[0]] + Insert(es[1..], level, listener)
  }

  /** attach keeps the levels in order, adds the listener's level, appends
      the listener to that level's list and leaves every other level's
      list as it was. */
  lemma InsertMeaning<L>(es: seq<(int, seq<L>)>, level: int, listener: L)
    requires Sorted(es)
    ensures Sorted(Insert(es, level, listener))
    ensures Levels(Insert(es, level, listener)) == Levels(es) + {level}
    ensures ListenersAt(Insert(es, level, listener), level) == ListenersAt(es, level) + [listener]
    ensures forall k :: k != level ==> ListenersAt(Insert(es, level, listener), k) == ListenersAt(es, k)
  {
    InsertSorted(es, level, listener);
    InsertListeners(es, level, listener);
  }

  lemma {:induction false} InsertSorted<L>(es: seq<(int, seq<L>)>, level: int, listener: L)
    requires Sorted(es)
    ensures Sorted(Insert(es, level, listener))
    ensures Levels(Insert(es, level, listener)) == Levels(es) + {level}
  {
    InsertLevels(es, level, listener);
    var r := Insert(es, level, listener);
    if es == [] {
    } else if es[0].0 == level {
      assert forall i :: 0 <= i < |r| ==> r[i].0 == es[i].0;
    } else if level < es[0].0 {
      SortedHead(es);
      LevelsCons(es);
      SortedCons((level, [listener]), es);
    } else {
      InsertSorted(es[1..], level, listener);
      SortedHead(es);
      SortedCons(es[0], Insert(es[1..], level, listener));
    }
  }

  lemma {:induction false} InsertLevels<L>(es: seq<(int, seq<L>)>, level: int, listener: L)
    ensures Levels(Insert(es, level, listener)) == Levels(es) + {level}
  {
    var r := Insert(es, level, listener);
    if es == [] {
    } else if es[0].0 == level {
      LevelsCons(es);
      LevelsCons(r);
      assert r[1..] == es[1..];
    } else if level < es[0].0 {
      LevelsCons(r);
      assert r[1..] == es;
    } else {
      InsertLevels(es[1..], level, listener);
      LevelsCons(es);
      LevelsCons(r);
      assert r[1..] == Insert(es[1..], level, listener);
    }
  }

  lemma {:induction false} InsertListeners<L>(es: seq<(int, seq<L>)>, level: int, listener: L)
    requires Sorted(es)
    ensures ListenersAt(Insert(es, level, listener), level) == ListenersAt(es, level) + [listener]
    ensures forall k :: k != level ==> ListenersAt(Insert(es, level, listener), k) == ListenersAt(es, k)
  {
    var r := Insert(es, level, listener);
    if es == [] {
    } else if es[0].0 == level {
      assert r[1..] == es[1..];
    } else if level < es[0].0 {
      assert r[1..] == es;
      SortedHead(es);
      LevelsCons(es);
      LevelAbsent(es, level);
    } else {
      InsertListeners(es[1..], level, listener);
      assert r[1..] == Insert(es[1..], level, listener);
    }
  }

  lemma LevelsCons<L>(es: seq<(int, seq<L>)>)
    requires es != []
    ensures Levels(es) == {es[0].0} + Levels(es[1..])
  {
    forall k | k in Levels(es) && k != es[0].0
      ensures k in Levels(es[1..])
    {
      var i :| 0 <= i < |es| && es[i].0 == k;
      assert es[1..][i - 1] == es[i];
    }
  }

  /** The first level of a sorted map is below all the others. */
  lemma SortedHead<L>(es: seq<(int, seq<L>)>)
    requires Sorted(es) && es != []
    ensures forall k :: k in Levels(es[1..]) ==> es[0].0 < k
  {
    forall k | k in Levels(es[1..])
      ensures es[0].0 < k
    {
      var i :| 0 <= i < |es[1..]| && es[1..][i].0 == k;
      assert es[1..][i] == es[i + 1];
    }
  }

  /** No list is attached at a level the map does not have. */
  lemma {:induction false} LevelAbsent<L>(es: seq<(int, seq<L>)>, k: int)
    requires k !in Levels(es)
    ensures ListenersAt(es, k) == []
  {
    if es != [] {
      LevelsCons(es);
      LevelAbsent(es[1..], k);
    }
  }

  /** An entry below every level of a sorted map can go in front of it. */
  lemma SortedCons<L>(e: (int, seq<L>), es: seq<(int, seq<L>)>)
    requires Sorted(es) && forall k :: k in Levels(es) ==> e.0 < k
    ensures Sorted([e] + es)
  {
    forall i, j | 0 <= i < j < |[e] + es|
      ensures ([e] + es)[i].0 < ([e] + es)[j].0
    {
      if i == 0 {
        assert es[j - 1].0 in Levels(es);
      }
    }
  }

  /** ArrayList.remove(listener): the first occurrence taken out, if
      any. */
  function RemoveFirst<L(==)>(s: seq<L>, x: L): seq<L>
  {
    if s == [] then [] else if s[0] == x then s[1..] else [s[0]] + RemoveFirst(s[1..], x)
  }

  /** ArrayList.indexOf(x): the first position holding x. */
  function IndexOf<L(==)>(s: seq<L>, x: L): (i: nat)
    requires x in s
    ensures i < |s| && s[i] == x && x !in s[..i]
  {
    if s[0] == x then 0 else 1 + IndexOf(s[1..], x)
  }

  /** remove takes out the first attachment of the listener when there is
      one, keeping the others in order, and changes nothing otherwise; so
      the attachments lose exactly one of the listener's. */
  lemma {:induction false} RemoveFirstMeaning<L>(s: seq<L>, x: L)
    ensures x !in s ==> RemoveFirst(s, x) == s
    ensures x in s ==> RemoveFirst(s, x) == s[..IndexOf(s, x)] + s[IndexOf(s, x) + 1..]
    ensures multiset(RemoveFirst(s, x)) == multiset(s) - multiset{x}
  {
    if x in s {
      RemoveFirstAt(s, x);
      MultisetWithout(s, IndexOf(s, x));
    } else {
      RemoveFirstAbsent(s, x);
    }
  }

  /** Taking the element at i out of s takes one of it out of the
      multiset of s. */
  lemma MultisetWithout<L>(s: seq<L>, i: nat)
    requires i < |s|
    ensures multiset(s[..i] + s[i + 1..]) == multiset(s) - multiset{s[i]}
  {
    assert s == s[..i] + [s[i]] + s[i + 1..];
  }

  lemma {:induction false} RemoveFirstAbsent<L>(s: seq<L>, x: L)
    requires x !in s
    ensures RemoveFirst(s, x) == s
  {
    if s != [] {
      RemoveFirstAbsent(s[1..], x);
    }
  }

  lemma {:induction false} RemoveFirstAt<L>(s: seq<L>, x: L)
    requires x in s
    ensures RemoveFirst(s, x) == s[..IndexOf(s, x)] + s[IndexOf(s, x) + 1..]
  {
    if s[0] != x {
      RemoveFirstAt(s[1..], x);
      var i := IndexOf(s[1..], x);
      assert s[..i + 1] == [s[0]] + s[1..][..i];
      assert s[i + 2..] == s[1..][i + 1..];
    }
  }

  /** es' is es with the listener removed once from every level's list,
      every level kept. */
  predicate Detached<L(==)>(es: seq<(int, seq<L>)>, es': seq<(int, seq<L>)>, x: L)
  {
    |es'| == |es| && forall i :: 0 <= i < |es| ==> es'[i] == (es[i].0, RemoveFirst(es[i].1, x))
  }

  /** A listener attached at most once per level receives nothing once it
      is detached, wherever the range query starts; the others receive as
      before. */
  lemma DetachedReceivesNothing<L>(es: seq<(int, seq<L>)>, es': seq<(int, seq<L>)>, x: L, bound: int)
    requires Sorted(es) && Detached(es, es', x)
    requires forall i :: 0 <= i < |es| ==> multiset(es[i].1)[x] <= 1
    ensures Sorted(es')
    ensures x !in Receivers(es', bound)
    ensures forall y :: y != x ==> multiset(Receivers(es', bound))[y] == multiset(Receivers(es, bound))[y]
  {
    assert forall i :: 0 <= i < |es| ==> es'[i].0 == es[i].0;
    DetachedAttached(es, es', x, bound);
  }

  lemma {:induction false} DetachedAttached<L>(es: seq<(int, seq<L>)>, es': seq<(int, seq<L>)>, x: L, bound: int)
    requires Detached(es, es', x)
    requires forall i :: 0 <= i < |es| ==> multiset(es[i].1)[x] <= 1
    ensures AttachedBelow(es', bound)[x] == 0
    ensures forall y :: y != x ==> AttachedBelow(es', bound)[y] == AttachedBelow(es, bound)[y]
  {
    if es != [] {
      assert Detached(es[1..], es'[1..], x) by {
        forall i | 0 <= i < |es[1..]|
          ensures es'[1..][i] == (es[1..][i].0, RemoveFirst(es[1..][i].1, x))
        {
          assert es[1..][i] == es[i + 1] && es'[1..][i] == es'[i + 1];
        }
      }
      DetachedAttached(es[1..], es'[1..], x, bound);
      DetachedHead(es[0], x, bound);
      assert es'[0] == (es[0].0, RemoveFirst(es[0].1, x));
    }
  }

  /** One level's share of the attachments below bound, before and after
      the listener is removed from it once. */
  function Share<L>(e: (int, seq<L>), bound: int): multiset<L>
  {
    if e.0 < bound then multiset(e.1) else multiset{}
  }

  /** Removing a listener attached at most once from one level takes away
      all its attachments there and leaves the others'. */
  lemma DetachedHead<L>(e: (int, seq<L>), x: L, bound: int)
    requires multiset(e.1)[x] <= 1
    ensures Share((e.0, RemoveFirst(e.1, x)), bound)[x] == 0
    ensures forall y :: y != x ==> Share((e.0, RemoveFirst(e.1, x)), bound)[y] == Share(e, bound)[y]
  {
    RemoveFirstMeaning(e.1, x);
  }

  /** The loop of log: from bound, lowerEntry again and again, each entry's
      listeners receiving the message, until no lower level is left. */
  method RangeQuery<L>(es: seq<(int, seq<L>)>, bound: int) returns (delivered: seq<L>)
    requires Sorted(es)
    ensures delivered == Receivers(es, bound)
  {
    var level := bound;
    delivered := [];
    var e := LowerEntry(es, level);
    while e.Some?
      invariant e == LowerEntry(es, level)
      invariant delivered + Receivers(es, level) == Receivers(es, bound)
      decreases CountBelow(es, level)
    {
      var i := e.value;
      level := es[i].0;
      CountBelowAt(es, i);
      delivered := delivered + es[i].1;
      e := LowerEntry(es, level);
    }
  }

  /** The levels below an entry's level are those before it. */
  lemma {:induction false} CountBelowAt<L>(es: seq<(int, seq<L>)>, i: nat)
    requires Sorted(es) && i < |es|
    ensures CountBelow(es, es[i].0) == i
  {
    var p := es[..|es| - 1];
    if i < |es| - 1 {
      assert p[i] == es[i];
      CountBelowAt(p, i);
    } else if i > 0 {
      assert p[i - 1] == es[i - 1];
    }
  }

  /** A Logger whose listeners are of type L. */
  class Logger<L(==)> {
    var name: string
    var log: string
    /** _listeners */
    var entries: seq<(int, seq<L>)>

    /** The levels are ints, in ascending order. */
    ghost predicate Valid()
      reads this
    {
      Sorted(entries) && forall i :: 0 <= i < |entries| ==> IsInt32(entries[i].0)
    }

    /** new Logger(name): no listeners and an empty log. */
    constructor (n: string)
      ensures Valid() && name == n && log == "" && entries == []
    {
      name := n;
      log := "";
      entries := [];
    }

    /** getLog() */
    function GetLog(): (s: string)
      reads this
      ensures s == log
    {
      log
    }

    /** log(message, level): the range query from level + 1 down, each
        entry's listeners receiving the message in turn, then the message
        and a newline appended to the log. The listeners reached are
        returned in the order they receive it. The bound level + 1 is an
        int addition, so below Integer.MAX_VALUE the message reaches every
        level up to its own, and at Integer.MAX_VALUE it reaches no one. */
    method Log(message: string, level: int) returns (delivered: seq<L>)
      requires Valid() && IsInt32(level)
      modifies this
      ensures Valid() && name == old(name) && entries == old(entries)
      ensures log == old(log) + message + "\n"
      ensures delivered == LogReceiversAsWritten(entries, level)
      ensures level < INT_MAX ==> delivered == Receivers(entries, level + 1)
      ensures level == INT_MAX ==> delivered == []
    {
      delivered := RangeQuery(entries, AddInt(level, 1));
      CountBelowMeaning(entries, AddInt(level, 1));
      log := log + message + "\n";
    }

    /** attach(listener, level) */
    method Attach(listener: L, level: int)
      requires Valid() && IsInt32(level)
      modifies this
      ensures Valid() && name == old(name) && log == old(log)
      ensures entries == Insert(old(entries), level, listener)
    {
      InsertMeaning(entries, level, listener);
      var es := Insert(entries, level, listener);
      forall i | 0 <= i < |es|
        ensures IsInt32(es[i].0)
      {
        assert es[i].0 in Levels(es);
      }
      entries := es;
    }

    /** detach(listener): the listener removed once from the list of every
        level, the levels kept even when their lists become empty. */
    method Detach(listener: L)
      requires Valid()
      modifies this
      ensures Valid() && name == old(name) && log == old(log)
      ensures Detached(old(entries), entries, listener)
    {
      for i := 0 to |entries|
        invariant Valid() && |entries| == |old(entries)| && name == old(name) && log == old(log)
        invariant forall j :: 0 <= j < |entries| ==> entries[j].0 == old(entries)[j].0
        invariant forall j :: 0 <= j < i ==> entries[j].1 == RemoveFirst(old(entries)[j].1, listener)
        invariant forall j :: i <= j < |entries| ==> entries[j].1 == old(entries)[j].1
      {
        entries := entries[i := (entries[i].0, RemoveFirst(entries[i].1, listener))];
      }
    }
  }
}
