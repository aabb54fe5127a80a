/** Homework 7's ECHashStringSet: a string set kept as an array of
    bucket lists chosen by hash code, resized to twice the buckets when
    the load (strings per bucket) exceeds MAX_LOAD. Duplicates are
    stored again, so the set is a multiset of strings. */
module EcHashStringSets {
  import opened Common

  /** (int)(1 / MIN_LOAD) with MIN_LOAD = 0.2: the initial bucket count. */
  const INITIAL_BUCKETS: nat := 5
  /** MAX_LOAD */
  const MAX_LOAD: nat := 5

  /** A bucket's strings; a null bucket holds none. */
  function Items(b: Option<seq<string>>): seq<string>
  {
    if b.Some? then b.value else []
  }

  /** All strings in the buckets, each as often as it was stored. */
  function Bag(buckets: seq<Option<seq<string>>>): multiset<string>
  {
    if buckets == [] then multiset{}
    else Bag(buckets[..|buckets| - 1]) + multiset(Items(buckets[|buckets| - 1]))
  }

  /** hashToStore(hashCode): the hash shifted right unsigned by one with
      its lowest bit kept, modulo the bucket count. */
  function HashToStore(hashCode: bv32, buckets: nat): (pos: nat)
    requires buckets > 0
    ensures pos < buckets
  {
    var lastBit := hashCode & 1;
    var unsignedHash := (hashCode >> 1) | lastBit;
    (unsignedHash as int) % buckets
  }

  /** The unsigned hash has its sign bit clear, so as a Java int it is
      non-negative and the Java remainder agrees with the one above. */
  lemma UnsignedHashIsNonNegative(hashCode: bv32)
    ensures (hashCode >> 1) | (hashCode & 1) < 0x8000_0000
  {
    assert hashCode >> 1 < 0x8000_0000;
  }

  /** The bucket of string s in a store of that many buckets. */
  function BucketOf(s: string, buckets: nat): nat
    requires buckets > 0
  {
    HashToStore(HashWord(s), buckets)
  }

  /** A string is among the buckets' strings exactly when some bucket
      holds it. */
  lemma InBag(buckets: seq<Option<seq<string>>>, x: string)
    ensures x in Bag(buckets) <==> exists i :: 0 <= i < |buckets| && x in Items(buckets[i])
  {
    if x in Bag(buckets) {
      var i := BucketHolding(buckets, x);
    }
    if exists i :: 0 <= i < |buckets| && x in Items(buckets[i]) {
      var i :| 0 <= i < |buckets| && x in Items(buckets[i]);
      HeldInBag(buckets, x, i);
    }
  }

  /** A string among the buckets' strings is in some bucket. */
  lemma {:induction false} BucketHolding(buckets: seq<Option<seq<string>>>, x: string) returns (i: nat)
    requires x in Bag(buckets)
    ensures i < |buckets| && x in Items(buckets[i])
  {
    var n := |buckets| - 1;
    var init := buckets[..n];
    assert Bag(buckets) == Bag(init) + multiset(Items(buckets[n]));
    if x in Bag(init) {
      i := BucketHolding(init, x);
      assert buckets[i] == init[i];
    } else {
      i := n;
    }
  }

  /** A string in some bucket is among the buckets' strings. */
  lemma {:induction false} HeldInBag(buckets: seq<Option<seq<string>>>, x: string, i: nat)
    requires i < |buckets| && x in Items(buckets[i])
    ensures x in Bag(buckets)
  {
    var n := |buckets| - 1;
    var init := buckets[..n];
    assert Bag(buckets) == Bag(init) + multiset(Items(buckets[n]));
    if i < n {
      assert init[i] == buckets[i];
      HeldInBag(init, x, i);
    }
  }

  /** Appending x to one bucket adds one x to the strings. */
  lemma {:induction false} BagAppend(buckets: seq<Option<seq<string>>>, pos: nat, x: string)
    requires pos < |buckets|
    ensures Bag(buckets[pos := Some(Items(buckets[pos]) + [x])]) == Bag(buckets) + multiset{x}
  {
    var after := buckets[pos := Some(Items(buckets[pos]) + [x])];
    var n := |buckets| - 1;
    var init := buckets[..n];
    assert Bag(buckets) == Bag(init) + multiset(Items(buckets[n]));
    assert Bag(after) == Bag(after[..n]) + multiset(Items(after[n]));
    if pos < n {
      assert after[..n] == init[pos := Some(Items(init[pos]) + [x])];
      BagAppend(init, pos, x);
      assert after[n] == buckets[n];
    } else {
      assert after[..n] == init;
      assert Items(after[n]) == Items(buckets[n]) + [x];
    }
  }

  /** A bucket replaced by one with the same strings (a null bucket by
      an empty list) leaves the strings as they were. */
  lemma {:induction false} BagSameItems(buckets: seq<Option<seq<string>>>, pos: nat, v: Option<seq<string>>)
    requires pos < |buckets| && Items(v) == Items(buckets[pos])
    ensures Bag(buckets[pos := v]) == Bag(buckets)
  {
    var n := |buckets| - 1;
    if pos < n {
      assert buckets[pos := v][..n] == buckets[..n][pos := v];
      BagSameItems(buckets[..n], pos, v);
    } else {
      assert buckets[pos := v][..n] == buckets[..n];
    }
  }

  /** A prefix of the buckets holds no more strings than all of them. */
  lemma {:induction false} BagPrefixBound(buckets: seq<Option<seq<string>>>, i: nat)
    requires i <= |buckets|
    ensures |Bag(buckets[..i])| <= |Bag(buckets)|
    decreases |buckets| - i
  {
    if i < |buckets| {
      BagPrefix(buckets, i);
      BagPrefixBound(buckets, i + 1);
    } else {
      assert buckets[..i] == buckets;
    }
  }

  /** Buckets that are all null hold nothing. */
  lemma {:induction false} BagEmpty(buckets: seq<Option<seq<string>>>)
    requires forall i :: 0 <= i < |buckets| ==> buckets[i] == None
    ensures Bag(buckets) == multiset{}
  {
    if buckets != [] {
      BagEmpty(buckets[..|buckets| - 1]);
    }
  }

  /** The strings of a prefix of the buckets grow by the next bucket's. */
  lemma BagPrefix(buckets: seq<Option<seq<string>>>, i: nat)
    requires i < |buckets|
    ensures Bag(buckets[..i + 1]) == Bag(buckets[..i]) + multiset(Items(buckets[i]))
  {
    assert buckets[..i + 1][..i] == buckets[..i];
  }

  class ECHashStringSet {
    var store: array<Option<seq<string>>>
    var size: int

    /** Every string is in its own bucket, size counts the strings, and
        put resizes before the load passes MAX_LOAD by more than one
        string. */
    ghost predicate Valid()
      reads this, store
    {
      && store.Length > 0
      && (forall i, x :: 0 <= i < store.Length && x in Items(store[i]) ==> BucketOf(x, store.Length) == i)
      && size == |Bag(store[..])|
      && size <= MAX_LOAD * store.Length + 1
    }

    /** The strings in the set, duplicates included. */
    ghost function Contents(): multiset<string>
      reads this, store
    {
      Bag(store[..])
    }

    /** A new set: INITIAL_BUCKETS null buckets and size 0. */
    constructor ()
      ensures Valid() && fresh(store) && Contents() == multiset{} && size == 0 && store.Length == INITIAL_BUCKETS
    {
      size := 0;
      store := new Option<seq<string>>[INITIAL_BUCKETS](_ => None);
      new;
      BagEmpty(store[..]);
    }

    /** size() */
    function Size(): (n: int)
      requires Valid()
      reads this, store
      ensures n == |Contents()|
    {
      size
    }

    /** contains(s): false for null; otherwise whether s's bucket holds
        it, which is whether the set does. */
    function Contains(s: Option<string>): (b: bool)
      requires Valid()
      reads this, store
      ensures b <==> s.Some? && s.value in Contents()
    {
      if s.None? then false
      else
        var pos := BucketOf(s.value, store.Length);
        InBag(store[..], s.value);
        if store[pos].None? then false else s.value in store[pos].value
    }

    /** put(s): nothing for null; otherwise a resize first when the load
        exceeds MAX_LOAD, then s appended to its bucket (created when
        null) and size incremented, whether or not s was there. */
    method Put(s: Option<string>)
      requires Valid()
      modifies this, store
      ensures Valid() && (store == old(store) || fresh(store))
      ensures s.None? ==> Contents() == old(Contents()) && size == old(size)
      ensures s.Some? ==> Contents() == old(Contents()) + multiset{s.value} && size == old(size) + 1
      ensures store.Length == if s.Some? && old(size) > MAX_LOAD * old(store.Length) then 2 * old(store.Length) else old(store.Length)
    {
      if s.Some? {
        if size > MAX_LOAD * store.Length {
          Resize();
        }
        Add(s.value);
      }
    }

    /** The part of put after the load check. */
    method Add(x: string)
      requires Valid() && size <= MAX_LOAD * store.Length
      modifies this, store
      ensures Valid() && store == old(store)
      ensures Contents() == old(Contents()) + multiset{x} && size == old(size) + 1
    {
      var pos := BucketOf(x, store.Length);
      if store[pos].None? {
        ghost var before := store[..];
        store[pos] := Some([]);
        assert store[..] == before[pos := Some([])];
        BagSameItems(before, pos, Some([]));
      }
      ghost var before := store[..];
      store[pos] := Some(store[pos].value + [x]);
      assert store[..] == before[pos := Some(Items(before[pos]) + [x])];
      BagAppend(before, pos, x);
      size := size + 1;
    }

    /** The inner loop of resize: the strings of one old bucket put again
        in order, none of those puts resizing. */
    method PutAll(items: seq<string>)
      requires Valid() && size + |items| <= MAX_LOAD * store.Length + 1
      modifies this, store
      ensures Valid() && store == old(store)
      ensures Contents() == old(Contents()) + multiset(items) && size == old(size) + |items|
    {
      for j := 0 to |items|
        invariant Valid() && store == old(store)
        invariant Contents() == old(Contents()) + multiset(items[..j]) && size == old(size) + j
      {
        assert items[..j + 1] == items[..j] + [items[j]];
        Add(items[j]);
      }
      assert items[..|items|] == items;
    }

    /** One pass of resize's outer loop: the strings of the old bucket i,
        when it is not null, put again after those of the buckets before
        it. */
    method PutBucket(ghost all: seq<Option<seq<string>>>, i: nat, list: Option<seq<string>>)
      requires Valid() && i < |all| && list == all[i]
      requires Contents() == Bag(all[..i]) && size == |Bag(all[..i])|
      requires |Bag(all)| <= MAX_LOAD * store.Length + 1
      modifies this, store
      ensures Valid() && store == old(store)
      ensures Contents() == Bag(all[..i + 1]) && size == |Bag(all[..i + 1])|
    {
      BagPrefix(all, i);
      BagPrefixBound(all, i + 1);
      if list.Some? {
        PutAll(list.value);
      }
    }

    /** resize(): twice the buckets, size reset, and every string of the
        old buckets put again in order; the load then stays within
        MAX_LOAD, so none of those puts resizes again. */
    method Resize()
      requires Valid() && size == MAX_LOAD * store.Length + 1
      modifies this
      ensures Valid() && fresh(store)
      ensures store.Length == 2 * old(store.Length)
      ensures Contents() == old(Contents()) && size == old(size)
    {
      var oldStore := store;
      ghost var all := oldStore[..];
      store := new Option<seq<string>>[2 * oldStore.Length](_ => None);
      size := 0;
      BagEmpty(store[..]);
      assert all[..0] == [];
      for i := 0 to oldStore.Length
        invariant fresh(store) && store.Length == 2 * oldStore.Length
        invariant oldStore[..] == all
        invariant Valid()
        invariant Contents() == Bag(all[..i]) && size == |Bag(all[..i])|
      {
        PutBucket(all, i, oldStore[i]);
      }
      assert all[..oldStore.Length] == all;
    }
  }

  /** A client: every put of a string counts, duplicates too; null is
      neither put nor contained. */
  method PutSome(a: string, b: string) returns (n: int, hasA: bool, hasB: bool, hasNull: bool)
    ensures n == 3 && hasA && hasB && !hasNull
  {
    var strings := new ECHashStringSet();
    strings.Put(Some(a));
    strings.Put(Some(b));
    strings.Put(Some(a));
    strings.Put(None);
    n := strings.Size();
    hasA := strings.Contains(Some(a));
    hasB := strings.Contains(Some(b));
    hasNull := strings.Contains(None);
  }
}
