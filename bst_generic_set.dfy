/** Homework 6's BSTGenericSet: the same in-place tree as its
    BSTStringSet, over elements of any type whose compareTo compares
    the strings key picks out of them. */
module BstGenericSets {
  import opened Common
  import opened SearchTrees

  class BSTGenericSet<Y> {
    /** What compareTo compares: key(a) against key(b) by
        String.compareTo. */
    const key: Y -> string
    /** _value, with None for null. */
    var value: Option<Y>
    var left: BSTGenericSet?<Y>
    var right: BSTGenericSet?<Y>
    ghost var T: Tree<Y>
    ghost var Repr: set<object>

    /** Only an empty set has a null value, and then no children; the
        children compare alike, are disjoint and mirror the subtrees of
        T. */
    ghost predicate Valid()
      reads this, Repr
      decreases Repr
    {
      && this in Repr
      && (value.None? ==> T == Leaf && left == null && right == null)
      && (value.Some? ==> T.Branch? && T.value == value.value)
      && (left != null ==>
            && left in Repr && left.Repr <= Repr && this !in left.Repr && left.Valid()
            && left.key == key && T.Branch? && left.T == T.left)
      && (left == null && T.Branch? ==> T.left == Leaf)
      && (right != null ==>
            && right in Repr && right.Repr <= Repr && this !in right.Repr && right.Valid()
            && right.key == key && T.Branch? && right.T == T.right)
      && (right == null && T.Branch? ==> T.right == Leaf)
      && (left != null && right != null ==> left.Repr !! right.Repr)
    }

    /** The empty set. */
    constructor (key: Y -> string)
      ensures Valid() && fresh(Repr) && T == Leaf && value == None && this.key == key
    {
      this.key := key;
      value, left, right := None, null, null;
      T, Repr := Leaf, {this};
    }

    /** A one-element set, the node put creates for a new element. */
    constructor Of(s: Y, key: Y -> string)
      ensures Valid() && fresh(Repr) && T == Branch(Leaf, s, Leaf) && value == Some(s) && this.key == key
    {
      this.key := key;
      value, left, right := Some(s), null, null;
      T, Repr := Branch(Leaf, s, Leaf), {this};
    }

    /** isEmpty */
    function IsEmpty(): (b: bool)
      requires Valid()
      reads Repr
      ensures b <==> Elements(T) == {}
    {
      value.None?
    }

    /** contains(s): false for null; otherwise whether an element
        comparing equal to s is in the set. */
    function Contains(s: Option<Y>): (b: bool)
      requires Valid() && Ordered(T, key)
      reads Repr
      ensures b <==> s.Some? && key(s.value) in Keys(T, key)
      decreases Repr
    {
      if value.None? || s.None? then false
      else
        var compr := CompareTo(key(s.value), key(value.value));
        Descend(T, key(s.value), key);
        if compr == 0 then true
        else if compr < 0 && left != null then left.Contains(s)
        else if compr > 0 && right != null then right.Contains(s)
        else false
    }

    /** get(s): the stored element comparing equal to s, or null when
        there is none. */
    function Get(s: Y): (r: Option<Y>)
      requires Valid() && Ordered(T, key)
      reads Repr
      ensures r.Some? <==> key(s) in Keys(T, key)
      ensures r.Some? ==> r.value in Elements(T) && key(r.value) == key(s)
      decreases Repr
    {
      if value.None? then None
      else
        var compr := CompareTo(key(s), key(value.value));
        Descend(T, key(s), key);
        if compr == 0 then value
        else if compr < 0 && left != null then left.Get(s)
        else if compr > 0 && right != null then right.Get(s)
        else None
    }

    /** put(s): an empty set takes s as its value; otherwise s goes to a
        new child or into the existing child on its side, and an element
        comparing equal to the value is ignored. */
    method Put(s: Y)
      requires Valid()
      modifies Repr
      ensures Valid() && fresh(Repr - old(Repr))
      ensures T == Insert(old(T), s, key)
      ensures T == old(T) ==> Repr == old(Repr)
      ensures old(value).None? ==> value == Some(s)
      decreases Repr, 1
    {
      if value.None? {
        value, T := Some(s), Branch(Leaf, s, Leaf);
        return;
      }
      var compr := CompareTo(key(s), key(value.value));
      if compr > 0 {
        PutRight(s);
      } else if compr < 0 {
        PutLeft(s);
      }
    }

    /** The branch of put for an element above the value. */
    method PutRight(s: Y)
      requires Valid() && value.Some?
      modifies Repr
      ensures Valid() && fresh(Repr - old(Repr)) && value == old(value)
      ensures T == Branch(old(T).left, old(T).value, Insert(old(T).right, s, key))
      ensures T.right == old(T).right ==> Repr == old(Repr)
      decreases Repr, 0
    {
      if right == null {
        var r := new BSTGenericSet.Of(s, key);
        right, Repr, T := r, Repr + r.Repr, Branch(T.left, T.value, r.T);
      } else {
        right.Put(s);
        Repr, T := Repr + right.Repr, Branch(T.left, T.value, right.T);
      }
    }

    /** The branch of put for an element below the value. */
    method PutLeft(s: Y)
      requires Valid() && value.Some?
      modifies Repr
      ensures Valid() && fresh(Repr - old(Repr)) && value == old(value)
      ensures T == Branch(Insert(old(T).left, s, key), old(T).value, old(T).right)
      ensures T.left == old(T).left ==> Repr == old(Repr)
      decreases Repr, 0
    {
      if left == null {
        var l := new BSTGenericSet.Of(s, key);
        left, Repr, T := l, Repr + l.Repr, Branch(l.T, T.value, T.right);
      } else {
        left.Put(s);
        Repr, T := Repr + left.Repr, Branch(left.T, T.value, T.right);
      }
    }
  }

  /** put keeps the tree ordered and adds s's key; s itself is added only
      when no element compares equal to it, otherwise the first one put
      stays and the search for s's key still finds it. */
  lemma PutMeaning<Y>(t: Tree<Y>, s: Y, key: Y -> string)
    requires Ordered(t, key)
    ensures Ordered(Insert(t, s, key), key)
    ensures Keys(Insert(t, s, key), key) == Keys(t, key) + {key(s)}
    ensures key(s) !in Keys(t, key) ==> Elements(Insert(t, s, key)) == Elements(t) + {s}
    ensures key(s) in Keys(t, key) ==> Insert(t, s, key) == t
    ensures Find(Insert(t, s, key), key(s), key) == if key(s) in Keys(t, key) then Find(t, key(s), key) else Some(s)
  {
    InsertOrdered(t, s, key);
    InsertKeys(t, s, key);
    if key(s) in Keys(t, key) {
      InsertPresent(t, s, key);
    }
    FindAfterInsert(t, s, key);
  }
}
