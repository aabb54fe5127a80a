/** Homework 6's BSTStringSet: every set object is itself a tree node
    holding a value (null in a set nothing was put into) and two child
    sets, and put grows the tree in place. Each object mirrors a search
    tree value, its ghost field T. */
module BstStringSetsHw6 {
  import opened Common
  import opened SearchTrees

  class BSTStringSet {
    /** _value, with None for null. */
    var value: Option<string>
    var left: BSTStringSet?
    var right: BSTStringSet?
    ghost var T: Tree<string>
    ghost var Repr: set<object>

    /** Only an empty set has a null value, and then no children; the
        children are disjoint and mirror the subtrees of T. */
    ghost predicate Valid()
      reads this, Repr
      decreases Repr
    {
      && this in Repr
      && (value.None? ==> T == Leaf && left == null && right == null)
      && (value.Some? ==> T.Branch? && T.value == value.value)
      && (left != null ==>
            left in Repr && left.Repr <= Repr && this !in left.Repr && left.Valid() && T.Branch? && left.T == T.left)
      && (left == null && T.Branch? ==> T.left == Leaf)
      && (right != null ==>
            right in Repr && right.Repr <= Repr && this !in right.Repr && right.Valid() && T.Branch? && right.T == T.right)
      && (right == null && T.Branch? ==> T.right == Leaf)
      && (left != null && right != null ==> left.Repr !! right.Repr)
    }

    /** The strings in the set. */
    ghost function Contents(): set<string>
      reads this
    {
      Elements(T)
    }

    /** The empty set: a null value and no children. */
    constructor ()
      ensures Valid() && fresh(Repr) && T == Leaf && value == None
    {
      value, left, right := None, null, null;
      T, Repr := Leaf, {this};
    }

    /** A one-string set, the node put creates for a new string. */
    constructor Of(s: string)
      ensures Valid() && fresh(Repr) && T == Branch(Leaf, s, Leaf) && value == Some(s)
    {
      value, left, right := Some(s), null, null;
      T, Repr := Branch(Leaf, s, Leaf), {this};
    }

    /** isEmpty: whether the value is null, which is whether the set
        holds nothing. */
    function IsEmpty(): (b: bool)
      requires Valid()
      reads Repr
      ensures b <==> Contents() == {}
    {
      value.None?
    }

    /** contains(s): compare with the value and descend into the child
        on that side, false at a missing child or a null value; in an
        ordered tree, whether s is in the set. */
    function Contains(x: string): (b: bool)
      requires Valid() && Ordered(T, Id)
      reads Repr
      ensures b <==> x in Contents()
      decreases Repr
    {
      if value.None? then false
      else
        var compr := CompareTo(x, value.value);
        Descend(T, x, Id);
        KeysAreElements(T);
        KeysAreElements(T.left);
        KeysAreElements(T.right);
        if compr == 0 then true
        else if compr < 0 && left != null then left.Contains(x)
        else if compr > 0 && right != null then right.Contains(x)
        else false
    }

    /** put(s): an empty set takes s as its value; otherwise s goes to a
        new child or into the existing child on its side, and a string
        equal to the value is ignored. */
    method Put(x: string)
      requires Valid()
      modifies Repr
      ensures Valid() && fresh(Repr - old(Repr))
      ensures T == Insert(old(T), x, Id)
      ensures T == old(T) ==> Repr == old(Repr)
      ensures old(value).None? ==> value == Some(x)
      ensures old(value).Some? ==> value == old(value)
      decreases Repr, 1
    {
      if value.None? {
        value, T := Some(x), Branch(Leaf, x, Leaf);
        return;
      }
      var compr := CompareTo(x, value.value);
      if compr > 0 {
        PutRight(x);
      } else if compr < 0 {
        PutLeft(x);
      }
    }

    /** The branch of put for a string above the value. */
    method PutRight(x: string)
      requires Valid() && value.Some?
      modifies Repr
      ensures Valid() && fresh(Repr - old(Repr)) && value == old(value)
      ensures T == Branch(old(T).left, old(T).value, Insert(old(T).right, x, Id))
      ensures T.right == old(T).right ==> Repr == old(Repr)
      decreases Repr, 0
    {
      if right == null {
        var r := new BSTStringSet.Of(x);
        right, Repr, T := r, Repr + r.Repr, Branch(T.left, T.value, r.T);
      } else {
        right.Put(x);
        Repr, T := Repr + right.Repr, Branch(T.left, T.value, right.T);
      }
    }

    /** The branch of put for a string below the value. */
    method PutLeft(x: string)
      requires Valid() && value.Some?
      modifies Repr
      ensures Valid() && fresh(Repr - old(Repr)) && value == old(value)
      ensures T == Branch(Insert(old(T).left, x, Id), old(T).value, old(T).right)
      ensures T.left == old(T).left ==> Repr == old(Repr)
      decreases Repr, 0
    {
      if left == null {
        var l := new BSTStringSet.Of(x);
        left, Repr, T := l, Repr + l.Repr, Branch(l.T, T.value, T.right);
      } else {
        left.Put(x);
        Repr, T := Repr + left.Repr, Branch(left.T, T.value, T.right);
      }
    }
  }

  /** put keeps a set ordered, adds exactly s, and changes nothing when s
      is already there. */
  lemma PutMeaning(t: Tree<string>, x: string)
    requires Ordered(t, Id)
    ensures Ordered(Insert(t, x, Id), Id)
    ensures Elements(Insert(t, x, Id)) == Elements(t) + {x}
    ensures x in Elements(t) ==> Insert(t, x, Id) == t
  {
    InsertOrdered(t, x, Id);
    InsertKeys(t, x, Id);
    KeysAreElements(t);
    KeysAreElements(Insert(t, x, Id));
    if x in Elements(t) {
      InsertPresent(t, x, Id);
    }
  }

  /** A client: a fresh set is empty and contains nothing; the first put
      stores at the root, and both strings put are then contained. */
  method PutTwo(a: string, b: string) returns (empty: bool, before: bool, hasA: bool, hasB: bool, emptyAfter: bool)
    ensures empty && !before && hasA && hasB && !emptyAfter
  {
    var strings := new BSTStringSet();
    empty := strings.IsEmpty();
    before := strings.Contains(a);
    strings.Put(a);
    assert strings.value == Some(a);
    PutMeaning(Leaf, a);
    ghost var t := strings.T;
    strings.Put(b);
    PutMeaning(t, b);
    hasA := strings.Contains(a);
    hasB := strings.Contains(b);
    emptyAfter := strings.IsEmpty();
  }
}
