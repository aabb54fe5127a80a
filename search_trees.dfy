/** The binary search trees behind the BST-based sets, as values: each
    tree node's element is compared with others through the key the
    element's compareTo looks at (a string itself, or a dictionary
    entry's word). The node classes mirror one of these values each. */
module SearchTrees {
  import opened Common

  datatype Tree<Y> = Leaf | Branch(left: Tree<Y>, value: Y, right: Tree<Y>)

  function Elements<Y>(t: Tree<Y>): set<Y>
  {
    if t.Leaf? then {} else Elements(t.left) + {t.value} + Elements(t.right)
  }

  function Keys<Y>(t: Tree<Y>, key: Y -> string): set<string>
  {
    if t.Leaf? then {} else Keys(t.left, key) + {key(t.value)} + Keys(t.right, key)
  }

  /** The key of a string set's elements: the string itself. */
  function Id(s: string): string { s }

  /** In a tree of strings the keys are the elements. */
  lemma {:induction false} KeysAreElements(t: Tree<string>)
    ensures Keys(t, Id) == Elements(t)
  {
    if t.Branch? {
      KeysAreElements(t.left);
      KeysAreElements(t.right);
    }
  }

  /** Every key in a left subtree is below its node's and every key in a
      right subtree above it, under String.compareTo. */
  ghost predicate Ordered<Y>(t: Tree<Y>, key: Y -> string)
  {
    t.Branch? ==>
      && Ordered(t.left, key) && Ordered(t.right, key)
      && (forall k :: k in Keys(t.left, key) ==> Less(k, key(t.value)))
      && (forall k :: k in Keys(t.right, key) ==> Less(key(t.value), k))
  }

  /** The search both contains and get perform: compare the key with the
      node's and go left or right, stopping at an equal key or a leaf. */
  function Find<Y>(t: Tree<Y>, k: string, key: Y -> string): (r: Option<Y>)
    ensures r.Some? ==> r.value in Elements(t) && key(r.value) == k
  {
    if t.Leaf? then None
    else
      var c := CompareTo(k, key(t.value));
      if c == 0 then Some(t.value)
      else if c < 0 then Find(t.left, k, key)
      else Find(t.right, k, key)
  }

  /** In an ordered tree a key below the root's is in the tree exactly
      when it is in the left subtree, and one above it exactly when it is
      in the right subtree. */
  lemma Descend<Y>(t: Tree<Y>, k: string, key: Y -> string)
    requires Ordered(t, key) && t.Branch?
    ensures Less(k, key(t.value)) ==> (k in Keys(t, key) <==> k in Keys(t.left, key))
    ensures Less(key(t.value), k) ==> (k in Keys(t, key) <==> k in Keys(t.right, key))
  {
    LessTrichotomy(k, key(t.value));
  }

  /** What put does to a tree: a leaf becomes a one-element tree, an
      element whose key is above or below the node's goes into that side,
      and one with an equal key leaves the tree as it is. */
  function Insert<Y>(t: Tree<Y>, x: Y, key: Y -> string): (r: Tree<Y>)
    ensures r.Branch? && Elements(t) <= Elements(r) <= Elements(t) + {x}
  {
    if t.Leaf? then Branch(Leaf, x, Leaf)
    else
      var c := CompareTo(key(x), key(t.value));
      if c > 0 then Branch(t.left, t.value, Insert(t.right, x, key))
      else if c < 0 then Branch(Insert(t.left, x, key), t.value, t.right)
      else t
  }

  /** The keys of a tree are those of its elements. */
  lemma {:induction false} KeysOfElements<Y>(t: Tree<Y>, key: Y -> string)
    ensures forall k :: k in Keys(t, key) <==> exists y :: y in Elements(t) && key(y) == k
  {
    if t.Branch? {
      KeysOfElements(t.left, key);
      KeysOfElements(t.right, key);
    }
  }

  /** An element's key is among the tree's keys. */
  lemma {:induction false} KeyOfElement<Y>(t: Tree<Y>, y: Y, key: Y -> string)
    requires y in Elements(t)
    ensures key(y) in Keys(t, key)
  {
    if t.Branch? && y != t.value {
      if y in Elements(t.left) {
        KeyOfElement(t.left, y, key);
      } else {
        KeyOfElement(t.right, y, key);
      }
    }
  }

  /** In an ordered tree the search finds an element exactly when one
      with that key is in the tree, and what it finds has that key. */
  lemma {:induction false} FindMeaning<Y>(t: Tree<Y>, k: string, key: Y -> string)
    requires Ordered(t, key)
    ensures Find(t, k, key).Some? <==> k in Keys(t, key)
    ensures Find(t, k, key).Some? ==> Find(t, k, key).value in Elements(t) && key(Find(t, k, key).value) == k
  {
    if t.Branch? {
      LessTrichotomy(k, key(t.value));
      FindMeaning(t.left, k, key);
      FindMeaning(t.right, k, key);
    }
  }

  /** Inserting adds the element's key, and the element itself unless
      its key was already there. */
  lemma {:induction false} InsertKeys<Y>(t: Tree<Y>, x: Y, key: Y -> string)
    ensures Keys(Insert(t, x, key), key) == Keys(t, key) + {key(x)}
    ensures key(x) !in Keys(t, key) ==> Elements(Insert(t, x, key)) == Elements(t) + {x}
  {
    if t.Branch? {
      InsertKeys(t.left, x, key);
      InsertKeys(t.right, x, key);
    }
  }

  /** Inserting keeps a tree ordered. */
  lemma {:induction false} InsertOrdered<Y>(t: Tree<Y>, x: Y, key: Y -> string)
    requires Ordered(t, key)
    ensures Ordered(Insert(t, x, key), key)
  {
    if t.Branch? {
      LessTrichotomy(key(x), key(t.value));
      InsertOrdered(t.left, x, key);
      InsertOrdered(t.right, x, key);
      InsertKeys(t.left, x, key);
      InsertKeys(t.right, x, key);
    }
  }

  /** Inserting an element whose key is present changes nothing: the
      element stored first stays. */
  lemma {:induction false} InsertPresent<Y>(t: Tree<Y>, x: Y, key: Y -> string)
    requires Ordered(t, key) && key(x) in Keys(t, key)
    ensures Insert(t, x, key) == t
  {
    if t.Branch? {
      LessTrichotomy(key(x), key(t.value));
      if Less(key(x), key(t.value)) {
        InsertPresent(t.left, x, key);
      } else if Less(key(t.value), key(x)) {
        InsertPresent(t.right, x, key);
      }
    }
  }

  /** After inserting into an ordered tree, the search for the element's
      key finds the element, unless an element with that key was there
      before, which it then still finds. */
  lemma FindAfterInsert<Y>(t: Tree<Y>, x: Y, key: Y -> string)
    requires Ordered(t, key)
    ensures Find(Insert(t, x, key), key(x), key) == if key(x) in Keys(t, key) then Find(t, key(x), key) else Some(x)
  {
    if key(x) in Keys(t, key) {
      InsertPresent(t, x, key);
    } else {
      FindNew(t, x, key);
    }
  }

  lemma {:induction false} FindNew<Y>(t: Tree<Y>, x: Y, key: Y -> string)
    requires key(x) !in Keys(t, key)
    ensures Find(Insert(t, x, key), key(x), key) == Some(x)
  {
    if t.Branch? {
      CompareToAntisymmetric(key(x), key(t.value));
      FindNew(t.left, x, key);
      FindNew(t.right, x, key);
    }
  }

  /** Inserting leaves the search for any other key as it was. */
  lemma {:induction false} FindOther<Y>(t: Tree<Y>, x: Y, k: string, key: Y -> string)
    requires k != key(x)
    ensures Find(Insert(t, x, key), k, key) == Find(t, k, key)
  {
    if t.Branch? {
      FindOther(t.left, x, k, key);
      FindOther(t.right, x, k, key);
    }
  }
}
