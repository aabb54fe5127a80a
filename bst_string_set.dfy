/** Homework 7's BSTStringSet: a binary search tree of strings ordered by
    String.compareTo, with recursive contains and put helpers that take
    the subtree's root (null for an empty subtree). Each node mirrors a
    search tree value, its ghost field T. */
module BstStringSets {
  import opened Common
  import opened SearchTrees

  class Node {
    const s: string
    var left: Node?
    var right: Node?
    ghost var T: Tree<string>
    ghost var Repr: set<object>

    /** The node's string is at the root of T and the disjoint subtrees
        mirror T's subtrees. */
    ghost predicate Valid()
      reads this, Repr
      decreases Repr
    {
      && this in Repr
      && T.Branch? && T.value == s
      && (left != null ==> left in Repr && left.Repr <= Repr && this !in left.Repr && left.Valid() && left.T == T.left)
      && (left == null ==> T.left == Leaf)
      && (right != null ==> right in Repr && right.Repr <= Repr && this !in right.Repr && right.Valid() && right.T == T.right)
      && (right == null ==> T.right == Leaf)
      && (left != null && right != null ==> left.Repr !! right.Repr)
    }

    constructor (sp: string)
      ensures Valid() && fresh(Repr) && T == Branch(Leaf, sp, Leaf)
    {
      s := sp;
      left, right := null, null;
      T, Repr := Branch(Leaf, sp, Leaf), {this};
    }
  }

  /** The tree a subtree root stands for: a leaf for null. */
  ghost function TreeOf(p: Node?): Tree<string>
    reads p
  {
    if p == null then Leaf else p.T
  }

  ghost function Nodes(p: Node?): set<object>
    reads p
  {
    if p == null then {} else p.Repr
  }

  /** contains(s, p): descend by compareTo until the string or a null
      subtree is met; in an ordered tree, whether s is in it. */
  function ContainsAt(x: string, p: Node?): (b: bool)
    requires p != null ==> p.Valid()
    requires Ordered(TreeOf(p), Id)
    reads if p == null then {} else {p} + p.Repr
    ensures b <==> x in Elements(TreeOf(p))
    decreases Nodes(p)
  {
    if p == null then false
    else
      var cmp := CompareTo(x, p.s);
      Descend(p.T, x, Id);
      KeysAreElements(p.T);
      KeysAreElements(p.T.left);
      KeysAreElements(p.T.right);
      if cmp < 0 then ContainsAt(x, p.left)
      else if cmp > 0 then ContainsAt(x, p.right)
      else true
  }

  /** put(s, p): a new node for an empty subtree; otherwise s goes into
      the left or right subtree by compareTo, whose root is stored back,
      and an equal string changes nothing. */
  method PutAt(x: string, p: Node?) returns (q: Node)
    requires p != null ==> p.Valid()
    modifies Nodes(p)
    ensures q.Valid() && fresh(q.Repr - old(Nodes(p)))
    ensures q.T == Insert(old(TreeOf(p)), x, Id)
    ensures p != null ==> q == p
    ensures p != null && q.T == old(p.T) ==> q.Repr == old(p.Repr)
    decreases Nodes(p), 1
  {
    if p == null {
      q := new Node(x);
      return;
    }
    var cmp := CompareTo(x, p.s);
    if cmp < 0 {
      PutLeft(x, p);
    }
    if cmp > 0 {
      PutRight(x, p);
    }
    q := p;
  }

  /** p.left = put(s, p.left) */
  method PutLeft(x: string, p: Node)
    requires p.Valid()
    modifies p.Repr
    ensures p.Valid() && fresh(p.Repr - old(p.Repr))
    ensures p.T == Branch(Insert(old(p.T).left, x, Id), p.s, old(p.T).right)
    ensures p.T.left == old(p.T).left ==> p.Repr == old(p.Repr)
    decreases p.Repr, 0
  {
    var l := PutAt(x, p.left);
    SetLeft(p, l);
  }

  /** Stores l, the root put returned, as p's left subtree. */
  method SetLeft(p: Node, l: Node)
    requires p in p.Repr && p.T.Branch? && p.T.value == p.s && l.Valid() && p !in l.Repr
    requires p.right != null ==> p.right in p.Repr && p.right.Repr <= p.Repr && p !in p.right.Repr && p.right.Valid() && p.right.T == p.T.right && l.Repr !! p.right.Repr
    requires p.right == null ==> p.T.right == Leaf
    modifies p
    ensures p.Valid() && p.Repr == old(p.Repr) + l.Repr && p.left == l
    ensures p.T == Branch(l.T, p.s, old(p.T).right)
  {
    p.left, p.Repr, p.T := l, p.Repr + l.Repr, Branch(l.T, p.s, p.T.right);
  }

  /** p.right = put(s, p.right) */
  method PutRight(x: string, p: Node)
    requires p.Valid()
    modifies p.Repr
    ensures p.Valid() && fresh(p.Repr - old(p.Repr))
    ensures p.T == Branch(old(p.T).left, p.s, Insert(old(p.T).right, x, Id))
    ensures p.T.right == old(p.T).right ==> p.Repr == old(p.Repr)
    decreases p.Repr, 0
  {
    var r := PutAt(x, p.right);
    SetRight(p, r);
  }

  /** Stores r, the root put returned, as p's right subtree. */
  method SetRight(p: Node, r: Node)
    requires p in p.Repr && p.T.Branch? && p.T.value == p.s && r.Valid() && p !in r.Repr
    requires p.left != null ==> p.left in p.Repr && p.left.Repr <= p.Repr && p !in p.left.Repr && p.left.Valid() && p.left.T == p.T.left && r.Repr !! p.left.Repr
    requires p.left == null ==> p.T.left == Leaf
    modifies p
    ensures p.Valid() && p.Repr == old(p.Repr) + r.Repr && p.right == r
    ensures p.T == Branch(old(p.T).left, p.s, r.T)
  {
    p.right, p.Repr, p.T := r, p.Repr + r.Repr, Branch(p.T.left, p.s, r.T);
  }

  class BSTStringSet {
    var root: Node?
    ghost var Repr: set<object>

    /** The tree is ordered and the set's footprint holds the nodes. */
    ghost predicate Valid()
      reads this, Repr
    {
      && this in Repr
      && (root != null ==> root in Repr && root.Repr <= Repr && this !in root.Repr && root.Valid())
      && Ordered(TreeOf(root), Id)
    }

    /** The strings in the set. */
    ghost function Contents(): set<string>
      reads this, root
    {
      Elements(TreeOf(root))
    }

    /** A new set is empty. */
    constructor ()
      ensures Valid() && fresh(Repr) && Contents() == {}
    {
      root := null;
      Repr := {this};
    }

    /** contains(s) */
    function Contains(x: string): (b: bool)
      requires Valid()
      reads Repr
      ensures b <==> x in Contents()
    {
      ContainsAt(x, root)
    }

    /** put(s): the set gains s and stays ordered; when s is already
        there the tree is left as it was. */
    method Put(x: string)
      requires Valid()
      modifies Repr
      ensures Valid() && fresh(Repr - old(Repr))
      ensures Contents() == old(Contents()) + {x}
      ensures x in old(Contents()) ==> Repr == old(Repr) && TreeOf(root) == old(TreeOf(root))
      ensures old(root) != null ==> root == old(root)
    {
      ghost var t := TreeOf(root);
      root := PutAt(x, root);
      Repr := Repr + root.Repr;
      InsertOrdered(t, x, Id);
      InsertKeys(t, x, Id);
      KeysAreElements(t);
      KeysAreElements(root.T);
      if x in Elements(t) {
        InsertPresent(t, x, Id);
      }
    }
  }

  /** A client: a fresh set holds nothing; after putting a and b it holds
      both and nothing else. */
  method PutTwo(a: string, b: string, c: string) returns (before: bool, hasA: bool, hasB: bool, hasC: bool)
    requires c != a && c != b
    ensures !before && hasA && hasB && !hasC
  {
    var strings := new BSTStringSet();
    before := strings.Contains(a);
    strings.Put(a);
    strings.Put(b);
    hasA := strings.Contains(a);
    hasB := strings.Contains(b);
    hasC := strings.Contains(c);
  }
}
