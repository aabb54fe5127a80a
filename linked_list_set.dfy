/** Homework 6's LinkedListStringSet: a singly linked list behind a
    sentinel node holding "dummy", with a pointer to its last node. New
    strings are appended at the end. */
module LinkedListSets {
  import opened Common

  class Node {
    const s: string
    var next: Node?

    constructor (sp: string)
      ensures s == sp && next == null
    {
      s := sp;
      next := null;
    }
  }

  class LinkedListStringSet {
    var front: Node
    var last: Node
    /** The nodes from front to last, and the strings they hold. */
    ghost var nodes: seq<Node>
    ghost var contents: seq<string>
    ghost var Repr: set<object>

    /** The nodes are distinct and linked in order, the last one ends the
        list, the first is the sentinel, and no string is held twice. */
    ghost predicate Valid()
      reads this, Repr
    {
      && this in Repr
      && |nodes| >= 1 && |contents| == |nodes|
      && nodes[0] == front && nodes[|nodes| - 1] == last
      && (forall i :: 0 <= i < |nodes| ==> nodes[i] in Repr)
      && (forall i :: 0 <= i < |nodes| - 1 ==> nodes[i].next == nodes[i + 1])
      && last.next == null
      && (forall i, j :: 0 <= i < j < |nodes| ==> nodes[i] != nodes[j])
      && (forall i :: 0 <= i < |nodes| ==> nodes[i].s == contents[i])
      && contents[0] == "dummy"
      && (forall i, j :: 0 <= i < j < |contents| ==> contents[i] != contents[j])
    }

    /** A new set holds only the sentinel. */
    constructor ()
      ensures Valid() && fresh(Repr) && contents == ["dummy"]
    {
      var sentinel := new Node("dummy");
      front := sentinel;
      last := sentinel;
      nodes := [sentinel];
      contents := ["dummy"];
      Repr := {this, sentinel};
    }

    /** contains(s): a walk from the front comparing with compareTo. */
    method Contains(s: string) returns (b: bool)
      requires Valid()
      ensures b <==> s in contents
    {
      var p: Node? := front;
      ghost var i := 0;
      while p != null
        invariant 0 <= i <= |nodes|
        invariant p == if i < |nodes| then nodes[i] else null
        invariant s !in contents[..i]
        decreases |nodes| - i
      {
        if CompareTo(s, p.s) == 0 {
          return true;
        }
        assert contents[..i + 1] == contents[..i] + [p.s];
        p := p.next;
        i := i + 1;
      }
      assert contents[..i] == contents;
      return false;
    }

    /** put(s): nothing when s is already held, otherwise a new node after
        the last, which becomes the last. */
    method Put(s: string)
      requires Valid()
      modifies this, last
      ensures Valid() && fresh(Repr - old(Repr))
      ensures s in old(contents) ==> contents == old(contents) && nodes == old(nodes)
      ensures s !in old(contents) ==> contents == old(contents) + [s] && |nodes| == |old(nodes)| + 1
      ensures s in contents
    {
      var present := Contains(s);
      if present {
        return;
      }
      var n := new Node(s);
      last.next := n;
      last := n;
      nodes := nodes + [n];
      contents := contents + [s];
      Repr := Repr + {n};
    }
  }

  /** A client: a fresh set holds "dummy"; after two puts of the same
      string it holds that string once, after the sentinel. */
  method PutTwice(s: string) returns (sentinel: bool, held: bool)
    requires s != "dummy"
    ensures sentinel && held
  {
    var strings := new LinkedListStringSet();
    sentinel := strings.Contains("dummy");
    strings.Put(s);
    strings.Put(s);
    assert strings.contents == ["dummy", s];
    held := strings.Contains(s);
  }
}
