/** Lab 3's IntDList: a doubly linked list of ints. In this class a node's
    `prev` points one step towards the BACK and its `next` one step
    towards the FRONT: the list is walked from the front along `prev`. */
module IntDLists {
  import opened Common

  class DNode {
    var prev: DNode?
    var next: DNode?
    const val: int

    constructor (val: int)
      ensures this.val == val && prev == null && next == null
    {
      this.val := val;
      prev, next := null, null;
    }
  }

  /** toString's rendering of a list of values: "[a, b, ...]". */
  function Render(vals: seq<int>): string
  {
    "[" + Join(Texts(vals), ", ") + "]"
  }

  function Texts(vals: seq<int>): (ts: seq<string>)
    ensures |ts| == |vals|
    ensures forall i :: 0 <= i < |vals| ==> ts[i] == IntToString(vals[i])
  {
    seq(|vals|, i requires 0 <= i < |vals| => IntToString(vals[i]))
  }

  /** What toString's loop has appended after the first k values: each
      value, followed by ", " unless it is the last. */
  function Text(vals: seq<int>, k: nat): string
    requires k <= |vals|
  {
    if k == 0 then "" else Text(vals, k - 1) + IntToString(vals[k - 1]) + (if k < |vals| then ", " else "")
  }

  /** Before the last value the loop's text is the join of the values so
      far with ", " followed by ", "; after it, the join of them all. */
  lemma {:induction false} TextJoin(vals: seq<int>, k: nat)
    requires 1 <= k <= |vals|
    ensures Text(vals, k) == Join(Texts(vals[..k]), ", ") + (if k < |vals| then ", " else "")
  {
    if k > 1 {
      TextJoin(vals, k - 1);
      assert Texts(vals[..k])[..k - 1] == Texts(vals[..k - 1]);
    }
  }

  /** One step of toString's loop: the bracket, the text so far, then the
      next value and its separator. */
  lemma TextStep(vals: seq<int>, k: nat)
    requires k < |vals|
    ensures "[" + Text(vals, k + 1) == "[" + Text(vals, k) + IntToString(vals[k]) + (if k + 1 < |vals| then ", " else "")
  {
    Regroup("[", Text(vals, k), IntToString(vals[k]), if k + 1 < |vals| then ", " else "");
  }

  lemma Regroup(a: string, b: string, c: string, d: string)
    ensures a + (b + c + d) == a + b + c + d
  {
  }

  /** The whole loop's text, closed by a bracket, is the rendering. */
  lemma RenderText(vals: seq<int>)
    ensures "[" + Text(vals, |vals|) + "]" == Render(vals)
  {
    if vals != [] {
      TextJoin(vals, |vals|);
      assert vals[..|vals|] == vals;
      var j := Join(Texts(vals), ", ");
      assert Text(vals, |vals|) == j + "";
      assert j + "" == j;
    }
  }

  /** The rendering of the empty list and of a single value. */
  lemma RenderCases(x: int)
    ensures Render([]) == "[]"
    ensures Render([x]) == "[" + IntToString(x) + "]"
  {
  }

  class IntDList {
    var front: DNode?
    var back: DNode?
    /** The nodes from front to back, and their values. */
    ghost var nodes: seq<DNode>
    ghost var contents: seq<int>
    ghost var Repr: set<object>

    ghost predicate Valid()
      reads this, Repr
    {
      && this in Repr
      && |contents| == |nodes|
      && (forall i :: 0 <= i < |nodes| ==> nodes[i] in Repr && nodes[i].val == contents[i])
      && (nodes == [] ==> front == null && back == null)
      && (nodes != [] ==> front == nodes[0] && back == nodes[|nodes| - 1])
      && (nodes != [] ==> nodes[0].next == null && nodes[|nodes| - 1].prev == null)
      && (forall i :: 0 <= i < |nodes| - 1 ==> nodes[i].prev == nodes[i + 1] && nodes[i + 1].next == nodes[i])
      && (forall i, j :: 0 <= i < j < |nodes| ==> nodes[i] != nodes[j])
    }

    constructor ()
      ensures Valid() && fresh(Repr) && contents == []
    {
      front, back := null, null;
      nodes, contents := [], [];
      Repr := {this};
    }

    /** new IntDList(values...): each value inserted at the back. */
    constructor FromValues(values: seq<int>)
      ensures Valid() && fresh(Repr) && contents == values
    {
      front, back := null, null;
      nodes, contents := [], [];
      Repr := {this};
      new;
      for k := 0 to |values|
        invariant Valid() && fresh(Repr) && contents == values[..k]
      {
        InsertBack(values[k]);
        assert values[..k + 1] == values[..k] + [values[k]];
      }
      assert values[..|values|] == values;
    }

    /** getFront(): NullPointerException on an empty list. */
    method GetFront() returns (r: Result<int>)
      requires Valid()
      ensures contents == [] ==> r.Err?
      ensures contents != [] ==> r == Ok(contents[0])
    {
      if front == null {
        return Err("NullPointerException");
      }
      return Ok(front.val);
    }

    /** getBack(): NullPointerException on an empty list. */
    method GetBack() returns (r: Result<int>)
      requires Valid()
      ensures contents == [] ==> r.Err?
      ensures contents != [] ==> r == Ok(contents[|contents| - 1])
    {
      if back == null {
        return Err("NullPointerException");
      }
      return Ok(back.val);
    }

    /** get(i): i >= 0 counts from the front and i < 0 from the back (-1
        is the last). The walk stops at the end of the list, so an index
        past either end gives the value at that end; -1 for an empty
        list. */
    method Get(i: int) returns (v: int)
      requires Valid()
      ensures contents == [] ==> v == -1
      ensures contents != [] && i >= 0 ==> v == contents[if i < |contents| then i else |contents| - 1]
      ensures contents != [] && i < 0 ==> v == contents[if |contents| + i >= 0 then |contents| + i else 0]
    {
      var k := i;
      var cur: DNode? := null;
      ghost var at: int;
      if k < 0 {
        cur := back;
        at := |nodes| - 1;
        while cur != null && cur.next != null && k != -1
          invariant cur == null <==> nodes == []
          invariant cur != null ==> 0 <= at < |nodes| && cur == nodes[at]
          invariant i <= k <= -1 && at == |nodes| - 1 - (k - i)
          decreases -k
        {
          k := k + 1;
          cur := cur.next;
          at := at - 1;
        }
      } else {
        cur := front;
        at := 0;
        while cur != null && cur.prev != null && k != 0
          invariant cur == null <==> nodes == []
          invariant cur != null ==> 0 <= at < |nodes| && cur == nodes[at]
          invariant k >= 0 && at == i - k
          decreases k
        {
          k := k - 1;
          cur := cur.prev;
          at := at + 1;
        }
      }
      if cur != null {
        if 0 < at {
          assert nodes[at - 1 + 1].next == nodes[at - 1];
        }
        if at < |nodes| - 1 {
          assert nodes[at].prev == nodes[at + 1];
        }
        return cur.val;
      }
      return -1;
    }

    /** size(): the nodes counted in a walk from the front. */
    method Size() returns (size: nat)
      requires Valid()
      ensures size == |contents|
    {
      var cur := front;
      size := 0;
      while cur != null
        invariant size <= |nodes|
        invariant cur == if size < |nodes| then nodes[size] else null
        decreases |nodes| - size
      {
        cur := cur.prev;
        size := size + 1;
      }
    }

    /** insertFront(d): a new node before the front. */
    method InsertFront(d: int)
      requires Valid()
      modifies this, front
      ensures Valid() && fresh(Repr - old(Repr))
      ensures contents == [d] + old(contents)
    {
      var nFront := new DNode(d);
      var oFront := front;
      nFront.prev := oFront;
      if oFront != null {
        oFront.next := nFront;
      }
      front := nFront;
      if back == null {
        back := nFront;
      }
      nodes := [nFront] + nodes;
      contents := [d] + contents;
      Repr := Repr + {nFront};
    }

    /** insertBack(d): a new node after the back. */
    method InsertBack(d: int)
      requires Valid()
      modifies this, back
      ensures Valid() && fresh(Repr - old(Repr))
      ensures contents == old(contents) + [d]
    {
      var nBack := new DNode(d);
      var oBack := back;
      nBack.next := oBack;
      if oBack != null {
        oBack.prev := nBack;
      }
      back := nBack;
      if front == null {
        front := nBack;
      }
      nodes := nodes + [nBack];
      contents := contents + [d];
      Repr := Repr + {nBack};
    }

    /** deleteBack(): -1 on an empty list, otherwise the old back's value,
        with the node before it as the new back. Unlike the lab's code,
        the new back's `prev` is cleared, so the removed node is no longer
        reachable from the front. */
    method DeleteBack() returns (v: int)
      requires Valid()
      modifies Repr
      ensures Valid() && Repr <= old(Repr)
      ensures old(contents) == [] ==> v == -1 && contents == []
      ensures old(contents) != [] ==> v == old(contents)[|old(contents)| - 1] && contents == old(contents)[..|old(contents)| - 1]
    {
      var oBack := back;
      if oBack == null {
        return -1;
      }
      assert oBack == nodes[|nodes| - 1];
      assert |nodes| >= 2 ==> oBack.next == nodes[|nodes| - 2];
      back := oBack.next;
      if back != null {
        back.prev := null;
      }
      if front == oBack {
        front := null;
      }
      nodes := nodes[..|nodes| - 1];
      contents := contents[..|contents| - 1];
      return oBack.val;
    }

    /** toString(): each value followed by ", " unless it is the back,
        between brackets. */
    method ToString() returns (s: string)
      requires Valid()
      ensures s == Render(contents)
    {
      var retr := "[";
      var cur := front;
      ghost var k := 0;
      while cur != null
        invariant k <= |nodes|
        invariant cur == if k < |nodes| then nodes[k] else null
        invariant retr == "[" + Text(contents, k)
        decreases |nodes| - k
      {
        assert cur.val == contents[k];
        assert cur != back <==> k + 1 < |contents|;
        TextStep(contents, k);
        retr := retr + IntToString(cur.val) + (if cur != back then ", " else "");
        cur := cur.prev;
        k := k + 1;
      }
      RenderText(contents);
      return retr + "]";
    }
  }

  // ---------------------------------------------------------------------
  // The lab's deleteBack as written, on a pointer-level picture of the
  // nodes: cells indexed by number, -1 for null.

  datatype Cell = Cell(prev: int, val: int, next: int)
  datatype Links = Links(cells: seq<Cell>, front: int, back: int)

  predicate Points(l: Links, p: int) { p == -1 || 0 <= p < |l.cells| }

  /** The values met walking from cur along prev, for at most fuel steps
      (size() and toString() walk like this). */
  function Walk(l: Links, cur: int, fuel: nat): seq<int>
    decreases fuel
  {
    if fuel == 0 || !(0 <= cur < |l.cells|) then [] else [l.cells[cur].val] + Walk(l, l.cells[cur].prev, fuel - 1)
  }

  /** The text toString()'s loop appends walking from cur along prev, for
      at most fuel steps: each value, then ", " unless it is the back. */
  function WalkText(l: Links, cur: int, fuel: nat): string
    decreases fuel
  {
    if fuel == 0 || !(0 <= cur < |l.cells|) then ""
    else IntToString(l.cells[cur].val) + (if cur != l.back then ", " else "") + WalkText(l, l.cells[cur].prev, fuel - 1)
  }

  /** insertBack(d) on the cells. */
  function InsertBackLinks(l: Links, d: int): Links
    requires Points(l, l.back)
  {
    var k := |l.cells|;
    var cells := l.cells + [Cell(-1, d, l.back)];
    var cells' := if l.back == -1 then cells else cells[l.back := cells[l.back].(prev := k)];
    Links(cells', if l.front == -1 then k else l.front, k)
  }

  /** deleteBack() as the lab writes it: the back moves to the old back's
      `next` and the front is cleared if it was the old back, but the new
      back's `prev` still points at the old back. */
  function DeleteBackAsWritten(l: Links): (r: (Links, int))
    requires Points(l, l.back)
    ensures l.back == -1 ==> r == (l, -1)
    ensures l.back != -1 ==> r.1 == l.cells[l.back].val && r.0.back == l.cells[l.back].next
    ensures l.back != -1 ==> r.0.front == (if l.front == l.back then -1 else l.front)
    ensures r.0.cells == l.cells
  {
    if l.back == -1 then (l, -1)
    else
      var oBack := l.cells[l.back];
      (l.(back := oBack.next, front := if l.front == l.back then -1 else l.front), oBack.val)
  }

  /** After insertBack(1), insertBack(2) and deleteBack(), which returns
      2, a walk from the front still meets the deleted 2: size() answers 2
      and toString() renders "[12, ]". The corrected DeleteBack leaves
      the list [1]. */
  lemma DeleteBackLeavesStaleLink()
    ensures var l := InsertBackLinks(InsertBackLinks(Links([], -1, -1), 1), 2);
            var (l', v) := DeleteBackAsWritten(l);
            && v == 2
            && Walk(l', l'.front, 3) == [1, 2]
            && "[" + WalkText(l', l'.front, 3) + "]" == "[12, ]"
  {
    var l1 := InsertBackLinks(Links([], -1, -1), 1);
    assert l1 == Links([Cell(-1, 1, -1)], 0, 0);
    var l2 := InsertBackLinks(l1, 2);
    assert l2 == Links([Cell(1, 1, -1), Cell(-1, 2, 0)], 0, 1);
    var (l', v) := DeleteBackAsWritten(l2);
    assert l' == Links([Cell(1, 1, -1), Cell(-1, 2, 0)], 0, 0);
    assert Walk(l', 1, 2) == [2];
    assert IntToString(1) == "1" && IntToString(2) == "2";
    assert WalkText(l', 1, 2) == "2, ";
    assert WalkText(l', 0, 3) == "1" + "" + "2, ";
  }

  /** A client of the class: the same three calls leave [1]. */
  method DeleteBackClient() returns (size: nat, text: string)
    ensures size == 1 && text == "[1]"
  {
    var l := new IntDList();
    l.InsertBack(1);
    l.InsertBack(2);
    var v := l.DeleteBack();
    assert l.contents == [1];
    size := l.Size();
    text := l.ToString();
    RenderCases(1);
    assert IntToString(1) == "1";
  }
}
