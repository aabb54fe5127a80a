/** Homework 9's SimpleGraph: a directed graph over the vertices
    0..maxVertex, kept as maps from a vertex to the lists of its successors
    and of its predecessors, with vertex and edge labels in maps of their
    own. A Java `null` list or value is modelled by an absent key. */
module SimpleGraphs {
  import opened Common

  /** The key of the label of edge (v1, v2): v1 * (maxVertex + 1) + v2.
      Java computes it in 32-bit arithmetic; the class comment leaves the
      results undefined when maxVertex squared exceeds Integer.MAX_VALUE,
      and this model takes the mathematical value. */
  function EdgeKey(maxVertex: int, v1: int, v2: int): int
  {
    v1 * (maxVertex + 1) + v2
  }

  /** Two edges between vertices in 0..maxVertex share a key only when
      they are the same edge. */
  lemma EdgeKeyInjective(maxVertex: int, v1: int, v2: int, w1: int, w2: int)
    requires 0 <= v1 <= maxVertex && 0 <= v2 <= maxVertex
    requires 0 <= w1 <= maxVertex && 0 <= w2 <= maxVertex
    requires EdgeKey(maxVertex, v1, v2) == EdgeKey(maxVertex, w1, w2)
    ensures v1 == w1 && v2 == w2
  {
    var m := maxVertex + 1;
    if v1 < w1 {
      RowsApart(v1, w1, m);
    } else if w1 < v1 {
      RowsApart(w1, v1, m);
    }
  }

  /** Keys in a later row are at least a whole row further on. */
  lemma RowsApart(a: int, b: int, m: int)
    requires a < b && m >= 0
    ensures b * m - a * m >= m
  {
    assert b * m - a * m == (b - a) * m;
    MulAtLeast(b - a, m);
  }

  lemma MulAtLeast(k: int, m: int)
    requires k >= 1 && m >= 0
    ensures k * m >= m
  {
  }

  /** The vertices are exactly the keys of both adjacency maps, all in
      0..maxVertex, and every listed neighbour is a vertex. */
  ghost predicate Adjacency(successors: map<int, seq<int>>, predecessors: map<int, seq<int>>, maxVertex: int)
  {
    && successors.Keys == predecessors.Keys
    && (forall v :: v in successors ==> 0 <= v <= maxVertex)
    && (forall v, i :: v in successors && 0 <= i < |successors[v]| ==> successors[v][i] in successors)
    && (forall v, i :: v in predecessors && 0 <= i < |predecessors[v]| ==> predecessors[v][i] in successors)
  }

  /** Appending v2 to v1's successors and v1 to v2's predecessors, both
      vertices, keeps the maps well formed. */
  lemma LinkKeepsAdjacency(successors: map<int, seq<int>>, predecessors: map<int, seq<int>>, maxVertex: int, v1: int, v2: int)
    requires Adjacency(successors, predecessors, maxVertex)
    requires v1 in successors && v2 in successors
    ensures Adjacency(successors[v1 := successors[v1] + [v2]], predecessors[v2 := predecessors[v2] + [v1]], maxVertex)
  {
  }

  class SimpleGraph<VLabel, ELabel> {
    const maxVertex: int
    var successors: map<int, seq<int>>
    var predecessors: map<int, seq<int>>
    var vlabels: map<int, VLabel>
    var elabels: map<int, ELabel>

    ghost predicate Valid()
      reads this
    {
      Adjacency(successors, predecessors, maxVertex)
    }

    constructor (maxVertex: int)
      ensures Valid() && this.maxVertex == maxVertex
      ensures successors == map[] && predecessors == map[] && vlabels == map[] && elabels == map[]
    {
      this.maxVertex := maxVertex;
      successors, predecessors := map[], map[];
      vlabels, elabels := map[], map[];
    }

    /** contains(v) */
    function ContainsVertex(v: int): (b: bool)
      reads this
    {
      v in predecessors
    }

    /** contains(v1, v2): v1 is a vertex and v2 is among its successors. */
    function ContainsEdge(v1: int, v2: int): (b: bool)
      reads this
      requires Valid()
      ensures b ==> ContainsVertex(v1) && ContainsVertex(v2)
    {
      ContainsVertex(v1) && v2 in successors[v1]
    }

    /** add(v): IllegalArgumentException outside 0..maxVertex; a new
        vertex gets empty lists, an existing one is left as it is. */
    method AddVertex(v: int) returns (r: Result<()>)
      requires Valid()
      modifies this
      ensures Valid() && vlabels == old(vlabels) && elabels == old(elabels)
      ensures !(0 <= v <= maxVertex) ==> r == Err("bad vertex") && successors == old(successors) && predecessors == old(predecessors)
      ensures 0 <= v <= maxVertex ==> r.Ok? && ContainsVertex(v)
      ensures 0 <= v <= maxVertex && v in old(successors) ==> successors == old(successors) && predecessors == old(predecessors)
      ensures 0 <= v <= maxVertex && v !in old(successors) ==>
                successors == old(successors)[v := []] && predecessors == old(predecessors)[v := []]
    {
      if v < 0 || v > maxVertex {
        return Err("bad vertex");
      }
      if v !in successors {
        successors := successors[v := []];
        predecessors := predecessors[v := []];
      }
      return Ok(());
    }

    /** add(v1, v2): adds both vertices (v1 stays added when v2 is bad),
        then appends v2 to v1's successors and v1 to v2's predecessors. */
    method AddEdge(v1: int, v2: int) returns (r: Result<()>)
      requires Valid()
      modifies this
      ensures Valid() && vlabels == old(vlabels) && elabels == old(elabels)
      ensures r.Ok? <==> 0 <= v1 <= maxVertex && 0 <= v2 <= maxVertex
      ensures r.Ok? ==> ContainsEdge(v1, v2) && ContainsVertex(v1) && ContainsVertex(v2)
      ensures r.Ok? ==> successors[v1] == old(if v1 in successors then successors[v1] else []) + [v2]
      ensures r.Ok? ==> predecessors[v2] == old(if v2 in predecessors then predecessors[v2] else []) + [v1]
      ensures r.Ok? && v1 != v2 ==> successors[v2] == old(if v2 in successors then successors[v2] else [])
      ensures r.Ok? && v1 != v2 ==> predecessors[v1] == old(if v1 in predecessors then predecessors[v1] else [])
      ensures !(0 <= v1 <= maxVertex) ==> successors == old(successors) && predecessors == old(predecessors)
      ensures forall v :: v != v1 && v != v2 && v in old(successors) ==>
                v in successors && v in predecessors && successors[v] == old(successors[v]) && predecessors[v] == old(predecessors[v])
    {
      r := AddVertex(v1);
      if r.Err? {
        return;
      }
      r := AddVertex(v2);
      if r.Err? {
        return;
      }
      Link(v1, v2);
    }

    /** The end of add(v1, v2), once both are vertices: v2 appended to
        v1's successors and v1 to v2's predecessors. */
    method Link(v1: int, v2: int)
      requires Valid() && v1 in successors && v2 in successors
      modifies this`successors, this`predecessors
      ensures Valid()
      ensures successors == old(successors[v1 := successors[v1] + [v2]])
      ensures predecessors == old(predecessors[v2 := predecessors[v2] + [v1]])
    {
      LinkKeepsAdjacency(successors, predecessors, maxVertex, v1, v2);
      successors := successors[v1 := successors[v1] + [v2]];
      predecessors := predecessors[v2 := predecessors[v2] + [v1]];
    }

    /** successors(v), null when v is no vertex. */
    function Successors(v: int): (r: Option<seq<int>>)
      reads this
      ensures r.Some? <==> v in successors
      ensures r.Some? ==> r.value == successors[v]
    {
      if v in successors then Some(successors[v]) else None
    }

    /** predecessors(v), null when v is no vertex. */
    function Predecessors(v: int): (r: Option<seq<int>>)
      reads this
      ensures r.Some? <==> v in predecessors
      ensures r.Some? ==> r.value == predecessors[v]
    {
      if v in predecessors then Some(predecessors[v]) else None
    }

    /** addLabel(v, label): the label is stored whether or not v is a
        vertex (the interface's promise to add the vertex is not kept). */
    method AddVertexLabel(v: int, value: VLabel)
      modifies this`vlabels
      ensures vlabels == old(vlabels)[v := value]
    {
      vlabels := vlabels[v := value];
    }

    /** addLabel(v1, v2, label), under the edge's key. */
    method AddEdgeLabel(v1: int, v2: int, value: ELabel)
      modifies this`elabels
      ensures elabels == old(elabels)[EdgeKey(maxVertex, v1, v2) := value]
    {
      elabels := elabels[EdgeKey(maxVertex, v1, v2) := value];
    }

    /** getLabel(v), null when unset. */
    function VertexLabel(v: int): (r: Option<VLabel>)
      reads this
      ensures r.Some? <==> v in vlabels
      ensures r.Some? ==> r.value == vlabels[v]
    {
      if v in vlabels then Some(vlabels[v]) else None
    }

    /** getLabel(v1, v2), null when unset. */
    function EdgeLabel(v1: int, v2: int): (r: Option<ELabel>)
      reads this
      ensures r.Some? <==> EdgeKey(maxVertex, v1, v2) in elabels
      ensures r.Some? ==> r.value == elabels[EdgeKey(maxVertex, v1, v2)]
    {
      var key := EdgeKey(maxVertex, v1, v2);
      if key in elabels then Some(elabels[key]) else None
    }

    /** apply(func): func.accept(v, label) for every labelled vertex, in the
        label map's iteration order, which is the parameter order. The
        calls func receives are returned in turn. */
    method Apply(order: seq<int>) returns (calls: seq<(int, VLabel)>)
      requires forall i :: 0 <= i < |order| ==> order[i] in vlabels
      requires forall v :: v in vlabels ==> v in order
      requires forall i, j :: 0 <= i < j < |order| ==> order[i] != order[j]
      ensures |calls| == |order|
      ensures forall i :: 0 <= i < |order| ==> calls[i] == (order[i], vlabels[order[i]])
    {
      calls := [];
      for i := 0 to |order|
        invariant |calls| == i
        invariant forall k :: 0 <= k < i ==> calls[k] == (order[k], vlabels[order[k]])
      {
        calls := calls + [(order[i], vlabels[order[i]])];
      }
    }
  }

  /** Labelling one edge between vertices in range gives that edge the
      value and leaves the value of every other such edge as it was. */
  lemma EdgeLabelUpdate<E>(maxVertex: int, labels: map<int, E>, v1: int, v2: int, w1: int, w2: int, value: E)
    requires 0 <= v1 <= maxVertex && 0 <= v2 <= maxVertex && 0 <= w1 <= maxVertex && 0 <= w2 <= maxVertex
    ensures var labels' := labels[EdgeKey(maxVertex, v1, v2) := value];
            && labels'[EdgeKey(maxVertex, v1, v2)] == value
            && ((w1, w2) != (v1, v2) ==>
                  (EdgeKey(maxVertex, w1, w2) in labels' <==> EdgeKey(maxVertex, w1, w2) in labels)
                  && (EdgeKey(maxVertex, w1, w2) in labels ==> labels'[EdgeKey(maxVertex, w1, w2)] == labels[EdgeKey(maxVertex, w1, w2)]))
  {
    if EdgeKey(maxVertex, w1, w2) == EdgeKey(maxVertex, v1, v2) {
      EdgeKeyInjective(maxVertex, v1, v2, w1, w2);
    }
  }

  /** A client: adding an edge to a fresh graph makes both ends vertices
      and the edge present, and no edge the other way. */
  method AddOneEdge(maxVertex: int, v1: int, v2: int) returns (here: bool, back: bool)
    requires 0 <= v1 <= maxVertex && 0 <= v2 <= maxVertex && v1 != v2
    ensures here && !back
  {
    var g := new SimpleGraph<int, int>(maxVertex);
    var r := g.AddEdge(v1, v2);
    here := g.ContainsEdge(v1, v2);
    back := g.ContainsEdge(v2, v1);
  }
}
