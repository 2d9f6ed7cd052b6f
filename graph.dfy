/** The requirement/dissection graph of Graph.cs: labelled nodes, label-pair edges, the grid
    placement of every room and the target area of every node. */
module Graphs {
  import opened Seqs
  import opened Ordering

  type Label = string
  type Edge = (Label, Label)

  /** A room's placement in a dissection grid: `xs` (`Item1`) are the grid columns it spans,
      `ys` (`Item2`) the grid rows. */
  datatype Room = Room(xs: seq<int>, ys: seq<int>)

  /** `Areas` are only carried along by the core; they are kept as reals. */
  datatype Graph = Graph(nodes: seq<Label>, edges: seq<Edge>, rooms: seq<Room>, areas: seq<real>)

  /** The constructor's edge ordering: kept when the first label sorts strictly first, else swapped. */
  function SortEdge(e: Edge): Edge {
    if Compare(e.0, e.1) < 0 then e else (e.1, e.0)
  }

  function SortEdges(edges: seq<Edge>): seq<Edge> {
    seq(|edges|, i requires 0 <= i < |edges| => SortEdge(edges[i]))
  }

  /** `new Graph(nodes, edges, rooms, areas)`: every edge ordered, then edges and nodes deduplicated. */
  function New(nodes: seq<Label>, edges: seq<Edge>, rooms: seq<Room>, areas: seq<real>): Graph {
    Graph(Dedup(nodes), Dedup(SortEdges(edges)), rooms, areas)
  }

  predicate Ordered(e: Edge) {
    Compare(e.0, e.1) <= 0
  }

  /** The shape the constructor leaves a graph in. */
  predicate Canonical(g: Graph) {
    NoDup(g.nodes) && NoDup(g.edges) && forall i :: 0 <= i < |g.edges| ==> Ordered(g.edges[i])
  }

  /** No edge refers to a label that is not a node. */
  predicate EdgesWithin(g: Graph) {
    forall i :: 0 <= i < |g.edges| ==> g.edges[i].0 in g.nodes && g.edges[i].1 in g.nodes
  }

  /** The shape the guarded mutators keep a graph in. */
  predicate WellFormed(g: Graph) {
    NoDup(g.nodes) && NoDup(g.edges) && EdgesWithin(g)
  }

  lemma SortEdgeOrdered(e: Edge)
    ensures Ordered(SortEdge(e))
    ensures SortEdge(e) == e || SortEdge(e) == (e.1, e.0)
    ensures Ordered(e) ==> SortEdge(e) == e
  {
    CompareAntisymmetric(e.0, e.1);
    CompareZero(e.0, e.1);
  }

  /** After construction every edge is ordered, nothing is repeated, the nodes and edges are the
      first occurrences of the inputs in their input order, and rooms and areas are stored as passed. */
  lemma ConstructorCanonical(nodes: seq<Label>, edges: seq<Edge>, rooms: seq<Room>, areas: seq<real>)
    ensures Canonical(New(nodes, edges, rooms, areas))
    ensures New(nodes, edges, rooms, areas).rooms == rooms
    ensures New(nodes, edges, rooms, areas).areas == areas
    ensures Elems(New(nodes, edges, rooms, areas).nodes) == Elems(nodes)
    ensures Elems(New(nodes, edges, rooms, areas).edges) == Elems(SortEdges(edges))
    ensures forall i, j :: 0 <= i < j < |New(nodes, edges, rooms, areas).nodes| ==>
      IndexOf(nodes, New(nodes, edges, rooms, areas).nodes[i]) < IndexOf(nodes, New(nodes, edges, rooms, areas).nodes[j])
    ensures forall i, j :: 0 <= i < j < |New(nodes, edges, rooms, areas).edges| ==>
      IndexOf(SortEdges(edges), New(nodes, edges, rooms, areas).edges[i]) < IndexOf(SortEdges(edges), New(nodes, edges, rooms, areas).edges[j])
  {
    var g := New(nodes, edges, rooms, areas);
    DedupOrder(nodes);
    DedupOrder(SortEdges(edges));
    forall i | 0 <= i < |g.edges| ensures Ordered(g.edges[i]) {
      assert g.edges[i] in Elems(SortEdges(edges));
      var k :| 0 <= k < |edges| && SortEdges(edges)[k] == g.edges[i];
      SortEdgeOrdered(edges[k]);
    }
  }

  /** Constructing again from a canonical graph's own lists changes nothing. */
  lemma NewOfCanonical(g: Graph, rooms: seq<Room>, areas: seq<real>)
    requires Canonical(g)
    ensures New(g.nodes, g.edges, rooms, areas) == Graph(g.nodes, g.edges, rooms, areas)
  {
    forall i | 0 <= i < |g.edges| ensures SortEdges(g.edges)[i] == g.edges[i] {
      SortEdgeOrdered(g.edges[i]);
    }
    assert SortEdges(g.edges) == g.edges;
    DedupOfNoDup(g.nodes);
    DedupOfNoDup(g.edges);
  }

  /** The constructor as written: a loop builds the ordered edge list, then both lists are deduplicated. */
  method NewGraph(nodes: seq<Label>, edges: seq<Edge>, rooms: seq<Room>, areas: seq<real>) returns (g: Graph)
    ensures g == New(nodes, edges, rooms, areas)
  {
    var newEdges: seq<Edge> := [];
    for i := 0 to |edges|
      invariant newEdges == SortEdges(edges[..i])
    {
      var sortedEdge := if Compare(edges[i].0, edges[i].1) < 0 then edges[i] else (edges[i].1, edges[i].0);
      newEdges := newEdges + [sortedEdge];
    }
    assert edges[..|edges|] == edges;
    g := Graph(Dedup(nodes), Dedup(newEdges), rooms, areas);
  }

  // ---- The guarded list mutators, as functions of the graph value ----

  /** `AddNode`: appends the label unless it is already a node. */
  function WithNode(g: Graph, node: Label): Graph {
    if node in g.nodes then g else g.(nodes := g.nodes + [node])
  }

  /** `AddEdge`: appends the exact pair unless it is present or an endpoint is not a node. */
  function WithEdge(g: Graph, edge: Edge): Graph {
    if edge !in g.edges && edge.0 in g.nodes && edge.1 in g.nodes then g.(edges := g.edges + [edge]) else g
  }

  /** `Edges.RemoveAll(e => e.Item1 == node || e.Item2 == node)`. */
  function Untouched(edges: seq<Edge>, node: Label): (r: seq<Edge>)
    ensures forall e :: e in r <==> e in edges && e.0 != node && e.1 != node
    ensures NoDup(edges) ==> NoDup(r)
  {
    if |edges| == 0 then []
    else
      var rest := Untouched(edges[1..], node);
      assert NoDup(edges) ==> edges[0] !in rest;
      (if edges[0].0 == node || edges[0].1 == node then [] else [edges[0]]) + rest
  }

  /** `RemoveNode`: when the label is a node, removes it and every edge touching it. */
  function WithoutNode(g: Graph, node: Label): Graph {
    if node in g.nodes then g.(nodes := RemoveFirst(g.nodes, node), edges := Untouched(g.edges, node)) else g
  }

  /** `RemoveEdge`: removes the exact pair when present. */
  function WithoutEdge(g: Graph, edge: Edge): Graph {
    if edge in g.edges then g.(edges := RemoveFirst(g.edges, edge)) else g
  }

  /** AddNode adds exactly the label (a no-op when present) and keeps the graph well formed. */
  lemma WithNodeSpec(g: Graph, node: Label)
    requires WellFormed(g)
    ensures WellFormed(WithNode(g, node))
    ensures Elems(WithNode(g, node).nodes) == Elems(g.nodes) + {node}
    ensures WithNode(g, node).edges == g.edges
    ensures node in g.nodes ==> WithNode(g, node) == g
    ensures node !in g.nodes ==> WithNode(g, node).nodes == g.nodes + [node]
    ensures WithNode(g, node).rooms == g.rooms && WithNode(g, node).areas == g.areas
  {
    if node !in g.nodes {
      NoDupConcat(g.nodes, [node]);
    }
  }

  /** AddEdge adds the exact pair only when both endpoints are nodes; it never creates a repeat
      or a dangling edge. */
  lemma WithEdgeSpec(g: Graph, edge: Edge)
    requires WellFormed(g)
    ensures WellFormed(WithEdge(g, edge))
    ensures WithEdge(g, edge).nodes == g.nodes
    ensures Elems(WithEdge(g, edge).edges) ==
      Elems(g.edges) + (if edge.0 in g.nodes && edge.1 in g.nodes then {edge} else {})
    ensures edge in g.edges || edge.0 !in g.nodes || edge.1 !in g.nodes ==> WithEdge(g, edge) == g
    ensures edge !in g.edges && edge.0 in g.nodes && edge.1 in g.nodes ==>
      WithEdge(g, edge).edges == g.edges + [edge] && WithEdge(g, edge).rooms == g.rooms &&
      WithEdge(g, edge).areas == g.areas
  {
    if edge !in g.edges && edge.0 in g.nodes && edge.1 in g.nodes {
      NoDupConcat(g.edges, [edge]);
    }
  }

  /** `RemoveAll` keeps the surviving edges in their original relative order. */
  lemma {:induction false} UntouchedKeepsOrder(edges: seq<Edge>, node: Label)
    requires NoDup(edges)
    ensures forall i, j :: 0 <= i < j < |Untouched(edges, node)| ==>
      IndexOf(edges, Untouched(edges, node)[i]) < IndexOf(edges, Untouched(edges, node)[j])
  {
    if |edges| > 0 {
      var tail := edges[1..];
      var rest := Untouched(tail, node);
      UntouchedKeepsOrder(tail, node);
      forall x | x in rest ensures IndexOf(edges, x) == IndexOf(tail, x) + 1 {
        assert x in tail && x != edges[0];
      }
    }
  }

  /** RemoveNode deletes the node and exactly the edges touching it; a no-op when absent. */
  lemma WithoutNodeSpec(g: Graph, node: Label)
    requires NoDup(g.nodes) && NoDup(g.edges)
    ensures NoDup(WithoutNode(g, node).nodes) && NoDup(WithoutNode(g, node).edges)
    ensures Elems(WithoutNode(g, node).nodes) == Elems(g.nodes) - {node}
    ensures node in g.nodes ==> forall e :: e in WithoutNode(g, node).edges <==> e in g.edges && e.0 != node && e.1 != node
    ensures node !in g.nodes ==> WithoutNode(g, node) == g
    ensures EdgesWithin(g) ==> EdgesWithin(WithoutNode(g, node))
    ensures WithoutNode(g, node).rooms == g.rooms && WithoutNode(g, node).areas == g.areas
  {
    RemoveFirstNoDup(g.nodes, node);
    var r := WithoutNode(g, node);
    if EdgesWithin(g) && node in g.nodes {
      forall i | 0 <= i < |r.edges| ensures r.edges[i].0 in r.nodes && r.edges[i].1 in r.nodes {
        var e := r.edges[i];
        assert e in g.edges && e.0 != node && e.1 != node;
        var k :| 0 <= k < |g.edges| && g.edges[k] == e;
        assert e.0 in Elems(r.nodes) && e.1 in Elems(r.nodes);
      }
    }
  }

  /** RemoveEdge deletes exactly that pair; a no-op when absent. */
  lemma WithoutEdgeSpec(g: Graph, edge: Edge)
    requires NoDup(g.edges)
    ensures NoDup(WithoutEdge(g, edge).edges)
    ensures Elems(WithoutEdge(g, edge).edges) == Elems(g.edges) - {edge}
    ensures WithoutEdge(g, edge).nodes == g.nodes
    ensures EdgesWithin(g) ==> EdgesWithin(WithoutEdge(g, edge))
    ensures edge !in g.edges ==> WithoutEdge(g, edge) == g
    ensures edge in g.edges ==>
      WithoutEdge(g, edge).edges == g.edges[..IndexOf(g.edges, edge)] + g.edges[IndexOf(g.edges, edge) + 1..]
    ensures WithoutEdge(g, edge).rooms == g.rooms && WithoutEdge(g, edge).areas == g.areas
  {
    if edge in g.edges {
      RemoveFirstNoDup(g.edges, edge);
      var r := WithoutEdge(g, edge);
      forall i | 0 <= i < |r.edges| ensures r.edges[i] in g.edges {
        assert r.edges[i] in Elems(r.edges);
      }
      if EdgesWithin(g) {
        EdgesWithinSubset(g, r);
      }
    }
  }

  lemma EdgesWithinSubset(g: Graph, h: Graph)
    requires EdgesWithin(g) && h.nodes == g.nodes
    requires forall i :: 0 <= i < |h.edges| ==> h.edges[i] in g.edges
    ensures EdgesWithin(h)
  {
    forall i | 0 <= i < |h.edges| ensures h.edges[i].0 in h.nodes && h.edges[i].1 in h.nodes {
      var k :| 0 <= k < |g.edges| && g.edges[k] == h.edges[i];
    }
  }

  // ---- Operators ----

  /** `operator +`: a new graph from both node lists and both edge lists, without rooms or areas. */
  function Union(a: Graph, b: Graph): Graph {
    New(a.nodes + b.nodes, a.edges + b.edges, [], [])
  }

  /** The union holds the nodes of both, `a`'s first when they are distinct, and the edges of both
      as the constructor orders them; for canonical operands these are the operands' own edges. */
  lemma UnionSpec(a: Graph, b: Graph)
    ensures Canonical(Union(a, b))
    ensures Elems(Union(a, b).nodes) == Elems(a.nodes) + Elems(b.nodes)
    ensures Elems(Union(a, b).edges) == Elems(SortEdges(a.edges)) + Elems(SortEdges(b.edges))
    ensures NoDup(a.nodes) ==> |Union(a, b).nodes| >= |a.nodes| && Union(a, b).nodes[..|a.nodes|] == a.nodes
    ensures Canonical(a) && Canonical(b) ==> Elems(Union(a, b).edges) == Elems(a.edges) + Elems(b.edges)
    ensures Union(a, b).rooms == [] && Union(a, b).areas == []
  {
    ConstructorCanonical(a.nodes + b.nodes, a.edges + b.edges, [], []);
    if NoDup(a.nodes) {
      DedupPrefix(a.nodes, b.nodes);
    }
    assert SortEdges(a.edges + b.edges) == SortEdges(a.edges) + SortEdges(b.edges);
    if Canonical(a) && Canonical(b) {
      SortEdgesOfOrdered(a.edges);
      SortEdgesOfOrdered(b.edges);
    }
  }

  lemma SortEdgesOfOrdered(edges: seq<Edge>)
    requires forall i :: 0 <= i < |edges| ==> Ordered(edges[i])
    ensures SortEdges(edges) == edges
  {
    forall i | 0 <= i < |edges| ensures SortEdges(edges)[i] == edges[i] {
      SortEdgeOrdered(edges[i]);
    }
  }

  /** `operator ==` and `Equals`: the node lists and the edge lists are equal as ordered lists.
      `!=` is its negation. */
  predicate Same(a: Graph, b: Graph) {
    a.nodes == b.nodes && a.edges == b.edges
  }

  /** Equality looks at nothing but nodes and edges. */
  lemma SameIgnoresRoomsAndAreas(a: Graph, b: Graph)
    ensures Same(a, b) <==> a.(rooms := [], areas := []) == b.(rooms := [], areas := [])
  {
    if a.(rooms := [], areas := []) == b.(rooms := [], areas := []) {
      assert a.(rooms := [], areas := []).nodes == a.nodes;
      assert b.(rooms := [], areas := []).nodes == b.nodes;
    }
  }

  /** Equality is order sensitive: two distinct labels listed in the other order give graphs with
      the same node set that are not equal. */
  lemma SameIsOrderSensitive(a: Label, b: Label)
    requires a != b
    ensures !Same(New([a, b], [], [], []), New([b, a], [], [], []))
    ensures Elems(New([a, b], [], [], []).nodes) == Elems(New([b, a], [], [], []).nodes)
  {
    NewKeepsNodes([a, b]);
    NewKeepsNodes([b, a]);
    assert [a, b][0] != [b, a][0];
    assert Elems([a, b]) == {a, b} == Elems([b, a]);
  }

  lemma NewKeepsNodes(ns: seq<Label>)
    requires NoDup(ns)
    ensures New(ns, [], [], []).nodes == ns
  {
    DedupOfNoDup(ns);
  }

  /** `RemoveNode` for each label in turn, front to back. */
  function WithoutNodes(g: Graph, ns: seq<Label>): Graph
    decreases |ns|
  {
    if |ns| == 0 then g else WithoutNodes(WithoutNode(g, ns[0]), ns[1..])
  }

  /** `RemoveEdge` for each pair in turn, front to back. */
  function WithoutEdges(g: Graph, es: seq<Edge>): Graph
    decreases |es|
  {
    if |es| == 0 then g else WithoutEdges(WithoutEdge(g, es[0]), es[1..])
  }

  /** `operator -`: from a fresh copy of `a`'s nodes and edges, remove `b`'s nodes, then `b`'s edges. */
  function Minus(a: Graph, b: Graph): Graph {
    WithoutEdges(WithoutNodes(New(a.nodes, a.edges, [], []), b.nodes), b.edges)
  }

  lemma {:induction false} WithoutNodesSpec(g: Graph, ns: seq<Label>)
    requires NoDup(g.nodes) && NoDup(g.edges)
    ensures NoDup(WithoutNodes(g, ns).nodes) && NoDup(WithoutNodes(g, ns).edges)
    ensures Elems(WithoutNodes(g, ns).nodes) == Elems(g.nodes) - Elems(ns)
    ensures forall e :: e in WithoutNodes(g, ns).edges <==>
      e in g.edges && !(e.0 in ns && e.0 in g.nodes) && !(e.1 in ns && e.1 in g.nodes)
    ensures WithoutNodes(g, ns).rooms == g.rooms && WithoutNodes(g, ns).areas == g.areas
    decreases |ns|
  {
    if |ns| > 0 {
      var n, h := ns[0], WithoutNode(g, ns[0]);
      var r := WithoutNodes(g, ns);
      WithoutNodeSpec(g, n);
      WithoutNodesSpec(h, ns[1..]);
      assert r == WithoutNodes(h, ns[1..]);
      assert Elems(ns) == {n} + Elems(ns[1..]);
      forall e ensures e in r.edges <==>
        e in g.edges && !(e.0 in ns && e.0 in g.nodes) && !(e.1 in ns && e.1 in g.nodes)
      {
        assert e.0 in ns <==> e.0 == n || e.0 in ns[1..];
        assert e.1 in ns <==> e.1 == n || e.1 in ns[1..];
        assert e.0 in h.nodes <==> e.0 in Elems(h.nodes);
        assert e.1 in h.nodes <==> e.1 in Elems(h.nodes);
      }
    }
  }

  lemma {:induction false} WithoutEdgesSpec(g: Graph, es: seq<Edge>)
    requires NoDup(g.edges)
    ensures NoDup(WithoutEdges(g, es).edges)
    ensures Elems(WithoutEdges(g, es).edges) == Elems(g.edges) - Elems(es)
    ensures WithoutEdges(g, es).nodes == g.nodes
    ensures WithoutEdges(g, es).rooms == g.rooms && WithoutEdges(g, es).areas == g.areas
    decreases |es|
  {
    if |es| > 0 {
      WithoutEdgeSpec(g, es[0]);
      WithoutEdgesSpec(WithoutEdge(g, es[0]), es[1..]);
      assert Elems(es) == {es[0]} + Elems(es[1..]);
    }
  }

  /** `a - b`: `a`'s nodes other than `b`'s, and `a`'s edges as the constructor orders them
      (`SortEdges(a.edges)`) that touch none of `b`'s nodes and are not among `b`'s edges; no
      rooms, no areas; canonical. For a canonical `a` these are `a`'s own edges. */
  lemma MinusSpec(a: Graph, b: Graph)
    ensures Canonical(Minus(a, b))
    ensures Elems(Minus(a, b).nodes) == Elems(a.nodes) - Elems(b.nodes)
    ensures forall e :: e in Minus(a, b).edges <==>
      e in SortEdges(a.edges) && !(e.0 in b.nodes && e.0 in a.nodes) && !(e.1 in b.nodes && e.1 in a.nodes) &&
      e !in b.edges
    ensures Canonical(a) ==> forall e :: e in Minus(a, b).edges <==>
      e in a.edges && !(e.0 in b.nodes && e.0 in a.nodes) && !(e.1 in b.nodes && e.1 in a.nodes) && e !in b.edges
    ensures Minus(a, b).rooms == [] && Minus(a, b).areas == []
  {
    var g0 := New(a.nodes, a.edges, [], []);
    ConstructorCanonical(a.nodes, a.edges, [], []);
    var g1 := WithoutNodes(g0, b.nodes);
    WithoutNodesSpec(g0, b.nodes);
    WithoutEdgesSpec(g1, b.edges);
    var r := Minus(a, b);
    forall e ensures e in r.edges <==> e in g1.edges && e !in b.edges {
      assert e in r.edges <==> e in Elems(r.edges);
      assert e in g1.edges <==> e in Elems(g1.edges);
    }
    forall e ensures e in g0.edges <==> e in SortEdges(a.edges) {
      assert e in g0.edges <==> e in Elems(g0.edges);
      assert e in SortEdges(a.edges) <==> e in Elems(SortEdges(a.edges));
    }
    forall x ensures x in g0.nodes <==> x in a.nodes {
      assert x in g0.nodes <==> x in Elems(g0.nodes);
      assert x in a.nodes <==> x in Elems(a.nodes);
    }
    forall i | 0 <= i < |r.edges| ensures Ordered(r.edges[i]) {
      assert r.edges[i] in g0.edges;
    }
    if Canonical(a) {
      SortEdgesOfOrdered(a.edges);
    }
  }

  /** The mutable list view of a graph that the source's private mutators work on in place. */
  class MutableGraph {
    var nodes: seq<Label>
    var edges: seq<Edge>
    var rooms: seq<Room>
    var areas: seq<real>

    constructor (g: Graph)
      ensures Value() == g
    {
      nodes, edges, rooms, areas := g.nodes, g.edges, g.rooms, g.areas;
    }

    function Value(): Graph
      reads this
    {
      Graph(nodes, edges, rooms, areas)
    }

    predicate HasNode(node: Label)
      reads this
    {
      node in nodes
    }

    predicate HasEdge(edge: Edge)
      reads this
    {
      edge in edges
    }

    method AddNode(node: Label)
      modifies this
      ensures Value() == WithNode(old(Value()), node)
    {
      if !HasNode(node) {
        nodes := nodes + [node];
      }
    }

    method AddEdge(edge: Edge)
      modifies this
      ensures Value() == WithEdge(old(Value()), edge)
    {
      if !HasEdge(edge) && HasNode(edge.0) && HasNode(edge.1) {
        edges := edges + [edge];
      }
    }

    method RemoveNode(node: Label)
      modifies this
      ensures Value() == WithoutNode(old(Value()), node)
    {
      if HasNode(node) {
        nodes := RemoveFirst(nodes, node);
        edges := Untouched(edges, node);
      }
    }

    method RemoveEdge(edge: Edge)
      modifies this
      ensures Value() == WithoutEdge(old(Value()), edge)
    {
      if HasEdge(edge) {
        edges := RemoveFirst(edges, edge);
      }
    }

    method AddRoom(room: Room)
      modifies this
      ensures Value() == old(Value()).(rooms := old(rooms) + [room])
    {
      rooms := rooms + [room];
    }

    /** The list indexer `Rooms[i] = room`; the source only writes positions that exist. */
    method SetRoom(i: nat, room: Room)
      requires i < |rooms|
      modifies this
      ensures rooms == old(rooms)[i := room]
      ensures nodes == old(nodes) && edges == old(edges) && areas == old(areas)
    {
      rooms := rooms[i := room];
    }
  }

  /** `operator -` as written: a copy is built, then the mutators run over `b`'s lists. */
  method Difference(a: Graph, b: Graph) returns (r: Graph)
    ensures r == Minus(a, b)
  {
    var g0 := New(a.nodes, a.edges, [], []);
    var newGraph := new MutableGraph(g0);
    for i := 0 to |b.nodes|
      invariant WithoutNodes(newGraph.Value(), b.nodes[i..]) == WithoutNodes(g0, b.nodes)
    {
      assert b.nodes[i..][1..] == b.nodes[i + 1..];
      newGraph.RemoveNode(b.nodes[i]);
    }
    var g1 := newGraph.Value();
    for j := 0 to |b.edges|
      invariant WithoutEdges(newGraph.Value(), b.edges[j..]) == WithoutEdges(g1, b.edges)
    {
      assert b.edges[j..][1..] == b.edges[j + 1..];
      newGraph.RemoveEdge(b.edges[j]);
    }
    r := newGraph.Value();
  }
}
