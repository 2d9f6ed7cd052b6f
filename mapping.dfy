/** `Graph.MapOnto` (Graph.cs): every assignment of this graph's nodes onto the other graph's
    nodes, taken from `GetPermutations`, under which each requirement edge lands on an edge of
    the other graph, turned into a graph that carries the other graph's rooms. */
module Mapping {
  import opened Wrappers
  import opened Seqs
  import opened Permutations
  import opened Graphs

  /** The dictionary the loop at lines 98-102 fills: `keys[i]` is mapped to `vals[i]`, a later
      write winning over an earlier one. */
  function Assign(keys: seq<Label>, vals: seq<Label>): (m: map<Label, Label>)
    requires |keys| == |vals|
    ensures m.Keys == Elems(keys)
    decreases |keys|
  {
    if |keys| == 0 then map[]
    else
      var n := |keys| - 1;
      assert Elems(keys) == Elems(keys[..n]) + {keys[n]} by {
        assert keys == keys[..n] + [keys[n]];
      }
      Assign(keys[..n], vals[..n])[keys[n] := vals[n]]
  }

  /** With distinct keys the dictionary sends `keys[i]` to `vals[i]`. */
  lemma {:induction false} AssignAt(keys: seq<Label>, vals: seq<Label>, i: int)
    requires |keys| == |vals| && NoDup(keys) && 0 <= i < |keys|
    ensures Assign(keys, vals)[keys[i]] == vals[i]
    decreases |keys|
  {
    var n := |keys| - 1;
    if i < n {
      assert NoDup(keys[..n]) by {
        assert forall a, b :: 0 <= a < b < n ==> keys[..n][a] == keys[a] && keys[..n][b] == keys[b];
      }
      AssignAt(keys[..n], vals[..n], i);
      assert keys[..n][i] == keys[i] && vals[..n][i] == vals[i];
    }
  }

  /** The edge check of lines 104-112: under `Nodes[i] ↦ p[i]` every requirement edge `(a, b)`
      becomes a pair present, in that exact order, among `other.edges`. */
  predicate Matches(g: Graph, other: Graph, p: seq<Label>)
    requires EdgesWithin(g)
  {
    |p| == |g.nodes| &&
    var dic := Assign(g.nodes, p);
    forall q :: 0 <= q < |g.edges| ==> (dic[g.edges[q].0], dic[g.edges[q].1]) in other.edges
  }

  /** The permutations kept in `mappings`, in the order they were generated. */
  function Matching(g: Graph, other: Graph, ps: seq<seq<Label>>): seq<seq<Label>>
    requires EdgesWithin(g)
    decreases |ps|
  {
    if |ps| == 0 then []
    else
      var n := |ps| - 1;
      Matching(g, other, ps[..n]) + (if Matches(g, other, ps[n]) then [ps[n]] else [])
  }

  /** Line 122: `mapping.Select(x => other.Nodes.IndexOf(x))`. */
  function RoomOrder(nodes: seq<Label>, mapping: seq<Label>): seq<int> {
    seq(|mapping|, j requires 0 <= j < |mapping| => IndexOf(nodes, mapping[j]))
  }

  /** Line 123: `rooms.Where((x, i) => order.Contains(i))`, a filter that keeps the rooms'
      own order. */
  function KeepIndexed(rooms: seq<Room>, order: seq<int>): seq<Room>
    decreases |rooms|
  {
    if |rooms| == 0 then []
    else
      var n := |rooms| - 1;
      KeepIndexed(rooms[..n], order) + (if n in order then [rooms[n]] else [])
  }

  /** Line 124: the graph built for one mapping. */
  function MappedGraph(g: Graph, other: Graph, mapping: seq<Label>): Graph {
    New(g.nodes, g.edges, KeepIndexed(other.rooms, RoomOrder(other.nodes, mapping)), g.areas)
  }

  function Results(g: Graph, other: Graph, mappings: seq<seq<Label>>): seq<Graph> {
    seq(|mappings|, i requires 0 <= i < |mappings| => MappedGraph(g, other, mappings[i]))
  }

  /** What the source demands for `MapOnto` not to throw: every edge endpoint is a node (the
      dictionary lookup of line 107), and a permutation length of at least one (line 228). */
  predicate CanMap(g: Graph, other: Graph) {
    EdgesWithin(g) && (|g.nodes| == |other.nodes| ==> |other.nodes| >= 1)
  }

  /** `MapOnto` as a function: `None` stands for the `null` of line 130. */
  function MapOntoSpec(g: Graph, other: Graph): Option<seq<Graph>>
    requires CanMap(g, other)
  {
    if |g.nodes| == |other.nodes| && |g.edges| <= |other.edges| then
      Some(Results(g, other, Matching(g, other, GetPermutations(other.nodes, |other.nodes|))))
    else None
  }

  /** `MapOnto` as written: the permutation loop with its `match` flag, then one graph per
      kept permutation. */
  method MapOnto(g: Graph, other: Graph) returns (r: Option<seq<Graph>>)
    requires CanMap(g, other)
    ensures r.None? <==> !(|g.nodes| == |other.nodes| && |g.edges| <= |other.edges|)
    ensures r == MapOntoSpec(g, other)
  {
    if |g.nodes| == |other.nodes| && |g.edges| <= |other.edges| {
      var mappings: seq<seq<Label>> := [];
      var permutations := GetPermutations(other.nodes, |other.nodes|);
      PermutationsAll(other.nodes, |other.nodes|);
      for k := 0 to |permutations|
        invariant mappings == Matching(g, other, permutations[..k])
      {
        var permlist := permutations[k];
        var mapdic := FillDictionary(g.nodes, permlist);
        var isMatch := EdgesMatch(g, other, mapdic);
        if isMatch {
          mappings := mappings + [permlist];
        }
        assert permutations[..k + 1][..k] == permutations[..k];
      }
      assert permutations[..|permutations|] == permutations;
      var finalMappings := BuildResults(g, other, mappings);
      r := Some(finalMappings);
    } else {
      r := None;
    }
  }

  /** Lines 98-102: `mapdic[Nodes[i]] = permlist[i]` for each position. */
  method FillDictionary(nodes: seq<Label>, permlist: seq<Label>) returns (mapdic: map<Label, Label>)
    requires |nodes| == |permlist|
    ensures mapdic == Assign(nodes, permlist)
  {
    mapdic := map[];
    for i := 0 to |permlist|
      invariant mapdic == Assign(nodes[..i], permlist[..i])
    {
      assert nodes[..i + 1][..i] == nodes[..i] && permlist[..i + 1][..i] == permlist[..i];
      mapdic := mapdic[nodes[i] := permlist[i]];
    }
    assert nodes[..|permlist|] == nodes && permlist[..|permlist|] == permlist;
  }

  /** Lines 104-112: the edge check, stopping at the first requirement edge that does not land
      on an edge of `other`. */
  method EdgesMatch(g: Graph, other: Graph, mapdic: map<Label, Label>) returns (isMatch: bool)
    requires EdgesWithin(g) && mapdic.Keys == Elems(g.nodes)
    ensures isMatch <==> forall q :: 0 <= q < |g.edges| ==> (mapdic[g.edges[q].0], mapdic[g.edges[q].1]) in other.edges
  {
    isMatch := true;
    var j := 0;
    while j < |g.edges|
      invariant 0 <= j <= |g.edges|
      invariant forall q :: 0 <= q < j ==> (mapdic[g.edges[q].0], mapdic[g.edges[q].1]) in other.edges
    {
      var edge := g.edges[j];
      if (mapdic[edge.0], mapdic[edge.1]) !in other.edges {
        isMatch := false;
        break;
      }
      j := j + 1;
    }
  }

  /** Lines 120-125: one new graph per kept permutation, with the filtered rooms. */
  method BuildResults(g: Graph, other: Graph, mappings: seq<seq<Label>>) returns (finalMappings: seq<Graph>)
    ensures finalMappings == Results(g, other, mappings)
  {
    finalMappings := [];
    for k := 0 to |mappings|
      invariant finalMappings == Results(g, other, mappings[..k])
    {
      var mapping := mappings[k];
      var roomOrder := RoomOrder(other.nodes, mapping);
      var tempRooms := KeepIndexed(other.rooms, roomOrder);
      var mapped := NewGraph(g.nodes, g.edges, tempRooms, g.areas);
      finalMappings := finalMappings + [mapped];
    }
    assert mappings[..|mappings|] == mappings;
  }

  // ---- What MapOnto promises ----

  lemma {:induction false} MatchingMember(g: Graph, other: Graph, ps: seq<seq<Label>>, x: seq<Label>)
    requires EdgesWithin(g)
    ensures x in Matching(g, other, ps) <==> x in ps && Matches(g, other, x)
    decreases |ps|
  {
    if |ps| > 0 {
      var n := |ps| - 1;
      MatchingMember(g, other, ps[..n], x);
      assert ps == ps[..n] + [ps[n]];
    }
  }

  lemma {:induction false} MatchingNoDup(g: Graph, other: Graph, ps: seq<seq<Label>>)
    requires EdgesWithin(g) && NoDup(ps)
    ensures NoDup(Matching(g, other, ps))
    decreases |ps|
  {
    if |ps| > 0 {
      var n := |ps| - 1;
      assert NoDup(ps[..n]) by {
        assert forall a, b :: 0 <= a < b < n ==> ps[..n][a] == ps[a] && ps[..n][b] == ps[b];
      }
      MatchingNoDup(g, other, ps[..n]);
      var front := Matching(g, other, ps[..n]);
      var back := if Matches(g, other, ps[n]) then [ps[n]] else [];
      forall i | 0 <= i < |front| ensures front[i] !in back {
        MatchingMember(g, other, ps[..n], front[i]);
        assert ps[n] !in ps[..n];
      }
      NoDupConcat(front, back);
    }
  }

  /** The filter keeps exactly the rooms whose index it is given, in their order. */
  lemma {:induction false} KeepIndexedPrefix(rooms: seq<Room>, order: seq<int>, n: nat)
    requires forall i :: i in order <==> 0 <= i < n
    ensures KeepIndexed(rooms, order) == rooms[..if |rooms| < n then |rooms| else n]
    decreases |rooms|
  {
    if |rooms| > 0 {
      var m := |rooms| - 1;
      KeepIndexedPrefix(rooms[..m], order, n);
      if m < n {
        assert rooms[..m + 1] == rooms[..m] + [rooms[m]];
      }
    }
  }

  /** When the mapping is an ordering of the other graph's distinct nodes, the room indices it
      selects are exactly 0 .. n-1. */
  lemma RoomOrderCovers(nodes: seq<Label>, p: seq<Label>)
    requires NoDup(nodes) && Arrangement(p, nodes, |nodes|)
    ensures forall i :: i in RoomOrder(nodes, p) <==> 0 <= i < |nodes|
  {
    var order := RoomOrder(nodes, p);
    assert Elems(p) <= Elems(nodes);
    NoDupCard(p);
    NoDupCard(nodes);
    SubsetCard(Elems(p), Elems(nodes));
    forall i | 0 <= i < |nodes| ensures i in order {
      assert nodes[i] in Elems(p);
      var j :| 0 <= j < |p| && p[j] == nodes[i];
      IndexOfNoDup(nodes, i);
      assert order[j] == i;
    }
  }

  /** Rooms are not reordered: a mapped graph carries the other graph's rooms in their original
      order (all of them when there are no more rooms than nodes). */
  lemma RoomsNotReordered(g: Graph, other: Graph, p: seq<Label>)
    requires NoDup(other.nodes) && Arrangement(p, other.nodes, |other.nodes|)
    ensures MappedGraph(g, other, p).rooms ==
      other.rooms[..if |other.rooms| < |other.nodes| then |other.rooms| else |other.nodes|]
  {
    RoomOrderCovers(other.nodes, p);
    KeepIndexedPrefix(other.rooms, RoomOrder(other.nodes, p), |other.nodes|);
  }

  /** With distinct nodes, the dictionary is `Nodes[i] ↦ p[i]`, so the edge check reads the
      permutation at the endpoints' positions. */
  lemma MatchesByPosition(g: Graph, other: Graph, p: seq<Label>)
    requires WellFormed(g) && |p| == |g.nodes|
    ensures Matches(g, other, p) <==> forall q :: 0 <= q < |g.edges| ==>
      (p[IndexOf(g.nodes, g.edges[q].0)], p[IndexOf(g.nodes, g.edges[q].1)]) in other.edges
  {
    forall q | 0 <= q < |g.edges|
      ensures Assign(g.nodes, p)[g.edges[q].0] == p[IndexOf(g.nodes, g.edges[q].0)]
      ensures Assign(g.nodes, p)[g.edges[q].1] == p[IndexOf(g.nodes, g.edges[q].1)]
    {
      AssignAt(g.nodes, p, IndexOf(g.nodes, g.edges[q].0));
      AssignAt(g.nodes, p, IndexOf(g.nodes, g.edges[q].1));
    }
  }

  /** The permutations `MapOnto` keeps are exactly the orderings `p` of the other graph's nodes
      that pass the edge check, each of them once. */
  lemma MappingsExact(g: Graph, other: Graph, p: seq<Label>)
    requires EdgesWithin(g) && NoDup(other.nodes) && |other.nodes| >= 1
    ensures NoDup(Matching(g, other, GetPermutations(other.nodes, |other.nodes|)))
    ensures p in Matching(g, other, GetPermutations(other.nodes, |other.nodes|)) <==>
      Arrangement(p, other.nodes, |other.nodes|) && Matches(g, other, p)
  {
    var n := |other.nodes|;
    var P := GetPermutations(other.nodes, n);
    PermutationsNoDup(other.nodes, n);
    MatchingNoDup(g, other, P);
    MatchingMember(g, other, P, p);
    PermutationsMember(other.nodes, n, p);
  }

  /** Under the source's precondition `MapOnto` returns one graph per kept permutation, and each
      carries this graph's nodes and areas, this graph's edges as the constructor of line 124
      leaves them (ordered, then deduplicated), and the other graph's rooms in original order. */
  lemma MapOntoResults(g: Graph, other: Graph)
    requires NoDup(g.nodes) && EdgesWithin(g) && NoDup(other.nodes)
    requires |g.nodes| == |other.nodes| >= 1 && |g.edges| <= |other.edges|
    ensures MapOntoSpec(g, other).Some?
    ensures |MapOntoSpec(g, other).value| == |Matching(g, other, GetPermutations(other.nodes, |other.nodes|))|
    ensures forall h :: h in MapOntoSpec(g, other).value ==>
      h == Graph(g.nodes, Dedup(SortEdges(g.edges)),
                 other.rooms[..if |other.rooms| < |other.nodes| then |other.rooms| else |other.nodes|],
                 g.areas)
    ensures Canonical(g) ==> forall h :: h in MapOntoSpec(g, other).value ==>
      h == Graph(g.nodes, g.edges,
                 other.rooms[..if |other.rooms| < |other.nodes| then |other.rooms| else |other.nodes|],
                 g.areas)
  {
    var n := |other.nodes|;
    var ms := Matching(g, other, GetPermutations(other.nodes, n));
    DedupOfNoDup(g.nodes);
    forall i | 0 <= i < |ms|
      ensures MappedGraph(g, other, ms[i]) ==
        Graph(g.nodes, Dedup(SortEdges(g.edges)), other.rooms[..if |other.rooms| < n then |other.rooms| else n], g.areas)
    {
      MappingsExact(g, other, ms[i]);
      RoomsNotReordered(g, other, ms[i]);
    }
    if Canonical(g) {
      NewOfCanonical(g, [], g.areas);
    }
  }

  /** A target that admits no valid bijection gives an empty list, not `null`. */
  lemma NoBijectionGivesEmpty(g: Graph, other: Graph)
    requires EdgesWithin(g) && NoDup(other.nodes)
    requires |g.nodes| == |other.nodes| >= 1 && |g.edges| <= |other.edges|
    requires forall p :: Arrangement(p, other.nodes, |other.nodes|) ==> !Matches(g, other, p)
    ensures MapOntoSpec(g, other) == Some([])
  {
    var ms := Matching(g, other, GetPermutations(other.nodes, |other.nodes|));
    if |ms| > 0 {
      MappingsExact(g, other, ms[0]);
      assert false;
    } else {
      assert Results(g, other, ms) == [];
    }
  }

  /** The path A-B, B-C and the triangle 1-2, 2-3, 1-3 of the orientation example. */
  const PathABC := Graph(["A", "B", "C"], [("A", "B"), ("B", "C")], [], [1.0, 1.0, 1.0])
  const Triangle := Graph(["1", "2", "3"], [("1", "2"), ("2", "3"), ("1", "3")], [], [])

  lemma PathPositions()
    ensures WellFormed(PathABC)
    ensures IndexOf(PathABC.nodes, "A") == 0 && IndexOf(PathABC.nodes, "B") == 1
    ensures IndexOf(PathABC.nodes, "C") == 2
  {
    assert "A" != "B" && "B" != "C" && "A" != "C";
    assert ("A", "B") != ("B", "C");
  }

  /** Matching is orientation sensitive: mapping the path onto the triangle with A ↦ 2, B ↦ 1,
      C ↦ 3 is rejected, because the requirement edge A-B lands on the pair (2, 1) while the
      triangle stores that edge as (1, 2). */
  lemma OrientationSensitive()
    ensures Arrangement(["2", "1", "3"], Triangle.nodes, 3)
    ensures ("1", "2") in Triangle.edges
    ensures !Matches(PathABC, Triangle, ["2", "1", "3"])
  {
    var p := ["2", "1", "3"];
    PathPositions();
    TriangleFacts();
    MatchesByPosition(PathABC, Triangle, p);
    var e := PathABC.edges[0];
    assert (p[IndexOf(PathABC.nodes, e.0)], p[IndexOf(PathABC.nodes, e.1)]) == ("2", "1");
  }

  lemma TriangleFacts()
    ensures Arrangement(["2", "1", "3"], Triangle.nodes, 3)
    ensures ("1", "2") in Triangle.edges && ("2", "1") !in Triangle.edges
  {
    assert "2" != "1" && "2" != "3" && "1" != "3";
    assert ("2", "1") != ("1", "2") && ("2", "1") != ("2", "3") && ("2", "1") != ("1", "3");
  }

  /** The identity ordering of the same example is accepted. */
  lemma IdentityAccepted()
    ensures Matches(PathABC, Triangle, ["1", "2", "3"])
  {
    PathPositions();
    MatchesByPosition(PathABC, Triangle, ["1", "2", "3"]);
  }

  /** Of the six orderings of the triangle's nodes, only the identity passes the edge check, so
      mapping the path onto the triangle gives exactly one graph. */
  lemma PathOntoTriangleCount()
    ensures CanMap(PathABC, Triangle)
    ensures MapOntoSpec(PathABC, Triangle).Some? && |MapOntoSpec(PathABC, Triangle).value| == 1
  {
    var id := ["1", "2", "3"];
    PathPositions();
    TriangleNoDup();
    var ms := Matching(PathABC, Triangle, GetPermutations(Triangle.nodes, 3));
    forall p | p in ms ensures p == id {
      MappingsExact(PathABC, Triangle, p);
      OnlyIdentityMatches(p);
    }
    IdentityAccepted();
    MappingsExact(PathABC, Triangle, id);
    OnlyElement(ms, id);
  }

  lemma TriangleNoDup()
    ensures NoDup(Triangle.nodes) && Arrangement(["1", "2", "3"], Triangle.nodes, 3)
  {
    assert "1" != "2" && "2" != "3" && "1" != "3";
  }

  lemma OnlyIdentityMatches(p: seq<Label>)
    requires |p| == 3 && Matches(PathABC, Triangle, p)
    ensures p == ["1", "2", "3"]
  {
    PathPositions();
    MatchesByPosition(PathABC, Triangle, p);
    assert (p[0], p[1]) in Triangle.edges by {
      assert (p[0], p[1]) == (p[IndexOf(PathABC.nodes, PathABC.edges[0].0)], p[IndexOf(PathABC.nodes, PathABC.edges[0].1)]);
    }
    assert (p[1], p[2]) in Triangle.edges by {
      assert (p[1], p[2]) == (p[IndexOf(PathABC.nodes, PathABC.edges[1].0)], p[IndexOf(PathABC.nodes, PathABC.edges[1].1)]);
    }
    assert "1" != "2" && "2" != "3" && "1" != "3";
  }

  /** Every graph `MapOnto` returns carries the other graph's leading rooms, as many as there are
      nodes, in their original order. */
  lemma MapOntoRooms(g: Graph, other: Graph)
    requires EdgesWithin(g) && NoDup(other.nodes) && |other.nodes| >= 1
    ensures MapOntoSpec(g, other).Some? ==> forall i :: 0 <= i < |MapOntoSpec(g, other).value| ==>
      MapOntoSpec(g, other).value[i].rooms ==
        other.rooms[..if |other.rooms| < |other.nodes| then |other.rooms| else |other.nodes|]
  {
    if MapOntoSpec(g, other).Some? {
      var ms := Matching(g, other, GetPermutations(other.nodes, |other.nodes|));
      forall i | 0 <= i < |ms|
        ensures MappedGraph(g, other, ms[i]).rooms ==
          other.rooms[..if |other.rooms| < |other.nodes| then |other.rooms| else |other.nodes|]
      {
        MappingsExact(g, other, ms[i]);
        RoomsNotReordered(g, other, ms[i]);
      }
    }
  }
}

