/** The graph-building component: validates the node, edge and area lists, builds a graph from the
    nodes and areas, then adds one edge per "node1-node2" string. The thrown exceptions of the
    component are `Err` values here. */
module GraphInput {
  import opened Wrappers
  import opened Seqs
  import opened Graphs

  datatype InputError =
    | TooManyNodes
    | TooFewEdges(required: int, nodes: int)
    | AreaCountMismatch
    | BadEdgeFormat(edge: string)

  const Dash: char := '-'

  /** `edge.Count(f => f == '-')`: how many dashes the string holds. */
  function DashCount(s: string): nat {
    if |s| == 0 then 0 else (if s[0] == Dash then 1 else 0) + DashCount(s[1..])
  }

  /** Counting dashes distributes over concatenation. */
  lemma {:induction false} DashCountConcat(a: string, b: string)
    ensures DashCount(a + b) == DashCount(a) + DashCount(b)
  {
    if |a| > 0 {
      assert (a + b)[0] == a[0] && (a + b)[1..] == a[1..] + b;
      DashCountConcat(a[1..], b);
    } else {
      assert a + b == b;
    }
  }

  /** A string holds no dash exactly when its count is zero. */
  lemma {:induction false} DashCountZero(s: string)
    ensures DashCount(s) == 0 <==> Dash !in s
  {
    if |s| > 0 {
      DashCountZero(s[1..]);
      assert s == [s[0]] + s[1..];
    }
  }

  predicate OneDash(s: string) {
    DashCount(s) == 1
  }

  /** `edge.Split('-')` of a string with exactly one dash: the parts before and after it. */
  function SplitDash(s: string): (parts: Edge)
    requires OneDash(s)
    ensures parts.0 + [Dash] + parts.1 == s
    ensures Dash !in parts.0 && Dash !in parts.1
  {
    DashCountZero(s);
    var k := IndexOf(s, Dash);
    assert s == s[..k] + [Dash] + s[k + 1..];
    DashCountConcat(s[..k], [Dash] + s[k + 1..]);
    DashCountConcat([Dash], s[k + 1..]);
    assert s[..k] + ([Dash] + s[k + 1..]) == s;
    DashCountZero(s[..k]);
    DashCountZero(s[k + 1..]);
    (s[..k], s[k + 1..])
  }

  /** One edge string: the pair of labels, or nothing when it does not hold exactly one dash. */
  function ParseEdge(s: string): Option<Edge> {
    if OneDash(s) then Some(SplitDash(s)) else None
  }

  /** The edge strings in order, stopping at the first malformed one. */
  function ParseEdges(strs: seq<string>): Result<seq<Edge>, InputError> {
    if |strs| == 0 then Ok([])
    else
      var n := |strs| - 1;
      match ParseEdges(strs[..n])
      case Err(e) => Err(e)
      case Ok(es) =>
        match ParseEdge(strs[n])
        case None => Err(BadEdgeFormat(strs[n]))
        case Some(e) => Ok(es + [e])
  }

  /** The `AddEdge` calls of the loop, one per parsed edge, in order. */
  function AddEdges(g: Graph, es: seq<Edge>): Graph {
    if |es| == 0 then g else WithEdge(AddEdges(g, es[..|es| - 1]), es[|es| - 1])
  }

  /** What the component outputs for its three input lists. */
  function Build(nodes: seq<Label>, edgeStrs: seq<string>, areas: seq<real>): Result<Graph, InputError> {
    if |nodes| > 7 then Err(TooManyNodes)
    else if |nodes| > 4 && |edgeStrs| < |nodes| - 2 then Err(TooFewEdges(|nodes| - 2, |nodes|))
    else if |nodes| != |areas| then Err(AreaCountMismatch)
    else
      match ParseEdges(edgeStrs)
      case Err(e) => Err(e)
      case Ok(es) => Ok(AddEdges(New(nodes, [], [], areas), es))
  }

  /** `SolveInstance` as written: the three guards, the graph, then the edge loop. */
  method BuildGraph(nodes: seq<Label>, edgeStrs: seq<string>, areas: seq<real>)
    returns (r: Result<Graph, InputError>)
    ensures r == Build(nodes, edgeStrs, areas)
  {
    if |nodes| > 7 {
      return Err(TooManyNodes);
    }
    if |nodes| > 4 && |edgeStrs| < |nodes| - 2 {
      return Err(TooFewEdges(|nodes| - 2, |nodes|));
    }
    if |nodes| != |areas| {
      return Err(AreaCountMismatch);
    }
    var g0 := New(nodes, [], [], areas);
    var myGraph := new MutableGraph(g0);
    for i := 0 to |edgeStrs|
      invariant ParseEdges(edgeStrs[..i]).Ok?
      invariant myGraph.Value() == AddEdges(g0, ParseEdges(edgeStrs[..i]).value)
    {
      var edge := edgeStrs[i];
      assert edgeStrs[..i + 1][..i] == edgeStrs[..i];
      if DashCount(edge) != 1 {
        ParseEdgesErrSticks(edgeStrs, i + 1);
        return Err(BadEdgeFormat(edge));
      }
      var nodeNames := SplitDash(edge);
      myGraph.AddEdge((nodeNames.0, nodeNames.1));
    }
    assert edgeStrs[..|edgeStrs|] == edgeStrs;
    r := Ok(myGraph.Value());
  }

  // ---- Properties ----

  /** Once a prefix of the edge strings fails to parse, the whole list fails the same way. */
  lemma {:induction false} ParseEdgesErrSticks(strs: seq<string>, k: nat)
    requires k <= |strs| && ParseEdges(strs[..k]).Err?
    ensures ParseEdges(strs) == ParseEdges(strs[..k])
    decreases |strs|
  {
    if k < |strs| {
      var n := |strs| - 1;
      assert strs[..n][..k] == strs[..k];
      ParseEdgesErrSticks(strs[..n], k);
    } else {
      assert strs[..k] == strs;
    }
  }

  /** The edge strings parse exactly when every one holds a single dash. */
  lemma {:induction false} ParseEdgesOk(strs: seq<string>)
    ensures ParseEdges(strs).Ok? <==> forall i :: 0 <= i < |strs| ==> OneDash(strs[i])
  {
    if |strs| > 0 {
      var n := |strs| - 1;
      var p := strs[..n];
      ParseEdgesOk(p);
      match ParseEdges(p)
      case Err(_) =>
        var j :| 0 <= j < n && !OneDash(p[j]);
        assert p[j] == strs[j];
      case Ok(_) =>
        forall i | 0 <= i < n ensures OneDash(strs[i]) {
          assert p[i] == strs[i];
        }
    }
  }

  /** A successful parse has one edge per string, the split of that string. */
  lemma {:induction false} ParseEdgesValues(strs: seq<string>)
    requires ParseEdges(strs).Ok?
    ensures |ParseEdges(strs).value| == |strs|
    ensures forall i :: 0 <= i < |strs| ==> OneDash(strs[i]) && ParseEdges(strs).value[i] == SplitDash(strs[i])
  {
    if |strs| > 0 {
      var n := |strs| - 1;
      var p := strs[..n];
      match ParseEdges(p)
      case Ok(es) =>
        ParseEdgesValues(p);
        assert OneDash(strs[n]);
        var r := es + [SplitDash(strs[n])];
        assert ParseEdges(strs).value == r;
        forall i | 0 <= i < |strs| ensures OneDash(strs[i]) && r[i] == SplitDash(strs[i]) {
          if i < n {
            assert p[i] == strs[i];
            assert r[i] == es[i];
          }
        }
    }
  }

  /** Both directions together: the strings parse exactly when each holds a single dash, and then
      each parsed edge is the split of its string. */
  lemma ParseEdgesSpec(strs: seq<string>)
    ensures ParseEdges(strs).Ok? <==> forall i :: 0 <= i < |strs| ==> OneDash(strs[i])
    ensures ParseEdges(strs).Ok? ==>
      |ParseEdges(strs).value| == |strs| &&
      forall i :: 0 <= i < |strs| ==> OneDash(strs[i]) && ParseEdges(strs).value[i] == SplitDash(strs[i])
  {
    ParseEdgesOk(strs);
    if ParseEdges(strs).Ok? {
      ParseEdgesValues(strs);
    }
  }

  /** A failure names the first edge string that does not hold exactly one dash. */
  lemma {:induction false} ParseEdgesFirstBad(strs: seq<string>)
    requires ParseEdges(strs).Err?
    ensures exists k :: (0 <= k < |strs| && !OneDash(strs[k]) &&
      ParseEdges(strs) == Err(BadEdgeFormat(strs[k])) &&
      forall i :: 0 <= i < k ==> OneDash(strs[i]))
  {
    var n := |strs| - 1;
    var p := strs[..n];
    if ParseEdges(p).Err? {
      ParseEdgesFirstBad(p);
      var k :| 0 <= k < n && !OneDash(p[k]) && ParseEdges(p) == Err(BadEdgeFormat(p[k])) &&
        forall i :: 0 <= i < k ==> OneDash(p[i]);
      assert strs[k] == p[k];
      assert forall i :: 0 <= i < k ==> strs[i] == p[i];
    } else {
      ParseEdgesOk(p);
      assert forall i :: 0 <= i < n ==> strs[i] == p[i];
    }
  }

  /** The edges whose two labels are both among `nodes`, in order. */
  function KeepWithin(es: seq<Edge>, nodes: seq<Label>): seq<Edge> {
    if |es| == 0 then []
    else
      var e := es[|es| - 1];
      KeepWithin(es[..|es| - 1], nodes) + (if e.0 in nodes && e.1 in nodes then [e] else [])
  }

  /** Adding edges one at a time to an edgeless graph keeps, in order, the first occurrence of each
      edge whose endpoints are nodes; nodes, rooms and areas are untouched. */
  lemma {:induction false} AddEdgesSpec(g: Graph, es: seq<Edge>)
    requires NoDup(g.nodes) && g.edges == []
    ensures AddEdges(g, es) == g.(edges := Dedup(KeepWithin(es, g.nodes)))
    ensures WellFormed(AddEdges(g, es))
  {
    if |es| > 0 {
      var n := |es| - 1;
      var e := es[n];
      AddEdgesSpec(g, es[..n]);
      var h := AddEdges(g, es[..n]);
      var kept := KeepWithin(es[..n], g.nodes);
      WithEdgeSpec(h, e);
      if e.0 in g.nodes && e.1 in g.nodes {
        assert KeepWithin(es, g.nodes) == kept + [e];
        assert (kept + [e])[..|kept + [e]| - 1] == kept;
      } else {
        assert KeepWithin(es, g.nodes) == kept;
      }
    }
  }

  /** The component succeeds exactly when the three guards pass and every edge string holds a
      single dash. */
  lemma BuildSucceeds(nodes: seq<Label>, edgeStrs: seq<string>, areas: seq<real>)
    ensures Build(nodes, edgeStrs, areas).Ok? <==>
      |nodes| <= 7 && !(|nodes| > 4 && |edgeStrs| < |nodes| - 2) && |nodes| == |areas| &&
      forall i :: 0 <= i < |edgeStrs| ==> OneDash(edgeStrs[i])
  {
    ParseEdgesSpec(edgeStrs);
  }

  /** A successful build has the distinct nodes in input order, the areas as given, no rooms, and
      as edges the first occurrence of each written pair whose labels are both nodes; it is free of
      repeated nodes and edges and every edge joins two of its nodes. */
  lemma BuildResult(nodes: seq<Label>, edgeStrs: seq<string>, areas: seq<real>)
    requires Build(nodes, edgeStrs, areas).Ok?
    ensures var g := Build(nodes, edgeStrs, areas).value;
      && g.nodes == Dedup(nodes) && g.areas == areas && g.rooms == []
      && g.edges == Dedup(KeepWithin(ParseEdges(edgeStrs).value, Dedup(nodes)))
      && WellFormed(g)
  {
    var g0 := New(nodes, [], [], areas);
    assert SortEdges([]) == [];
    AddEdgesSpec(g0, ParseEdges(edgeStrs).value);
  }

  /** The first failing guard decides the error, whatever the edge strings hold. */
  lemma BuildGuardOrder(nodes: seq<Label>, edgeStrs: seq<string>, areas: seq<real>)
    ensures |nodes| > 7 ==> Build(nodes, edgeStrs, areas) == Err(TooManyNodes)
    ensures 4 < |nodes| <= 7 && |edgeStrs| < |nodes| - 2 ==>
      Build(nodes, edgeStrs, areas) == Err(TooFewEdges(|nodes| - 2, |nodes|))
    ensures |nodes| <= 7 && !(|nodes| > 4 && |edgeStrs| < |nodes| - 2) && |nodes| != |areas| ==>
      Build(nodes, edgeStrs, areas) == Err(AreaCountMismatch)
    ensures Build(nodes, edgeStrs, areas).Err? && Build(nodes, edgeStrs, areas).error.BadEdgeFormat? ==>
      Build(nodes, edgeStrs, areas).error.edge in edgeStrs
  {
    if ParseEdges(edgeStrs).Err? {
      ParseEdgesFirstBad(edgeStrs);
    }
  }
}
