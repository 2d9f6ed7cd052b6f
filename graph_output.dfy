/** The graph-deconstructing component: a graph back to its node list, its edges written as
    "node1-node2" strings, and its area list. */
module GraphOutput {
  import opened Wrappers
  import opened Seqs
  import opened Graphs
  import opened GraphInput

  /** `$"{edge.Item1}-{edge.Item2}"`. */
  function FormatEdge(e: Edge): string {
    e.0 + [Dash] + e.1
  }

  /** The three output lists. */
  function Deconstruct(g: Graph): (seq<Label>, seq<string>, seq<real>) {
    (g.nodes, seq(|g.edges|, i requires 0 <= i < |g.edges| => FormatEdge(g.edges[i])), g.areas)
  }

  predicate DashFree(l: Label) {
    Dash !in l
  }

  /** A written edge whose labels hold no dash reads back as the same pair. */
  lemma FormatEdgeParses(e: Edge)
    requires DashFree(e.0) && DashFree(e.1)
    ensures ParseEdge(FormatEdge(e)) == Some(e)
  {
    var s := FormatEdge(e);
    DashCounts(e);
    DashCountZero(e.0);
    DashCountZero(e.1);
    var parts := SplitDash(s);
    SameSplit(parts.0, parts.1, e.0, e.1);
  }

  /** A string splits around its only dash in one way. */
  lemma SameSplit(a: string, b: string, c: string, d: string)
    requires Dash !in a && Dash !in c && a + [Dash] + b == c + [Dash] + d
    ensures a == c && b == d
  {
    var s := a + [Dash] + b;
    DashAt(a, b);
    DashAt(c, d);
    assert a == s[..|a|] && c == s[..|c|];
    assert b == s[|a| + 1..] && d == s[|c| + 1..];
  }

  /** The first dash of `a + "-" + b` sits right after `a` when `a` holds none. */
  lemma {:induction false} DashAt(a: string, b: string)
    requires Dash !in a
    ensures IndexOf(a + [Dash] + b, Dash) == |a|
  {
    if |a| > 0 {
      DashAt(a[1..], b);
      assert (a + [Dash] + b)[1..] == a[1..] + [Dash] + b;
    }
  }

  /** A label that holds a dash makes the written edge unreadable: it then holds two dashes or more. */
  lemma FormatEdgeWithDash(e: Edge)
    requires !DashFree(e.0) || !DashFree(e.1)
    ensures ParseEdge(FormatEdge(e)) == None
  {
    var s := FormatEdge(e);
    DashCounts(e);
    DashCountZero(e.0);
    DashCountZero(e.1);
  }

  /** The written edge holds the dashes of both labels and one more. */
  lemma DashCounts(e: Edge)
    ensures DashCount(FormatEdge(e)) == DashCount(e.0) + 1 + DashCount(e.1)
  {
    DashCountConcat(e.0 + [Dash], e.1);
    DashCountConcat(e.0, [Dash]);
  }

  /** Every edge of a graph whose edges join its nodes survives the endpoint filter. */
  lemma {:induction false} KeepWithinAll(es: seq<Edge>, nodes: seq<Label>)
    requires forall i :: 0 <= i < |es| ==> es[i].0 in nodes && es[i].1 in nodes
    ensures KeepWithin(es, nodes) == es
  {
    if |es| > 0 {
      var n := |es| - 1;
      KeepWithinAll(es[..n], nodes);
      assert es == es[..n] + [es[n]];
    }
  }

  /** The written edges of a graph whose labels hold no dash parse back to its edge list. */
  lemma ParsedEdges(g: Graph)
    requires EdgesWithin(g)
    requires forall i :: 0 <= i < |g.nodes| ==> DashFree(g.nodes[i])
    ensures ParseEdges(Deconstruct(g).1) == Ok(g.edges)
  {
    var strs := Deconstruct(g).1;
    forall i | 0 <= i < |strs| ensures OneDash(strs[i]) && SplitDash(strs[i]) == g.edges[i] {
      var e := g.edges[i];
      assert DashFree(e.0) && DashFree(e.1) by {
        assert g.nodes[IndexOf(g.nodes, e.0)] == e.0 && g.nodes[IndexOf(g.nodes, e.1)] == e.1;
      }
      FormatEdgeParses(e);
    }
    ParseEdgesSpec(strs);
    var es := ParseEdges(strs).value;
    assert |es| == |g.edges|;
    assert forall i :: 0 <= i < |es| ==> es[i] == g.edges[i];
    assert es == g.edges;
  }

  /** Deconstructing a well-formed graph with dash-free labels that passes the input guards and
      feeding the lists back to the graph-building component rebuilds the graph, without its rooms. */
  lemma RoundTrip(g: Graph)
    requires WellFormed(g)
    requires forall i :: 0 <= i < |g.nodes| ==> DashFree(g.nodes[i])
    requires |g.nodes| <= 7 && |g.nodes| == |g.areas|
    requires |g.nodes| > 4 ==> |g.edges| >= |g.nodes| - 2
    ensures Build(Deconstruct(g).0, Deconstruct(g).1, Deconstruct(g).2) == Ok(g.(rooms := []))
  {
    var strs := Deconstruct(g).1;
    ParsedEdges(g);
    assert |strs| == |g.edges|;
    assert Build(g.nodes, strs, g.areas).Ok?;
    BuildResult(g.nodes, strs, g.areas);
    DedupOfNoDup(g.nodes);
    KeepWithinAll(g.edges, g.nodes);
    DedupOfNoDup(g.edges);
  }
}
