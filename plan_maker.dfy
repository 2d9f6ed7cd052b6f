/** The discrete skeleton of the plan-making component, run sequentially: the fixed-room checks,
    the candidate graphs (every mapping of the requirement graph onto every dissection, with its
    rotation and, when rooms are fixed, its three reflections), the starting vector of each
    optimisation, and the choice of the best-scoring candidate. The optimiser is a parameter. */
module PlanMaker {
  import opened Wrappers
  import opened Seqs
  import opened Graphs
  import opened Mapping
  import opened Symmetry

  datatype PlanError =
    | FixedCountMismatch
    | TooManyFixedRooms
    | NullMapping
    | NoSolutions
    | ObjectiveThrows
    | NoTopGraph

  /** A dissection of the library, its integer labels already written as strings. */
  datatype Dissection = Dissection(nodes: seq<Label>, edges: seq<Edge>, rooms: seq<Room>)

  type Point = (real, real, real)

  /** What one optimiser run reports: failure, or the minimum found and where. */
  datatype Outcome = Failed | Minimized(score: real, solution: seq<real>)

  /** The chosen candidate with its score and optimised vector. */
  datatype Plan = Plan(graph: Graph, score: real, solution: seq<real>)

  /** The best score so far and the plan that reached it. */
  datatype Top = Top(score: real, best: Option<Plan>)

  /** `double.MaxValue`, (2^53 - 1) * 2^971, written out. */
  const DoubleMax: real := 179769313486231570814527423731704356798070567525844996598917476803157260780028538760589558632766878171540458953514382464234321326889464182768467546703537516986049910576551282076245490090389328944075868508455133942304583236903222948165808559332123348274797826204144723168738177180919299881250404026184124858368.0

  /** What the driver needs of the requirement graph: edges between its nodes, so that the
      mapping's dictionary lookups succeed. */
  predicate ValidRequirement(g: Graph) {
    EdgesWithin(g)
  }

  /** What the library's dissections satisfy: one node or more, a room for every node, and rooms
      of good spans. */
  predicate ValidDissection(d: Dissection) {
    |d.nodes| >= 1 && |d.rooms| >= |d.nodes| && ValidRooms(d.rooms)
  }

  predicate ValidDissections(ds: seq<Dissection>) {
    forall i :: 0 <= i < |ds| ==> ValidDissection(ds[i])
  }

  /** Lines 148-156: the dissection as a graph, without areas. */
  function DissectionGraph(d: Dissection): Graph {
    New(d.nodes, d.edges, d.rooms, [])
  }

  /** Line 128: orientation matters only when both fixed lists are non-empty. */
  predicate RoomsFixed(fixedRooms: seq<Label>, fixedPoints: seq<Point>) {
    |fixedRooms| > 0 && |fixedPoints| > 0
  }

  /** When the objective throws on every call, whatever the optimiser passes it: with rooms fixed,
      a fixed-room label that is not a node gives index -1 to `graph.Rooms` (Helpers.cs:33-34),
      and an area list shorter than the node list fails `mappedGraph.Areas[i]` at line 251 (every
      candidate has one room per requirement node). */
  predicate ObjectiveFaults(g: Graph, fixedRooms: seq<Label>, fixedPoints: seq<Point>) {
    (RoomsFixed(fixedRooms, fixedPoints) && exists i :: 0 <= i < |fixedRooms| && fixedRooms[i] !in g.nodes)
    || |g.areas| < |g.nodes|
  }

  /** Every graph has good rooms: the starting values are defined for each. */
  predicate AllValid(cs: seq<Graph>) {
    forall i {:trigger ValidRooms(cs[i].rooms)} :: 0 <= i < |cs| ==> ValidRooms(cs[i].rooms)
  }

  /** Every graph can be reflected. */
  predicate AllReady(cs: seq<Graph>) {
    forall i :: 0 <= i < |cs| ==> MirrorReady(cs[i].rooms)
  }

  // ---- Candidate expansion (lines 145-175) ----

  lemma AllValidConcat(a: seq<Graph>, b: seq<Graph>)
    requires AllValid(a) && AllValid(b)
    ensures AllValid(a + b)
  {
    forall i | 0 <= i < |a + b| ensures ValidRooms((a + b)[i].rooms) {
      if i >= |a| {
        assert (a + b)[i] == b[i - |a|];
      }
    }
  }

  lemma AllValidReady(cs: seq<Graph>)
    requires AllValid(cs)
    ensures AllReady(cs)
  {
    forall i | 0 <= i < |cs| ensures MirrorReady(cs[i].rooms) {
      assert ValidRooms(cs[i].rooms);
    }
  }

  /** What one mapped graph adds after the mapped graphs themselves: its rotation, then its three
      reflections when rooms are fixed. */
  function Variants(m: Graph, roomsFixed: bool): (r: seq<Graph>)
    requires MirrorReady(m.rooms)
    ensures |r| == if roomsFixed then 4 else 1
  {
    [Rotated(m)] + (if roomsFixed then Mirrors(m) else [])
  }

  /** The variants of a graph with good rooms have good rooms. */
  lemma VariantsValid(m: Graph, roomsFixed: bool)
    requires ValidRooms(m.rooms)
    ensures AllValid(Variants(m, roomsFixed))
  {
    RotatedValid(m);
    FlippedValid(m, true, false);
    FlippedValid(m, false, true);
    FlippedValid(m, true, true);
  }

  /** The variants of every mapped graph, graph by graph. */
  function AllVariants(ms: seq<Graph>, roomsFixed: bool): (r: seq<Graph>)
    requires AllReady(ms)
    ensures |r| == if roomsFixed then 4 * |ms| else |ms|
  {
    if |ms| == 0 then []
    else
      var n := |ms| - 1;
      AllVariants(ms[..n], roomsFixed) + Variants(ms[n], roomsFixed)
  }

  lemma {:induction false} AllVariantsValid(ms: seq<Graph>, roomsFixed: bool)
    requires AllValid(ms)
    ensures AllReady(ms) && AllValid(AllVariants(ms, roomsFixed))
  {
    AllValidReady(ms);
    if |ms| > 0 {
      var n := |ms| - 1;
      assert ValidRooms(ms[n].rooms);
      AllVariantsValid(ms[..n], roomsFixed);
      VariantsValid(ms[n], roomsFixed);
      AllValidConcat(AllVariants(ms[..n], roomsFixed), Variants(ms[n], roomsFixed));
    }
  }

  /** The mapping step is well defined on valid inputs, and every graph it yields has good rooms. */
  lemma DissectionReady(g: Graph, d: Dissection)
    requires ValidRequirement(g) && ValidDissection(d)
    ensures CanMap(g, DissectionGraph(d))
    ensures MapOntoSpec(g, DissectionGraph(d)).Some? ==> AllValid(MapOntoSpec(g, DissectionGraph(d)).value)
  {
    var dg := DissectionGraph(d);
    assert d.nodes[0] in Elems(dg.nodes);
    MapOntoRooms(g, dg);
    var n := if |dg.rooms| < |dg.nodes| then |dg.rooms| else |dg.nodes|;
    assert ValidRooms(dg.rooms[..n]);
  }

  /** Line 159: the requirement graph mapped onto one dissection. */
  function Mapped(g: Graph, d: Dissection): (r: Option<seq<Graph>>)
    requires ValidRequirement(g) && ValidDissection(d)
    ensures r.Some? ==> AllValid(r.value)
  {
    DissectionReady(g, d);
    MapOntoSpec(g, DissectionGraph(d))
  }

  /** The mapping results of all dissections, in dissection order. */
  function Mappings(g: Graph, ds: seq<Dissection>): (maps: seq<Option<seq<Graph>>>)
    requires ValidRequirement(g) && ValidDissections(ds)
    ensures |maps| == |ds|
  {
    seq(|ds|, i requires 0 <= i < |ds| => Mapped(g, ds[i]))
  }

  /** Every mapping result that is not `null` holds graphs that can be reflected. */
  predicate MapsReady(maps: seq<Option<seq<Graph>>>) {
    forall i :: 0 <= i < |maps| && maps[i].Some? ==> AllReady(maps[i].value)
  }

  /** Every mapping result that is not `null` holds graphs with good rooms. */
  predicate MapsValid(maps: seq<Option<seq<Graph>>>) {
    forall i :: 0 <= i < |maps| && maps[i].Some? ==> AllValid(maps[i].value)
  }

  lemma MappingsValid(g: Graph, ds: seq<Dissection>)
    requires ValidRequirement(g) && ValidDissections(ds)
    ensures MapsValid(Mappings(g, ds)) && MapsReady(Mappings(g, ds))
  {
    var maps := Mappings(g, ds);
    forall i | 0 <= i < |maps| && maps[i].Some? ensures AllValid(maps[i].value) && AllReady(maps[i].value) {
      assert maps[i] == Mapped(g, ds[i]);
      AllValidReady(maps[i].value);
    }
  }

  /** Lines 160-175 over the mapping results: each one's mapped graphs, then their variants. A
      `null` result is dereferenced at line 160, so expansion stops with `NullMapping`. */
  function Expand(maps: seq<Option<seq<Graph>>>, roomsFixed: bool): (r: Result<seq<Graph>, PlanError>)
    requires MapsReady(maps)
    ensures r.Err? ==> r == Err(NullMapping)
  {
    if |maps| == 0 then Ok([])
    else
      var n := |maps| - 1;
      match Expand(maps[..n], roomsFixed)
      case Err(e) => Err(e)
      case Ok(cs) =>
        match maps[n]
        case None => Err(NullMapping)
        case Some(ms) => Ok(cs + (ms + AllVariants(ms, roomsFixed)))
  }

  /** When the mapped graphs have good rooms, so does every candidate. */
  lemma {:induction false} ExpandValid(maps: seq<Option<seq<Graph>>>, roomsFixed: bool)
    requires MapsReady(maps) && MapsValid(maps)
    ensures Expand(maps, roomsFixed).Ok? ==> AllValid(Expand(maps, roomsFixed).value)
  {
    if |maps| > 0 && Expand(maps, roomsFixed).Ok? {
      var n := |maps| - 1;
      assert MapsReady(maps[..n]) && MapsValid(maps[..n]) by {
        assert forall i :: 0 <= i < n ==> maps[..n][i] == maps[i];
      }
      ExpandValid(maps[..n], roomsFixed);
      var cs, ms := Expand(maps[..n], roomsFixed).value, maps[n].value;
      AllVariantsValid(ms, roomsFixed);
      AllValidConcat(ms, AllVariants(ms, roomsFixed));
      AllValidConcat(cs, ms + AllVariants(ms, roomsFixed));
    }
  }

  /** The candidate bag over all dissections. */
  function Candidates(g: Graph, ds: seq<Dissection>, roomsFixed: bool): (r: Result<seq<Graph>, PlanError>)
    requires ValidRequirement(g) && ValidDissections(ds)
    ensures r.Ok? ==> AllValid(r.value)
  {
    MappingsValid(g, ds);
    ExpandValid(Mappings(g, ds), roomsFixed);
    Expand(Mappings(g, ds), roomsFixed)
  }

  /** The number of mapped graphs over all results (all of them, when none is `null`). */
  function MappingCount(maps: seq<Option<seq<Graph>>>): nat {
    if |maps| == 0 then 0
    else
      var n := |maps| - 1;
      MappingCount(maps[..n]) + (match maps[n] case None => 0 case Some(ms) => |ms|)
  }

  /** The expansion fails exactly when some mapping result is `null`. */
  lemma {:induction false} ExpandFail(maps: seq<Option<seq<Graph>>>, roomsFixed: bool)
    requires MapsReady(maps)
    ensures Expand(maps, roomsFixed).Ok? <==> forall i :: 0 <= i < |maps| ==> maps[i].Some?
  {
    if |maps| > 0 {
      var n := |maps| - 1;
      ExpandFail(maps[..n], roomsFixed);
      assert forall i :: 0 <= i < n ==> maps[..n][i] == maps[i];
    }
  }

  /** Each mapped graph contributes itself and its rotation, plus its three reflections when rooms
      are fixed: two or five candidates per mapped graph. */
  lemma {:induction false} ExpandCount(maps: seq<Option<seq<Graph>>>, roomsFixed: bool)
    requires MapsReady(maps)
    ensures Expand(maps, roomsFixed).Ok? ==>
      |Expand(maps, roomsFixed).value| == if roomsFixed then 5 * MappingCount(maps) else 2 * MappingCount(maps)
  {
    if |maps| > 0 {
      ExpandCount(maps[..|maps| - 1], roomsFixed);
    }
  }

  /** Once a prefix of the results fails, the whole expansion fails. */
  lemma {:induction false} ExpandErrSticks(maps: seq<Option<seq<Graph>>>, roomsFixed: bool, k: nat)
    requires MapsReady(maps)
    requires k <= |maps| && Expand(maps[..k], roomsFixed).Err?
    ensures Expand(maps, roomsFixed) == Err(NullMapping)
    decreases |maps|
  {
    if k < |maps| {
      var n := |maps| - 1;
      assert maps[..n][..k] == maps[..k];
      ExpandErrSticks(maps[..n], roomsFixed, k);
    } else {
      assert maps[..k] == maps;
    }
  }

  /** Lines 148-159: the dissection's graph, and the requirement graph mapped onto it. */
  method MapDissection(g: Graph, d: Dissection) returns (r: Option<seq<Graph>>)
    requires ValidRequirement(g) && ValidDissection(d)
    ensures r == Mapped(g, d)
  {
    var dissectionGraph := NewGraph(d.nodes, d.edges, d.rooms, []);
    DissectionReady(g, d);
    r := MapOnto(g, dissectionGraph);
  }

  /** Lines 165-173 for one mapped graph: its rotation, then its reflections when rooms are fixed. */
  method VariantsOf(m: Graph, roomsFixed: bool) returns (variants: seq<Graph>)
    requires MirrorReady(m.rooms)
    ensures variants == Variants(m, roomsFixed)
  {
    var rotatedGraph := RotateGraph(m);
    variants := [rotatedGraph];
    if roomsFixed {
      var mirroredGraphs := MirrorGraph(m);
      variants := variants + mirroredGraphs;
    }
  }

  /** Lines 163-175: after the mapped graphs, each one's rotation and, when rooms are fixed, its
      reflections. */
  method AddVariants(mappedGraphs: seq<Graph>, ms: seq<Graph>, roomsFixed: bool) returns (r: seq<Graph>)
    requires AllReady(ms)
    ensures r == mappedGraphs + AllVariants(ms, roomsFixed)
  {
    r := mappedGraphs;
    for j := 0 to |ms|
      invariant r == mappedGraphs + AllVariants(ms[..j], roomsFixed)
    {
      var variants := VariantsOf(ms[j], roomsFixed);
      AllVariantsSnoc(ms, j, roomsFixed);
      r := r + variants;
    }
    assert ms[..|ms|] == ms;
  }

  lemma AllVariantsSnoc(ms: seq<Graph>, j: nat, roomsFixed: bool)
    requires AllReady(ms) && j < |ms|
    ensures AllVariants(ms[..j + 1], roomsFixed) == AllVariants(ms[..j], roomsFixed) + Variants(ms[j], roomsFixed)
  {
    assert ms[..j + 1][..j] == ms[..j];
  }

  /** Lines 145-159 run sequentially: map the requirement graph onto each dissection in turn. */
  method MapAll(g: Graph, ds: seq<Dissection>) returns (maps: seq<Option<seq<Graph>>>)
    requires ValidRequirement(g) && ValidDissections(ds)
    ensures maps == Mappings(g, ds)
  {
    maps := [];
    for i := 0 to |ds|
      invariant |maps| == i
      invariant forall k :: 0 <= k < i ==> maps[k] == Mapped(g, ds[k])
    {
      var mappedGraphsTemp := MapDissection(g, ds[i]);
      maps := maps + [mappedGraphsTemp];
    }
  }

  /** Lines 160-175 run sequentially over the mapping results: add each one's mapped graphs, then
      their variants; a `null` result stops the run. */
  method ExpandMappings(maps: seq<Option<seq<Graph>>>, roomsFixed: bool) returns (r: Result<seq<Graph>, PlanError>)
    requires MapsReady(maps)
    ensures r == Expand(maps, roomsFixed)
  {
    var mappedGraphs: seq<Graph> := [];
    for i := 0 to |maps|
      invariant Expand(maps[..i], roomsFixed) == Ok(mappedGraphs)
    {
      assert maps[..i + 1][..i] == maps[..i];
      if maps[i].None? {
        ExpandErrSticks(maps, roomsFixed, i + 1);
        return Err(NullMapping);
      }
      var ms := maps[i].value;
      ghost var before := mappedGraphs;
      mappedGraphs := mappedGraphs + ms;
      mappedGraphs := AddVariants(mappedGraphs, ms, roomsFixed);
      assert mappedGraphs == before + (ms + AllVariants(ms, roomsFixed));
    }
    assert maps[..|maps|] == maps;
    return Ok(mappedGraphs);
  }

  /** The candidate bag of lines 144-175: all mapping results, then their expansion. */
  method BuildCandidates(g: Graph, ds: seq<Dissection>, roomsFixed: bool) returns (r: Result<seq<Graph>, PlanError>)
    requires ValidRequirement(g) && ValidDissections(ds)
    ensures r == Candidates(g, ds, roomsFixed)
  {
    var maps := MapAll(g, ds);
    MappingsValid(g, ds);
    r := ExpandMappings(maps, roomsFixed);
  }

  // ---- Starting values (lines 204-214) ----

  function Repeat(v: real, n: nat): (r: seq<real>)
    ensures |r| == n
    ensures forall i :: 0 <= i < n ==> r[i] == v
  {
    if n == 0 then [] else Repeat(v, n - 1) + [v]
  }

  function Sum(s: seq<real>): real {
    if |s| == 0 then 0.0 else Sum(s[..|s| - 1]) + s[|s| - 1]
  }

  /** Line 211: 1 + the largest last index of any room's x span. */
  function XLen(m: Graph): nat
    requires ValidRooms(m.rooms)
  {
    GoodSpanBounds(m.rooms[0].xs);
    assert Xs(m.rooms)[0] == m.rooms[0].xs;
    MaxLast(Xs(m.rooms)) + 1
  }

  /** Line 212: 1 + the largest last index of any room's y span. */
  function YLen(m: Graph): nat
    requires ValidRooms(m.rooms)
  {
    GoodSpanBounds(m.rooms[0].ys);
    assert Ys(m.rooms)[0] == m.rooms[0].ys;
    MaxLast(Ys(m.rooms)) + 1
  }

  /** Lines 213-214: `xLen` copies of `1/xLen`, then `yLen` copies of `1/yLen`. */
  function Start(xLen: nat, yLen: nat): seq<real>
    requires xLen >= 1 && yLen >= 1
  {
    Repeat(1.0 / xLen as real, xLen) + Repeat(1.0 / yLen as real, yLen)
  }

  function StartingValues(m: Graph): seq<real>
    requires ValidRooms(m.rooms)
  {
    Start(XLen(m), YLen(m))
  }

  lemma {:induction false} RepeatSum(v: real, n: nat)
    ensures Sum(Repeat(v, n)) == n as real * v
  {
    if n > 0 {
      var r := Repeat(v, n);
      RepeatSum(v, n - 1);
      assert r[..n - 1] == Repeat(v, n - 1);
      assert Sum(r) == Sum(Repeat(v, n - 1)) + v;
      assert (n - 1) as real * v + v == n as real * v;
    }
  }

  lemma Reciprocal(n: nat)
    requires n >= 1
    ensures n as real * (1.0 / n as real) == 1.0
  {
  }

  /** The starting vector has `xLen + yLen` entries; the first `xLen` are `1/xLen` and sum to 1, the
      remaining `yLen` are `1/yLen` and sum to 1. */
  lemma StartSpec(xLen: nat, yLen: nat)
    requires xLen >= 1 && yLen >= 1
    ensures |Start(xLen, yLen)| == xLen + yLen
    ensures forall i :: 0 <= i < xLen ==> Start(xLen, yLen)[i] == 1.0 / xLen as real
    ensures forall i :: xLen <= i < xLen + yLen ==> Start(xLen, yLen)[i] == 1.0 / yLen as real
    ensures Sum(Start(xLen, yLen)[..xLen]) == 1.0 && Sum(Start(xLen, yLen)[xLen..]) == 1.0
  {
    var xs, ys := Repeat(1.0 / xLen as real, xLen), Repeat(1.0 / yLen as real, yLen);
    assert Start(xLen, yLen) == xs + ys;
    assert (xs + ys)[..xLen] == xs;
    assert (xs + ys)[xLen..] == ys;
    ReciprocalSum(xLen);
    ReciprocalSum(yLen);
  }

  /** `n` copies of `1/n` sum to 1. */
  lemma ReciprocalSum(n: nat)
    requires n >= 1
    ensures Sum(Repeat(1.0 / n as real, n)) == 1.0
  {
    RepeatSum(1.0 / n as real, n);
    Reciprocal(n);
  }

  /** The axis lengths cover every room: each x (y) index of each room is below `xLen` (`yLen`). */
  lemma AxisLengthsCover(m: Graph)
    requires ValidRooms(m.rooms)
    ensures forall i, j :: 0 <= i < |m.rooms| && 0 <= j < |m.rooms[i].xs| ==> 0 <= m.rooms[i].xs[j] < XLen(m)
    ensures forall i, j :: 0 <= i < |m.rooms| && 0 <= j < |m.rooms[i].ys| ==> 0 <= m.rooms[i].ys[j] < YLen(m)
  {
    forall i | 0 <= i < |m.rooms|
      ensures Within(m.rooms[i].xs, 0, XLen(m) - 1) && Within(m.rooms[i].ys, 0, YLen(m) - 1)
    {
      GoodSpanBounds(m.rooms[i].xs);
      GoodSpanBounds(m.rooms[i].ys);
      assert Xs(m.rooms)[i] == m.rooms[i].xs && Ys(m.rooms)[i] == m.rooms[i].ys;
    }
  }

  // ---- Selection (lines 192-194, 268-294) ----

  /** The optimiser's run on one candidate, from that candidate's starting values. */
  function Run(optimize: (Graph, seq<real>) -> Outcome, m: Graph): Outcome
    requires ValidRooms(m.rooms)
  {
    optimize(m, StartingValues(m))
  }

  /** The runs on all candidates, in candidate order. */
  function Outcomes(cs: seq<Graph>, optimize: (Graph, seq<real>) -> Outcome): (os: seq<Outcome>)
    requires AllValid(cs)
    ensures |os| == |cs|
  {
    seq(|cs|, i requires 0 <= i < |cs| => Run(optimize, cs[i]))
  }

  /** The run succeeded with a score below `bound`. */
  predicate Beats(o: Outcome, bound: real) {
    o.Minimized? && o.score < bound
  }

  /** The run succeeded with a score of at most `bound`. */
  predicate Reaches(o: Outcome, bound: real) {
    o.Minimized? && o.score <= bound
  }

  /** Lines 269-293: a successful run replaces the best only when its score is strictly smaller. */
  function Improve(t: Top, m: Graph, o: Outcome): Top {
    match o
    case Failed => t
    case Minimized(score, solution) =>
      if score < t.score then Top(score, Some(Plan(m, score, solution))) else t
  }

  /** The candidate loop over candidates `cs` whose runs gave `os`, in candidate order, from
      `double.MaxValue` and no graph. */
  function Best(cs: seq<Graph>, os: seq<Outcome>): Top
    requires |os| == |cs|
  {
    if |cs| == 0 then Top(DoubleMax, None)
    else
      var n := |cs| - 1;
      Improve(Best(cs[..n], os[..n]), cs[n], os[n])
  }

  function Select(cs: seq<Graph>, optimize: (Graph, seq<real>) -> Outcome): Top
    requires AllValid(cs)
  {
    Best(cs, Outcomes(cs, optimize))
  }

  /** Candidate `k`'s run produced `b`, no run beats it, and every earlier run fails or scores
      higher: `b` is the earliest minimum below `double.MaxValue`. */
  predicate ChosenAt(cs: seq<Graph>, os: seq<Outcome>, k: nat, b: Plan)
    requires |os| == |cs| && k < |cs|
  {
    && b.graph == cs[k]
    && os[k] == Minimized(b.score, b.solution)
    && b.score < DoubleMax
    && (forall j :: 0 <= j < |cs| ==> !Beats(os[j], b.score))
    && (forall j :: 0 <= j < k ==> !Reaches(os[j], b.score))
  }

  /** The best score is `double.MaxValue` until a plan is chosen, and the chosen plan's score after. */
  lemma {:induction false} BestScore(cs: seq<Graph>, os: seq<Outcome>)
    requires |os| == |cs|
    ensures Best(cs, os).best.None? ==> Best(cs, os).score == DoubleMax
    ensures Best(cs, os).best.Some? ==> Best(cs, os).score == Best(cs, os).best.value.score
    ensures Best(cs, os).score <= DoubleMax
  {
    if |cs| > 0 {
      var n := |cs| - 1;
      BestScore(cs[..n], os[..n]);
    }
  }

  /** No run scores below the best score. */
  lemma {:induction false} BestLower(cs: seq<Graph>, os: seq<Outcome>)
    requires |os| == |cs|
    ensures forall j :: 0 <= j < |os| ==> !Beats(os[j], Best(cs, os).score)
  {
    if |cs| > 0 {
      var n := |cs| - 1;
      BestLower(cs[..n], os[..n]);
      assert forall j :: 0 <= j < n ==> os[..n][j] == os[j];
    }
  }

  /** No plan is chosen exactly when no run succeeds with a score below `double.MaxValue`. */
  lemma {:induction false} BestNone(cs: seq<Graph>, os: seq<Outcome>)
    requires |os| == |cs|
    ensures Best(cs, os).best.None? <==> forall j :: 0 <= j < |os| ==> !Beats(os[j], DoubleMax)
  {
    if |cs| > 0 {
      var n := |cs| - 1;
      BestNone(cs[..n], os[..n]);
      BestScore(cs[..n], os[..n]);
      assert forall j :: 0 <= j < n ==> os[..n][j] == os[j];
    }
  }

  /** A chosen plan is the earliest minimum among the candidates. */
  lemma {:induction false} BestChosen(cs: seq<Graph>, os: seq<Outcome>)
    requires |os| == |cs| && Best(cs, os).best.Some?
    ensures exists k :: 0 <= k < |cs| && ChosenAt(cs, os, k, Best(cs, os).best.value)
  {
    var n := |cs| - 1;
    var p, q := cs[..n], os[..n];
    var t := Best(p, q);
    var b := Best(cs, os).best.value;
    BestScore(p, q);
    BestLower(p, q);
    assert forall j :: 0 <= j < n ==> q[j] == os[j];
    if t.best != Some(b) {
      assert os[n] == Minimized(b.score, b.solution) && b.score < t.score;
      assert ChosenAt(cs, os, n, b);
    } else {
      BestChosen(p, q);
      var k :| 0 <= k < n && ChosenAt(p, q, k, b);
      assert p[k] == cs[k];
      assert ChosenAt(cs, os, k, b);
    }
  }

  /** Lines 184-194, 268-293 and 303 on the candidate bag: no candidate is an error, and so is a
      loop that never replaces the initial null graph (it is dereferenced at line 303). */
  function Choose(cs: seq<Graph>, optimize: (Graph, seq<real>) -> Outcome): Result<Plan, PlanError>
    requires AllValid(cs)
  {
    if |cs| < 1 then Err(NoSolutions)
    else
      match Select(cs, optimize).best
      case None => Err(NoTopGraph)
      case Some(p) => Ok(p)
  }

  /** The choice fails with `NoSolutions` exactly on an empty bag, with `NoTopGraph` exactly when
      no run succeeds below `double.MaxValue`, and otherwise returns the earliest minimum. */
  lemma ChooseSpec(cs: seq<Graph>, optimize: (Graph, seq<real>) -> Outcome)
    requires AllValid(cs)
    ensures Choose(cs, optimize).Ok? || Choose(cs, optimize) == Err(NoSolutions) || Choose(cs, optimize) == Err(NoTopGraph)
    ensures Choose(cs, optimize) == Err(NoSolutions) <==> |cs| == 0
    ensures Choose(cs, optimize) == Err(NoTopGraph) <==>
      |cs| >= 1 && forall j :: 0 <= j < |cs| ==> !Beats(Outcomes(cs, optimize)[j], DoubleMax)
    ensures Choose(cs, optimize).Ok? ==>
      exists k :: 0 <= k < |cs| && ChosenAt(cs, Outcomes(cs, optimize), k, Choose(cs, optimize).value)
  {
    var os := Outcomes(cs, optimize);
    BestNone(cs, os);
    if Best(cs, os).best.Some? {
      BestChosen(cs, os);
    }
  }

  // ---- The component (lines 63-75, 128, 144-194, 303) ----

  /** `SolveInstance`'s discrete result: the best plan, or the error the source raises. */
  function MakePlanSpec(g: Graph, fixedRooms: seq<Label>, fixedPoints: seq<Point>, ds: seq<Dissection>,
                        optimize: (Graph, seq<real>) -> Outcome): Result<Plan, PlanError>
    requires ValidRequirement(g) && ValidDissections(ds)
  {
    if |fixedRooms| != |fixedPoints| then Err(FixedCountMismatch)
    else if |fixedRooms| > |g.nodes| then Err(TooManyFixedRooms)
    else
      match Candidates(g, ds, RoomsFixed(fixedRooms, fixedPoints))
      case Err(e) => Err(e)
      case Ok(cs) =>
        if |cs| > 0 && ObjectiveFaults(g, fixedRooms, fixedPoints) then Err(ObjectiveThrows)
        else Choose(cs, optimize)
  }

  /** Past the checks, the run fails with `NullMapping` exactly when some dissection cannot take
      the requirement graph; otherwise the bag holds two candidates per mapping (five when rooms
      are fixed), it is empty exactly when there is no mapping, and then a faulting objective or
      else the choice decides the result. */
  lemma MakePlanMapping(g: Graph, fixedRooms: seq<Label>, fixedPoints: seq<Point>, ds: seq<Dissection>,
                        optimize: (Graph, seq<real>) -> Outcome)
    requires ValidRequirement(g) && ValidDissections(ds)
    requires |fixedRooms| == |fixedPoints| <= |g.nodes|
    ensures MakePlanSpec(g, fixedRooms, fixedPoints, ds, optimize) == Err(NullMapping) <==>
      exists i :: 0 <= i < |ds| && Mapped(g, ds[i]).None?
    ensures (forall i :: 0 <= i < |ds| ==> Mapped(g, ds[i]).Some?) ==>
      && Candidates(g, ds, RoomsFixed(fixedRooms, fixedPoints)).Ok?
      && |Candidates(g, ds, RoomsFixed(fixedRooms, fixedPoints)).value| ==
         (if RoomsFixed(fixedRooms, fixedPoints) then 5 else 2) * MappingCount(Mappings(g, ds))
      && MakePlanSpec(g, fixedRooms, fixedPoints, ds, optimize) ==
         (if MappingCount(Mappings(g, ds)) > 0 && ObjectiveFaults(g, fixedRooms, fixedPoints) then Err(ObjectiveThrows)
          else Choose(Candidates(g, ds, RoomsFixed(fixedRooms, fixedPoints)).value, optimize))
    ensures (forall i :: 0 <= i < |ds| ==> Mapped(g, ds[i]).Some?) ==>
      (MakePlanSpec(g, fixedRooms, fixedPoints, ds, optimize) == Err(NoSolutions) <==> MappingCount(Mappings(g, ds)) == 0)
  {
    var rf := RoomsFixed(fixedRooms, fixedPoints);
    var maps := Mappings(g, ds);
    MappingsValid(g, ds);
    ExpandFail(maps, rf);
    assert forall i :: 0 <= i < |ds| ==> maps[i] == Mapped(g, ds[i]);
    var r := Candidates(g, ds, rf);
    assert r == Expand(maps, rf);
    if r.Ok? {
      ExpandCount(maps, rf);
      ChooseSpec(r.value, optimize);
    }
  }

  /** The fixed-room checks come first, in this order, whatever the dissections hold. A plan is
      returned only when the checks pass, every dissection takes the requirement graph and the
      objective does not fault; a non-empty bag with a faulting objective gives `ObjectiveThrows`;
      otherwise a plan is returned exactly when some candidate's run succeeds below
      `double.MaxValue`, and it is then the earliest strict minimum over the candidate bag. */
  lemma MakePlanOutcome(g: Graph, fixedRooms: seq<Label>, fixedPoints: seq<Point>, ds: seq<Dissection>,
                        optimize: (Graph, seq<real>) -> Outcome)
    requires ValidRequirement(g) && ValidDissections(ds)
    ensures |fixedRooms| != |fixedPoints| ==> MakePlanSpec(g, fixedRooms, fixedPoints, ds, optimize) == Err(FixedCountMismatch)
    ensures |fixedRooms| == |fixedPoints| && |fixedRooms| > |g.nodes| ==>
      MakePlanSpec(g, fixedRooms, fixedPoints, ds, optimize) == Err(TooManyFixedRooms)
    ensures MakePlanSpec(g, fixedRooms, fixedPoints, ds, optimize).Ok? ==>
      && |fixedRooms| == |fixedPoints| <= |g.nodes|
      && !ObjectiveFaults(g, fixedRooms, fixedPoints)
      && Candidates(g, ds, RoomsFixed(fixedRooms, fixedPoints)).Ok?
      && var cs := Candidates(g, ds, RoomsFixed(fixedRooms, fixedPoints)).value;
         exists k :: 0 <= k < |cs| &&
           ChosenAt(cs, Outcomes(cs, optimize), k, MakePlanSpec(g, fixedRooms, fixedPoints, ds, optimize).value)
    ensures |fixedRooms| == |fixedPoints| <= |g.nodes| && Candidates(g, ds, RoomsFixed(fixedRooms, fixedPoints)).Ok? ==>
      (MakePlanSpec(g, fixedRooms, fixedPoints, ds, optimize) == Err(ObjectiveThrows) <==>
        |Candidates(g, ds, RoomsFixed(fixedRooms, fixedPoints)).value| > 0 && ObjectiveFaults(g, fixedRooms, fixedPoints))
    ensures |fixedRooms| == |fixedPoints| <= |g.nodes| && !ObjectiveFaults(g, fixedRooms, fixedPoints) &&
            Candidates(g, ds, RoomsFixed(fixedRooms, fixedPoints)).Ok? ==>
      var cs := Candidates(g, ds, RoomsFixed(fixedRooms, fixedPoints)).value;
      (MakePlanSpec(g, fixedRooms, fixedPoints, ds, optimize).Ok? <==>
        exists j :: 0 <= j < |cs| && Beats(Outcomes(cs, optimize)[j], DoubleMax))
  {
    if |fixedRooms| == |fixedPoints| <= |g.nodes| {
      var r := Candidates(g, ds, RoomsFixed(fixedRooms, fixedPoints));
      if r.Ok? {
        ChooseSpec(r.value, optimize);
      }
    }
  }

  // ---- The component as written ----

  /** Lines 204-210: the x spans and the y spans of the rooms, in room order. */
  method Spacings(m: Graph) returns (xSpacing: seq<seq<int>>, ySpacing: seq<seq<int>>)
    ensures xSpacing == Xs(m.rooms) && ySpacing == Ys(m.rooms)
  {
    xSpacing, ySpacing := [], [];
    for i := 0 to |m.rooms|
      invariant |xSpacing| == i && forall k :: 0 <= k < i ==> xSpacing[k] == m.rooms[k].xs
      invariant |ySpacing| == i && forall k :: 0 <= k < i ==> ySpacing[k] == m.rooms[k].ys
    {
      xSpacing := xSpacing + [m.rooms[i].xs];
      ySpacing := ySpacing + [m.rooms[i].ys];
    }
  }

  /** Lines 211-214: the two axis lengths and the starting vector. */
  method StartingVector(m: Graph) returns (startingValues: seq<real>)
    requires ValidRooms(m.rooms)
    ensures startingValues == StartingValues(m)
  {
    var xSpacing, ySpacing := Spacings(m);
    assert XLen(m) == MaxLast(xSpacing) + 1 && YLen(m) == MaxLast(ySpacing) + 1;
    var xLen := MaxLast(xSpacing) + 1;
    var yLen := MaxLast(ySpacing) + 1;
    startingValues := Repeat(1.0 / xLen as real, xLen) + Repeat(1.0 / yLen as real, yLen);
  }

  /** Lines 192-194 and 201-294 run sequentially: optimise every candidate from its starting vector
      and keep the first one whose score is strictly below every earlier success. */
  method SelectTop(cs: seq<Graph>, optimize: (Graph, seq<real>) -> Outcome) returns (top: Top)
    requires AllValid(cs)
    ensures top == Select(cs, optimize)
  {
    ghost var os := Outcomes(cs, optimize);
    var topScore := DoubleMax;
    var topPlan: Option<Plan> := None;
    for i := 0 to |cs|
      invariant Top(topScore, topPlan) == Best(cs[..i], os[..i])
    {
      var mappedGraph := cs[i];
      assert ValidRooms(mappedGraph.rooms);
      var startingValues := StartingVector(mappedGraph);
      var outcome := optimize(mappedGraph, startingValues);
      assert outcome == os[i];
      assert cs[..i + 1][..i] == cs[..i] && os[..i + 1][..i] == os[..i];
      if outcome.Minimized? {
        var score, optimized := outcome.score, outcome.solution;
        if score < topScore {
          topScore := score;
          topPlan := Some(Plan(mappedGraph, score, optimized));
        }
      }
    }
    assert cs[..|cs|] == cs && os[..|os|] == os;
    top := Top(topScore, topPlan);
  }

  /** `SolveInstance` as written, run sequentially: the checks, the candidate bag, the emptiness
      check, the selection loop, and the dereference of the top graph. */
  method MakePlan(g: Graph, fixedRooms: seq<Label>, fixedPoints: seq<Point>, ds: seq<Dissection>,
                  optimize: (Graph, seq<real>) -> Outcome) returns (r: Result<Plan, PlanError>)
    requires ValidRequirement(g) && ValidDissections(ds)
    ensures r == MakePlanSpec(g, fixedRooms, fixedPoints, ds, optimize)
  {
    if |fixedRooms| != |fixedPoints| {
      return Err(FixedCountMismatch);
    }
    if |fixedRooms| > |g.nodes| {
      return Err(TooManyFixedRooms);
    }
    var roomsFixed := |fixedRooms| > 0 && |fixedPoints| > 0;
    var candidates := BuildCandidates(g, ds, roomsFixed);
    if candidates.Err? {
      return Err(candidates.error);
    }
    var mappedGraphs := candidates.value;
    if |mappedGraphs| < 1 {
      return Err(NoSolutions);
    }
    if ObjectiveFaults(g, fixedRooms, fixedPoints) {
      return Err(ObjectiveThrows);
    }
    var top := SelectTop(mappedGraphs, optimize);
    if top.best.None? {
      return Err(NoTopGraph);
    }
    r := Ok(top.best.value);
  }
}
