# Marmot requirement graphs in Dafny

Marmot is a Grasshopper plug-in that lays out floor plans. A *requirement graph* has:

- nodes: room labels;
- edges: pairs of labels, one per room adjacency;
- areas: one per node.

The plug-in maps a requirement graph onto every *dissection* of a rectangle with the same number of rooms. Each dissection room spans a set of grid columns and rows. The plug-in then tries each mapped graph:

- as it is;
- rotated by a quarter turn;
- mirrored in x, in y, or in both, when rooms are pinned to fixed points.

For each candidate it optimises the grid spacings and keeps the best-scoring one.

This project models the discrete core of that pipeline and proves its properties:

- `Graphs` (graph.dfy): the `Graph` class of Graph.cs.
  - The graph is a datatype of sequences: nodes, edges, rooms, areas.
  - The constructor orders every edge by `CompareTo` and drops repeated edges and nodes, keeping first occurrences in order.
  - The in-place mutators `AddNode`, `AddEdge`, `RemoveNode`, `RemoveEdge`, `AddRoom` and the room indexer are methods of `class MutableGraph`. Each method is specified by a value-level function (`WithNode`, `WithEdge`, …).
  - Also modelled: the operators `+`, `-` and `==`.
- `Seqs` (seqs.dfy): the .NET list operations the code relies on: `IndexOf`, `Remove`, `Distinct`.
- `Ordering` (ordering.dfy): `string.CompareTo`, taken as ordinal comparison, a total order.
- `Permutations` (permutations.dfy): the recursive `GetPermutations`.
- `Mapping` (mapping.dfy): `MapOnto`, with its permutation loop, its dictionary, its edge check with `break`, and its room filter.
- `Symmetry` (symmetry.dfy): `Clone`, `RotateGraph` and `MirrorGraph`, with the in-place room overwrites of the clones.
- `GraphInput` (graph_input.dfy): the graph-building component.
  - It checks the guards, builds the graph, then splits each "a-b" edge string and adds the pair with `AddEdge`.
  - A thrown exception becomes an `Err` value.
- `GraphOutput` (graph_output.dfy): the deconstructing component, which writes edges back as "a-b". The module proves the round trip with `GraphInput`.
- `PlanMaker` (plan_maker.dfy): the discrete steps of the plan-making component, run sequentially:
  - the fixed-room checks and the `roomsFixed` flag;
  - the candidate bag: every mapping, its rotation, and its three mirrors when rooms are fixed;
  - the axis lengths and the starting vector;
  - the strict-less best-candidate update;
  - the dereference of the top graph.

  The optimiser is a function parameter that returns failure or a score with a solution vector.

Behaviour the model keeps from the code:

- Edge matching in `MapOnto` needs the exact pair `(map[a], map[b])` among the other graph's edges, so it depends on orientation. For the path A-B, B-C mapped onto the triangle 1-2, 2-3, 1-3, five of the six orderings are rejected: `Mapping.OrientationSensitive` exhibits one, and `Mapping.PathOntoTriangleCount` counts the single graph returned.
- `MapOnto` returns `null` when node counts differ or there are more edges than the target has. A valid target with no matching permutation gives an empty list instead.
- The plan-making loop iterates a `null` mapping result. In the model that is the error `NullMapping`.
- When no run succeeds, the top graph stays `null` and is dereferenced. In the model that is the error `NoTopGraph`.
- With rooms fixed, a fixed-room label that is not a node makes the objective index `graph.Rooms[-1]` (Helpers.cs:33-34), and an area list shorter than the node list makes it fail at `mappedGraph.Areas[i]` (PlanMakerComponent.cs:251). The objective then throws on every call, so a non-empty candidate bag ends in the error `ObjectiveThrows`. The source checks only the two counts at PlanMakerComponent.cs:64-75.
- Rooms keep their order: the filter at Graph.cs:123 is a filter, not a reordering.
- Edges added by the graph-building component are stored as written, without the constructor's ordering.

## Model

| member | source | states |
|---|---|---|
| Graphs.SortEdgeOrdered | Graph.cs:31 | the constructor's edge ordering yields an ordered pair; the pair is either the edge or its swap, and an ordered edge is kept as it is |
| Graphs.ConstructorCanonical | Graph.cs:14-38 | the constructed graph: every edge ordered; no repeated node or edge; exactly the input nodes and sorted edges, first occurrences in input order; rooms and areas as passed |
| Graphs.NewOfCanonical | Graph.cs:14-38 | rebuilding from a canonical graph's own lists changes nothing |
| Graphs.NewGraph | Graph.cs:14-38 | the constructor's loop and the two `Distinct` calls compute the canonical graph |
| Graphs.Untouched | Graph.cs:71 | `RemoveAll` keeps exactly the edges that touch neither endpoint, and keeps them free of repeats |
| Graphs.UntouchedKeepsOrder | Graph.cs:71 | `RemoveAll` keeps the surviving edges in their original relative order |
| Graphs.WithNodeSpec | Graph.cs:50-56 | AddNode appends the label at the end of the node list when it is absent and otherwise returns the graph unchanged; edges, rooms and areas are untouched; the graph stays well formed |
| Graphs.WithEdgeSpec | Graph.cs:58-64 | AddEdge appends the exact pair at the end of the edge list when it is absent and both endpoints are nodes, and otherwise returns the graph unchanged; nodes, rooms and areas are unchanged; no repeat or dangling edge arises |
| Graphs.WithoutNodeSpec | Graph.cs:66-73 | RemoveNode deletes the node and exactly the edges touching it; it is a no-op when the node is absent, and rooms and areas are untouched |
| Graphs.WithoutEdgeSpec | Graph.cs:75-81 | RemoveEdge deletes exactly that pair from its position, keeping the other edges in order; it returns the graph unchanged when the pair is absent, and leaves nodes, rooms and areas unchanged |
| Graphs.MutableGraph.AddNode | Graph.cs:40-56 | the in-place `AddNode` leaves the graph equal to `WithNode` of its old value |
| Graphs.MutableGraph.AddEdge | Graph.cs:45-64 | the in-place `AddEdge` leaves the graph equal to `WithEdge` of its old value |
| Graphs.MutableGraph.RemoveNode | Graph.cs:66-73 | the in-place `RemoveNode` (`Remove` then `RemoveAll`) leaves the graph equal to `WithoutNode` of its old value |
| Graphs.MutableGraph.RemoveEdge | Graph.cs:75-81 | the in-place `RemoveEdge` leaves the graph equal to `WithoutEdge` of its old value |
| Graphs.MutableGraph.AddRoom | Graph.cs:83-86 | appends the room and changes nothing else |
| Graphs.MutableGraph.SetRoom | Graph.cs:186 | the indexer write replaces room `i` only |
| Graphs.UnionSpec | Graph.cs:133-138 | `a + b` is canonical, holds the nodes of both (`a`'s first when they are distinct) and the edges of both as the constructor orders each pair, which for canonical operands are their own edges; it has no rooms or areas |
| Graphs.SameIgnoresRoomsAndAreas | Graph.cs:140-148 | `==` holds exactly when the node lists and the edge lists are equal; rooms and areas are ignored |
| Graphs.NewKeepsNodes | Graph.cs:37 | the constructor keeps a repeat-free node list exactly as given |
| Graphs.SameIsOrderSensitive | Graph.cs:142 | two graphs with the same node set listed in another order are not `==` |
| Graphs.WithoutNodesSpec | Graph.cs:153-156 | removing a list of nodes in turn removes those nodes and their edges and keeps lists free of repeats |
| Graphs.WithoutEdgesSpec | Graph.cs:157-160 | removing a list of edges in turn removes exactly those edges |
| Graphs.MinusSpec | Graph.cs:150-162 | `a - b` is canonical and holds `a`'s nodes other than `b`'s, and `a`'s edges as the constructor orders them that touch none of `b`'s nodes and are not `b`'s edges (for a canonical `a`, its own edges); no rooms or areas; `a` is not changed |
| Graphs.Difference | Graph.cs:150-162 | the operator as written (fresh copy, then the two removal loops) computes `Minus` |
| Seqs.DedupOrder | Graph.cs:36-37 | `Distinct` keeps elements in the order of their first occurrence |
| Seqs.DedupOfNoDup | Graph.cs:36-37 | `Distinct` leaves a list without repeats as it is |
| Seqs.RemoveFirstNoDup | Graph.cs:70 | `List.Remove` on a list without repeats deletes exactly that element and keeps the list free of repeats |
| Ordering.CompareZero | Graph.cs:31 | only equal labels compare as equal |
| Ordering.CompareAntisymmetric | Graph.cs:31 | swapping the arguments flips the sign of the comparison |
| Ordering.CompareTransitive | Graph.cs:31 | the comparison is transitive |
| Permutations.PermutationsMember | Graph.cs:226-233 | `GetPermutations(list, k)` holds exactly the sequences of `k` distinct elements of the list |
| Permutations.PermutationsNoDup | Graph.cs:226-233 | no arrangement is listed twice |
| Permutations.PermutationsCount | Graph.cs:226-233 | there are n(n-1)…(n-k+1) arrangements |
| Permutations.FallingFact | Graph.cs:226-233 | that falling product times (n-k)! is n! |
| Permutations.GetPermutationsSpec | Graph.cs:226-233 | for n ≥ 1 distinct elements: every ordering exactly once, n! in all, each a rearrangement of the list |
| Mapping.AssignAt | Graph.cs:98-102 | with distinct nodes, the dictionary maps `Nodes[i]` to `permlist[i]` |
| Mapping.FillDictionary | Graph.cs:98-102 | the loop builds exactly that dictionary |
| Mapping.EdgesMatch | Graph.cs:104-112 | the edge loop with `break` reports a match exactly when every mapped requirement edge is among the other graph's edges |
| Mapping.BuildResults | Graph.cs:120-125 | the loop builds one graph per kept permutation |
| Mapping.MapOnto | Graph.cs:88-131 | `null` exactly when node counts differ or this graph has more edges; otherwise the graphs of the permutation loop |
| Mapping.MatchingMember | Graph.cs:114-117 | a permutation is kept exactly when it passes the edge check |
| Mapping.MappingsExact | Graph.cs:94-118 | the kept permutations are, once each, exactly the orderings of the other graph's nodes that pass the edge check |
| Mapping.MatchesByPosition | Graph.cs:101-107 | the edge check reads the permutation at each endpoint's position |
| Mapping.RoomsNotReordered | Graph.cs:122-123 | a mapped graph carries the other graph's leading rooms in their original order |
| Mapping.MapOntoResults | Graph.cs:88-131 | under the size condition, one graph per kept permutation, each with this graph's nodes and areas, this graph's edges as the constructor orders and deduplicates them (unchanged for a canonical graph), and the other graph's leading rooms in order |
| Mapping.MapOntoRooms | Graph.cs:120-125 | every returned graph carries the same leading rooms of the other graph |
| Mapping.NoBijectionGivesEmpty | Graph.cs:90-127 | a target that passes the size check but admits no matching permutation gives an empty list, not `null` |
| Mapping.OrientationSensitive | Graph.cs:107 | the path A-B, B-C onto the triangle is rejected under A↦2, B↦1, C↦3, although `(1,2)` is an edge and the ordering is a bijection |
| Mapping.IdentityAccepted | Graph.cs:104-112 | the identity ordering of the same example is accepted |
| Mapping.PathOntoTriangleCount | Graph.cs:88-131 | of the six orderings of the triangle's nodes only the identity passes, so mapping the path onto the triangle returns exactly one graph |
| Symmetry.Clone | Graph.cs:170-179 | the clone is canonical, with the same node set, the edges as the constructor orders them, and the same rooms and areas; a canonical graph clones to itself |
| Symmetry.RotateGraph | Graph.cs:181-189 | the loop over the clone's rooms computes `Rotated` |
| Symmetry.RotatedSpec | Graph.cs:181-189 | rotation keeps the clone's nodes, edges and areas and exchanges the two spans of every room |
| Symmetry.RotateTwice | Graph.cs:181-189 | rotating twice gives back the clone |
| Symmetry.MaxLast | Graph.cs:197-198 | the widest span end bounds every span's last entry and is reached by one |
| Symmetry.MirrorSpanTwice | Graph.cs:203 | reflecting a span twice about one width gives it back |
| Symmetry.MirrorSpanShape | Graph.cs:203 | a reflected ascending span is ascending and stays within `0 .. width` |
| Symmetry.MirrorGraph | Graph.cs:191-216 | the three clones and the loop compute the x-, y- and xy-reflections, in that order |
| Symmetry.MirrorsSpec | Graph.cs:191-216 | exactly three graphs; each keeps the clone's nodes, edges, areas and room count; the reflected axis of every room is `MirrorSpan` of its span about the widest span end (index `j` becomes `max - j`, the span reversed); the unreflected axis is copied; the third reflects both axes |
| Symmetry.MirrorXTwice | Graph.cs:197-204 | for rooms from column 0 on, reflecting in x twice gives back the clone |
| Symmetry.FlipXWidth | Graph.cs:197 | such a reflection keeps the x width |
| Symmetry.RotatedValid | Graph.cs:186 | rotation keeps rooms in the shape the dissection library gives them |
| Symmetry.FlippedValid | Graph.cs:202-212 | every reflection keeps rooms in that shape |
| GraphInput.DashCountConcat | GraphComponent.cs:64 | the dash count of a concatenation is the sum of the counts |
| GraphInput.DashCountZero | GraphComponent.cs:64 | the count is zero exactly when the string holds no dash |
| GraphInput.SplitDash | GraphComponent.cs:68 | a string with one dash splits into two dash-free parts that rebuild it around the dash |
| GraphInput.BuildGraph | GraphComponent.cs:40-71 | the guards, the graph and the edge loop compute `Build` |
| GraphInput.ParseEdgesErrSticks | GraphComponent.cs:60-67 | once an edge string is rejected, so is the whole list |
| GraphInput.ParseEdgesOk | GraphComponent.cs:60-67 | the edge strings parse exactly when each holds one dash |
| GraphInput.ParseEdgesValues | GraphComponent.cs:68-70 | a successful parse has one pair per string, its split |
| GraphInput.ParseEdgesSpec | GraphComponent.cs:60-70 | both of the above together |
| GraphInput.ParseEdgesFirstBad | GraphComponent.cs:64-67 | a failure names the first string without exactly one dash |
| GraphInput.AddEdgesSpec | GraphComponent.cs:60-71 | the `AddEdge` calls keep, in written order, the first occurrence of each pair whose labels are both nodes |
| GraphInput.BuildSucceeds | GraphComponent.cs:40-71 | the component succeeds exactly when the three guards pass and every edge string holds one dash |
| GraphInput.BuildResult | GraphComponent.cs:59-71 | the built graph has the deduplicated nodes, the areas as given and no rooms; its edges are the kept pairs, in order; it is well formed |
| GraphInput.BuildGuardOrder | GraphComponent.cs:40-56 | the guards run before any edge is parsed, in order; a format error names one of the edge strings |
| GraphOutput.FormatEdgeParses | DeGraphComponent.cs:35-37 | an edge with dash-free labels, written out, parses back to the same pair |
| GraphOutput.FormatEdgeWithDash | DeGraphComponent.cs:36 | a label holding a dash makes the written edge unreadable |
| GraphOutput.SameSplit | GraphComponent.cs:68 | a string splits around its only dash in one way |
| GraphOutput.DashCounts | DeGraphComponent.cs:36 | the written edge holds the labels' dashes and one more |
| GraphOutput.ParsedEdges | DeGraphComponent.cs:35-37 | the written edges of a graph with dash-free labels parse back to its edge list, in order |
| GraphOutput.RoundTrip | DeGraphComponent.cs:35-41 | deconstructing, then rebuilding, gives back the graph without its rooms, for a well-formed graph that passes the input guards |
| PlanMaker.Variants | PlanMakerComponent.cs:163-175 | one mapped graph adds 1 variant, or 4 when rooms are fixed |
| PlanMaker.AllVariants | PlanMakerComponent.cs:163-175 | the variants of all mapped graphs number `m`, or `4m` when rooms are fixed |
| PlanMaker.VariantsValid | PlanMakerComponent.cs:163-175 | variants keep rooms in the library's shape |
| PlanMaker.DissectionReady | PlanMakerComponent.cs:148-159 | the requirement graph can be mapped onto every library dissection, and the mapped graphs have good rooms |
| PlanMaker.Expand | PlanMakerComponent.cs:159-175 | the expansion fails only with `NullMapping` |
| PlanMaker.ExpandFail | PlanMakerComponent.cs:159-160 | the expansion fails exactly when some mapping result is `null` |
| PlanMaker.ExpandCount | PlanMakerComponent.cs:159-175 | a successful expansion holds 2 candidates per mapping, or 5 when rooms are fixed |
| PlanMaker.ExpandValid | PlanMakerComponent.cs:159-175 | every candidate has good rooms |
| PlanMaker.Candidates | PlanMakerComponent.cs:144-175 | the candidate bag, when built, has only candidates with good rooms |
| PlanMaker.MapDissection | PlanMakerComponent.cs:148-159 | building the dissection graph and mapping onto it computes `Mapped` |
| PlanMaker.VariantsOf | PlanMakerComponent.cs:165-173 | rotation, then mirrors when rooms are fixed, compute `Variants` |
| PlanMaker.AddVariants | PlanMakerComponent.cs:163-175 | the loop appends every graph's variants |
| PlanMaker.MapAll | PlanMakerComponent.cs:145-159 | mapping onto each dissection in turn gives `Mappings` |
| PlanMaker.ExpandMappings | PlanMakerComponent.cs:159-175 | the sequential loop, stopping at a `null` result, computes `Expand` |
| PlanMaker.BuildCandidates | PlanMakerComponent.cs:144-175 | the mapping step and the expansion compute `Candidates` |
| PlanMaker.StartSpec | PlanMakerComponent.cs:213-214 | the starting vector has `xLen + yLen` entries: `xLen` copies of `1/xLen`, summing to 1, then `yLen` copies of `1/yLen`, summing to 1 |
| PlanMaker.RepeatSum | PlanMakerComponent.cs:213-214 | `n` copies of `v` sum to `n·v` |
| PlanMaker.ReciprocalSum | PlanMakerComponent.cs:213-214 | `n` copies of `1/n` sum to 1 |
| PlanMaker.AxisLengthsCover | PlanMakerComponent.cs:211-212 | every x (y) index of every room is below `xLen` (`yLen`) |
| PlanMaker.Spacings | PlanMakerComponent.cs:204-210 | the loop collects the x spans and the y spans of the rooms, in room order |
| PlanMaker.StartingVector | PlanMakerComponent.cs:204-214 | the spans, the two axis lengths and the two repeats compute `StartingValues` |
| PlanMaker.BestScore | PlanMakerComponent.cs:192-194 | the top score is `double.MaxValue` while no graph is chosen, and the chosen plan's score after |
| PlanMaker.BestLower | PlanMakerComponent.cs:268-294 | no run scores below the top score |
| PlanMaker.BestNone | PlanMakerComponent.cs:268-294 | no graph is chosen exactly when no run succeeds below `double.MaxValue` |
| PlanMaker.BestChosen | PlanMakerComponent.cs:268-294 | a chosen plan comes from a candidate whose run no run beats, with every earlier run failing or scoring higher (strict-less update) |
| PlanMaker.SelectTop | PlanMakerComponent.cs:192-294 | the sequential optimisation loop with its strict-less update computes `Select` |
| PlanMaker.ChooseSpec | PlanMakerComponent.cs:184-194 | `NoSolutions` exactly on an empty bag; `NoTopGraph` exactly when no run succeeds below `double.MaxValue`; otherwise the earliest minimum |
| PlanMaker.MakePlanMapping | PlanMakerComponent.cs:144-189 | past the checks: `NullMapping` exactly when some dissection gives `null`; otherwise 2 or 5 candidates per mapping, `NoSolutions` exactly when there is no mapping, and then `ObjectiveThrows` when the objective faults, else the choice decides the result |
| PlanMaker.MakePlanOutcome | PlanMakerComponent.cs:63-75 | the count check first, then the bound check; `ObjectiveThrows` exactly when the bag is non-empty and the objective faults on every call (an unknown fixed-room label reaching `graph.Rooms[-1]` at Helpers.cs:33-34, or fewer areas than rooms at line 251); otherwise a plan exactly when some candidate's run succeeds below `double.MaxValue`, and then it is the earliest strict minimum over the bag |
| PlanMaker.MakePlan | PlanMakerComponent.cs:63-303 | the component run sequentially computes `MakePlanSpec` |

## Left out

- Helpers.cs is not part of this model beyond the fixed-room lookup at Helpers.cs:33-34, whose failure on an unknown label is the `ObjectiveThrows` error: `CalculateSpacing`, the objective's penalty terms, `ConstraintDistanceRoomToPoint`, `ConstraintProportion` and the hand-written Nelder–Mead are double-precision numerics. The Accord `NelderMead` optimiser and the objective closure (PlanMakerComponent.cs:217-266) become the function parameter `optimize`. `topX`/`topY` (the spacings of the best solution) are kept as the raw solution vector.
- `Parallel.ForEach`, `ConcurrentBag`, the lock, the stopwatches and the timeout `state.Break()` of the plan maker. The model runs both loops sequentially to the end. The order of the concurrent bag is not modelled: the model's bag is in dissection order, which changes which of several equal-scoring candidates is chosen.
- PlanMaker.BuildCandidates: maps the requirement graph onto all dissections first, then expands the results in order. The source expands each dissection right after mapping it; both give the same bag because mapping changes nothing.
- Resource loading and JSON parsing of the dissection library (PlanMakerComponent.cs:77-90). Dissections arrive as a parameter with their integer labels already written as strings.
- PlanMaker.MakePlan: requires a requirement graph whose edges join its nodes, and library dissections with at least one node, at least as many rooms as nodes, and spans that are non-empty, ascending and non-negative. These are the library's data contract. Dissections with fewer rooms than nodes give mapped graphs with fewer rooms than nodes, which make the source throw when it draws the top graph (PlanMakerComponent.cs:307-318) or, with rooms fixed, inside the objective; dissections with no room or an empty span make the source throw too, and one with no node, met by a requirement graph with no node, sends `GetPermutations` into unbounded recursion. Negative or descending spans can make the source throw inside the objective (an index out of range at PlanMakerComponent.cs:247) or in `Enumerable.Repeat` at PlanMakerComponent.cs:213; they are excluded as part of the same data contract.
- Rhino geometry: the plane transform and the rewriting of `fixedPoints` (PlanMakerComponent.cs:93-98, 129-138), the settings and weight normalisation (100-125), and the drawing of rectangles (301-335). Only the dereference of the top graph at line 303 is modelled.
- Doubles are modelled as reals without rounding. `double.MaxValue` is its exact value. Areas are carried along unused.
- Ordering.Compare: ordinal comparison stands for the culture-sensitive `string.CompareTo`. Only its total-order facts are used.
- `GetHashCode`, `ToString`, `Equals(object)` beyond `==`, and the Grasshopper plumbing (`DA.GetData*`, `SetData*`, icons, GUIDs). PlanSettingsComponent.cs, Settings.cs and marmotInfo.cs are not part of this model.
- Permutations.GetPermutations: requires `length >= 1`. The source has no case for length 0 and recurses without end there.
- Mapping.MapOnto: requires every edge endpoint to be a node and, when the node counts agree, a target with at least one node. Otherwise the lookup at Graph.cs:107 throws once a permutation reaches an edge whose endpoint is not a node, or, for two graphs with no node, `GetPermutations` does not terminate.
- Symmetry.MirrorGraph: requires at least one room and non-empty spans. Otherwise `Max` and `Last` throw in the source.
- Graphs.MutableGraph.AddEdge: is `private` in the source but is called from the graph-building component. The model treats it as callable.
