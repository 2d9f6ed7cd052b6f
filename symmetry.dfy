/** The copies of a graph that the plan maker tries besides the graph itself: `Clone`, the
    quarter-turn `RotateGraph` and the three reflections of `MirrorGraph`. */
module Symmetry {
  import opened Seqs
  import opened Graphs

  /** `Clone`: the graph rebuilt by the constructor from copies of its lists. */
  function Clone(g: Graph): (c: Graph)
    ensures Canonical(c) && c.rooms == g.rooms && c.areas == g.areas
    ensures Elems(c.nodes) == Elems(g.nodes) && Elems(c.edges) == Elems(SortEdges(g.edges))
    ensures Canonical(g) ==> c == g
  {
    ConstructorCanonical(g.nodes, g.edges, g.rooms, g.areas);
    assert Canonical(g) ==> New(g.nodes, g.edges, g.rooms, g.areas) == g by {
      if Canonical(g) {
        NewOfCanonical(g, g.rooms, g.areas);
      }
    }
    New(g.nodes, g.edges, g.rooms, g.areas)
  }

  // ---- Rotation ----

  /** A room with its x and y spans exchanged. */
  function Swap(r: Room): Room {
    Room(r.ys, r.xs)
  }

  /** What `RotateGraph` returns: a clone whose every room has its spans exchanged. */
  function Rotated(g: Graph): Graph {
    var c := Clone(g);
    c.(rooms := seq(|c.rooms|, i requires 0 <= i < |c.rooms| => Swap(c.rooms[i])))
  }

  /** `RotateGraph` as written: clone, then overwrite each room in place. */
  method RotateGraph(g: Graph) returns (r: Graph)
    ensures r == Rotated(g)
  {
    var rotatedGraph := new MutableGraph(Clone(g));
    for i := 0 to |rotatedGraph.rooms|
      invariant |rotatedGraph.rooms| == |g.rooms|
      invariant rotatedGraph.Value() == Clone(g).(rooms := RotatedPrefix(g.rooms, i))
    {
      rotatedGraph.SetRoom(i, Swap(rotatedGraph.rooms[i]));
    }
    r := rotatedGraph.Value();
  }

  /** The room list after the loop's first `n` rounds. */
  function RotatedPrefix(rooms: seq<Room>, n: nat): seq<Room>
    requires n <= |rooms|
  {
    seq(|rooms|, i requires 0 <= i < |rooms| => if i < n then Swap(rooms[i]) else rooms[i])
  }

  /** A rotation keeps the graph's structure and exchanges the two spans of every room. */
  lemma RotatedSpec(g: Graph)
    ensures Canonical(Rotated(g))
    ensures Rotated(g).nodes == Clone(g).nodes && Rotated(g).edges == Clone(g).edges
    ensures Rotated(g).areas == g.areas && |Rotated(g).rooms| == |g.rooms|
    ensures forall i :: 0 <= i < |g.rooms| ==>
      Rotated(g).rooms[i].xs == g.rooms[i].ys && Rotated(g).rooms[i].ys == g.rooms[i].xs
  {
  }

  /** Rotating twice gives back the clone, so the graph itself when it is canonical. */
  lemma RotateTwice(g: Graph)
    ensures Rotated(Rotated(g)) == Clone(g)
  {
    var c := Clone(g);
    assert Clone(Rotated(g)) == Rotated(g);
    assert Rotated(Rotated(g)).rooms == c.rooms;
  }

  // ---- Reflection ----

  function Last(s: seq<int>): int
    requires |s| > 0
  {
    s[|s| - 1]
  }

  /** What `MirrorGraph` demands: `Max` over the rooms needs a room, `Last` a non-empty span. */
  predicate MirrorReady(rooms: seq<Room>) {
    |rooms| >= 1 && forall i :: 0 <= i < |rooms| ==> |rooms[i].xs| > 0 && |rooms[i].ys| > 0
  }

  function Xs(rooms: seq<Room>): seq<seq<int>> {
    seq(|rooms|, i requires 0 <= i < |rooms| => rooms[i].xs)
  }

  function Ys(rooms: seq<Room>): seq<seq<int>> {
    seq(|rooms|, i requires 0 <= i < |rooms| => rooms[i].ys)
  }

  /** `Max(room => span.Last())`: the largest last entry over all spans. */
  function MaxLast(spans: seq<seq<int>>): (m: int)
    requires |spans| >= 1 && forall i :: 0 <= i < |spans| ==> |spans[i]| > 0
    ensures forall i :: 0 <= i < |spans| ==> Last(spans[i]) <= m
    ensures exists i :: 0 <= i < |spans| && Last(spans[i]) == m
  {
    var n := |spans| - 1;
    if n == 0 then Last(spans[0])
    else
      var m := MaxLast(spans[..n]);
      assert forall i :: 0 <= i < n ==> spans[..n][i] == spans[i];
      if Last(spans[n]) > m then Last(spans[n]) else m
  }

  /** `span.Select(j => width - j).Reverse()`. */
  function MirrorSpan(s: seq<int>, width: int): seq<int> {
    seq(|s|, i requires 0 <= i < |s| => width - s[|s| - 1 - i])
  }

  /** Reflecting a span twice about the same width gives it back. */
  lemma MirrorSpanTwice(s: seq<int>, width: int)
    ensures MirrorSpan(MirrorSpan(s, width), width) == s
  {
  }

  predicate Ascending(s: seq<int>) {
    forall i, j :: 0 <= i < j < |s| ==> s[i] < s[j]
  }

  predicate Within(s: seq<int>, lo: int, hi: int) {
    forall i :: 0 <= i < |s| ==> lo <= s[i] <= hi
  }

  /** A reflected span is again ascending and stays within `0 .. width`. */
  lemma MirrorSpanShape(s: seq<int>, width: int)
    ensures Ascending(s) ==> Ascending(MirrorSpan(s, width))
    ensures Within(s, 0, width) ==> Within(MirrorSpan(s, width), 0, width)
  {
  }

  /** The rooms with the x spans, the y spans or both reflected. */
  function FlipRooms(rooms: seq<Room>, flipX: bool, flipY: bool, mx: int, my: int): seq<Room> {
    seq(|rooms|, i requires 0 <= i < |rooms| => FlipRoom(rooms[i], flipX, flipY, mx, my))
  }

  function FlipRoom(r: Room, flipX: bool, flipY: bool, mx: int, my: int): Room {
    Room(if flipX then MirrorSpan(r.xs, mx) else r.xs, if flipY then MirrorSpan(r.ys, my) else r.ys)
  }

  /** One reflection: a clone whose rooms are reflected about the widest span on each axis. */
  function Flipped(g: Graph, flipX: bool, flipY: bool): Graph
    requires MirrorReady(g.rooms)
  {
    Clone(g).(rooms := FlipRooms(g.rooms, flipX, flipY, MaxLast(Xs(g.rooms)), MaxLast(Ys(g.rooms))))
  }

  /** What `MirrorGraph` returns: the x-, y- and xy-reflections, in that order. */
  function Mirrors(g: Graph): seq<Graph>
    requires MirrorReady(g.rooms)
  {
    seq(3, k requires 0 <= k < 3 => Flipped(g, k != 1, k != 0))
  }

  lemma MirrorsAt(g: Graph)
    requires MirrorReady(g.rooms)
    ensures |Mirrors(g)| == 3
    ensures Mirrors(g)[0] == Flipped(g, true, false)
    ensures Mirrors(g)[1] == Flipped(g, false, true)
    ensures Mirrors(g)[2] == Flipped(g, true, true)
  {
  }

  lemma MirrorsOf(g: Graph, xm: Graph, ym: Graph, xym: Graph)
    requires MirrorReady(g.rooms)
    requires xm == Flipped(g, true, false) && ym == Flipped(g, false, true) && xym == Flipped(g, true, true)
    ensures [xm, ym, xym] == Mirrors(g)
  {
    MirrorsAt(g);
  }

  /** `MirrorGraph` as written: three clones, the two widths, then one loop that overwrites
      room `i` of each clone. */
  method MirrorGraph(g: Graph) returns (r: seq<Graph>)
    requires MirrorReady(g.rooms)
    ensures r == Mirrors(g)
  {
    var c := Clone(g);
    var xmMappedGraph := new MutableGraph(c);
    var ymMappedGraph := new MutableGraph(c);
    var xymMappedGraph := new MutableGraph(c);
    var mxWidth := MaxLast(Xs(g.rooms));
    var myWidth := MaxLast(Ys(g.rooms));
    for i := 0 to |g.rooms|
      invariant xmMappedGraph.Value() == c.(rooms := xmMappedGraph.rooms)
      invariant ymMappedGraph.Value() == c.(rooms := ymMappedGraph.rooms)
      invariant xymMappedGraph.Value() == c.(rooms := xymMappedGraph.rooms)
      invariant FlippedUpTo(xmMappedGraph.rooms, g.rooms, i, true, false, mxWidth, myWidth)
      invariant FlippedUpTo(ymMappedGraph.rooms, g.rooms, i, false, true, mxWidth, myWidth)
      invariant FlippedUpTo(xymMappedGraph.rooms, g.rooms, i, true, true, mxWidth, myWidth)
    {
      FlipStep(xmMappedGraph.rooms, g.rooms, i, true, false, mxWidth, myWidth);
      FlipStep(ymMappedGraph.rooms, g.rooms, i, false, true, mxWidth, myWidth);
      FlipStep(xymMappedGraph.rooms, g.rooms, i, true, true, mxWidth, myWidth);
      var xr, yr, xyr := xmMappedGraph.rooms[i], ymMappedGraph.rooms[i], xymMappedGraph.rooms[i];
      xmMappedGraph.SetRoom(i, Room(MirrorSpan(xr.xs, mxWidth), xr.ys));
      ymMappedGraph.SetRoom(i, Room(yr.xs, MirrorSpan(yr.ys, myWidth)));
      xymMappedGraph.SetRoom(i, Room(MirrorSpan(xyr.xs, mxWidth), MirrorSpan(xyr.ys, myWidth)));
    }
    FlipDone(xmMappedGraph.rooms, g.rooms, true, false, mxWidth, myWidth);
    FlipDone(ymMappedGraph.rooms, g.rooms, false, true, mxWidth, myWidth);
    FlipDone(xymMappedGraph.rooms, g.rooms, true, true, mxWidth, myWidth);
    r := [xmMappedGraph.Value(), ymMappedGraph.Value(), xymMappedGraph.Value()];
    MirrorsOf(g, r[0], r[1], r[2]);
  }

  /** The mirror loop's view of one clone's rooms after `n` rounds. */
  predicate FlippedUpTo(out: seq<Room>, rooms: seq<Room>, n: nat, flipX: bool, flipY: bool, mx: int, my: int) {
    |out| == |rooms| && n <= |rooms| &&
    (forall k :: 0 <= k < n ==> out[k] == FlipRoom(rooms[k], flipX, flipY, mx, my)) &&
    (forall k :: n <= k < |rooms| ==> out[k] == rooms[k])
  }

  lemma FlipStep(out: seq<Room>, rooms: seq<Room>, n: nat, flipX: bool, flipY: bool, mx: int, my: int)
    requires FlippedUpTo(out, rooms, n, flipX, flipY, mx, my) && n < |rooms|
    ensures |out| == |rooms| && out[n] == rooms[n]
    ensures FlippedUpTo(out[n := FlipRoom(rooms[n], flipX, flipY, mx, my)], rooms, n + 1, flipX, flipY, mx, my)
  {
  }

  lemma FlipDone(out: seq<Room>, rooms: seq<Room>, flipX: bool, flipY: bool, mx: int, my: int)
    requires FlippedUpTo(out, rooms, |rooms|, flipX, flipY, mx, my)
    ensures out == FlipRooms(rooms, flipX, flipY, mx, my)
  {
  }

  /** Every reflection keeps the clone's nodes, edges, areas and number of rooms, reflects its axis
      about the widest span end (index `j` becomes `max - j`, each span reversed), and leaves the
      axis it does not reflect as it was. */
  lemma MirrorsSpec(g: Graph)
    requires MirrorReady(g.rooms)
    ensures |Mirrors(g)| == 3
    ensures forall k :: 0 <= k < 3 ==>
      Canonical(Mirrors(g)[k]) &&
      Mirrors(g)[k].nodes == Clone(g).nodes && Mirrors(g)[k].edges == Clone(g).edges &&
      Mirrors(g)[k].areas == g.areas && |Mirrors(g)[k].rooms| == |g.rooms|
    ensures forall i :: 0 <= i < |g.rooms| ==>
      Mirrors(g)[0].rooms[i].ys == g.rooms[i].ys && Mirrors(g)[1].rooms[i].xs == g.rooms[i].xs
    ensures forall i :: 0 <= i < |g.rooms| ==>
      Mirrors(g)[0].rooms[i].xs == MirrorSpan(g.rooms[i].xs, MaxLast(Xs(g.rooms))) &&
      Mirrors(g)[1].rooms[i].ys == MirrorSpan(g.rooms[i].ys, MaxLast(Ys(g.rooms)))
    ensures forall i :: 0 <= i < |g.rooms| ==>
      Mirrors(g)[2].rooms[i] == Room(Mirrors(g)[0].rooms[i].xs, Mirrors(g)[1].rooms[i].ys)
  {
    MirrorsAt(g);
  }

  /** When every x span is ascending and non-negative and some room starts at column 0 (as in
      a dissection), reflecting in x keeps the x width, so reflecting twice gives back the clone. */
  lemma MirrorXTwice(g: Graph)
    requires MirrorReady(g.rooms)
    requires forall i :: 0 <= i < |g.rooms| ==> g.rooms[i].xs[0] >= 0
    requires exists i :: 0 <= i < |g.rooms| && g.rooms[i].xs[0] == 0
    ensures MirrorReady(Flipped(g, true, false).rooms)
    ensures Flipped(Flipped(g, true, false), true, false) == Clone(g)
  {
    var c := Clone(g);
    var fr := FlipRooms(g.rooms, true, false, MaxLast(Xs(g.rooms)), MaxLast(Ys(g.rooms)));
    FlipXTwiceRooms(g.rooms, MaxLast(Ys(g.rooms)));
    var h := c.(rooms := fr);
    assert Flipped(g, true, false) == h;
    assert Clone(h) == h;
  }

  /** The room-level core of `MirrorXTwice`: a second reflection about the same width restores
      every span. */
  lemma FlipXTwiceRooms(rooms: seq<Room>, my: int)
    requires MirrorReady(rooms)
    requires forall i :: 0 <= i < |rooms| ==> rooms[i].xs[0] >= 0
    requires exists i :: 0 <= i < |rooms| && rooms[i].xs[0] == 0
    ensures MirrorReady(FlipRooms(rooms, true, false, MaxLast(Xs(rooms)), my))
    ensures MaxLast(Xs(FlipRooms(rooms, true, false, MaxLast(Xs(rooms)), my))) == MaxLast(Xs(rooms))
    ensures forall my' :: FlipRooms(FlipRooms(rooms, true, false, MaxLast(Xs(rooms)), my), true, false, MaxLast(Xs(rooms)), my') == rooms
  {
    var m := MaxLast(Xs(rooms));
    FlipXWidth(rooms, my);
    var fr := FlipRooms(rooms, true, false, m, my);
    forall my': int, i | 0 <= i < |rooms|
      ensures FlipRooms(fr, true, false, m, my')[i] == rooms[i]
    {
      MirrorSpanTwice(rooms[i].xs, m);
    }
  }

  /** The x-reflection of rooms that start at column 0 or later, one of them at 0, keeps the
      x width. */
  lemma FlipXWidth(rooms: seq<Room>, my: int)
    requires MirrorReady(rooms)
    requires forall i :: 0 <= i < |rooms| ==> rooms[i].xs[0] >= 0
    requires exists i :: 0 <= i < |rooms| && rooms[i].xs[0] == 0
    ensures MirrorReady(FlipRooms(rooms, true, false, MaxLast(Xs(rooms)), my))
    ensures MaxLast(Xs(FlipRooms(rooms, true, false, MaxLast(Xs(rooms)), my))) == MaxLast(Xs(rooms))
  {
    var m := MaxLast(Xs(rooms));
    var spans := Xs(FlipRooms(rooms, true, false, m, my));
    var z :| 0 <= z < |rooms| && rooms[z].xs[0] == 0;
    forall i | 0 <= i < |spans|
      ensures |spans[i]| > 0 && Last(spans[i]) == m - rooms[i].xs[0] <= m
    {
      assert spans[i] == MirrorSpan(rooms[i].xs, m);
    }
    assert Last(spans[z]) == m;
  }

  // ---- The shape of dissection rooms, kept by every symmetry ----

  /** A span as the dissection library writes it: non-empty, strictly ascending, from 0 up. */
  predicate GoodSpan(s: seq<int>) {
    |s| > 0 && Ascending(s) && s[0] >= 0
  }

  predicate ValidRooms(rooms: seq<Room>) {
    MirrorReady(rooms) && forall i :: 0 <= i < |rooms| ==> GoodSpan(rooms[i].xs) && GoodSpan(rooms[i].ys)
  }

  /** A good span lies between 0 and its last entry. */
  lemma GoodSpanBounds(s: seq<int>)
    requires GoodSpan(s)
    ensures 0 <= s[0] <= Last(s) && Within(s, 0, Last(s))
  {
    forall i | 0 <= i < |s| ensures 0 <= s[i] <= Last(s) {
      if 0 < i {
        assert s[0] < s[i];
      }
      if i < |s| - 1 {
        assert s[i] < s[|s| - 1];
      }
    }
  }

  /** Reflecting a good span about a width no smaller than its last entry gives a good span that
      again ends at or below the width. */
  lemma MirrorGood(s: seq<int>, width: int)
    requires GoodSpan(s) && Last(s) <= width
    ensures GoodSpan(MirrorSpan(s, width)) && Last(MirrorSpan(s, width)) <= width
  {
    GoodSpanBounds(s);
    MirrorSpanShape(s, width);
  }

  /** The rooms of a rotated graph have the shape of the original rooms. */
  lemma RotatedValid(g: Graph)
    requires ValidRooms(g.rooms)
    ensures ValidRooms(Rotated(g).rooms)
  {
    RotatedSpec(g);
  }

  /** The rooms of every reflection have the shape of the original rooms. */
  lemma FlippedValid(g: Graph, flipX: bool, flipY: bool)
    requires ValidRooms(g.rooms)
    ensures ValidRooms(Flipped(g, flipX, flipY).rooms)
  {
    var mx, my := MaxLast(Xs(g.rooms)), MaxLast(Ys(g.rooms));
    var rooms := Flipped(g, flipX, flipY).rooms;
    forall i | 0 <= i < |rooms| ensures GoodSpan(rooms[i].xs) && GoodSpan(rooms[i].ys) {
      assert Xs(g.rooms)[i] == g.rooms[i].xs && Ys(g.rooms)[i] == g.rooms[i].ys;
      assert rooms[i] == FlipRoom(g.rooms[i], flipX, flipY, mx, my);
      MirrorGood(g.rooms[i].xs, mx);
      MirrorGood(g.rooms[i].ys, my);
    }
  }
}
