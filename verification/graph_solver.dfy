/**
 * The conflict graph and its colourings. A graph is networkx's undirected `Graph` as
 * the solver uses it: nodes in insertion order, a `size` attribute per node, and a
 * weighted adjacency kept symmetric. A colouring maps node ids to layer numbers.
 */
module GraphSolver {
  import opened Wrappers
  import opened Geometry
  import opened SvgParser
  import opened GeometryEngine
  import opened Sorting
  import opened SetFacts
  import opened Counting

  /**
   * An undirected weighted graph. An edge is stored once, under its endpoints in
   * ascending order, so `graph[u][v]` and `graph[v][u]` are the same entry.
   */
  datatype Graph = Graph(nodes: seq<int>, size: map<int, real>, weight: map<Pair, real>)

  type Coloring = map<int, int>

  function Key(u: int, v: int): Pair {
    if u <= v then (u, v) else (v, u)
  }

  /** What networkx keeps true of a graph: nodes listed once, and every edge joins two of them. */
  predicate WellFormed(g: Graph) {
    NoDuplicates(g.nodes) &&
    forall e :: e in g.weight ==> e.0 in g.nodes && e.1 in g.nodes
  }

  predicate Adjacent(g: Graph, u: int, v: int) {
    Key(u, v) in g.weight
  }

  /** `graph[u][v]['weight']` for an edge, and 0 between non-neighbours. */
  function Weight(g: Graph, u: int, v: int): real {
    if Adjacent(g, u, v) then g.weight[Key(u, v)] else 0.0
  }

  function NodeSet(g: Graph): set<int> {
    set v | v in g.nodes
  }

  /** Both endpoints of an overlap record are `u` and `v`, in either order. */
  predicate Joins(t: Overlap, u: int, v: int) {
    (t.0 == u && t.1 == v) || (t.0 == v && t.1 == u)
  }

  predicate Mentions(overlaps: seq<Overlap>, u: int, v: int) {
    exists k :: 0 <= k < |overlaps| && Joins(overlaps[k], u, v)
  }

  /** Records naming the same pair of shapes carry the same area. */
  predicate ConsistentWeights(overlaps: seq<Overlap>) {
    forall a, b :: 0 <= a < |overlaps| && 0 <= b < |overlaps| && Joins(overlaps[b], overlaps[a].0, overlaps[a].1) ==>
      overlaps[a].2 == overlaps[b].2
  }

  lemma {:induction false} MentionsCons(overlaps: seq<Overlap>)
    requires |overlaps| > 0
    ensures forall a, b :: Mentions(overlaps, a, b) <==> Joins(overlaps[0], a, b) || Mentions(overlaps[1..], a, b)
  {
    forall a, b ensures Mentions(overlaps, a, b) <==> Joins(overlaps[0], a, b) || Mentions(overlaps[1..], a, b) {
      if Mentions(overlaps[1..], a, b) {
        var k :| 0 <= k < |overlaps| - 1 && Joins(overlaps[1..][k], a, b);
        assert overlaps[k + 1] == overlaps[1..][k];
      }
      if Mentions(overlaps, a, b) && !Joins(overlaps[0], a, b) {
        var k :| 0 <= k < |overlaps| && Joins(overlaps[k], a, b);
        assert overlaps[1..][k - 1] == overlaps[k];
      }
    }
  }

  // ---------------------------------------------------------------------------
  // Building the overlap graph
  // ---------------------------------------------------------------------------

  /** The node part of `add_edge`: a node not yet present is appended with no attributes. */
  function Touch(g: Graph, v: int): (r: Graph)
    ensures NoDuplicates(g.nodes) ==> NoDuplicates(r.nodes)
    ensures forall a :: a in r.nodes <==> a in g.nodes || a == v
    ensures |g.nodes| <= |r.nodes| && r.nodes[..|g.nodes|] == g.nodes
    ensures v in g.nodes ==> r == g
    ensures r.size == g.size && r.weight == g.weight
  {
    if v in g.nodes then g
    else
      var r := g.(nodes := g.nodes + [v]);
      assert forall a :: a in r.nodes <==> a in g.nodes || a == v;
      r
  }

  /** `add_edge(u, v, weight=w)`: adds missing endpoints and sets the edge's weight. */
  function AddEdge(g: Graph, u: int, v: int, w: real): (r: Graph)
    ensures r.size == g.size
    ensures forall a :: a in r.nodes <==> a in g.nodes || a == u || a == v
    ensures NoDuplicates(g.nodes) ==> NoDuplicates(r.nodes)
    ensures |g.nodes| <= |r.nodes| && r.nodes[..|g.nodes|] == g.nodes
    ensures u in g.nodes && v in g.nodes ==> r.nodes == g.nodes
    ensures r.weight == g.weight[Key(u, v) := w]
  {
    var g1 := Touch(Touch(g, u), v);
    assert g1.nodes[..|g.nodes|] == g1.nodes[..|Touch(g, u).nodes|][..|g.nodes|];
    g1.(weight := g1.weight[Key(u, v) := w])
  }

  /** After `add_edge(u, v)` exactly one more pair is adjacent, either way round, and only its weight changed. */
  lemma {:induction false} AddEdgeEdges(g: Graph, u: int, v: int, w: real, a: int, b: int)
    ensures Adjacent(AddEdge(g, u, v, w), a, b) <==> Adjacent(g, a, b) || Joins((u, v, w), a, b)
    ensures Weight(AddEdge(g, u, v, w), a, b) == if Joins((u, v, w), a, b) then w else Weight(g, a, b)
  {
    assert Key(a, b) == Key(u, v) <==> Joins((u, v, w), a, b);
  }

  lemma {:induction false} AddEdgeWellFormed(g: Graph, u: int, v: int, w: real)
    requires WellFormed(g)
    ensures WellFormed(AddEdge(g, u, v, w))
  {
    var r := AddEdge(g, u, v, w);
    forall e | e in r.weight ensures e.0 in r.nodes && e.1 in r.nodes {
      if e != Key(u, v) {
        assert e in g.weight;
      }
    }
  }

  /** The edge loop of `build_overlap_graph`, records applied in order. */
  function AddEdges(g: Graph, overlaps: seq<Overlap>): (r: Graph)
    ensures r.size == g.size
    ensures |g.nodes| <= |r.nodes| && r.nodes[..|g.nodes|] == g.nodes
    ensures (forall k :: 0 <= k < |overlaps| ==> overlaps[k].0 in g.nodes && overlaps[k].1 in g.nodes) ==> r.nodes == g.nodes
    decreases |overlaps|
  {
    if |overlaps| == 0 then g
    else
      var t := overlaps[0];
      var g1 := AddEdge(g, t.0, t.1, t.2);
      var r := AddEdges(g1, overlaps[1..]);
      assert r.nodes[..|g.nodes|] == r.nodes[..|g1.nodes|][..|g.nodes|];
      r
  }

  lemma {:induction false} AddEdgesWellFormed(g: Graph, overlaps: seq<Overlap>)
    requires WellFormed(g)
    ensures WellFormed(AddEdges(g, overlaps))
    decreases |overlaps|
  {
    if |overlaps| > 0 {
      var t := overlaps[0];
      AddEdgeWellFormed(g, t.0, t.1, t.2);
      AddEdgesWellFormed(AddEdge(g, t.0, t.1, t.2), overlaps[1..]);
    }
  }

  /** The pairs adjacent after the loop are those adjacent before and those some record names; no other weight changes. */
  lemma {:induction false} AddEdgesEdges(g: Graph, overlaps: seq<Overlap>, a: int, b: int)
    ensures Adjacent(AddEdges(g, overlaps), a, b) <==> Adjacent(g, a, b) || Mentions(overlaps, a, b)
    ensures !Mentions(overlaps, a, b) ==> Weight(AddEdges(g, overlaps), a, b) == Weight(g, a, b)
    decreases |overlaps|
  {
    if |overlaps| > 0 {
      var t := overlaps[0];
      MentionsCons(overlaps);
      AddEdgeEdges(g, t.0, t.1, t.2, a, b);
      AddEdgesEdges(AddEdge(g, t.0, t.1, t.2), overlaps[1..], a, b);
    } else {
      assert !Mentions(overlaps, a, b);
    }
  }

  /** The position of the last record naming `a` and `b`. */
  function LastJoin(overlaps: seq<Overlap>, a: int, b: int): (k: nat)
    requires Mentions(overlaps, a, b)
    ensures k < |overlaps| && Joins(overlaps[k], a, b)
    ensures forall j :: k < j < |overlaps| ==> !Joins(overlaps[j], a, b)
    decreases |overlaps|
  {
    MentionsCons(overlaps);
    if Mentions(overlaps[1..], a, b) then
      var k := 1 + LastJoin(overlaps[1..], a, b);
      assert overlaps[k] == overlaps[1..][k - 1];
      assert forall j :: k < j < |overlaps| ==> overlaps[j] == overlaps[1..][j - 1];
      k
    else
      assert forall j :: 0 < j < |overlaps| ==> overlaps[j] == overlaps[1..][j - 1];
      0
  }

  /** A pair named several times keeps the weight of the last record naming it, as repeated `add_edge` calls do. */
  lemma {:induction false} AddEdgesLastWins(g: Graph, overlaps: seq<Overlap>, a: int, b: int)
    requires Mentions(overlaps, a, b)
    ensures Weight(AddEdges(g, overlaps), a, b) == overlaps[LastJoin(overlaps, a, b)].2
    decreases |overlaps|
  {
    var t := overlaps[0];
    var tail := overlaps[1..];
    var g1 := AddEdge(g, t.0, t.1, t.2);
    assert AddEdges(g, overlaps) == AddEdges(g1, tail);
    MentionsCons(overlaps);
    if Mentions(tail, a, b) {
      AddEdgesLastWins(g1, tail, a, b);
      assert overlaps[LastJoin(overlaps, a, b)] == tail[LastJoin(tail, a, b)];
    } else {
      AddEdgesEdges(g1, tail, a, b);
      AddEdgeEdges(g, t.0, t.1, t.2, a, b);
    }
  }

  /** When every pair carries one area, the graph holds that area on each edge. */
  lemma {:induction false} AddEdgesWeight(g: Graph, overlaps: seq<Overlap>, k: nat)
    requires ConsistentWeights(overlaps) && k < |overlaps|
    ensures Weight(AddEdges(g, overlaps), overlaps[k].0, overlaps[k].1) == overlaps[k].2
  {
    var a, b := overlaps[k].0, overlaps[k].1;
    assert Joins(overlaps[k], a, b);
    AddEdgesLastWins(g, overlaps, a, b);
  }

  function Range(n: nat): (r: seq<int>)
    ensures |r| == n && forall i :: 0 <= i < n ==> r[i] == i
  {
    seq(n, i => i)
  }

  predicate EndpointsIn(overlaps: seq<Overlap>, n: nat) {
    forall k :: 0 <= k < |overlaps| ==> 0 <= overlaps[k].0 < n && 0 <= overlaps[k].1 < n
  }

  /** The node loop of `build_overlap_graph`: shape i becomes node i, sized by its area. */
  function InitialGraph(shapes: seq<Shape>): (g: Graph)
    ensures WellFormed(g)
    ensures forall v :: v in g.nodes <==> 0 <= v < |shapes|
  {
    var n := |shapes|;
    var g := Graph(Range(n), map i | 0 <= i < n :: Area(shapes[i].geometry), map[]);
    forall v | 0 <= v < n ensures v in g.nodes {
      assert g.nodes[v] == v;
    }
    g
  }

  /**
   * `build_overlap_graph`: one node per shape, numbered by position and sized by its
   * area, then one edge per pair some record names. Ids outside the shapes' range
   * become extra nodes without a size.
   */
  function BuildOverlapGraph(shapes: seq<Shape>, overlaps: seq<Overlap>): (g: Graph)
    ensures |shapes| <= |g.nodes| && forall i :: 0 <= i < |shapes| ==> g.nodes[i] == i
    ensures EndpointsIn(overlaps, |shapes|) ==> g.nodes == Range(|shapes|)
    ensures forall v :: v in g.size <==> 0 <= v < |shapes|
    ensures forall i :: 0 <= i < |shapes| ==> g.size[i] == Area(shapes[i].geometry)
  {
    var g0 := InitialGraph(shapes);
    var r := AddEdges(g0, overlaps);
    InitialGraphHolds(shapes, overlaps);
    assert forall i :: 0 <= i < |shapes| ==> r.nodes[i] == r.nodes[..|g0.nodes|][i];
    r
  }

  /** The graph before any edge: nodes `0 .. n-1` in order, each sized by its shape, and every in-range endpoint a node. */
  lemma {:induction false} InitialGraphHolds(shapes: seq<Shape>, overlaps: seq<Overlap>)
    ensures InitialGraph(shapes).nodes == Range(|shapes|)
    ensures forall v :: v in InitialGraph(shapes).size <==> 0 <= v < |shapes|
    ensures forall i :: 0 <= i < |shapes| ==> InitialGraph(shapes).size[i] == Area(shapes[i].geometry)
    ensures EndpointsIn(overlaps, |shapes|) ==>
      forall k :: 0 <= k < |overlaps| ==> overlaps[k].0 in InitialGraph(shapes).nodes && overlaps[k].1 in InitialGraph(shapes).nodes
  {
    var nodes := InitialGraph(shapes).nodes;
    if EndpointsIn(overlaps, |shapes|) {
      forall k | 0 <= k < |overlaps| ensures overlaps[k].0 in nodes && overlaps[k].1 in nodes {
        assert nodes[overlaps[k].0] == overlaps[k].0 && nodes[overlaps[k].1] == overlaps[k].1;
      }
    }
  }

  /** The built graph is well formed, and two nodes are adjacent exactly when some record names them. */
  lemma {:induction false} BuildOverlapGraphEdges(shapes: seq<Shape>, overlaps: seq<Overlap>, a: int, b: int)
    ensures WellFormed(BuildOverlapGraph(shapes, overlaps))
    ensures Adjacent(BuildOverlapGraph(shapes, overlaps), a, b) <==> Mentions(overlaps, a, b)
  {
    AddEdgesWellFormed(InitialGraph(shapes), overlaps);
    AddEdgesEdges(InitialGraph(shapes), overlaps, a, b);
  }

  /** The edge between a pair the records name carries the area they give it. */
  lemma {:induction false} BuildOverlapGraphWeights(shapes: seq<Shape>, overlaps: seq<Overlap>)
    requires ConsistentWeights(overlaps)
    ensures forall k :: 0 <= k < |overlaps| ==>
      Adjacent(BuildOverlapGraph(shapes, overlaps), overlaps[k].0, overlaps[k].1) &&
      Weight(BuildOverlapGraph(shapes, overlaps), overlaps[k].0, overlaps[k].1) == overlaps[k].2
  {
    var g0 := InitialGraph(shapes);
    forall k | 0 <= k < |overlaps|
      ensures Adjacent(BuildOverlapGraph(shapes, overlaps), overlaps[k].0, overlaps[k].1)
      ensures Weight(BuildOverlapGraph(shapes, overlaps), overlaps[k].0, overlaps[k].1) == overlaps[k].2
    {
      AddEdgesWeight(g0, overlaps, k);
      assert Joins(overlaps[k], overlaps[k].0, overlaps[k].1);
      BuildOverlapGraphEdges(shapes, overlaps, overlaps[k].0, overlaps[k].1);
    }
  }

  /** What the overlap detector reports (pairs i < j, each with its own intersection area) meets that condition. */
  lemma {:induction false} DetectedOverlapsConsistent(shapes: seq<Shape>, o: Oracle, overlaps: seq<Overlap>)
    requires forall t :: t in overlaps ==> 0 <= t.0 < t.1 < |shapes| && t == OverlapOf(shapes, o, t.0, t.1)
    ensures ConsistentWeights(overlaps)
    ensures EndpointsIn(overlaps, |shapes|)
  {
    forall a, b | 0 <= a < |overlaps| && 0 <= b < |overlaps| && Joins(overlaps[b], overlaps[a].0, overlaps[a].1)
      ensures overlaps[a].2 == overlaps[b].2
    {
      assert overlaps[a] in overlaps && overlaps[b] in overlaps;
    }
    forall k | 0 <= k < |overlaps| ensures 0 <= overlaps[k].0 < |shapes| && 0 <= overlaps[k].1 < |shapes| {
      assert overlaps[k] in overlaps;
    }
  }

  // ---------------------------------------------------------------------------
  // force_k colouring
  // ---------------------------------------------------------------------------

  /** A node's `size` attribute, 0 for a node that has none. */
  function SizeOf(g: Graph): int -> real {
    v => if v in g.size then g.size[v] else 0.0
  }

  /** The order `force_k_coloring` visits nodes in: largest first, ties in insertion order. */
  function ForceKOrder(g: Graph): seq<int> {
    SortDesc(g.nodes, SizeOf(g))
  }

  /** The members of `placed` that `c` puts in layer `L`, in the order they were placed. */
  function LayerOf(placed: seq<int>, c: Coloring, L: int): (r: seq<int>)
    ensures forall x :: x in r <==> x in placed && x in c && c[x] == L
    decreases |placed|
  {
    if |placed| == 0 then []
    else
      var init := placed[..|placed| - 1];
      var x := placed[|placed| - 1];
      assert placed == init + [x];
      LayerOf(init, c, L) + (if x in c && c[x] == L then [x] else [])
  }

  /** The weight `node` would share with a layer: its edge weights to the layer's members, summed in layer order. */
  function LayerCost(g: Graph, node: int, layer: seq<int>): real
    decreases |layer|
  {
    if |layer| == 0 then 0.0
    else LayerCost(g, node, layer[..|layer| - 1]) + Weight(g, node, layer[|layer| - 1])
  }

  /** The cost vector `force_k_coloring` computes for `node` once `placed` are placed. */
  function PlacementCosts(g: Graph, node: int, placed: seq<int>, c: Coloring, k: nat): (costs: seq<real>)
    ensures |costs| == k
  {
    seq(k, L => LayerCost(g, node, LayerOf(placed, c, L)))
  }

  /** `np.argmin`: the first position holding the least value. */
  function ArgMin(costs: seq<real>): (r: nat)
    requires |costs| > 0
    ensures r < |costs|
    ensures forall i :: 0 <= i < |costs| ==> costs[r] <= costs[i]
    ensures forall i :: 0 <= i < r ==> costs[r] < costs[i]
    decreases |costs|
  {
    if |costs| == 1 then 0
    else
      var init := costs[..|costs| - 1];
      var m := ArgMin(init);
      assert forall i :: 0 <= i < |init| ==> init[i] == costs[i];
      if costs[|costs| - 1] < costs[m] then |costs| - 1 else m
  }

  lemma {:induction false} LayerOfRecolour(placed: seq<int>, c: Coloring, x: int, col: int, L: int)
    requires x !in placed
    ensures LayerOf(placed, c[x := col], L) == LayerOf(placed, c, L)
    decreases |placed|
  {
    if |placed| > 0 {
      var init := placed[..|placed| - 1];
      assert x !in init by { assert forall y :: y in init ==> y in placed; }
      LayerOfRecolour(init, c, x, col, L);
    }
  }

  lemma {:induction false} PlacementCostsRecolour(g: Graph, node: int, placed: seq<int>, c: Coloring, k: nat, x: int, col: int)
    requires x !in placed
    ensures PlacementCosts(g, node, placed, c[x := col], k) == PlacementCosts(g, node, placed, c, k)
  {
    forall L | 0 <= L < k ensures LayerOf(placed, c[x := col], L) == LayerOf(placed, c, L) {
      LayerOfRecolour(placed, c, x, col, L);
    }
  }

  lemma {:induction false} LayerOfPlace(placed: seq<int>, c: Coloring, x: int, col: int, L: int)
    requires x !in placed
    ensures LayerOf(placed + [x], c[x := col], L) == LayerOf(placed, c, L) + (if col == L then [x] else [])
  {
    assert (placed + [x])[..|placed|] == placed;
    LayerOfRecolour(placed, c, x, col, L);
  }

  /** With nothing placed yet, every layer costs nothing, so the first node goes to layer 0. */
  lemma {:induction false} FirstPlacement(g: Graph, node: int, c: Coloring, k: nat)
    requires k > 0
    ensures ArgMin(PlacementCosts(g, node, [], c, k)) == 0
  {
    var costs := PlacementCosts(g, node, [], c, k);
    assert forall L :: 0 <= L < k ==> costs[L] == 0.0;
    assert costs[0] == 0.0 && costs[ArgMin(costs)] == 0.0;
  }

  /** The costs of the method's inner loop, read off the layer lists. */
  function LayerCosts(g: Graph, node: int, layers: seq<seq<int>>): (costs: seq<real>)
    ensures |costs| == |layers|
  {
    seq(|layers|, L requires 0 <= L < |layers| => LayerCost(g, node, layers[L]))
  }

  /** The layer lists hold the placed nodes, split by layer. */
  predicate LayersMatch(layers: seq<seq<int>>, placed: seq<int>, c: Coloring, k: nat) {
    |layers| == k && forall L :: 0 <= L < k ==> layers[L] == LayerOf(placed, c, L)
  }

  /** Each of the first t nodes of the order sits in the first cheapest layer at the time it was placed. */
  predicate GreedyChoices(g: Graph, order: seq<int>, t: nat, c: Coloring, k: nat)
    requires t <= |order| && k > 0
  {
    forall s :: 0 <= s < t ==> order[s] in c && c[order[s]] == ArgMin(PlacementCosts(g, order[s], order[..s], c, k))
  }

  /** Exactly the placed nodes have a layer, and it is below k. */
  predicate Placed(c: Coloring, placed: seq<int>, k: nat) {
    c.Keys == (set v | v in placed) && forall v :: v in c ==> 0 <= c[v] < k
  }

  lemma {:induction false} NextUnplaced(order: seq<int>, t: nat)
    requires t < |order| && NoDuplicates(order)
    ensures order[t] !in order[..t]
    ensures order[..t + 1] == order[..t] + [order[t]]
  {
    forall s | 0 <= s < t ensures order[..t][s] != order[t] {
      assert order[..t][s] == order[s];
    }
  }

  /** The cost vector read off the layer lists is the one the placed nodes determine. */
  lemma {:induction false} CostsMatch(g: Graph, node: int, layers: seq<seq<int>>, placed: seq<int>, c: Coloring, k: nat)
    requires LayersMatch(layers, placed, c, k)
    ensures LayerCosts(g, node, layers) == PlacementCosts(g, node, placed, c, k)
  {
  }

  lemma {:induction false} PlacedStep(c: Coloring, order: seq<int>, t: nat, k: nat, best: int)
    requires t < |order| && Placed(c, order[..t], k) && 0 <= best < k
    ensures Placed(c[order[t] := best], order[..t + 1], k)
  {
    assert order[..t + 1] == order[..t] + [order[t]];
  }

  lemma {:induction false} LayersStep(layers: seq<seq<int>>, order: seq<int>, t: nat, c: Coloring, k: nat, best: int)
    requires t < |order| && NoDuplicates(order)
    requires LayersMatch(layers, order[..t], c, k) && 0 <= best < k
    ensures LayersMatch(layers[best := layers[best] + [order[t]]], order[..t + 1], c[order[t] := best], k)
  {
    NextUnplaced(order, t);
    var next := layers[best := layers[best] + [order[t]]];
    forall L | 0 <= L < k ensures next[L] == LayerOf(order[..t + 1], c[order[t] := best], L) {
      LayerOfPlace(order[..t], c, order[t], best, L);
    }
  }

  /** Placing the next node where the costs say keeps every earlier choice's justification. */
  lemma {:induction false} GreedyStep(g: Graph, order: seq<int>, t: nat, c: Coloring, k: nat, best: int)
    requires k > 0 && t < |order| && NoDuplicates(order)
    requires GreedyChoices(g, order, t, c, k)
    requires best == ArgMin(PlacementCosts(g, order[t], order[..t], c, k))
    ensures GreedyChoices(g, order, t + 1, c[order[t] := best], k)
  {
    var c' := c[order[t] := best];
    NextUnplaced(order, t);
    PlacementCostsRecolour(g, order[t], order[..t], c, k, order[t], best);
    forall s | 0 <= s < t
      ensures order[s] in c' && c'[order[s]] == ArgMin(PlacementCosts(g, order[s], order[..s], c', k))
    {
      GreedyChoiceAt(g, order, t, c, k, s, order[s], order[..s]);
      GreedyKept(g, order, t, c, k, best, s);
    }
  }

  /** A choice made before node t is still justified once node t is placed: t was not among the nodes it saw. */
  lemma {:induction false} GreedyKept(g: Graph, order: seq<int>, t: nat, c: Coloring, k: nat, best: int, s: nat)
    requires k > 0 && s < t < |order| && NoDuplicates(order)
    requires order[s] in c && c[order[s]] == ArgMin(PlacementCosts(g, order[s], order[..s], c, k))
    ensures order[s] in c[order[t] := best]
    ensures c[order[t] := best][order[s]] == ArgMin(PlacementCosts(g, order[s], order[..s], c[order[t] := best], k))
  {
    assert order[t] !in order[..s] by {
      forall y | y in order[..s] ensures y != order[t] {
        var i :| 0 <= i < s && order[..s][i] == y;
        assert order[i] == y;
      }
    }
    assert order[s] != order[t];
    PlacementCostsRecolour(g, order[s], order[..s], c, k, order[t], best);
  }

  lemma {:induction false} ForceKStart(g: Graph, order: seq<int>, k: nat)
    requires k > 0
    ensures LayersMatch(seq(k, _ => []), order[..0], map[], k)
    ensures Placed(map[], order[..0], k)
    ensures GreedyChoices(g, order, 0, map[], k)
  {
    assert order[..0] == [];
  }

  /** One round of the loop: placing the next node where the costs say keeps all three invariants. */
  lemma {:induction false} ForceKStep(g: Graph, order: seq<int>, t: nat, c: Coloring, layers: seq<seq<int>>, k: nat)
    requires k > 0 && t < |order| && NoDuplicates(order)
    requires LayersMatch(layers, order[..t], c, k)
    requires Placed(c, order[..t], k)
    requires GreedyChoices(g, order, t, c, k)
    ensures var best := ArgMin(LayerCosts(g, order[t], layers));
      LayersMatch(layers[best := layers[best] + [order[t]]], order[..t + 1], c[order[t] := best], k) &&
      Placed(c[order[t] := best], order[..t + 1], k) &&
      GreedyChoices(g, order, t + 1, c[order[t] := best], k)
  {
    var best := ArgMin(LayerCosts(g, order[t], layers));
    CostsMatch(g, order[t], layers, order[..t], c, k);
    PlacedStep(c, order, t, k, best);
    LayersStep(layers, order, t, c, k, best);
    GreedyStep(g, order, t, c, k, best);
  }

  /** Once every node of the order is placed, the colouring covers exactly the graph's nodes, and the first went to layer 0. */
  lemma {:induction false} ForceKDone(g: Graph, c: Coloring, k: nat)
    requires k > 0
    requires Placed(c, ForceKOrder(g)[..|ForceKOrder(g)|], k)
    requires GreedyChoices(g, ForceKOrder(g), |ForceKOrder(g)|, c, k)
    ensures forall v :: v in c <==> v in g.nodes
    ensures forall v :: v in c ==> 0 <= c[v] < k
    ensures |g.nodes| > 0 ==> ForceKOrder(g)[0] in c && c[ForceKOrder(g)[0]] == 0
  {
    var order := ForceKOrder(g);
    assert order[..|order|] == order;
    assert forall v :: v in order <==> v in multiset(order);
    if |g.nodes| > 0 {
      assert order[..0] == [];
      FirstPlacement(g, order[0], c, k);
    }
  }

  /**
   * `force_k_coloring`: visits the nodes largest first and puts each in the first of
   * the k layers with which it shares the least overlap weight. Every node gets a
   * layer below k, each choice is the first minimum of the costs given the layers
   * built so far, and the first node visited lands in layer 0.
   */
  method ForceKColoring(g: Graph, k: nat) returns (coloring: Coloring)
    requires k > 0
    requires NoDuplicates(g.nodes)
    ensures forall v :: v in coloring <==> v in g.nodes
    ensures forall v :: v in coloring ==> 0 <= coloring[v] < k
    ensures GreedyChoices(g, ForceKOrder(g), |ForceKOrder(g)|, coloring, k)
    ensures |g.nodes| > 0 ==> ForceKOrder(g)[0] in coloring && coloring[ForceKOrder(g)[0]] == 0
  {
    var order := ForceKOrder(g);
    NoDuplicatesPermutation(g.nodes, order);
    var layers: seq<seq<int>> := seq(k, _ => []);
    coloring := map[];
    ForceKStart(g, order, k);
    for t := 0 to |order|
      invariant LayersMatch(layers, order[..t], coloring, k)
      invariant Placed(coloring, order[..t], k)
      invariant GreedyChoices(g, order, t, coloring, k)
    {
      var node := order[t];
      var costs := LayerCosts(g, node, layers);
      var best := ArgMin(costs);
      ForceKStep(g, order, t, coloring, layers, k);
      layers := layers[best := layers[best] + [node]];
      coloring := coloring[node := best];
    }
    ForceKDone(g, coloring, k);
  }

  /** A weighted triangle on three distinct nodes, listed in the order their edges were added. */
  function Triangle(x: int, y: int, z: int, sx: real, sy: real, sz: real, wxy: real, wxz: real, wyz: real): Graph {
    Graph([x, y, z], map[x := sx, y := sy, z := sz], map[Key(x, y) := wxy, Key(x, z) := wxz, Key(y, z) := wyz])
  }

  lemma {:induction false} TriangleOrder(g: Graph, x: int, y: int, z: int)
    requires g.nodes == [x, y, z]
    requires SizeOf(g)(x) > SizeOf(g)(y) > SizeOf(g)(z)
    ensures ForceKOrder(g) == [x, y, z]
  {
    var key := SizeOf(g);
    assert SortDesc([x], key) == [x];
    assert Insert(y, [x], key) == [x, y] by {
      assert Insert(y, [x], key) == [x] + Insert(y, [], key);
    }
    assert SortDesc([x, y], key) == [x, y] by {
      assert [x, y][..1] == [x];
    }
    assert Insert(z, [x, y], key) == [x, y, z] by {
      assert [x, y][1..] == [y];
      assert Insert(z, [y], key) == [y] + Insert(z, [], key);
      assert Insert(z, [x, y], key) == [x] + Insert(z, [y], key);
    }
    assert [x, y, z][..2] == [x, y];
  }

  /** With x in layer 0, y would share the x-y weight there and nothing in layer 1. */
  lemma {:induction false} TriangleSecond(g: Graph, c: Coloring, x: int, y: int)
    requires Weight(g, y, x) > 0.0
    requires x in c && c[x] == 0
    ensures ArgMin(PlacementCosts(g, y, [x], c, 2)) == 1
  {
    assert [x][..0] == [];
    assert LayerOf([x], c, 0) == [x];
    assert LayerOf([x], c, 1) == [];
    assert LayerCost(g, y, [x]) == Weight(g, y, x);
    var costs := PlacementCosts(g, y, [x], c, 2);
    assert costs[0] == Weight(g, y, x) && costs[1] == 0.0;
  }

  /** With x and y apart, z goes with x unless that shares more weight than going with y. */
  lemma {:induction false} TriangleThird(g: Graph, c: Coloring, x: int, y: int, z: int)
    requires Weight(g, z, x) <= Weight(g, z, y)
    requires x in c && c[x] == 0 && y in c && c[y] == 1
    ensures ArgMin(PlacementCosts(g, z, [x, y], c, 2)) == 0
  {
    assert [x, y][..1] == [x] && [x][..0] == [] && [y][..0] == [];
    assert LayerOf([x], c, 0) == [x];
    assert LayerOf([x], c, 1) == [];
    assert LayerOf([x, y], c, 0) == LayerOf([x], c, 0);
    assert LayerOf([x, y], c, 1) == LayerOf([x], c, 1) + [y];
    assert LayerCost(g, z, [x]) == Weight(g, z, x);
    assert LayerCost(g, z, [y]) == Weight(g, z, y);
    var costs := PlacementCosts(g, z, [x, y], c, 2);
    assert costs[0] == Weight(g, z, x) && costs[1] == Weight(g, z, y);
  }

  /** What the greedy record says of the triangle, node by node. */
  lemma {:induction false} TriangleChoices(g: Graph, c: Coloring, x: int, y: int, z: int)
    requires ForceKOrder(g) == [x, y, z]
    requires Weight(g, y, x) > 0.0 && Weight(g, z, x) <= Weight(g, z, y)
    requires GreedyChoices(g, ForceKOrder(g), |ForceKOrder(g)|, c, 2)
    ensures x in c && y in c && z in c
    ensures c[x] == 0 && c[y] == 1 && c[z] == 0
  {
    TriangleRecord(g, ForceKOrder(g), c, x, y, z);
    FirstPlacement(g, x, c, 2);
    TriangleSecond(g, c, x, y);
    TriangleThird(g, c, x, y, z);
  }

  /** The greedy record of a triangle, one placement per node. */
  lemma {:induction false} TriangleRecord(g: Graph, order: seq<int>, c: Coloring, x: int, y: int, z: int)
    requires order == [x, y, z]
    requires GreedyChoices(g, order, 3, c, 2)
    ensures x in c && c[x] == ArgMin(PlacementCosts(g, x, [], c, 2))
    ensures y in c && c[y] == ArgMin(PlacementCosts(g, y, [x], c, 2))
    ensures z in c && c[z] == ArgMin(PlacementCosts(g, z, [x, y], c, 2))
  {
    TripleSlices(order, x, y, z);
    GreedyChoiceAt(g, order, 3, c, 2, 0, x, []);
    GreedyChoiceAt(g, order, 3, c, 2, 1, y, [x]);
    GreedyChoiceAt(g, order, 3, c, 2, 2, z, [x, y]);
  }

  lemma {:induction false} TripleSlices(order: seq<int>, x: int, y: int, z: int)
    requires order == [x, y, z]
    ensures order[..0] == [] && order[..1] == [x] && order[..2] == [x, y]
    ensures order[0] == x && order[1] == y && order[2] == z
  {
  }

  lemma {:induction false} GreedyChoiceAt(g: Graph, order: seq<int>, t: nat, c: Coloring, k: nat, s: nat,
                                          node: int, before: seq<int>)
    requires t <= |order| && k > 0 && s < t
    requires node == order[s] && before == order[..s]
    requires GreedyChoices(g, order, t, c, k)
    ensures node in c && c[node] == ArgMin(PlacementCosts(g, node, before, c, k))
  {
  }

  /** The weight between `v` and the nodes of `us` that share its colour. */
  function SharedWeight(g: Graph, c: Coloring, v: int, us: seq<int>): real
    decreases |us|
  {
    if |us| == 0 then 0.0
    else
      var u := us[|us| - 1];
      SharedWeight(g, c, v, us[..|us| - 1]) + (if v in c && u in c && c[u] == c[v] then Weight(g, v, u) else 0.0)
  }

  /** The weight of the edges among `nodes` whose two ends share a colour, each edge once. */
  function IntraWeight(g: Graph, c: Coloring, nodes: seq<int>): real
    decreases |nodes|
  {
    if |nodes| == 0 then 0.0
    else IntraWeight(g, c, nodes[..|nodes| - 1]) + SharedWeight(g, c, nodes[|nodes| - 1], nodes[..|nodes| - 1])
  }

  /** The overlap weight a colouring leaves inside its layers, the quantity the greedy keeps low. */
  function IntraLayerCost(g: Graph, c: Coloring): real {
    IntraWeight(g, c, g.nodes)
  }

  /** With x and z in one layer and y in the other, only the x-z edge stays inside a layer. */
  lemma {:induction false} TriangleCost(g: Graph, c: Coloring, x: int, y: int, z: int)
    requires g.nodes == [x, y, z]
    requires x in c && y in c && z in c && c[x] == 0 && c[y] == 1 && c[z] == 0
    ensures IntraLayerCost(g, c) == Weight(g, z, x)
  {
    TripleSlices(g.nodes, x, y, z);
    assert [x, y][..1] == [x] && [x][..0] == [];
    assert IntraWeight(g, c, [x]) == 0.0 by {
      assert IntraWeight(g, c, []) == 0.0 && SharedWeight(g, c, x, []) == 0.0;
    }
    assert SharedWeight(g, c, y, [x]) == 0.0 by {
      assert SharedWeight(g, c, y, []) == 0.0;
    }
    assert SharedWeight(g, c, z, [x]) == Weight(g, z, x) by {
      assert SharedWeight(g, c, z, []) == 0.0;
    }
    assert SharedWeight(g, c, z, [x, y]) == Weight(g, z, x);
    assert IntraWeight(g, c, [x, y]) == 0.0;
    assert IntraWeight(g, c, [x, y, z]) == IntraWeight(g, c, [x, y]) + SharedWeight(g, c, z, [x, y]);
  }

  /**
   * Two layers for a triangle visited x, y, z: x goes first to layer 0, y avoids its
   * edge to x by taking layer 1, and z joins x when that shares no more weight than
   * joining y. With the tests' sizes 100, 10, 1 and weights 10, 1, 1 only the weight-1
   * edge x-z stays inside a layer.
   */
  method ForceKTriangle(x: int, y: int, z: int, sx: real, sy: real, sz: real, wxy: real, wxz: real, wyz: real)
    returns (c: Coloring)
    requires x != y && x != z && y != z
    requires sx > sy > sz
    requires wxy > 0.0 && wxz <= wyz
    ensures x in c && y in c && z in c
    ensures c[x] == 0 && c[y] == 1 && c[z] == 0
    ensures IntraLayerCost(Triangle(x, y, z, sx, sy, sz, wxy, wxz, wyz), c) == wxz
  {
    var g := Triangle(x, y, z, sx, sy, sz, wxy, wxz, wyz);
    assert Key(y, x) == Key(x, y) && Key(z, x) == Key(x, z) && Key(z, y) == Key(y, z);
    assert Key(x, y) != Key(x, z) && Key(x, y) != Key(y, z) && Key(x, z) != Key(y, z);
    assert Weight(g, y, x) == wxy && Weight(g, z, x) == wxz && Weight(g, z, y) == wyz;
    assert NoDuplicates(g.nodes);
    TriangleOrder(g, x, y, z);
    c := ForceKColoring(g, 2);
    TriangleChoices(g, c, x, y, z);
    TriangleCost(g, c, x, y, z);
  }

  // ---------------------------------------------------------------------------
  // Local search
  // ---------------------------------------------------------------------------

  /** No two distinct adjacent nodes that both have a colour share it. */
  predicate Proper(g: Graph, c: Coloring) {
    forall u, v :: u in c && v in c && u != v && Adjacent(g, u, v) ==> c[u] != c[v]
  }

  /** The colours in use are exactly 0 up to their number, less one. */
  predicate Contiguous(c: Coloring) {
    forall n :: n in c ==> 0 <= c[n] < |c.Values|
  }

  /** The colours of a contiguous colouring are exactly 0 up to their number, less one. */
  lemma {:induction false} ContiguousValues(c: Coloring)
    requires Contiguous(c)
    ensures c.Values == RangeSet(|c.Values|)
  {
    forall x | x in c.Values ensures 0 <= x < |c.Values| {
      ValueHasKey(c, x);
    }
    FullRange(c.Values, |c.Values|);
  }

  /** `_is_color_valid`: no neighbour of `node` that has a colour has `color`. */
  predicate ColorValid(g: Graph, node: int, color: int, c: Coloring) {
    forall nb :: nb in c && Adjacent(g, node, nb) ==> c[nb] != color
  }

  /** No other node of the graph shares `node`'s colour, so moving `node` frees it. */
  predicate Freeable(g: Graph, c: Coloring, node: int)
    requires node in c
  {
    forall n :: n in g.nodes && n in c && n != node ==> c[n] != c[node]
  }

  /** The moves the search accepts: a valid, different colour for a node whose colour it frees. */
  predicate IsMove(g: Graph, c: Coloring, node: int, x: int) {
    node in c && ColorValid(g, node, x, c) && c[node] != x && Freeable(g, c, node)
  }

  /** The renumbering after colour `freed` disappears: every colour above it moves down one. */
  function Shift(col: int, freed: int): int {
    if col > freed then col - 1 else col
  }

  /** Recolour `node` to `x`, then close the gap its old colour leaves. */
  function ApplyMove(c: Coloring, node: int, x: int): (r: Coloring)
    requires node in c
    ensures r.Keys == c.Keys
  {
    map n | n in c :: Shift(if n == node then x else c[n], c[node])
  }

  /** The first colour from `from` below `m` that is a move for `node`. */
  function FirstColour(g: Graph, c: Coloring, node: int, from: nat, m: nat): (r: Option<int>)
    decreases m - from
    ensures r.Some? ==> from <= r.value < m && IsMove(g, c, node, r.value)
    ensures r.Some? ==> forall x :: from <= x < r.value ==> !IsMove(g, c, node, x)
    ensures r.None? ==> forall x :: from <= x < m ==> !IsMove(g, c, node, x)
  {
    if from >= m then None
    else if IsMove(g, c, node, from) then Some(from)
    else FirstColour(g, c, node, from + 1, m)
  }

  /**
   * One pass of `optimize_coloring`: the nodes in `order`, and for each the colours
   * below `m`, stopping at the first move found.
   */
  function FirstMove(g: Graph, c: Coloring, order: seq<int>, m: nat): (r: Option<(int, int)>)
    ensures r.Some? ==> r.value.0 in order && 0 <= r.value.1 < m && IsMove(g, c, r.value.0, r.value.1)
    ensures r.None? <==> forall t, x :: 0 <= t < |order| && 0 <= x < m ==> !IsMove(g, c, order[t], x)
    decreases |order|
  {
    if |order| == 0 then None
    else
      match FirstColour(g, c, order[0], 0, m)
      case Some(x) => Some((order[0], x))
      case None =>
        var r := FirstMove(g, c, order[1..], m);
        assert forall t :: 0 < t < |order| ==> order[t] == order[1..][t - 1];
        assert r.Some? ==> r.value.0 in order by {
          if r.Some? {
            var t :| 0 <= t < |order| - 1 && order[1..][t] == r.value.0;
          }
        }
        r
  }

  /** The first move is the earliest in scan order: no earlier node has one, nor the same node a smaller colour. */
  lemma {:induction false} FirstMoveIsFirst(g: Graph, c: Coloring, order: seq<int>, m: nat)
    requires FirstMove(g, c, order, m).Some?
    ensures var (node, x) := FirstMove(g, c, order, m).value;
      exists t :: 0 <= t < |order| && order[t] == node &&
        (forall s, y :: 0 <= s < t && 0 <= y < m ==> !IsMove(g, c, order[s], y)) &&
        (forall y :: 0 <= y < x ==> !IsMove(g, c, node, y))
    decreases |order|
  {
    var (node, x) := FirstMove(g, c, order, m).value;
    if FirstColour(g, c, order[0], 0, m).Some? {
      assert order[0] == node;
    } else {
      var tail := order[1..];
      FirstMoveIsFirst(g, c, tail, m);
      var t :| 0 <= t < |tail| && tail[t] == node &&
        (forall s, y :: 0 <= s < t && 0 <= y < m ==> !IsMove(g, c, tail[s], y)) &&
        (forall y :: 0 <= y < x ==> !IsMove(g, c, node, y));
      assert order[t + 1] == node;
      forall s, y | 0 <= s < t + 1 && 0 <= y < m ensures !IsMove(g, c, order[s], y) {
        if s > 0 {
          assert order[s] == tail[s - 1];
        }
      }
    }
  }

  /** The colour a node has after the move, before the renumbering. */
  function Moved(c: Coloring, node: int, x: int, n: int): int
    requires n in c
  {
    if n == node then x else c[n]
  }

  /** A move keeps a proper colouring proper. */
  lemma {:induction false} ApplyMoveProper(g: Graph, c: Coloring, node: int, x: int)
    requires WellFormed(g)
    requires IsMove(g, c, node, x)
    requires Proper(g, c)
    ensures Proper(g, ApplyMove(c, node, x))
  {
    var r := ApplyMove(c, node, x);
    var orig := c[node];
    forall u, v | u in r && v in r && u != v && Adjacent(g, u, v) ensures r[u] != r[v] {
      var su, sv := Moved(c, node, x, u), Moved(c, node, x, v);
      assert u in g.nodes && v in g.nodes;
      assert Adjacent(g, v, u);
      assert su != orig && sv != orig;
      assert su != sv;
      assert r[u] == Shift(su, orig) && r[v] == Shift(sv, orig);
    }
  }

  /** The values of the colouring after a move: the old ones without the freed colour, plus `x`, renumbered. */
  lemma {:induction false} ApplyMoveValues(g: Graph, c: Coloring, node: int, x: int)
    requires c.Keys == NodeSet(g)
    requires IsMove(g, c, node, x)
    ensures ApplyMove(c, node, x).Values == SetFacts.Image(c.Values - {c[node]} + {x}, s => Shift(s, c[node]))
    ensures c[node] !in c.Values - {c[node]} + {x}
  {
    var r := ApplyMove(c, node, x);
    var orig := c[node];
    var f := s => Shift(s, orig);
    var vs := c.Values - {orig} + {x};
    forall y | y in r.Values ensures y in SetFacts.Image(vs, f) {
      var n :| n in r && r[n] == y;
      assert n in g.nodes;
      assert Moved(c, node, x, n) in vs;
    }
    forall y | y in SetFacts.Image(vs, f) ensures y in r.Values {
      var s :| s in vs && y == f(s);
      if s == x {
        assert r[node] == y;
      } else {
        var n :| n in c && c[n] == s;
        assert n != node;
        assert r[n] == y;
      }
    }
  }

  /** A move uses one colour fewer, unless `x` was a colour not yet in use. */
  lemma {:induction false} ApplyMoveCount(g: Graph, c: Coloring, node: int, x: int)
    requires c.Keys == NodeSet(g)
    requires IsMove(g, c, node, x)
    ensures |ApplyMove(c, node, x).Values| == |c.Values| - (if x in c.Values then 1 else 0)
  {
    var orig := c[node];
    var vs := c.Values - {orig} + {x};
    ApplyMoveValues(g, c, node, x);
    assert SetFacts.InjectiveOn(vs, s => Shift(s, orig));
    SetFacts.ImageCard(vs, s => Shift(s, orig));
    assert orig in c.Values;
    assert |c.Values - {orig}| == |c.Values| - 1;
    if x in c.Values {
      assert vs == c.Values - {orig};
    }
  }

  /**
   * Why the count facts need the colouring's keys to be the graph's nodes: on the edge
   * 0-1, node 0 may leave colour 3 for colour 1, since no other node of the graph holds
   * colour 3; but key 2, outside the graph, still does, so the move takes two colours to three.
   */
  lemma {:induction false} MoveCanAddColour()
    ensures var g, c := Graph([0, 1], map[0 := 1.0, 1 := 1.0], map[(0, 1) := 1.0]), map[0 := 3, 1 := 0, 2 := 3];
      IsMove(g, c, 0, 1) && |c.Values| == 2 && |ApplyMove(c, 0, 1).Values| == 3
  {
    var g, c := Graph([0, 1], map[0 := 1.0, 1 := 1.0], map[(0, 1) := 1.0]), map[0 := 3, 1 := 0, 2 := 3];
    assert forall nb :: nb in c && Adjacent(g, 0, nb) ==> nb == 1;
    assert c.Values == {0, 3} by {
      assert c[0] == 3 && c[1] == 0;
    }
    var r := ApplyMove(c, 0, 1);
    assert r == map[0 := 1, 1 := 0, 2 := 3];
    assert r.Values == {0, 1, 3} by {
      assert r[0] == 1 && r[1] == 0 && r[2] == 3;
    }
  }

  /** On a contiguous colouring, a move to an existing colour removes one colour and keeps the rest contiguous. */
  lemma {:induction false} ApplyMoveContiguous(g: Graph, c: Coloring, node: int, x: int)
    requires c.Keys == NodeSet(g)
    requires IsMove(g, c, node, x) && 0 <= x < |c.Values|
    requires Contiguous(c)
    ensures |ApplyMove(c, node, x).Values| == |c.Values| - 1
    ensures Contiguous(ApplyMove(c, node, x))
  {
    var m := |c.Values|;
    var r := ApplyMove(c, node, x);
    ContiguousValues(c);
    assert x in c.Values;
    ApplyMoveCount(g, c, node, x);
    forall n | n in r ensures 0 <= r[n] < m - 1 {
      assert n in g.nodes;
      var s := Moved(c, node, x, n);
      assert s != c[node];
      assert 0 <= s < m;
    }
  }

  /** A local optimum: no node has a move to any colour below the number in use. */
  predicate NoMove(g: Graph, c: Coloring) {
    forall n, x :: n in g.nodes && 0 <= x < |c.Values| ==> !IsMove(g, c, n, x)
  }

  /** A pass over a permutation of the nodes that finds nothing means no move exists. */
  lemma {:induction false} NoMoveFromScan(g: Graph, c: Coloring, order: seq<int>)
    requires multiset(order) == multiset(g.nodes)
    requires FirstMove(g, c, order, |c.Values|).None?
    ensures NoMove(g, c)
  {
    forall n, x | n in g.nodes && 0 <= x < |c.Values| ensures !IsMove(g, c, n, x) {
      assert n in multiset(order);
      var t :| 0 <= t < |order| && order[t] == n;
    }
  }

  /** The pass limit `optimize_coloring` uses unless told otherwise. */
  const MaxIterations: nat := 100

  /**
   * `optimize_coloring`: up to `maxIterations` times, apply the first move of a pass over
   * the nodes in ascending order, and stop early once a pass finds none. `moves` counts
   * the moves applied.
   */
  method OptimizeColoring(g: Graph, initial: Coloring, maxIterations: nat) returns (c: Coloring, ghost moves: nat)
    requires WellFormed(g)
    requires forall v :: v in g.nodes ==> v in initial
    ensures c.Keys == initial.Keys
    ensures Proper(g, initial) ==> Proper(g, c)
    ensures moves <= maxIterations
    ensures moves < maxIterations ==> NoMove(g, c)
    ensures initial.Keys == NodeSet(g) ==> |c.Values| <= |initial.Values|
    ensures initial.Keys == NodeSet(g) && Contiguous(initial) ==> Contiguous(c) && |c.Values| == |initial.Values| - moves
  {
    c := initial;
    var passes := 0;
    var order := Ascending(g.nodes);
    var done := false;
    while passes < maxIterations && !done
      invariant passes <= maxIterations
      invariant c.Keys == initial.Keys
      invariant Proper(g, initial) ==> Proper(g, c)
      invariant done ==> NoMove(g, c)
      invariant initial.Keys == NodeSet(g) ==> |c.Values| <= |initial.Values|
      invariant initial.Keys == NodeSet(g) && Contiguous(initial) ==> Contiguous(c) && |c.Values| == |initial.Values| - passes
      decreases maxIterations - passes, !done
    {
      var numColors := |c.Values|;
      var found := FirstMove(g, c, order, numColors);
      if found.None? {
        NoMoveFromScan(g, c, order);
        done := true;
      } else {
        var (node, x) := found.value;
        if Proper(g, c) {
          ApplyMoveProper(g, c, node, x);
        }
        if c.Keys == NodeSet(g) {
          ApplyMoveCount(g, c, node, x);
          if Contiguous(c) {
            ApplyMoveContiguous(g, c, node, x);
          }
        }
        c := ApplyMove(c, node, x);
        passes := passes + 1;
      }
    }
    moves := passes;
  }

  // ---------------------------------------------------------------------------
  // Entry points
  // ---------------------------------------------------------------------------

  /** `get_num_layers`: one more than the largest colour, or 0 for an empty colouring. */
  method GetNumLayers(c: Coloring) returns (n: int)
    ensures |c| == 0 ==> n == 0
    ensures |c| > 0 ==> (exists v :: v in c && n == c[v] + 1) && (forall v :: v in c ==> c[v] < n)
    ensures Contiguous(c) ==> n == |c.Values|
  {
    if |c| == 0 {
      assert c.Values == {};
      return 0;
    }
    var todo := c.Keys;
    NonEmpty(todo);
    var first :| first in todo;
    var best := c[first];
    todo := todo - {first};
    while todo != {}
      invariant todo <= c.Keys
      invariant exists v :: v in c && best == c[v]
      invariant forall v :: v in c && v !in todo ==> c[v] <= best
      decreases |todo|
    {
      NonEmpty(todo);
      var k :| k in todo;
      if c[k] > best {
        best := c[k];
      }
      todo := todo - {k};
    }
    n := best + 1;
    if Contiguous(c) {
      ContiguousValues(c);
      assert |c.Values| - 1 in c.Values;
    }
  }

  /** Why `solve_coloring` refuses a request. */
  datatype SolveError = UnknownAlgorithm(name: string) | MissingLayerCount

  /** `AVAILABLE_ALGORITHMS`: networkx's greedy strategies, plus the weighted `force_k`. */
  const AvailableAlgorithms: seq<string> := [
    "largest_first", "smallest_last", "independent_set", "DSATUR",
    "random_sequential", "connected_sequential_bfs", "connected_sequential_dfs", "force_k"
  ]

  /**
   * networkx's `greedy_color` on the graph at hand, by strategy name, including the
   * fallback to DSATUR when a strategy exhausts Python's recursion limit.
   */
  type GreedyColorer = string -> Coloring

  /**
   * `solve_coloring`: reject an unknown strategy; for `force_k`, demand a positive layer
   * count and run `ForceKColoring`; otherwise colour greedily and, when asked, improve the
   * result with `OptimizeColoring`.
   */
  method SolveColoring(g: Graph, algorithm: string, useOptimizer: bool, numLayers: Option<int>, greedy: GreedyColorer)
    returns (r: Result<Coloring, SolveError>)
    requires WellFormed(g)
    requires useOptimizer && algorithm in AvailableAlgorithms && algorithm != "force_k" ==>
      forall v :: v in g.nodes ==> v in greedy(algorithm)
    ensures r == Err(UnknownAlgorithm(algorithm)) <==> algorithm !in AvailableAlgorithms
    ensures r == Err(MissingLayerCount) <==> algorithm == "force_k" && (numLayers.None? || numLayers.value <= 0)
    ensures r.Ok? && algorithm == "force_k" ==>
      numLayers.Some? && numLayers.value > 0 &&
      (forall v :: v in r.value <==> v in g.nodes) &&
      (forall v :: v in r.value ==> 0 <= r.value[v] < numLayers.value) &&
      GreedyChoices(g, ForceKOrder(g), |ForceKOrder(g)|, r.value, numLayers.value)
    ensures r.Ok? && algorithm != "force_k" && !useOptimizer ==> r.value == greedy(algorithm)
    ensures r.Ok? && algorithm != "force_k" && useOptimizer ==>
      r.value.Keys == greedy(algorithm).Keys &&
      (Proper(g, greedy(algorithm)) ==> Proper(g, r.value)) &&
      (greedy(algorithm).Keys == NodeSet(g) ==> |r.value.Values| <= |greedy(algorithm).Values|)
  {
    if algorithm !in AvailableAlgorithms {
      return Err(UnknownAlgorithm(algorithm));
    }
    if algorithm == "force_k" {
      if numLayers.None? || numLayers.value <= 0 {
        return Err(MissingLayerCount);
      }
      var coloring := ForceKColoring(g, numLayers.value);
      return Ok(coloring);
    }
    var coloring := greedy(algorithm);
    if useOptimizer {
      ghost var moves;
      coloring, moves := OptimizeColoring(g, coloring, MaxIterations);
    }
    return Ok(coloring);
  }
}
