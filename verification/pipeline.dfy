/**
 * `run_diastasis` in main.py, end to end on parsed shapes: detect overlaps, build the
 * overlap graph, colour it, give the background shape a colour of its own, then tally
 * and group the shapes by colour.
 */
module Pipeline {
  import opened Wrappers
  import opened Geometry
  import opened SvgParser
  import opened Counting
  import opened Dicts
  import opened GeometryEngine
  import opened GraphSolver
  import opened Composition

  /** Why `run_diastasis` produced no layers. */
  datatype RunError =
    | NoShapes                       // "No shapes found in SVG."
    | SolverFailed(reason: SolveError)

  /** The final colouring, the shapes grouped by colour, and the summary text. */
  datatype RunOutput = RunOutput(colouring: Colouring, groups: Groups, summary: string)

  /** What a greedy strategy from networkx does: colour every node of the graph it is given. */
  predicate ColoursShapes(greedy: GreedyColorer, n: nat) {
    forall a :: a in AvailableAlgorithms && a != "force_k" ==> forall v :: 0 <= v < n ==> v in greedy(a)
  }

  /** The shape the background scan picks: eligible, with the largest area among non-empty shapes. */
  predicate IsBackground(shapes: seq<Shape>, b: int) {
    0 <= b < |shapes| && Eligible(shapes[b]) &&
    forall i :: 0 <= i < |shapes| && !IsEmpty(shapes[i].geometry) ==> Area(shapes[i].geometry) <= Area(shapes[b].geometry)
  }

  /** Shape `b` is coloured, and every other coloured shape has a smaller colour. */
  ghost predicate ColourOnItsOwn(c: Colouring, b: int) {
    Get(c, b).Some? && forall k :: k != b && Get(c, k).Some? ==> Get(c, k).value < Get(c, b).value
  }

  /** Recolouring the background leaves the colouring's shapes as they were and sets the background apart. */
  lemma {:induction false} RecolourBackgroundOnItsOwn(c: Colouring, largest: int, n: nat)
    requires DistinctKeys(c)
    requires forall k :: Get(c, k).Some? <==> 0 <= k < n
    requires -1 <= largest < n
    ensures DistinctKeys(RecolourBackground(c, largest))
    ensures forall k :: Get(RecolourBackground(c, largest), k).Some? <==> 0 <= k < n
    ensures largest != -1 ==> ColourOnItsOwn(RecolourBackground(c, largest), largest)
  {
    var c' := RecolourBackground(c, largest);
    if largest != -1 {
      forall k ensures (Get(c', k).Some? <==> 0 <= k < n) && (k != largest && Get(c', k).Some? ==> Get(c', k).value < Get(c', largest).value) {
        RecolourBackgroundFresh(c, largest, k);
      }
      RecolourBackgroundFresh(c, largest, largest);
    }
  }

  /** The graph built from detected overlaps is well formed and has exactly the shapes as nodes. */
  lemma {:induction false} OverlapGraphNodes(shapes: seq<Shape>, o: Oracle, overlaps: seq<Overlap>)
    requires forall t :: t in overlaps ==> 0 <= t.0 < t.1 < |shapes| && t == OverlapOf(shapes, o, t.0, t.1)
    ensures WellFormed(BuildOverlapGraph(shapes, overlaps))
    ensures forall v :: v in BuildOverlapGraph(shapes, overlaps).nodes <==> 0 <= v < |shapes|
  {
    var g := BuildOverlapGraph(shapes, overlaps);
    DetectedOverlapsConsistent(shapes, o, overlaps);
    BuildOverlapGraphEdges(shapes, overlaps, 0, 0);
    forall v ensures v in g.nodes <==> 0 <= v < |shapes| {
      if 0 <= v < |shapes| {
        assert g.nodes[v] == v;
      }
    }
  }

  /** Keeping only some of the coloured nodes keeps a colouring proper. */
  lemma {:induction false} ProperRestricted(g: Graph, c: Coloring, n: nat)
    requires Proper(g, c)
    ensures Proper(g, map k | k in c && 0 <= k < n :: c[k])
  {
  }

  /**
   * The part of `run_diastasis` after colouring: set the background apart, then tally and
   * group. `proper` says whether the solver's colouring is proper.
   */
  method Finish(shapes: seq<Shape>, ghost g: Graph, solved: Coloring, ghost proper: bool) returns (out: RunOutput)
    requires forall k :: 0 <= k < |shapes| ==> k in solved
    requires proper ==> Proper(g, solved)
    ensures DistinctKeys(out.colouring)
    ensures forall k :: Get(out.colouring, k).Some? <==> 0 <= k < |shapes|
    ensures out.groups == GroupByColour(out.colouring) && out.summary == Summary(out.colouring)
    ensures proper ==> Proper(g, ToMap(out.colouring))
    ensures (exists i :: 0 <= i < |shapes| && Eligible(shapes[i])) ==>
      exists b :: IsBackground(shapes, b) && ColourOnItsOwn(out.colouring, b)
  {
    var largest := LargestShapeIndex(shapes);
    var colouring := RecolourBackground(FromMap(solved, |shapes|), largest);
    FinishColouring(solved, |shapes|, largest);
    if proper {
      FinishProper(g, solved, |shapes|, largest);
    }
    if largest >= 0 {
      assert IsBackground(shapes, largest) && ColourOnItsOwn(colouring, largest);
    }
    out := RunOutput(colouring, GroupByColour(colouring), Summary(colouring));
  }

  /** The solver's colours, read in shape order, with the background set apart. */
  lemma {:induction false} FinishColouring(solved: Coloring, n: nat, largest: int)
    requires forall k :: 0 <= k < n ==> k in solved
    requires -1 <= largest < n
    ensures DistinctKeys(RecolourBackground(FromMap(solved, n), largest))
    ensures forall k :: Get(RecolourBackground(FromMap(solved, n), largest), k).Some? <==> 0 <= k < n
    ensures largest != -1 ==> ColourOnItsOwn(RecolourBackground(FromMap(solved, n), largest), largest)
  {
    RecolourBackgroundOnItsOwn(FromMap(solved, n), largest, n);
  }

  /** A proper colouring stays proper through reading it in shape order and setting the background apart. */
  lemma {:induction false} FinishProper(g: Graph, solved: Coloring, n: nat, largest: int)
    requires Proper(g, solved)
    ensures Proper(g, ToMap(RecolourBackground(FromMap(solved, n), largest)))
  {
    var coloured := FromMap(solved, n);
    FromMapToMap(solved, n);
    ProperRestricted(g, solved, n);
    RecolourBackgroundProper(g, coloured, largest);
  }

  /**
   * `run_diastasis` after parsing. The overlap graph is returned as a ghost so the
   * contract can speak of it.
   */
  method RunDiastasis(shapes: seq<Shape>, o: Oracle, query: Query, algorithm: string, useOptimizer: bool,
                      numLayers: Option<int>, greedy: GreedyColorer)
    returns (r: Result<RunOutput, RunError>, ghost graph: Graph)
    requires IndexInRange(query, |shapes|)
    requires ColoursShapes(greedy, |shapes|)
    ensures |shapes| == 0 <==> r == Err(NoShapes)
    ensures |shapes| > 0 ==> (r == Err(SolverFailed(UnknownAlgorithm(algorithm))) <==> algorithm !in AvailableAlgorithms)
    ensures |shapes| > 0 ==>
      (r == Err(SolverFailed(MissingLayerCount)) <==>
       algorithm == "force_k" && (numLayers.None? || numLayers.value <= 0))
    ensures r.Ok? ==> WellFormed(graph) && forall v :: v in graph.nodes <==> 0 <= v < |shapes|
    ensures r.Ok? ==> DistinctKeys(r.value.colouring)
    ensures r.Ok? ==> forall k :: Get(r.value.colouring, k).Some? <==> 0 <= k < |shapes|
    ensures r.Ok? ==> r.value.groups == GroupByColour(r.value.colouring) && r.value.summary == Summary(r.value.colouring)
    ensures r.Ok? && algorithm != "force_k" && Proper(graph, greedy(algorithm)) ==> Proper(graph, ToMap(r.value.colouring))
    ensures r.Ok? && (exists i :: 0 <= i < |shapes| && Eligible(shapes[i])) ==>
      exists b :: IsBackground(shapes, b) && ColourOnItsOwn(r.value.colouring, b)
  {
    graph := Graph([], map[], map[]);
    if |shapes| == 0 {
      return Err(NoShapes), graph;
    }
    var overlaps := DetectOverlaps(shapes, o, true, query);
    var g := BuildOverlapGraph(shapes, overlaps);
    graph := g;
    OverlapGraphNodes(shapes, o, overlaps);
    var solved := SolveColoring(g, algorithm, useOptimizer, numLayers, greedy);
    if solved.Err? {
      return Err(SolverFailed(solved.error)), graph;
    }
    assert forall k :: 0 <= k < |shapes| ==> k in solved.value by {
      if algorithm == "force_k" {
        forall k | 0 <= k < |shapes| ensures k in solved.value {
          assert k in g.nodes;
        }
      } else {
        assert solved.value.Keys == greedy(algorithm).Keys;
      }
    }
    var out := Finish(shapes, g, solved.value, algorithm != "force_k" && Proper(graph, greedy(algorithm)));
    r := Ok(out);
  }
}
