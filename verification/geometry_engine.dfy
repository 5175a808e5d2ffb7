/**
 * Which pairs of shapes overlap or touch. The geometric predicates shapely computes
 * (`intersects`, the intersection's emptiness, area and length, and `bounds`) are an
 * `Oracle` of uninterpreted functions; the one fact the engine relies on is that
 * geometries whose bounding boxes are apart do not intersect (`BoxSound`). The rtree
 * index is a query from a box to the ids stored in it.
 */
module GeometryEngine {
  import opened Wrappers
  import opened Geometry
  import opened SvgParser
  import opened Counting

  datatype Oracle = Oracle(
    bounds: Polygon -> Box,
    intersects: (Polygon, Polygon) -> bool,
    intersectionEmpty: (Polygon, Polygon) -> bool,
    intersectionArea: (Polygon, Polygon) -> real,
    intersectionLength: (Polygon, Polygon) -> real)

  /** Geometries that intersect have bounding boxes that meet. */
  ghost predicate BoxSound(o: Oracle) {
    forall g, h :: o.intersects(g, h) ==> BoundsIntersect(o.bounds(g), o.bounds(h))
  }

  type Pair = (int, int)

  /** A reported overlap: the two indices and the area they share. */
  type Overlap = (int, int, real)

  /** `rtree.index.Index.intersection`: the ids stored with a box that meets the given one. */
  type Query = Box -> seq<int>

  // ---------------------------------------------------------------------------
  // Boxes
  // ---------------------------------------------------------------------------

  /** `_bounds_intersect`: the boxes are not strictly apart on either axis, so touching counts. */
  predicate BoundsIntersect(b1: Box, b2: Box) {
    !(b1.maxX < b2.minX || b2.maxX < b1.minX || b1.maxY < b2.minY || b2.maxY < b1.minY)
  }

  predicate InBox(p: Point, b: Box) {
    b.minX <= p.x <= b.maxX && b.minY <= p.y <= b.maxY
  }

  predicate IsBounds(b: Box) {
    b.minX <= b.maxX && b.minY <= b.maxY
  }

  function Max(a: real, b: real): real {
    if a < b then b else a
  }

  /** For real bounds, the test holds exactly when the closed boxes share a point. */
  lemma {:induction false} BoundsIntersectIffCommonPoint(b1: Box, b2: Box)
    requires IsBounds(b1) && IsBounds(b2)
    ensures BoundsIntersect(b1, b2) <==> exists p :: InBox(p, b1) && InBox(p, b2)
  {
    if BoundsIntersect(b1, b2) {
      var p := Point(Max(b1.minX, b2.minX), Max(b1.minY, b2.minY));
      assert InBox(p, b1) && InBox(p, b2);
    }
  }

  lemma {:induction false} BoundsIntersectSymmetric(b1: Box, b2: Box)
    ensures BoundsIntersect(b1, b2) == BoundsIntersect(b2, b1)
  {
  }

  /** Boxes sharing only an edge or a corner intersect. */
  lemma {:induction false} TouchingBoxesIntersect()
    ensures BoundsIntersect(Box(0.0, 0.0, 10.0, 10.0), Box(10.0, 0.0, 20.0, 10.0))
    ensures BoundsIntersect(Box(0.0, 0.0, 10.0, 10.0), Box(10.0, 10.0, 20.0, 20.0))
    ensures !BoundsIntersect(Box(0.0, 0.0, 10.0, 10.0), Box(30.0, 0.0, 40.0, 10.0))
  {
  }

  function Boxes(shapes: seq<Shape>, o: Oracle): (boxes: seq<Box>)
    ensures |boxes| == |shapes|
    ensures forall i :: 0 <= i < |shapes| ==> boxes[i] == o.bounds(shapes[i].geometry)
  {
    seq(|shapes|, i requires 0 <= i < |shapes| => o.bounds(shapes[i].geometry))
  }

  // ---------------------------------------------------------------------------
  // Candidate pairs
  // ---------------------------------------------------------------------------

  predicate LexLess(p: Pair, q: Pair) {
    p.0 < q.0 || (p.0 == q.0 && p.1 < q.1)
  }

  predicate LexSorted(r: seq<Pair>) {
    forall a, b :: 0 <= a < b < |r| ==> LexLess(r[a], r[b])
  }

  lemma {:induction false} LexSortedConcat(head: seq<Pair>, tail: seq<Pair>)
    requires LexSorted(head) && LexSorted(tail)
    requires forall p, q :: p in head && q in tail ==> LexLess(p, q)
    ensures LexSorted(head + tail)
  {
    var r := head + tail;
    forall a, b | 0 <= a < b < |r| ensures LexLess(r[a], r[b]) {
      if b < |head| {
        assert r[a] == head[a] && r[b] == head[b];
      } else if a >= |head| {
        assert r[a] == tail[a - |head|] && r[b] == tail[b - |head|];
      } else {
        assert r[a] in head && r[b] in tail;
      }
    }
  }

  /** The pairs (i, j) with i < j < n, for one fixed i. */
  function Row(i: nat, n: nat): (r: seq<Pair>)
    ensures forall p :: p in r <==> p.0 == i && i < p.1 < n
    ensures LexSorted(r)
  {
    if i + 1 >= n then []
    else
      var r := seq(n - i - 1, k requires 0 <= k < n - i - 1 => (i, i + 1 + k));
      assert forall p: Pair :: p.0 == i && i < p.1 < n ==> r[p.1 - i - 1] == p;
      r
  }

  /** The rows from `i` on, in order. */
  function Rows(i: nat, n: nat): (r: seq<Pair>)
    decreases n - i
    ensures forall p :: p in r <==> i <= p.0 && p.0 < p.1 < n
    ensures LexSorted(r)
  {
    if i >= n then []
    else
      var head := Row(i, n);
      var tail := Rows(i + 1, n);
      LexSortedConcat(head, tail);
      head + tail
  }

  lemma {:induction false} LexSortedDistinct(r: seq<Pair>)
    requires LexSorted(r)
    ensures NoDuplicates(r)
  {
    forall a, b | 0 <= a < b < |r| ensures r[a] != r[b] {
      assert LexLess(r[a], r[b]);
    }
  }

  /** `itertools.combinations(range(n), 2)`. */
  function Combinations(n: nat): (r: seq<Pair>)
    ensures forall p :: p in r <==> 0 <= p.0 < p.1 < n
    ensures NoDuplicates(r)
  {
    LexSortedDistinct(Rows(0, n));
    Rows(0, n)
  }

  /** Every id the query yields is one the index holds: 0 to n - 1. */
  ghost predicate IndexInRange(query: Query, n: nat) {
    forall b, j :: j in query(b) ==> 0 <= j < n
  }

  /** The query yields every id whose box meets the query box. */
  ghost predicate IndexComplete(query: Query, boxes: seq<Box>) {
    forall b, j :: 0 <= j < |boxes| && BoundsIntersect(boxes[j], b) ==> j in query(b)
  }

  /**
   * `_candidate_pairs` with the index: for each shape in order, the ids its box query
   * yields that are larger than its own, each pair once.
   */
  method IndexedCandidates(boxes: seq<Box>, query: Query) returns (pairs: seq<Pair>)
    ensures forall k :: 0 <= k < |pairs| ==>
      0 <= pairs[k].0 < pairs[k].1 && pairs[k].0 < |boxes| && pairs[k].1 in query(boxes[pairs[k].0])
    ensures forall i, j :: 0 <= i < |boxes| && i < j && j in query(boxes[i]) ==> (i, j) in pairs
    ensures NoDuplicates(pairs)
  {
    pairs := [];
    var seen: set<Pair> := {};
    for i := 0 to |boxes|
      invariant forall p :: p in seen <==> p in pairs
      invariant forall k :: 0 <= k < |pairs| ==>
        0 <= pairs[k].0 < pairs[k].1 && pairs[k].0 < i && pairs[k].1 in query(boxes[pairs[k].0])
      invariant forall i', j :: 0 <= i' < i && i' < j && j in query(boxes[i']) ==> (i', j) in pairs
      invariant NoDuplicates(pairs)
    {
      var hits := query(boxes[i]);
      for h := 0 to |hits|
        invariant forall p :: p in seen <==> p in pairs
        invariant forall k :: 0 <= k < |pairs| ==>
          0 <= pairs[k].0 < pairs[k].1 && pairs[k].0 <= i && pairs[k].1 in query(boxes[pairs[k].0])
        invariant forall i', j :: 0 <= i' < i && i' < j && j in query(boxes[i']) ==> (i', j) in pairs
        invariant forall m :: 0 <= m < h && i < hits[m] ==> (i, hits[m]) in pairs
        invariant NoDuplicates(pairs)
      {
        var j := hits[h];
        if j <= i {
          continue;
        }
        if (i, j) !in seen {
          seen := seen + {(i, j)};
          pairs := pairs + [(i, j)];
        }
      }
      assert forall j :: i < j && j in query(boxes[i]) ==> (i, j) in pairs;
    }
  }

  /** With a complete index every pair of shapes whose boxes meet is a candidate. */
  lemma {:induction false} IndexedCandidatesCover(boxes: seq<Box>, query: Query, pairs: seq<Pair>, i: nat, j: nat)
    requires IndexComplete(query, boxes)
    requires forall i', j' :: 0 <= i' < |boxes| && i' < j' && j' in query(boxes[i']) ==> (i', j') in pairs
    requires i < j < |boxes| && BoundsIntersect(boxes[i], boxes[j])
    ensures (i, j) in pairs
  {
    BoundsIntersectSymmetric(boxes[i], boxes[j]);
    assert j in query(boxes[i]);
  }

  // ---------------------------------------------------------------------------
  // Overlaps
  // ---------------------------------------------------------------------------

  /** What the worker keeps: the geometries intersect and share a positive area. */
  predicate Overlaps(o: Oracle, g: Polygon, h: Polygon) {
    o.intersects(g, h) && o.intersectionArea(g, h) > 0.0
  }

  /** `check_and_calculate_overlap_worker`. */
  function OverlapWorker(i: int, j: int, g: Polygon, h: Polygon, o: Oracle): (r: Option<Overlap>)
    ensures r.Some? <==> Overlaps(o, g, h)
    ensures r.Some? ==> r.value == (i, j, o.intersectionArea(g, h))
  {
    if o.intersects(g, h) then
      var area := o.intersectionArea(g, h);
      if area > 0.0 then Some((i, j, area)) else None
    else None
  }

  /** `calculate_overlap_area`. */
  function CalculateOverlapArea(g: Polygon, h: Polygon, o: Oracle): (a: real)
    ensures !o.intersects(g, h) ==> a == 0.0
  {
    if o.intersects(g, h) then o.intersectionArea(g, h) else 0.0
  }

  /** The worker reports a pair exactly when `calculate_overlap_area` is positive, and with that area. */
  lemma {:induction false} WorkerAgreesWithArea(i: int, j: int, g: Polygon, h: Polygon, o: Oracle)
    ensures OverlapWorker(i, j, g, h, o).Some? <==> CalculateOverlapArea(g, h, o) > 0.0
    ensures OverlapWorker(i, j, g, h, o).Some? ==> OverlapWorker(i, j, g, h, o).value.2 == CalculateOverlapArea(g, h, o)
  {
  }

  predicate PairsInRange(pairs: seq<Pair>, n: nat) {
    forall k :: 0 <= k < |pairs| ==> 0 <= pairs[k].0 < n && 0 <= pairs[k].1 < n
  }

  /** The overlap record of the pair (i, j). */
  function OverlapOf(shapes: seq<Shape>, o: Oracle, i: nat, j: nat): Overlap
    requires i < |shapes| && j < |shapes|
  {
    (i, j, o.intersectionArea(shapes[i].geometry, shapes[j].geometry))
  }

  /** The records the worker returns over `pairs`, `None`s dropped, order kept. */
  function WorkerResults(shapes: seq<Shape>, o: Oracle, pairs: seq<Pair>): (r: seq<Overlap>)
    requires PairsInRange(pairs, |shapes|)
    ensures forall t :: t in r <==>
      (t.0, t.1) in pairs && 0 <= t.0 < |shapes| && 0 <= t.1 < |shapes| &&
      Overlaps(o, shapes[t.0].geometry, shapes[t.1].geometry) && t == OverlapOf(shapes, o, t.0, t.1)
  {
    if |pairs| == 0 then []
    else
      var (i, j) := pairs[0];
      var rest := WorkerResults(shapes, o, pairs[1..]);
      assert forall p: Pair :: p in pairs <==> p == pairs[0] || p in pairs[1..];
      match OverlapWorker(i, j, shapes[i].geometry, shapes[j].geometry, o)
      case Some(t) => [t] + rest
      case None => rest
  }

  /** `parallel_overlap_detection`, the pool's map run in order. */
  function ParallelOverlapDetection(shapes: seq<Shape>, o: Oracle): (r: seq<Overlap>)
    ensures forall t :: t in r <==>
      0 <= t.0 < t.1 < |shapes| && Overlaps(o, shapes[t.0].geometry, shapes[t.1].geometry) &&
      t == OverlapOf(shapes, o, t.0, t.1)
  {
    WorkerResults(shapes, o, Combinations(|shapes|))
  }

  /** The loop body of `detect_overlaps_spatial` over the candidates: boxes first, then the worker's test. */
  function SpatialResults(shapes: seq<Shape>, o: Oracle, pairs: seq<Pair>): (r: seq<Overlap>)
    requires PairsInRange(pairs, |shapes|)
    ensures forall t :: t in r <==>
      (t.0, t.1) in pairs && 0 <= t.0 < |shapes| && 0 <= t.1 < |shapes| &&
      BoundsIntersect(o.bounds(shapes[t.0].geometry), o.bounds(shapes[t.1].geometry)) &&
      Overlaps(o, shapes[t.0].geometry, shapes[t.1].geometry) && t == OverlapOf(shapes, o, t.0, t.1)
  {
    if |pairs| == 0 then []
    else
      var (i, j) := pairs[0];
      var rest := SpatialResults(shapes, o, pairs[1..]);
      assert forall p: Pair :: p in pairs <==> p == pairs[0] || p in pairs[1..];
      var g, h := shapes[i].geometry, shapes[j].geometry;
      if BoundsIntersect(o.bounds(g), o.bounds(h)) && Overlaps(o, g, h) then [OverlapOf(shapes, o, i, j)] + rest
      else rest
  }

  /** Distinct pairs give distinct records. */
  lemma {:induction false} SpatialResultsDistinct(shapes: seq<Shape>, o: Oracle, pairs: seq<Pair>)
    requires PairsInRange(pairs, |shapes|) && NoDuplicates(pairs)
    ensures NoDuplicates(SpatialResults(shapes, o, pairs))
  {
    if |pairs| > 0 {
      var tail := pairs[1..];
      assert NoDuplicates(tail) by {
        forall a, b | 0 <= a < b < |tail| ensures tail[a] != tail[b] {
          assert tail[a] == pairs[a + 1] && tail[b] == pairs[b + 1];
        }
      }
      SpatialResultsDistinct(shapes, o, tail);
      var rest := SpatialResults(shapes, o, tail);
      var r := SpatialResults(shapes, o, pairs);
      if r != rest {
        assert pairs[0] !in tail by {
          forall k | 0 <= k < |tail| ensures tail[k] != pairs[0] {
            assert tail[k] == pairs[k + 1];
          }
        }
        assert r[0] !in rest;
        forall a, b | 0 <= a < b < |r| ensures r[a] != r[b] {
          assert r[b] == rest[b - 1];
          if a > 0 {
            assert r[a] == rest[a - 1];
          }
        }
      }
    }
  }

  /**
   * `detect_overlaps_spatial`. Every record is a pair i < j whose boxes meet and whose
   * geometries share a positive area, with that area, and no pair is reported twice.
   * With a complete index nothing is missed, and with sound boxes it reports exactly
   * what the index-free path reports.
   */
  method DetectOverlapsSpatial(shapes: seq<Shape>, o: Oracle, query: Query) returns (overlaps: seq<Overlap>)
    requires IndexInRange(query, |shapes|)
    ensures forall t :: t in overlaps ==>
      0 <= t.0 < t.1 < |shapes| &&
      BoundsIntersect(o.bounds(shapes[t.0].geometry), o.bounds(shapes[t.1].geometry)) &&
      Overlaps(o, shapes[t.0].geometry, shapes[t.1].geometry) && t == OverlapOf(shapes, o, t.0, t.1)
    ensures NoDuplicates(overlaps)
    ensures IndexComplete(query, Boxes(shapes, o)) ==> forall i, j ::
      (0 <= i < j < |shapes| &&
       BoundsIntersect(o.bounds(shapes[i].geometry), o.bounds(shapes[j].geometry)) &&
       Overlaps(o, shapes[i].geometry, shapes[j].geometry)) ==> OverlapOf(shapes, o, i, j) in overlaps
    ensures BoxSound(o) && IndexComplete(query, Boxes(shapes, o)) ==>
      forall t :: t in overlaps <==> t in ParallelOverlapDetection(shapes, o)
  {
    var boxes := Boxes(shapes, o);
    var pairs := IndexedCandidates(boxes, query);
    overlaps := SpatialResults(shapes, o, pairs);
    SpatialResultsDistinct(shapes, o, pairs);
    if IndexComplete(query, boxes) {
      forall i, j | 0 <= i < j < |shapes| && BoundsIntersect(boxes[i], boxes[j])
        ensures (i, j) in pairs
      {
        IndexedCandidatesCover(boxes, query, pairs, i, j);
      }
    }
  }

  /** `detect_overlaps`: the index path or the pool path. */
  method DetectOverlaps(shapes: seq<Shape>, o: Oracle, useSpatialIndex: bool, query: Query) returns (overlaps: seq<Overlap>)
    requires IndexInRange(query, |shapes|)
    ensures forall t :: t in overlaps ==>
      0 <= t.0 < t.1 < |shapes| && Overlaps(o, shapes[t.0].geometry, shapes[t.1].geometry) &&
      t == OverlapOf(shapes, o, t.0, t.1)
    ensures !useSpatialIndex ==> overlaps == ParallelOverlapDetection(shapes, o)
    ensures |shapes| <= 1 ==> overlaps == []
  {
    if useSpatialIndex {
      overlaps := DetectOverlapsSpatial(shapes, o, query);
    } else {
      overlaps := ParallelOverlapDetection(shapes, o);
    }
    if overlaps != [] {
      assert overlaps[0] in overlaps;
    }
  }

  // ---------------------------------------------------------------------------
  // Contacts
  // ---------------------------------------------------------------------------

  /** `_is_contact_conflict`. */
  function IsContactConflict(g: Polygon, h: Polygon, policy: string, o: Oracle): bool {
    if policy == "any_touch" then o.intersects(g, h)
    else if !o.intersects(g, h) then false
    else if o.intersectionEmpty(g, h) then false
    else if policy == "edge_or_overlap" then o.intersectionArea(g, h) > 0.0 || o.intersectionLength(g, h) > 0.0
    else true
  }

  /**
   * What each policy counts as a conflict: any intersection; a non-empty intersection
   * with area or length; any non-empty intersection. Each is at most as strict as
   * the one before it.
   */
  lemma {:induction false} ContactPolicies(g: Polygon, h: Polygon, policy: string, o: Oracle)
    ensures IsContactConflict(g, h, "any_touch", o) <==> o.intersects(g, h)
    ensures IsContactConflict(g, h, "edge_or_overlap", o) <==>
      o.intersects(g, h) && !o.intersectionEmpty(g, h) &&
      (o.intersectionArea(g, h) > 0.0 || o.intersectionLength(g, h) > 0.0)
    ensures policy != "any_touch" && policy != "edge_or_overlap" ==>
      (IsContactConflict(g, h, policy, o) <==> o.intersects(g, h) && !o.intersectionEmpty(g, h))
    ensures IsContactConflict(g, h, "edge_or_overlap", o) ==> IsContactConflict(g, h, policy, o)
    ensures IsContactConflict(g, h, policy, o) ==> IsContactConflict(g, h, "any_touch", o)
  {
  }

  /** A corner-only touch is a conflict under `any_touch` and allowed under `edge_or_overlap`. */
  lemma {:induction false} CornerTouch(g: Polygon, h: Polygon, o: Oracle)
    requires o.intersects(g, h) && !o.intersectionEmpty(g, h)
    requires o.intersectionArea(g, h) == 0.0 && o.intersectionLength(g, h) == 0.0
    ensures IsContactConflict(g, h, "any_touch", o)
    ensures !IsContactConflict(g, h, "edge_or_overlap", o)
  {
  }

  /**
   * `_candidate_pairs` as written. The function holds a `yield`, so Python makes it a
   * generator, and the `return combinations(...)` of the branch without an index ends
   * the iteration before any pair: without the index there are no candidates at all.
   */
  method CandidatePairs(shapes: seq<Shape>, o: Oracle, useSpatialIndex: bool, query: Query) returns (pairs: seq<Pair>)
    requires IndexInRange(query, |shapes|)
    ensures forall k :: 0 <= k < |pairs| ==> 0 <= pairs[k].0 < pairs[k].1 < |shapes|
    ensures NoDuplicates(pairs)
    ensures !useSpatialIndex ==> pairs == []
    ensures useSpatialIndex && IndexComplete(query, Boxes(shapes, o)) ==> forall i, j ::
      0 <= i < j < |shapes| && BoundsIntersect(o.bounds(shapes[i].geometry), o.bounds(shapes[j].geometry)) ==>
      (i, j) in pairs
  {
    if !useSpatialIndex {
      pairs := [];
    } else {
      pairs := IndexedPairs(shapes, o, query);
    }
  }

  /** The index branch of `_candidate_pairs`: the query hits above each shape's own id. */
  method IndexedPairs(shapes: seq<Shape>, o: Oracle, query: Query) returns (pairs: seq<Pair>)
    requires IndexInRange(query, |shapes|)
    ensures forall k :: 0 <= k < |pairs| ==> 0 <= pairs[k].0 < pairs[k].1 < |shapes|
    ensures NoDuplicates(pairs)
    ensures IndexComplete(query, Boxes(shapes, o)) ==> forall i, j ::
      0 <= i < j < |shapes| && BoundsIntersect(o.bounds(shapes[i].geometry), o.bounds(shapes[j].geometry)) ==>
      (i, j) in pairs
  {
    var boxes := Boxes(shapes, o);
    pairs := IndexedCandidates(boxes, query);
    if IndexComplete(query, boxes) {
      forall i, j | 0 <= i < j < |shapes| && BoundsIntersect(boxes[i], boxes[j])
        ensures (i, j) in pairs
      {
        IndexedCandidatesCover(boxes, query, pairs, i, j);
      }
    }
  }

  /**
   * `_candidate_pairs` as its design evidently intends: every pair i < j when there is
   * no index, so that `detect_contacts` falls back to the exhaustive search.
   */
  method IntendedCandidatePairs(shapes: seq<Shape>, o: Oracle, useSpatialIndex: bool, query: Query) returns (pairs: seq<Pair>)
    requires IndexInRange(query, |shapes|)
    ensures forall k :: 0 <= k < |pairs| ==> 0 <= pairs[k].0 < pairs[k].1 < |shapes|
    ensures NoDuplicates(pairs)
    ensures !useSpatialIndex ==> pairs == Combinations(|shapes|)
    ensures !useSpatialIndex || IndexComplete(query, Boxes(shapes, o)) ==> forall i, j ::
      0 <= i < j < |shapes| && BoundsIntersect(o.bounds(shapes[i].geometry), o.bounds(shapes[j].geometry)) ==>
      (i, j) in pairs
  {
    if !useSpatialIndex {
      pairs := Combinations(|shapes|);
      assert forall k :: 0 <= k < |pairs| ==> pairs[k] in pairs;
    } else {
      pairs := IndexedPairs(shapes, o, query);
    }
  }

  /** The filter of `detect_contacts` over the candidates. */
  function ContactResults(shapes: seq<Shape>, o: Oracle, policy: string, pairs: seq<Pair>): (r: seq<Pair>)
    requires PairsInRange(pairs, |shapes|)
    ensures forall p :: p in r <==>
      p in pairs && 0 <= p.0 < |shapes| && 0 <= p.1 < |shapes| && IsContact(shapes, o, policy, p.0, p.1)
    ensures |r| <= |pairs|
  {
    if |pairs| == 0 then []
    else
      var rest := ContactResults(shapes, o, policy, pairs[1..]);
      assert forall p: Pair :: p in pairs <==> p == pairs[0] || p in pairs[1..];
      if IsContact(shapes, o, policy, pairs[0].0, pairs[0].1) then [pairs[0]] + rest else rest
  }

  /** The filter keeps the candidates' order, so distinct candidates give distinct contacts. */
  lemma {:induction false} ContactResultsDistinct(shapes: seq<Shape>, o: Oracle, policy: string, pairs: seq<Pair>)
    requires PairsInRange(pairs, |shapes|) && NoDuplicates(pairs)
    ensures NoDuplicates(ContactResults(shapes, o, policy, pairs))
    decreases |pairs|
  {
    if |pairs| > 0 {
      var tail := pairs[1..];
      assert NoDuplicates(tail) by {
        forall a, b | 0 <= a < b < |tail| ensures tail[a] != tail[b] {
          assert tail[a] == pairs[a + 1] && tail[b] == pairs[b + 1];
        }
      }
      ContactResultsDistinct(shapes, o, policy, tail);
      var rest := ContactResults(shapes, o, policy, tail);
      var r := ContactResults(shapes, o, policy, pairs);
      if r != rest {
        assert pairs[0] !in tail by {
          forall k | 0 <= k < |tail| ensures tail[k] != pairs[0] {
            assert tail[k] == pairs[k + 1];
          }
        }
        assert r == [pairs[0]] + rest;
        forall a, b | 0 <= a < b < |r| ensures r[a] != r[b] {
          assert r[b] == rest[b - 1];
          if a > 0 {
            assert r[a] == rest[a - 1];
          } else {
            assert r[b] in rest;
          }
        }
      }
    }
  }

  /** The test `detect_contacts` applies to a candidate: boxes meet and the policy calls it a conflict. */
  predicate IsContact(shapes: seq<Shape>, o: Oracle, policy: string, i: nat, j: nat)
    requires i < |shapes| && j < |shapes|
  {
    BoundsIntersect(o.bounds(shapes[i].geometry), o.bounds(shapes[j].geometry)) &&
    IsContactConflict(shapes[i].geometry, shapes[j].geometry, policy, o)
  }

  /**
   * `detect_contacts` as written: pairs i < j that are contacts, each once. With a
   * complete index it finds every contact, and with sound boxes the `any_touch` contacts
   * are exactly the intersecting pairs; without the index it finds none.
   */
  method DetectContacts(shapes: seq<Shape>, o: Oracle, useSpatialIndex: bool, query: Query, policy: string)
    returns (contacts: seq<Pair>)
    requires IndexInRange(query, |shapes|)
    ensures forall p :: p in contacts ==> 0 <= p.0 < p.1 < |shapes| && IsContact(shapes, o, policy, p.0, p.1)
    ensures NoDuplicates(contacts)
    ensures !useSpatialIndex ==> contacts == []
    ensures useSpatialIndex && IndexComplete(query, Boxes(shapes, o)) ==>
      forall i, j :: 0 <= i < j < |shapes| && IsContact(shapes, o, policy, i, j) ==> (i, j) in contacts
    ensures BoxSound(o) && policy == "any_touch" && useSpatialIndex && IndexComplete(query, Boxes(shapes, o)) ==>
      forall i, j :: 0 <= i < j < |shapes| ==>
        ((i, j) in contacts <==> o.intersects(shapes[i].geometry, shapes[j].geometry))
  {
    var pairs := CandidatePairs(shapes, o, useSpatialIndex, query);
    contacts := ContactResults(shapes, o, policy, pairs);
    ContactResultsDistinct(shapes, o, policy, pairs);
    forall p | p in contacts ensures 0 <= p.0 < p.1 < |shapes| {
      var k :| 0 <= k < |pairs| && pairs[k] == p;
    }
  }

  /**
   * `detect_contacts` as evidently intended: with all pairs or a complete index, every
   * contact, and with sound boxes the `any_touch` contacts are exactly the intersecting pairs.
   */
  method IntendedDetectContacts(shapes: seq<Shape>, o: Oracle, useSpatialIndex: bool, query: Query, policy: string)
    returns (contacts: seq<Pair>)
    requires IndexInRange(query, |shapes|)
    ensures forall p :: p in contacts ==> 0 <= p.0 < p.1 < |shapes| && IsContact(shapes, o, policy, p.0, p.1)
    ensures NoDuplicates(contacts)
    ensures !useSpatialIndex || IndexComplete(query, Boxes(shapes, o)) ==>
      forall i, j :: 0 <= i < j < |shapes| && IsContact(shapes, o, policy, i, j) ==> (i, j) in contacts
    ensures BoxSound(o) && policy == "any_touch" && (!useSpatialIndex || IndexComplete(query, Boxes(shapes, o))) ==>
      forall i, j :: 0 <= i < j < |shapes| ==>
        ((i, j) in contacts <==> o.intersects(shapes[i].geometry, shapes[j].geometry))
  {
    var pairs := IntendedCandidatePairs(shapes, o, useSpatialIndex, query);
    contacts := ContactResults(shapes, o, policy, pairs);
    ContactResultsDistinct(shapes, o, policy, pairs);
    forall p | p in contacts ensures 0 <= p.0 < p.1 < |shapes| {
      var k :| 0 <= k < |pairs| && pairs[k] == p;
    }
  }

  /** The squares (0,0)-(10,10) and (5,5)-(15,15), which overlap on (5,5)-(10,10). */
  function OverlappingSquares(): (shapes: seq<Shape>)
    ensures |shapes| == 2
  {
    [Shape(0, BoxPolygon(0.0, 0.0, 10.0, 10.0), map[], None),
     Shape(1, BoxPolygon(5.0, 5.0, 15.0, 15.0), map[], None)]
  }

  /**
   * Without the index, `detect_contacts` as written reports nothing for two overlapping
   * squares, while the intended search reports the pair. `o` is any geometry oracle that,
   * as shapely does, finds the squares intersecting with meeting bounds.
   */
  method ContactsWithoutIndex(o: Oracle) returns (asWritten: seq<Pair>, intended: seq<Pair>)
    requires o.intersects(OverlappingSquares()[0].geometry, OverlappingSquares()[1].geometry)
    requires BoundsIntersect(o.bounds(OverlappingSquares()[0].geometry), o.bounds(OverlappingSquares()[1].geometry))
    ensures asWritten == []
    ensures (0, 1) in intended
  {
    var shapes := OverlappingSquares();
    var none: Query := b => [];
    asWritten := DetectContacts(shapes, o, false, none, "any_touch");
    intended := IntendedDetectContacts(shapes, o, false, none, "any_touch");
    assert IsContact(shapes, o, "any_touch", 0, 1);
  }
}
