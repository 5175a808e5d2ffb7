# Diastasis shape separation, modelled in Dafny

Diastasis reads an SVG drawing and splits its shapes into layers. No two shapes that
overlap should share a layer, so a printer can output each layer separately. The pipeline:

1. `SVGParser` turns `rect` and `polygon` elements (and, through shapely, circles,
   ellipses and paths) into polygons, and reads the canvas size.
2. `GeometryEngine` finds the pairs of shapes that overlap with positive area. It uses
   either an R-tree over bounding boxes or every pair of shapes.
3. `GraphSolver` builds the weighted overlap graph and colours it. It uses a networkx
   greedy strategy, optionally followed by a local search that frees colours, or the
   weighted `force_k` heuristic that fills exactly k layers.
4. `run_diastasis` in `main.py` gives the largest shape (the background) a colour of its
   own, writes a summary, and groups the shapes by colour. `save_layers_to_files` writes
   one layered SVG with a group per colour plus crop marks.
5. `OutputGenerator` writes one SVG file per layer, with registration crosses, and a
   plain-text report.

The project models each stage as pure functions over immutable data. Methods are used
where the source loops. The modules follow the source files:

| module | file | models |
|---|---|---|
| `Geometry` | geometry.dfy | points, rings and polygons with holes, shoelace area, axis-aligned boxes |
| `SvgParser` | svg_parser.dfy | `parse_dimension`, `get_svg_dimensions`, `convert_to_polygon`, `preserve_metadata`, `extract_shapes` |
| `GeometryEngine` | geometry_engine.dfy | box test, candidate pairs (indexed and exhaustive), overlap detection, contact policies |
| `GraphSolver` | graph_solver.dfy | `build_overlap_graph`, `force_k_coloring`, `optimize_coloring`, `get_num_layers`, `solve_coloring` |
| `Composition` | composition.dfy | `polygon_to_svg_path_d`, `generate_crop_marks_svg`, background recolouring, summary, grouping |
| `LayeredSvg` | layered_svg.dfy | `save_layers_to_files` (colour map, layer order, document text) |
| `Pipeline` | pipeline.dfy | `run_diastasis` end to end on parsed shapes |
| `OutputGenerator` | output_generator.dfy | `to_svg_path`, `add_registration_marks`, `generate_svg_layer`, `create_layer_files`, `create_summary_report` |

Supporting modules:

- `Wrappers`: `Option` and `Result`.
- `Strings`: join, split, strip, words.
- `Decimals`: the numeric-prefix regex of `parse_dimension`.
- `Numerals`: integer and hexadecimal text.
- `Sorting`: a stable descending sort, and ascending order.
- `Counting` and `SetFacts`: duplicates, counts and ranges.
- `Dicts`: Python dictionaries, kept in insertion order as sequences of pairs with distinct keys.

Outside effects become parameters:

- `Oracle` stands for shapely's predicates on polygons: intersection, intersection
  area and length, emptiness, and bounds. Lemmas that need boxes to contain their
  geometry require the ghost predicate `BoxSound`.
- `Query` stands for the R-tree's box query.
- `GreedyColorer` stands for networkx `greedy_color`, by strategy name.
- `FloatParser` stands for Python's `float()`; `Formatter` stands for Python's number
  formatting.
- `Draw` and `LayerDraw` stand for `random.randint`.
- Floating-point numbers are `real`.

Where the source's docstrings and its code disagree, the model follows the code:

- `optimize_coloring` tries every colour below the current colour count, not only
  colours below the node's own. It moves a node only when the node's old colour is then
  unused.
- With a colouring that holds keys outside the graph, a move can leave the colour
  count unchanged or make it grow (`MoveCanAddColour`). With keys equal to the graph's
  nodes but colours that skip values, a move to an unused colour leaves the count
  unchanged. `OptimizeColoring` proves the count never grows only when the colouring's
  keys are exactly the graph's nodes, and that each move removes a colour only when the
  colours are also contiguous.
- A comment in `to_svg_path` says the layer colour replaces the original fill colour.
  The code puts the colour (a `fill:rgb(...);` declaration) in front of the original
  style instead, so an original `fill` declaration comes after it and, in CSS, wins
  (`ToSvgPathReadBack`).
- `force_k_coloring` never counts the edges it leaves inside one layer. The model
  proves which greedy choice is made at each step and exhibits a triangle whose
  result is not proper.

## Model

| member | source | states |
|---|---|---|
| Geometry.PolygonFromPoints | svg_parser.py:146-148 | shapely's `Polygon(points)`: no points gives the empty polygon; a closed ring of 1 to 3 coordinates is rejected; otherwise the ring is closed, has at least 4 coordinates and starts with the given points |
| Geometry.BoxPolygonArea | svg_parser.py:104 | the rectangle `box(x, y, x+w, y+h)` has area \|w·h\| |
| SvgParser.StripUnitAppended | svg_parser.py:38-41 | stripping a trailing unit (px, pt, pc, mm, cm, in, em, ex in any case, or %) undoes appending it |
| SvgParser.StripUnitOfDigitEnd | svg_parser.py:38-41 | a value ending in a digit loses nothing to unit stripping |
| SvgParser.ParseDimensionIgnoresUnit | svg_parser.py:25-50 | a dimension ending in a digit parses the same with or without a unit appended |
| SvgParser.ParseDimensionOfDecimal | svg_parser.py:25-50 | a decimal literal followed by a unit or nothing parses to its decimal value |
| SvgParser.ParseDimensionFallback | svg_parser.py:43-49 | when `float()` rejects the cleaned text and some prefix is a decimal, the result is the value of the longest decimal prefix |
| SvgParser.ParseDimensionGarbage | svg_parser.py:43-50 | when `float()` rejects the cleaned text and no prefix is a decimal, the result is 0.0 |
| SvgParser.SvgSize | svg_parser.py:60-79 | the canvas size is never zero in either direction; an explicit width or height wins over the viewBox; without a viewBox, or with one that does not have exactly four fields, zero sides become 800 and 600 |
| SvgParser.SvgSizeFromViewBox | svg_parser.py:60-68 | with no width or height, a four-part viewBox whose last two parts parse to non-zero numbers gives the size |
| SvgParser.SvgSizeBadViewBox | svg_parser.py:66-71 | with no width or height, a four-part viewBox whose width part does not parse gives 800×600 |
| SvgParser.DimensionsDefault | svg_parser.py:52-79 | an `svg` root with no width, height or viewBox is 800×600 |
| SvgParser.RectPolygon | svg_parser.py:97-104 | a rectangle is rejected exactly when its width or height is zero; otherwise its polygon is non-empty with area \|w·h\| |
| SvgParser.ParsePointsRejects | svg_parser.py:133-145 | one token that is not exactly two comma-separated parts rejects the whole points list |
| SvgParser.ParsePointsAccepts | svg_parser.py:133-139 | when every token has exactly two comma-separated parts, the points list parses |
| SvgParser.PolygonFromTokens | svg_parser.py:129-148 | an accepted polygon comes from at least 3 pairs and has a closed ring of at least 4 coordinates starting with the parsed points |
| SvgParser.ConvertPolygon | svg_parser.py:125-128 | an empty or all-whitespace `points` attribute gives no polygon |
| SvgParser.PointsRoundTrip | svg_parser.py:133-139 | writing coordinate pairs as "x,y" words joined by spaces and parsing them back gives the same points |
| SvgParser.ConvertPolygonOfPairs | svg_parser.py:125-148 | a `polygon` element whose `points` attribute is 3 or more written pairs converts to the polygon through exactly those points |
| SvgParser.TriangleArea | svg_parser.py:125-148 | the points "0,0 10,0 5,10" give a triangle of area 50 |
| SvgParser.ConvertToPolygon | svg_parser.py:94-172 | only an element whose tag ends in rect, circle, ellipse, polygon or path can give a polygon |
| SvgParser.DegenerateCurvesRejected | svg_parser.py:105-152 | a circle with a missing or blank radius, or a path with missing or blank data, gives no polygon whatever the approximation |
| SvgParser.PreserveMetadata | svg_parser.py:174-180 | the metadata always has exactly the keys style, transform and id, each holding the attribute or `None` |
| SvgParser.ExtractShapes | svg_parser.py:81-92 | every shape comes from the element at its id, has that element's geometry, metadata and path data, and ids strictly increase |
| SvgParser.ExtractShapesComplete | svg_parser.py:81-92 | every element that converts to a non-empty polygon yields a shape |
| SvgParser.ExtractedShapesWellFormed | svg_parser.py:84-91 | an extracted shape's geometry is non-empty, its metadata has an id entry, and it has a `d` attribute exactly when it comes from a path element |
| GeometryEngine.BoundsIntersectIffCommonPoint | geometry_engine.py:103-104 | two well-formed boxes pass `_bounds_intersect` exactly when they share a point, touching edges included |
| GeometryEngine.BoundsIntersectSymmetric | geometry_engine.py:103-104 | the box test is symmetric |
| GeometryEngine.Combinations | geometry_engine.py:90 | `combinations(range(n), 2)`: all pairs i < j, each once |
| GeometryEngine.IndexedCandidates | geometry_engine.py:92-101 | the indexed candidates are pairs i < j where j is a query hit for i's box; every such hit appears, and no pair repeats |
| GeometryEngine.IndexedCandidatesCover | geometry_engine.py:85-101 | with an index that returns every intersecting box, every pair whose boxes meet is a candidate |
| GeometryEngine.WorkerAgreesWithArea | geometry_engine.py:8-15 | the worker reports a pair exactly when `calculate_overlap_area` is positive, and it reports that area |
| GeometryEngine.ParallelOverlapDetection | geometry_engine.py:70-77 | the exhaustive search reports exactly the pairs i < j whose geometries overlap with positive area, with that area |
| GeometryEngine.SpatialResultsDistinct | geometry_engine.py:38-49 | the indexed search never reports a pair twice |
| GeometryEngine.DetectOverlapsSpatial | geometry_engine.py:38-49 | every reported triple is an ordered pair in range with its positive overlap area; with sound boxes and a complete index, every overlapping pair is reported |
| GeometryEngine.DetectOverlaps | geometry_engine.py:31-36 | both strategies report only true overlaps; without the index the result is the exhaustive search; fewer than two shapes give no overlaps |
| GeometryEngine.ContactPolicies | geometry_engine.py:106-123 | `any_touch` means the geometries intersect; `edge_or_overlap` means a non-empty intersection with positive area or length; other policies mean a non-empty intersection; `edge_or_overlap` ⊆ any policy ⊆ `any_touch` |
| GeometryEngine.CornerTouch | geometry_engine.py:106-123 | a contact at a single point counts under `any_touch` but not under `edge_or_overlap` |
| GeometryEngine.CandidatePairs | geometry_engine.py:85-101 | candidates are distinct in-range pairs i < j; without the index there are none, because the `yield` makes the function a generator and its early `return` ends it empty; with a complete index they include every pair whose boxes meet |
| GeometryEngine.IndexedPairs | geometry_engine.py:92-101 | the index branch gives distinct in-range pairs i < j, and with a complete index every pair whose boxes meet |
| GeometryEngine.IntendedCandidatePairs | geometry_engine.py:85-90 | the corrected candidates: without the index, all pairs i < j in order; in either mode, with a complete index or none, every pair whose boxes meet |
| GeometryEngine.ContactResults | geometry_engine.py:60-68 | contacts are exactly the candidates whose boxes meet and that conflict under the policy |
| GeometryEngine.ContactResultsDistinct | geometry_engine.py:60-68 | distinct candidates give distinct contacts |
| GeometryEngine.DetectContacts | geometry_engine.py:51-68 | every reported contact is an in-range pair i < j that conflicts, reported once; without the index nothing is reported; with a complete index every contact is reported, and with `any_touch` the contacts are exactly the intersecting pairs |
| GeometryEngine.IntendedDetectContacts | geometry_engine.py:51-68 | the corrected search: only conflicting in-range pairs, each once, and with a complete index or none every contact, and with `any_touch` exactly the intersecting pairs |
| GeometryEngine.ContactsWithoutIndex | geometry_engine.py:89-90 | two overlapping squares give no contacts without the index as written, and the contact (0, 1) under the corrected search |
| GraphSolver.AddEdgeEdges | graph_solver.py:25-26 | `add_edge` adds exactly the edge {u, v} with weight w and keeps the other edges and weights |
| GraphSolver.AddEdgesEdges | graph_solver.py:25-26 | after adding all overlaps, two nodes are adjacent exactly when some overlap joins them |
| GraphSolver.AddEdgesLastWins | graph_solver.py:25-26 | when an edge is added more than once, the last overlap's weight stays |
| GraphSolver.BuildOverlapGraph | graph_solver.py:19-28 | nodes 0..n-1 in order, each sized by its shape's area; with endpoints in range, no other nodes |
| GraphSolver.BuildOverlapGraphEdges | graph_solver.py:19-28 | the graph is well formed, and two shapes are adjacent exactly when an overlap names them |
| GraphSolver.BuildOverlapGraphWeights | graph_solver.py:19-28 | each overlap's edge carries that overlap's area when the overlaps agree on their weights |
| GraphSolver.DetectedOverlapsConsistent | graph_solver.py:19-28 | overlaps that `detect_overlaps` reports agree on weights and name only shapes |
| GraphSolver.ArgMin | graph_solver.py:101 | `np.argmin`: the index of a smallest cost, the first one among ties |
| GraphSolver.ForceKColoring | graph_solver.py:73-105 | every node gets a layer in 0..k-1, and each node in descending size order (stable among equal sizes) takes the first cheapest layer given the layers of the nodes before it |
| GraphSolver.FirstPlacement | graph_solver.py:91-103 | the first node placed always goes to layer 0 |
| GraphSolver.ForceKTriangle | graph_solver.py:73-105 | on a triangle of shapes with k = 2, where the largest two overlap and the largest–smallest overlap is no bigger than the middle–smallest one, the largest and smallest share layer 0 although an edge joins them: the result need not be proper, and the overlap left inside the layers is exactly the largest–smallest one |
| GraphSolver.FirstMove | graph_solver.py:115-140 | a found move is a node and a colour below the count that is valid, differs from the node's colour and frees it; none is found exactly when no node in the order has a move |
| GraphSolver.FirstMoveIsFirst | graph_solver.py:119-137 | the move found is the first in scan order: no earlier node has a move, and no smaller colour works for this node |
| GraphSolver.ApplyMoveProper | graph_solver.py:121-135 | a move keeps a proper colouring proper |
| GraphSolver.ApplyMoveCount | graph_solver.py:126-135 | a move removes one colour, or none when the target colour was unused |
| GraphSolver.MoveCanAddColour | graph_solver.py:126-135 | with a colouring key outside the graph, a move can take two colours to three |
| GraphSolver.ApplyMoveContiguous | graph_solver.py:126-135 | on colours 0..m-1, a move leaves colours 0..m-2 |
| GraphSolver.OptimizeColoring | graph_solver.py:107-145 | keeps the coloured nodes, keeps properness, never uses more colours, makes at most `max_iterations` moves, stops early only at a local optimum, and on contiguous colours removes one colour per move |
| GraphSolver.GetNumLayers | graph_solver.py:154-158 | 0 for no colours; otherwise one more than the largest colour, which equals the colour count for contiguous colours |
| GraphSolver.SolveColoring | graph_solver.py:30-71 | unknown strategies and `force_k` without a positive count fail with their own errors; `force_k` gives its greedy layering; other strategies give the greedy colouring, or its optimisation when asked |
| Dicts.PutGet | main.py:82 | assigning `coloring[k] = v` makes k read v and leaves every other key as it was |
| Dicts.FromMapToMap | main.py:93 | reading a colouring for the shape indices keeps exactly its entries for those indices |
| Dicts.KeysWithMember | output_generator.py:18 | the keys collected for a value are exactly the keys holding that value |
| Composition.PathDRoundTrip | main.py:9-32 | the path data of a non-empty polygon splits into words that parse back to its exterior and holes, in order |
| Composition.PathDWords | main.py:9-32 | the path data of a non-empty polygon is its subpaths' words, "M x y", "L x y"…, "Z", joined by spaces |
| Composition.CropMarksLines | main.py:35-45 | the crop-mark text is exactly four path elements, one per line |
| Composition.LargestShapeIndex | main.py:69-75 | the background is the first non-empty shape of strictly largest area, and -1 exactly when no shape qualifies |
| Composition.RecolourBackgroundFresh | main.py:77-82 | the background gets a colour above every other colour in use; all other shapes keep theirs |
| Composition.RecolourBackgroundProper | main.py:77-82 | setting the background apart keeps a proper colouring proper |
| Composition.UsedColours | main.py:85-87 | the colours in use, each once, strictly ascending |
| Composition.SummaryLines | main.py:85-89 | the summary reads back as the header, a blank line, then one "Color c: n shapes" line per colour in ascending order, with n the number of shapes of colour c |
| Composition.TalliesCoverShapes | main.py:87-89 | the tallied counts add up to the number of coloured shapes |
| Composition.GroupByColourKeys | main.py:91-94 | grouping lists each colour once, in order of first use |
| Composition.GroupByColourGet | main.py:91-94 | under each colour in use, the group lists exactly the shapes of that colour, in colouring order; other colours are absent |
| LayeredSvg.ColourMap | main.py:109-116 | colours 0–11 take the fixed palette; colours 12..max take a drawn 24-bit hex colour; no other colour has an entry |
| LayeredSvg.FillColourCases | main.py:128 | colours 0–11 take their palette entry; colours 12..max take the drawn colour, whose hex text reads back as the drawn value; a negative colour gets #CCCCCC |
| LayeredSvg.LayerPathsMember | main.py:131-140 | a layer holds the non-empty path data of exactly its shapes: the original `d` when present, else the polygon's path data |
| LayeredSvg.LayersOrdered | main.py:122-127 | one layer per colour, in strictly ascending colour order, with distinct names |
| LayeredSvg.LayersContents | main.py:125-141 | each layer holds the path data of exactly its own colour's group |
| LayeredSvg.LayeredDocumentLines | main.py:119-147 | the document reads back line by line as the opening tag, each layer's group, the crop-mark group and the closing tag |
| Pipeline.RecolourBackgroundOnItsOwn | main.py:69-82 | after recolouring, every shape still has a colour and the background's colour is above all others |
| Pipeline.OverlapGraphNodes | main.py:59-64 | the graph built from detected overlaps is well formed and has exactly the shapes as nodes |
| Pipeline.Finish | main.py:69-94 | every shape has exactly one colour, the background's colour is its own, a proper solver result stays proper, and the groups and summary describe the final colouring |
| Pipeline.RunDiastasis | main.py:51-96 | no shapes, an unknown strategy and `force_k` without a count each give their own error; otherwise the outputs of `Finish` |
| OutputGenerator.ToSvgPathReadBack | output_generator.py:48-61 | with quote-free texts, the path element splits at its double quotes into the path data, a style that is the layer colour, a space and the original style, then the original transform and id |
| OutputGenerator.PathDataRoundTrip | output_generator.py:52 | the path data splits into "M", the coordinates separated by "L", and "Z", and parses back to the coordinate texts |
| OutputGenerator.MarkSegmentsAreCrosses | output_generator.py:74-98 | marks 2k and 2k+1 are the horizontal and vertical arms, of length 20, of a cross centred on corner k of the box grown by 50 |
| OutputGenerator.MarksClearOfBounds | output_generator.py:74-97 | every point of every registration stroke stays at least 40 (the margin less the cross size) beyond the shapes' bounds on both axes |
| OutputGenerator.AddRegistrationMarks | output_generator.py:63-103 | no shapes give no marks; otherwise eight lines and a text element |
| OutputGenerator.RegistrationMarksShape | output_generator.py:84-103 | marks 2k and 2k+1 are the horizontal and the vertical stroke of span 20 centred on corner k of the box grown by 50 (top left, top right, bottom left, bottom right), and the last mark is a text element ending with the layer name |
| OutputGenerator.GenerateSvgLayerLines | output_generator.py:31-46 | a layer file reads back as the header line, one line per path and mark, and the closing tag |
| OutputGenerator.LayerFileNameInjective | output_generator.py:27 | different layer numbers give different file names |
| OutputGenerator.LayerShapes | output_generator.py:18 | a layer holds as many shapes as the colouring has entries of that layer's colour |
| OutputGenerator.NumLayers | output_generator.py:13-16 | 0 for an empty colouring; otherwise above every colour and equal to one more than some colour |
| OutputGenerator.CreateLayerFiles | output_generator.py:8-29 | one file per layer number from 0 to the largest colour, and none for an empty colouring |
| OutputGenerator.CreateLayerFilesPartition | output_generator.py:17-27 | file L is named `<name>_layer_<L+1>.svg` and holds exactly the shapes coloured L |
| OutputGenerator.ColouredShapeHasFile | output_generator.py:16-18 | every shape with a non-negative colour lands in some layer file |
| OutputGenerator.LayerFilesCoverShapes | output_generator.py:16-18 | with non-negative colours, the layer files together hold every shape exactly once |
| OutputGenerator.CreateSummaryReport | output_generator.py:111-129 | the report is empty exactly when the colouring is |
| OutputGenerator.SummaryReportLines | output_generator.py:111-129 | the report reads back as the nine header lines, then "Layer L+1: n shapes" for each layer L, with n the number of shapes coloured L |
| OutputGenerator.SummaryReportTotals | output_generator.py:125-127 | with non-negative colours, the per-layer counts add up to the number of coloured shapes |

## Left out

- `gui.py`: the Tk front end is outside the core.
- shapely, rtree and networkx are not re-implemented. Their results are parameters: the
  `Oracle`, the `Query` and the `GreedyColorer`. Lemmas that depend on their behaviour
  state it as a requirement (`BoxSound`, `IndexComplete`, `ColoursShapes`).
- The `multiprocessing.Pool` in `parallel_overlap_detection` is modelled as a sequential
  map, which gives the same results in the same order.
- `load_svg` and lxml's tree walk are left out. `ExtractShapes` takes the
  matched elements in document order.
- Circle, ellipse and path conversion go through shapely buffers and svgpathtools. They
  are an `Approximator` parameter. Only their blank-input guards are modelled.
- Python's `float()` and number formatting are the parameters `FloatParser` and
  `Formatter`. Floating-point rounding, NaN and infinities are not modelled: numbers are
  `real`.
- File I/O: `os.makedirs`, `open` and `write` are left out. `CreateLayerFiles` returns
  name and content pairs. `LayeredDocument` is the text `save_layers_to_files` writes.
- Randomness: `random.randint` draws are the parameters `Draw` and `LayerDraw`.
- `preserve_original_styling` is a placeholder in the source that returns "". Nothing
  calls it.
- `add_registration_marks` takes the shapely `MultiPolygon(...).bounds` of the valid
  geometries as a `Box` parameter. Validity checking and the NaN bounds of an empty
  multipolygon are not modelled.
- `create_summary_report` does not use its `output_dir` argument; neither does the model.
- The solver's dictionary order is not modelled. `run_diastasis` walks the colouring in
  ascending shape order (`FromMap`), so the grouping lists shapes in that order.
- `run_diastasis` returns a 5-tuple on success and a 3-tuple on failure. The model
  returns a `Result` and leaves out the canvas size, which comes straight from the parser.
- The `RecursionError` fallback to DSATUR in `solve_coloring` is part of the
  `GreedyColorer` parameter.
- Negative colours cannot come from any modelled solver. `create_layer_files` gives them
  no file, and `LayerFilesCoverShapes` requires non-negative colours.
- ForceKColoring: requires k > 0. The source reaches it only through `solve_coloring`,
  which enforces this, and `np.argmin` of an empty array raises.
- OptimizeColoring: requires every graph node to be coloured. The source reads
  `current_coloring[node]`, which raises `KeyError` otherwise.
- OptimizeColoring: the colour-count facts are stated only for colourings whose keys are
  exactly the graph's nodes. With other keys the count of the source can stay the same
  or grow, and with non-contiguous colours a move can leave it unchanged.
- LayerShapes and CreateLayerFiles: require every coloured key to index the shape list,
  as `shapes[i]` in the source does.
- SvgParser.ParseDimension: digits are the ASCII digits only, and the unit suffixes
  are folded to lower case over ASCII letters only. Python's `\d` also matches other
  Unicode digits, and `re.IGNORECASE` also folds characters such as the dotless `ı`,
  the long `ſ` and the Kelvin sign.
- SvgParser.SvgSize: sizes are `real` and printed by one `Formatter`. The source's
  fallbacks 800 and 600 are Python integers and print without a fraction ("800",
  and "790" in the crop marks), while parsed sizes are floats and print as "800.0".
- SvgParser.ParseDimensionFallback: models the regex fallback's `float()` of the
  captured literal as the literal's exact decimal value.
- Composition.PathDRoundTrip, OutputGenerator.PathDataRoundTrip, the document-lines
  lemmas and SummaryReportLines: require a `Formatter` whose every output is a single
  word without spaces or line breaks, which Python's `repr` of a finite float is.

## Findings

| source | as written | input that shows it | evidently intended | confidence | as-written member | corrected member |
|---|---|---|---|---|---|---|
| geometry_engine.py:89-90,101 | `_candidate_pairs` holds a `yield`, so it is a generator; its `return combinations(...)` without the spatial index ends the iteration at once, and `detect_contacts` then reports no contacts at all | a `GeometryEngine(use_spatial_index=False)` and the squares (0,0)-(10,10) and (5,5)-(15,15): no contacts, although they overlap | without the index, every pair i < j is a candidate, so every contact is reported | high; not executed | GeometryEngine.DetectContacts, shown by GeometryEngine.ContactsWithoutIndex | GeometryEngine.IntendedDetectContacts |
