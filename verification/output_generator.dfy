/**
 * `OutputGenerator` in output_generator.py: one SVG file per layer (layer L holds the
 * shapes coloured L, each written as a path with the layer's random fill, followed by
 * registration crosses and the layer's name), and a plain-text summary report.
 */
module OutputGenerator {
  import opened Wrappers
  import opened Strings
  import opened Numerals
  import opened Geometry
  import opened SvgParser
  import opened Counting
  import opened Dicts

  // ---------------------------------------------------------------------------
  // to_svg_path
  // ---------------------------------------------------------------------------

  /** `f"{x},{y}"` for one coordinate pair. */
  function CoordText(p: Point, fmt: Formatter): string {
    fmt(p.x) + "," + fmt(p.y)
  }

  function CoordTexts(ring: Ring, fmt: Formatter): (r: seq<string>)
    ensures |r| == |ring|
  {
    seq(|ring|, i requires 0 <= i < |ring| => CoordText(ring[i], fmt))
  }

  /** `"M " + " L ".join(coords) + " Z"` over the exterior ring. */
  function PathData(ring: Ring, fmt: Formatter): string {
    "M " + Join(CoordTexts(ring, fmt), " L ") + " Z"
  }

  /** `shape.metadata.get(key, '')` as an f-string renders it: a missing key gives "", a `None` value "None". */
  function MetadataText(m: Metadata, key: string): string {
    if key !in m then "" else if m[key].None? then "None" else m[key].value
  }

  const Quote: string := "\""

  /** `to_svg_path`: the exterior as path data, the layer colour put before the original style. */
  function ToSvgPath(s: Shape, colour: string, fmt: Formatter): string {
    var style := colour + " " + MetadataText(s.metadata, "style");
    "<path d=" + Quote + PathData(s.geometry.exterior, fmt) + Quote +
    " style=" + Quote + style + Quote +
    " transform=" + Quote + MetadataText(s.metadata, "transform") + Quote +
    " id=" + Quote + MetadataText(s.metadata, "id") + Quote + " />"
  }

  /**
   * The path element reads back field by field: split at its double quotes, it gives the
   * path data, the style made of the layer colour, a space and the original style, then
   * the original transform and id, provided none of these texts holds a double quote.
   */
  lemma {:induction false} ToSvgPathReadBack(s: Shape, colour: string, fmt: Formatter)
    requires '"' !in PathData(s.geometry.exterior, fmt) && '"' !in colour
    requires '"' !in MetadataText(s.metadata, "style") && '"' !in MetadataText(s.metadata, "transform")
    requires '"' !in MetadataText(s.metadata, "id")
    ensures SplitOn(ToSvgPath(s, colour, fmt), '"') ==
      ["<path d=", PathData(s.geometry.exterior, fmt),
       " style=", colour + " " + MetadataText(s.metadata, "style"),
       " transform=", MetadataText(s.metadata, "transform"),
       " id=", MetadataText(s.metadata, "id"), " />"]
  {
    var pd, st := PathData(s.geometry.exterior, fmt), colour + " " + MetadataText(s.metadata, "style");
    var tr, id := MetadataText(s.metadata, "transform"), MetadataText(s.metadata, "id");
    assert '"' !in st by { ConcatFree(colour + " ", MetadataText(s.metadata, "style"), '"'); }
    assert ToSvgPath(s, colour, fmt) ==
      "<path d=" + Quote + pd + Quote + " style=" + Quote + st + Quote + " transform=" + Quote + tr + Quote +
      " id=" + Quote + id + Quote + " />";
    QuotedFields("<path d=", pd, " style=", st, " transform=", tr, " id=", id, " />");
  }

  /** Nine quote-free fields, each but the last followed by a double quote, split back into the fields. */
  lemma {:induction false} QuotedFields(f0: string, f1: string, f2: string, f3: string, f4: string,
                                        f5: string, f6: string, f7: string, f8: string)
    requires '"' !in f0 && '"' !in f1 && '"' !in f2 && '"' !in f3 && '"' !in f4
    requires '"' !in f5 && '"' !in f6 && '"' !in f7 && '"' !in f8
    ensures SplitOn(f0 + Quote + f1 + Quote + f2 + Quote + f3 + Quote + f4 + Quote + f5 + Quote + f6 + Quote +
      f7 + Quote + f8, '"') == [f0, f1, f2, f3, f4, f5, f6, f7, f8]
  {
    var a2 := f0 + Quote + f1 + Quote + f2;
    var a4 := a2 + Quote + f3 + Quote + f4;
    var a6 := a4 + Quote + f5 + Quote + f6;
    assert SplitOn(a2, '"') == [f0, f1, f2] by {
      SplitOnFree(f0, '"');
      QuotedPair(f0, f1, f2);
    }
    QuotedPair(a2, f3, f4);
    assert SplitOn(a4, '"') == [f0, f1, f2, f3, f4];
    QuotedPair(a4, f5, f6);
    assert SplitOn(a6, '"') == [f0, f1, f2, f3, f4, f5, f6];
    QuotedPair(a6, f7, f8);
  }

  /** Two more quote-free fields, each after a double quote, add two parts. */
  lemma {:induction false} QuotedPair(a: string, x: string, y: string)
    requires '"' !in x && '"' !in y
    ensures SplitOn(a + Quote + x + Quote + y, '"') == SplitOn(a, '"') + [x, y]
  {
    assert Quote == ['"'];
    SplitOnSnoc(a, x, '"');
    SplitOnSnoc(a + Quote + x, y, '"');
  }

  /** The coordinates with an `L` between neighbours: the words of the joined coordinates. */
  function Interleave(cs: seq<string>): (r: seq<string>)
    ensures |cs| > 0 ==> |r| == 2 * |cs| - 1
  {
    if |cs| == 0 then [] else if |cs| == 1 then [cs[0]] else [cs[0], "L"] + Interleave(cs[1..])
  }

  lemma {:induction false} JoinInterleave(cs: seq<string>)
    requires |cs| > 0
    ensures Join(cs, " L ") == Join(Interleave(cs), " ")
    decreases |cs|
  {
    if |cs| > 1 {
      JoinInterleave(cs[1..]);
      var rest := Interleave(cs[1..]);
      assert Interleave(cs) == [cs[0]] + (["L"] + rest);
      JoinAppend([cs[0]], ["L"] + rest, " ");
      JoinAppend(["L"], rest, " ");
    }
  }

  /** The words of the path data: `M`, the coordinates with `L` between them, then `Z`. */
  function PathWords(cs: seq<string>): seq<string> {
    ["M"] + Interleave(cs) + ["Z"]
  }

  /** Read the words of path data back into the coordinate texts. */
  function ParsePathWords(ws: seq<string>): (r: Option<seq<string>>) {
    if |ws| >= 2 && ws[0] == "M" && ws[|ws| - 1] == "Z" then ParseInterleaved(ws[1..|ws| - 1]) else None
  }

  function ParseInterleaved(ws: seq<string>): Option<seq<string>>
    decreases |ws|
  {
    if |ws| == 0 then Some([])
    else if |ws| == 1 then Some([ws[0]])
    else if |ws| >= 3 && ws[1] == "L" then
      match ParseInterleaved(ws[2..])
      case None => None
      case Some(cs) => if |cs| > 0 then Some([ws[0]] + cs) else None
    else None
  }

  lemma {:induction false} ParseInterleavedOf(cs: seq<string>)
    ensures ParseInterleaved(Interleave(cs)) == Some(cs)
    decreases |cs|
  {
    if |cs| > 1 {
      var ws := Interleave(cs);
      var rest := Interleave(cs[1..]);
      assert ws == [cs[0], "L"] + rest;
      assert |rest| >= 1;
      assert ws[0] == cs[0] && ws[1] == "L" && ws[2..] == rest;
      ParseInterleavedOf(cs[1..]);
      assert ParseInterleaved(ws[2..]) == Some(cs[1..]);
      assert ParseInterleaved(ws) == Some([ws[0]] + cs[1..]);
      assert [cs[0]] + cs[1..] == cs;
    } else if |cs| == 1 {
      assert [cs[0]] == cs;
    }
  }

  /**
   * With single-word numbers, the path data of a non-empty ring splits into the words
   * `M`, the coordinate pairs with `L` between them, and `Z`, and those words read back
   * as the coordinate pairs; an empty ring gives `"M  Z"`.
   */
  lemma {:induction false} PathDataRoundTrip(ring: Ring, fmt: Formatter)
    requires WordFormatter(fmt)
    ensures |ring| == 0 ==> PathData(ring, fmt) == "M  Z"
    ensures |ring| > 0 ==> SplitWhitespace(PathData(ring, fmt)) == PathWords(CoordTexts(ring, fmt))
    ensures ParsePathWords(PathWords(CoordTexts(ring, fmt))) == Some(CoordTexts(ring, fmt))
  {
    var cs := CoordTexts(ring, fmt);
    ParsePathWordsOf(cs);
    if |ring| > 0 {
      PathDataJoin(ring, fmt);
      InterleaveWords(ring, fmt);
      SplitWhitespaceJoin(PathWords(cs));
    }
  }

  lemma {:induction false} ParsePathWordsOf(cs: seq<string>)
    ensures ParsePathWords(PathWords(cs)) == Some(cs)
  {
    var ws := PathWords(cs);
    assert ws[1..|ws| - 1] == Interleave(cs);
    ParseInterleavedOf(cs);
  }

  /** The path data of a non-empty ring is its words joined by single spaces. */
  lemma {:induction false} PathDataJoin(ring: Ring, fmt: Formatter)
    requires |ring| > 0
    ensures PathData(ring, fmt) == Join(PathWords(CoordTexts(ring, fmt)), " ")
  {
    var cs := CoordTexts(ring, fmt);
    JoinInterleave(cs);
    var mid := Interleave(cs);
    JoinAppend(["M"], mid, " ");
    JoinAppend(["M"] + mid, ["Z"], " ");
  }

  lemma {:induction false} InterleaveWords(ring: Ring, fmt: Formatter)
    requires WordFormatter(fmt)
    ensures forall i :: 0 <= i < |PathWords(CoordTexts(ring, fmt))| ==> IsWord(PathWords(CoordTexts(ring, fmt))[i])
  {
    var cs := CoordTexts(ring, fmt);
    forall i | 0 <= i < |cs| ensures IsWord(cs[i]) {
      CoordTextIsWord(ring[i], fmt);
    }
    InterleaveKeepsWords(cs);
  }

  lemma {:induction false} CoordTextIsWord(p: Point, fmt: Formatter)
    requires WordFormatter(fmt)
    ensures IsWord(CoordText(p, fmt))
  {
    var a, b := fmt(p.x), fmt(p.y);
    assert IsWord(a) && IsWord(b);
    var s := a + "," + b;
    forall k | 0 <= k < |s| ensures !IsWhitespace(s[k]) {
      if k < |a| {
        assert s[k] == a[k];
      } else if k > |a| {
        assert s[k] == b[k - |a| - 1];
      }
    }
  }

  lemma {:induction false} InterleaveKeepsWords(cs: seq<string>)
    requires forall i :: 0 <= i < |cs| ==> IsWord(cs[i])
    ensures forall i :: 0 <= i < |PathWords(cs)| ==> IsWord(PathWords(cs)[i])
  {
    InterleaveWordsStep(cs);
    var ws := PathWords(cs);
    forall i | 1 <= i < |ws| - 1 ensures IsWord(ws[i]) {
      assert ws[i] == Interleave(cs)[i - 1];
    }
  }

  lemma {:induction false} InterleaveWordsStep(cs: seq<string>)
    requires forall i :: 0 <= i < |cs| ==> IsWord(cs[i])
    ensures forall i :: 0 <= i < |Interleave(cs)| ==> IsWord(Interleave(cs)[i])
    decreases |cs|
  {
    if |cs| > 1 {
      InterleaveWordsStep(cs[1..]);
      var rest := Interleave(cs[1..]);
      forall i | 2 <= i < |Interleave(cs)| ensures IsWord(Interleave(cs)[i]) {
        assert Interleave(cs)[i] == rest[i - 2];
      }
    }
  }

  // ---------------------------------------------------------------------------
  // add_registration_marks
  // ---------------------------------------------------------------------------

  /** The space kept around the shapes' bounding box. */
  const Margin: real := 50.0

  /** Half the span of each registration cross. */
  const CrossSize: real := 10.0

  datatype Segment = Segment(x1: real, y1: real, x2: real, y2: real)

  /** The bounding box grown by the margin on every side. */
  function Expanded(b: Box): Box {
    Box(b.minX - Margin, b.minY - Margin, b.maxX + Margin, b.maxY + Margin)
  }

  /** A cross centred at (x, y): its horizontal then its vertical stroke. */
  function Cross(x: real, y: real): seq<Segment> {
    [Segment(x - CrossSize, y, x + CrossSize, y), Segment(x, y - CrossSize, x, y + CrossSize)]
  }

  /** The corners of the grown box in the order the crosses are drawn. */
  function Corners(b: Box): (r: seq<Point>)
    ensures |r| == 4
  {
    var e := Expanded(b);
    [Point(e.minX, e.minY), Point(e.maxX, e.minY), Point(e.minX, e.maxY), Point(e.maxX, e.maxY)]
  }

  /** The eight strokes: a cross at each corner, top left, top right, bottom left, bottom right. */
  function MarkSegments(b: Box): (r: seq<Segment>)
    ensures |r| == 8
  {
    var e := Expanded(b);
    Cross(e.minX, e.minY) + Cross(e.maxX, e.minY) + Cross(e.minX, e.maxY) + Cross(e.maxX, e.maxY)
  }

  /**
   * Each corner of the box grown by the margin carries a cross: a horizontal and a
   * vertical stroke of span twice the cross size, both centred on the corner.
   */
  lemma {:induction false} MarkSegmentsAreCrosses(b: Box, k: nat)
    requires k < 4
    ensures var h, v, c := MarkSegments(b)[2 * k], MarkSegments(b)[2 * k + 1], Corners(b)[k];
      h.y1 == h.y2 == c.y && h.x2 - h.x1 == 2.0 * CrossSize && (h.x1 + h.x2) / 2.0 == c.x &&
      v.x1 == v.x2 == c.x && v.y2 - v.y1 == 2.0 * CrossSize && (v.y1 + v.y2) / 2.0 == c.y
  {
  }

  /**
   * The marks stay clear of the artwork: every point of every stroke lies at least the
   * margin less the cross size (40 units) beyond the bounding box on both axes.
   */
  lemma {:induction false} MarksClearOfBounds(b: Box, i: nat, t: real)
    requires i < 8 && 0.0 <= t <= 1.0
    ensures var s := MarkSegments(b)[i];
      var x, y := s.x1 + t * (s.x2 - s.x1), s.y1 + t * (s.y2 - s.y1);
      (x <= b.minX - (Margin - CrossSize) || x >= b.maxX + (Margin - CrossSize)) &&
      (y <= b.minY - (Margin - CrossSize) || y >= b.maxY + (Margin - CrossSize))
  {
  }

  function LineElement(s: Segment, fmt: Formatter): string {
    "<line x1=\"" + fmt(s.x1) + "\" y1=\"" + fmt(s.y1) + "\" x2=\"" + fmt(s.x2) + "\" y2=\"" + fmt(s.y2) +
    "\"" + " stroke=\"black\" />"
  }

  /** The layer's name, set above the top-left cross. */
  function NameElement(b: Box, layerName: string, fmt: Formatter): string {
    "<text x=" + NameAttributes(b, fmt) + (layerName + "</text>")
  }

  /** Where the name goes, ten units above the top-left cross's reach, and its font. */
  function NameAttributes(b: Box, fmt: Formatter): string {
    var e := Expanded(b);
    "\"" + fmt(e.minX) + "\" y=\"" + fmt(e.minY - CrossSize - 5.0) + "\"" +
    " font-family=\"Arial\"" + " font-size=\"10\" fill=\"black\">"
  }

  /**
   * `add_registration_marks`: nothing without shapes; otherwise the eight strokes and the
   * name. `bounds` is the bounding box shapely gives for the valid geometries.
   */
  function AddRegistrationMarks(shapes: seq<Shape>, bounds: Box, layerName: string, fmt: Formatter): (r: seq<string>)
    ensures |shapes| == 0 <==> r == []
    ensures |shapes| > 0 ==> |r| == 9
  {
    if |shapes| == 0 then []
    else
      var segs := MarkSegments(bounds);
      seq(8, i requires 0 <= i < 8 => LineElement(segs[i], fmt)) + [NameElement(bounds, layerName, fmt)]
  }

  /**
   * With shapes, marks 2k and 2k+1 draw the cross at corner k of the grown box, and the
   * last mark is a text element ending in the layer's name.
   */
  lemma {:induction false} RegistrationMarksShape(shapes: seq<Shape>, bounds: Box, layerName: string, fmt: Formatter)
    requires |shapes| > 0
    ensures forall k :: 0 <= k < 4 ==> var c, r := Corners(bounds)[k], AddRegistrationMarks(shapes, bounds, layerName, fmt);
      r[2 * k] == LineElement(Segment(c.x - CrossSize, c.y, c.x + CrossSize, c.y), fmt) &&
      r[2 * k + 1] == LineElement(Segment(c.x, c.y - CrossSize, c.x, c.y + CrossSize), fmt)
    ensures StartsWith(AddRegistrationMarks(shapes, bounds, layerName, fmt)[8], "<text x=")
    ensures EndsWith(AddRegistrationMarks(shapes, bounds, layerName, fmt)[8], layerName + "</text>")
  {
    var r := AddRegistrationMarks(shapes, bounds, layerName, fmt);
    NameElementEnds(bounds, layerName, fmt);
  }

  lemma {:induction false} NameElementEnds(b: Box, layerName: string, fmt: Formatter)
    ensures StartsWith(NameElement(b, layerName, fmt), "<text x=")
    ensures EndsWith(NameElement(b, layerName, fmt), layerName + "</text>")
  {
    var mid := NameAttributes(b, fmt);
    ConcatEnds("<text x=" + mid, layerName + "</text>");
    ConcatEnds("<text x=", mid + (layerName + "</text>"));
  }

  lemma {:induction false} ConcatEnds(a: string, b: string)
    ensures StartsWith(a + b, a) && EndsWith(a + b, b)
  {
    assert (a + b)[..|a|] == a;
    assert (a + b)[|a + b| - |b|..] == b;
  }

  // ---------------------------------------------------------------------------
  // generate_svg_layer
  // ---------------------------------------------------------------------------

  const LayerHeader: string := "<svg xmlns=" + "\"http://" + "www.w3.org/" + "2000/svg\">"

  /** `generate_svg_layer`: the header, then the paths and marks one per line, then the footer. */
  function GenerateSvgLayer(layerShapes: seq<Shape>, layerNum: int, allShapes: seq<Shape>, colour: string,
                            name: string, bounds: Box, fmt: Formatter): string
  {
    LayerHeader + "\n" + Join(LayerElements(layerShapes, layerNum, allShapes, colour, name, bounds, fmt), "\n") +
    "\n" + "</svg>"
  }

  /** The elements of a layer file between header and footer: the layer's paths, then the marks. */
  function LayerElements(layerShapes: seq<Shape>, layerNum: int, allShapes: seq<Shape>, colour: string,
                         name: string, bounds: Box, fmt: Formatter): seq<string>
  {
    seq(|layerShapes|, i requires 0 <= i < |layerShapes| => ToSvgPath(layerShapes[i], colour, fmt)) +
    AddRegistrationMarks(allShapes, bounds, LayerFileStem(name, layerNum), fmt)
  }

  /** The lines of a layer file: an empty line stands between header and footer when there is nothing to draw. */
  function LayerFileLines(els: seq<string>): (r: seq<string>)
    ensures |r| == 2 + if |els| == 0 then 1 else |els|
  {
    [LayerHeader] + (if |els| == 0 then [""] else els) + ["</svg>"]
  }

  /**
   * When none of the elements breaks a line, the layer file reads back line by line as
   * the header, one element per line, and the footer; with no elements at all, the
   * header and footer sit around one empty line.
   */
  lemma {:induction false} GenerateSvgLayerLines(layerShapes: seq<Shape>, layerNum: int, allShapes: seq<Shape>,
                                                 colour: string, name: string, bounds: Box, fmt: Formatter)
    requires var els := LayerElements(layerShapes, layerNum, allShapes, colour, name, bounds, fmt);
      forall i :: 0 <= i < |els| ==> '\n' !in els[i]
    ensures SplitOn(GenerateSvgLayer(layerShapes, layerNum, allShapes, colour, name, bounds, fmt), '\n') ==
      LayerFileLines(LayerElements(layerShapes, layerNum, allShapes, colour, name, bounds, fmt))
  {
    var els := LayerElements(layerShapes, layerNum, allShapes, colour, name, bounds, fmt);
    LayerFileJoin(els);
    LayerFileLinesOneLine(els);
    assert "\n" == ['\n'];
    SplitOnJoin(LayerFileLines(els), '\n');
  }

  lemma {:induction false} LayerFileJoin(els: seq<string>)
    ensures Join(LayerFileLines(els), "\n") == LayerHeader + "\n" + Join(els, "\n") + "\n" + "</svg>"
  {
    var lines := LayerFileLines(els);
    if |els| == 0 {
      assert lines == [LayerHeader, "", "</svg>"];
      JoinThree(LayerHeader, "", "</svg>", "\n");
    } else {
      JoinAppend([LayerHeader], els, "\n");
      JoinAppend([LayerHeader] + els, ["</svg>"], "\n");
    }
  }

  lemma {:induction false} LayerFileLinesOneLine(els: seq<string>)
    requires forall i :: 0 <= i < |els| ==> '\n' !in els[i]
    ensures forall i :: 0 <= i < |LayerFileLines(els)| ==> '\n' !in LayerFileLines(els)[i]
  {
    var lines := LayerFileLines(els);
    assert '\n' !in LayerHeader;
    forall i | 0 <= i < |lines| ensures '\n' !in lines[i] {
      if 0 < i < |lines| - 1 && |els| > 0 {
        assert lines[i] == els[i - 1];
      }
    }
  }

  // ---------------------------------------------------------------------------
  // create_layer_files
  // ---------------------------------------------------------------------------

  type Byte = n: nat | n < 256

  /** The random `(r, g, b)` drawn for each layer; randomness made a parameter. */
  type LayerDraw = int -> (Byte, Byte, Byte)

  function RgbFill(rgb: (Byte, Byte, Byte)): string {
    "fill:rgb(" + IntToString(rgb.0) + "," + IntToString(rgb.1) + "," + IntToString(rgb.2) + ");"
  }

  /** `f"{original_filename}_layer_{layer_num + 1}"`: layers are numbered from 1 in names. */
  function LayerFileStem(name: string, layerNum: int): string {
    name + "_layer_" + IntToString(layerNum + 1)
  }

  function LayerFileName(name: string, layerNum: int): string {
    LayerFileStem(name, layerNum) + ".svg"
  }

  /** Different layers are written to different files. */
  lemma {:induction false} LayerFileNameInjective(name: string, a: int, b: int)
    requires LayerFileName(name, a) == LayerFileName(name, b)
    ensures a == b
  {
    var p := name + "_layer_";
    var fa, fb := LayerFileName(name, a), LayerFileName(name, b);
    assert fa == p + IntToString(a + 1) + ".svg";
    assert fb == p + IntToString(b + 1) + ".svg";
    assert |IntToString(a + 1)| == |IntToString(b + 1)|;
    assert IntToString(a + 1) == fa[|p|..|fa| - 4] == fb[|p|..|fb| - 4] == IntToString(b + 1);
    IntToStringInjective(a + 1, b + 1);
  }

  /** A colouring's keys index the shape list. */
  predicate KeysInRange(shapes: seq<Shape>, c: Dict<int>) {
    forall i :: 0 <= i < |c| ==> 0 <= c[i].0 < |shapes|
  }

  /** `[shapes[i] for i, color in coloring.items() if color == layer_num]`. */
  function LayerShapes(shapes: seq<Shape>, c: Dict<int>, layerNum: int): (r: seq<Shape>)
    requires KeysInRange(shapes, c)
    ensures |r| == multiset(ValuesOf(c))[layerNum]
  {
    var ids := KeysWith(c, layerNum);
    KeysWithInRange(shapes, c, layerNum);
    seq(|ids|, i requires 0 <= i < |ids| => shapes[ids[i]])
  }

  lemma {:induction false} KeysWithInRange(shapes: seq<Shape>, c: Dict<int>, v: int)
    requires KeysInRange(shapes, c)
    ensures forall i :: 0 <= i < |KeysWith(c, v)| ==> 0 <= KeysWith(c, v)[i] < |shapes|
    decreases |c|
  {
    if |c| > 0 {
      var init := c[..|c| - 1];
      KeysWithInRange(shapes, init, v);
      KeysWithSnoc(c, v);
    }
  }

  /** `max(coloring.values()) + 1`, and no layers for an empty colouring. */
  function NumLayers(c: Dict<int>): (n: int)
    ensures |c| == 0 ==> n == 0
    ensures forall i :: 0 <= i < |c| ==> c[i].1 < n
    ensures |c| > 0 ==> exists i :: 0 <= i < |c| && c[i].1 == n - 1
  {
    if |c| == 0 then 0
    else
      var m := MaxOf(ValuesOf(c));
      var i :| 0 <= i < |c| && ValuesOf(c)[i] == m;
      m + 1
  }

  /** One output file: its name and its text. */
  datatype LayerFile = LayerFile(name: string, content: string)

  /**
   * `create_layer_files`: nothing for an empty colouring; otherwise a file for every layer
   * number from 0 to the largest colour, empty layers included.
   */
  function CreateLayerFiles(shapes: seq<Shape>, c: Dict<int>, name: string, bounds: Box,
                            draw: LayerDraw, fmt: Formatter): (files: seq<LayerFile>)
    requires KeysInRange(shapes, c)
    ensures |files| == if NumLayers(c) > 0 then NumLayers(c) else 0
  {
    var n := NumLayers(c);
    var count := if n > 0 then n else 0;
    seq(count, l requires 0 <= l < count =>
      LayerFile(LayerFileName(name, l),
                GenerateSvgLayer(LayerShapes(shapes, c, l), l, shapes, RgbFill(draw(l)), name, bounds, fmt)))
  }

  /**
   * The files partition the shapes by colour: file L, named with L + 1, holds exactly the
   * shapes coloured L, in colouring order; a shape with a colour in `0 ..` lands in exactly
   * the file of its colour, and distinct files have distinct names.
   */
  lemma {:induction false} CreateLayerFilesPartition(shapes: seq<Shape>, c: Dict<int>, name: string, bounds: Box,
                                                     draw: LayerDraw, fmt: Formatter, l: nat, k: int)
    requires KeysInRange(shapes, c)
    requires DistinctKeys(c)
    requires l < |CreateLayerFiles(shapes, c, name, bounds, draw, fmt)|
    ensures CreateLayerFiles(shapes, c, name, bounds, draw, fmt)[l].name == LayerFileName(name, l)
    ensures CreateLayerFiles(shapes, c, name, bounds, draw, fmt)[l].content ==
      GenerateSvgLayer(LayerShapes(shapes, c, l), l, shapes, RgbFill(draw(l)), name, bounds, fmt)
    ensures k in KeysWith(c, l) <==> Get(c, k) == Some(l)
    ensures |LayerShapes(shapes, c, l)| == multiset(ValuesOf(c))[l]
  {
    KeysWithMember(c, l, k);
  }

  /** Every shape with a non-negative colour gets a file: its colour is below the layer count. */
  lemma {:induction false} ColouredShapeHasFile(c: Dict<int>, k: int)
    requires Get(c, k).Some? && Get(c, k).value >= 0
    ensures Get(c, k).value < NumLayers(c)
  {
    var i :| 0 <= i < |c| && c[i] == (k, Get(c, k).value);
  }

  /** The layer files together hold every shape whose colour is not negative, each once. */
  lemma {:induction false} LayerFilesCoverShapes(c: Dict<int>)
    requires forall i :: 0 <= i < |c| ==> c[i].1 >= 0
    ensures NumLayers(c) >= 0
    ensures SumCounts(LayerNumbers(NumLayers(c)), ValuesOf(c)) == |c|
  {
    var n := NumLayers(c);
    var vs := ValuesOf(c);
    var ls := LayerNumbers(n);
    assert NoDuplicates(ls);
    SumCountsDistinct(ls, vs);
    forall i | 0 <= i < |vs| ensures vs[i] in ls {
      assert ls[vs[i]] == vs[i];
    }
    CountInAll(vs, ls);
  }

  /** The layer numbers `0 .. n-1`: `range(num_layers)`. */
  function LayerNumbers(n: int): (r: seq<int>)
    ensures |r| == if n > 0 then n else 0
    ensures forall i :: 0 <= i < |r| ==> r[i] == i
  {
    if n > 0 then seq(n, i => i) else []
  }

  // ---------------------------------------------------------------------------
  // create_summary_report
  // ---------------------------------------------------------------------------

  function DistributionLine(c: Dict<int>, layerNum: int): string {
    "Layer " + IntToString(layerNum + 1) + ": " + IntToString(multiset(ValuesOf(c))[layerNum]) + " shapes"
  }

  /** The report's underline: 42 equals signs. */
  const Rule: string := "==============" + "==============" + "=============="

  function ReportLines(c: Dict<int>, shapes: seq<Shape>, name: string, time: real, memory: real,
                       fixed2: Formatter): (r: seq<string>)
    ensures |r| == 9 + |LayerNumbers(NumLayers(c))|
  {
    ReportHeader(c, shapes, name, fixed2(time), fixed2(memory)) + DistributionLines(c)
  }

  /** `Layer L+1: n shapes` for each layer number L. */
  function DistributionLines(c: Dict<int>): (r: seq<string>)
    ensures |r| == |LayerNumbers(NumLayers(c))|
  {
    var ls := LayerNumbers(NumLayers(c));
    seq(|ls|, i requires 0 <= i < |ls| => DistributionLine(c, ls[i]))
  }

  /** The nine lines before the per-layer counts. */
  function ReportHeader(c: Dict<int>, shapes: seq<Shape>, name: string, seconds: string, gigabytes: string): (r: seq<string>)
    ensures |r| == 9
  {
    [ "Mozaix " + "Diastasis - " + "Shape " + "Separation " + "Report",
      Rule,
      "Input file: " + name + ".svg",
      "Total " + "shapes: " + IntToString(|shapes|),
      "Number of " + "layers " + "created: " + IntToString(NumLayers(c)),
      "Processing " + "time: " + seconds + " seconds",
      "Memory " + "usage: " + gigabytes + " GB",
      "",
      "Layer distribution:" ]
  }

  /**
   * `create_summary_report`: nothing for an empty colouring; otherwise the report lines,
   * each ending in a line break. `fixed2` is the `:.2f` formatting of a float.
   */
  function CreateSummaryReport(c: Dict<int>, shapes: seq<Shape>, name: string, time: real, memory: real,
                               fixed2: Formatter): (report: string)
    ensures |c| == 0 <==> report == ""
  {
    if |c| == 0 then "" else Unlines(ReportLines(c, shapes, name, time, memory, fixed2))
  }

  /**
   * With a one-line file name and single-word time and memory texts, the report reads
   * back line by line: the nine header lines, then `Layer L+1: n shapes` for each layer
   * L, n being the number of shapes coloured L.
   */
  lemma {:induction false} SummaryReportLines(c: Dict<int>, shapes: seq<Shape>, name: string, time: real,
                                              memory: real, fixed2: Formatter)
    requires |c| > 0
    requires '\n' !in name
    requires WordFormatter(fixed2)
    ensures SplitOn(CreateSummaryReport(c, shapes, name, time, memory, fixed2), '\n') ==
      ReportLines(c, shapes, name, time, memory, fixed2) + [""]
    ensures forall l :: 0 <= l < NumLayers(c) ==>
      SplitOn(CreateSummaryReport(c, shapes, name, time, memory, fixed2), '\n')[9 + l] ==
      "Layer " + IntToString(l + 1) + ": " + IntToString(multiset(ValuesOf(c))[l]) + " shapes"
  {
    var ls := ReportLines(c, shapes, name, time, memory, fixed2);
    ReportLinesOneLine(c, shapes, name, time, memory, fixed2);
    UnlinesSplit(ls);
  }

  lemma {:induction false} ReportLinesOneLine(c: Dict<int>, shapes: seq<Shape>, name: string, time: real,
                                              memory: real, fixed2: Formatter)
    requires '\n' !in name
    requires WordFormatter(fixed2)
    ensures forall i :: 0 <= i < |ReportLines(c, shapes, name, time, memory, fixed2)| ==>
      '\n' !in ReportLines(c, shapes, name, time, memory, fixed2)[i]
  {
    var ls := ReportLines(c, shapes, name, time, memory, fixed2);
    WordHasNoNewline(fixed2(time));
    WordHasNoNewline(fixed2(memory));
    HeaderLinesOneLine(c, shapes, name, fixed2(time), fixed2(memory));
    forall i | 0 <= i < 9 ensures '\n' !in ls[i] {
      assert ls[i] == ReportHeader(c, shapes, name, fixed2(time), fixed2(memory))[i];
    }
    forall i | 9 <= i < |ls| ensures '\n' !in ls[i] {
      var l := i - 9;
      assert ls[i] == DistributionLine(c, l);
      IntToStringIsWord(l + 1);
      IntToStringIsWord(multiset(ValuesOf(c))[l]);
    }
  }

  lemma {:induction false} HeaderLinesOneLine(c: Dict<int>, shapes: seq<Shape>, name: string, seconds: string,
                                              gigabytes: string)
    requires '\n' !in name && '\n' !in seconds && '\n' !in gigabytes
    ensures forall i :: 0 <= i < 9 ==> '\n' !in ReportHeader(c, shapes, name, seconds, gigabytes)[i]
  {
    var ls := ReportHeader(c, shapes, name, seconds, gigabytes);
    FixedLinesOneLine();
    IntToStringIsWord(|shapes|);
    IntToStringIsWord(NumLayers(c));
    NoBreakJoined("Total ", "shapes: ", IntToString(|shapes|));
    NoBreakJoined("Number of " + "layers ", "created: ", IntToString(NumLayers(c)));
    NoBreakJoined("Input file: ", name, ".svg");
    NoBreakJoined("Processing " + "time: ", seconds, " seconds");
    NoBreakJoined("Memory " + "usage: ", gigabytes, " GB");
  }

  lemma {:induction false} FixedLinesOneLine()
    ensures '\n' !in "Mozaix " + "Diastasis - " + "Shape " + "Separation " + "Report"
    ensures '\n' !in Rule && '\n' !in "Layer distribution:"
  {
    NoBreakJoined("Mozaix " + "Diastasis - ", "Shape " + "Separation ", "Report");
    NoBreakJoined("==============", "==============", "==============");
  }

  lemma {:induction false} NoBreakJoined(a: string, b: string, c: string)
    requires '\n' !in a && '\n' !in b && '\n' !in c
    ensures '\n' !in a + b + c
  {
    var s := a + b + c;
    forall k | 0 <= k < |s| ensures s[k] != '\n' {
      if k < |a| {
        assert s[k] == a[k];
      } else if k < |a| + |b| {
        assert s[k] == b[k - |a|];
      } else {
        assert s[k] == c[k - |a| - |b|];
      }
    }
  }

  /** The distribution counts add up to the number of coloured shapes when no colour is negative. */
  lemma {:induction false} SummaryReportTotals(c: Dict<int>)
    requires forall i :: 0 <= i < |c| ==> c[i].1 >= 0
    ensures SumCounts(LayerNumbers(NumLayers(c)), ValuesOf(c)) == |c|
  {
    LayerFilesCoverShapes(c);
  }

  /** Shapes 0 and 2 on layer 0 and shape 1 on layer 1: two layer files, holding shapes 0 and 2, and shape 1. */
  lemma {:induction false} LayerFilesExample()
    ensures var c := [(0, 0), (1, 1), (2, 0)];
      NumLayers(c) == 2 && KeysWith(c, 0) == [0, 2] && KeysWith(c, 1) == [1]
  {
    var c := [(0, 0), (1, 1), (2, 0)];
    assert ValuesOf(c) == [0, 1, 0];
    KeysWithSnoc(c, 0);
    KeysWithSnoc(c, 1);
  }

  /** The same colouring reports two shapes on layer 1 and one on layer 2. */
  lemma {:induction false} SummaryReportExample()
    ensures var c := [(0, 0), (1, 1), (2, 0)];
      DistributionLine(c, 0) == "Layer 1: 2 shapes" && DistributionLine(c, 1) == "Layer 2: 1 shapes"
  {
    var c := [(0, 0), (1, 1), (2, 0)];
    assert ValuesOf(c) == [0, 1, 0];
    assert multiset(ValuesOf(c))[0] == 2 && multiset(ValuesOf(c))[1] == 1;
    assert NatToString(2) == "2" && NatToString(1) == "1";
  }
}
