/**
 * `save_layers_to_files` in main.py: one SVG document with a group per colour, in
 * ascending colour order, each holding the path of every shape of that colour filled
 * with the colour's swatch, followed by a group of crop marks.
 */
module LayeredSvg {
  import opened Wrappers
  import opened Strings
  import opened Numerals
  import opened Sorting
  import opened Counting
  import opened Dicts
  import opened SvgParser
  import opened Composition

  // ---------------------------------------------------------------------------
  // Swatches
  // ---------------------------------------------------------------------------

  /** A 24-bit colour value, as `random.randint(0, 0xFFFFFF)` draws it. */
  type Rgb = n: nat | n <= 0xFFFFFF

  /** The colour drawn for each colour id past the fixed swatches; randomness made a parameter. */
  type Draw = int -> Rgb

  /** The fixed swatches for colours 0 to 11. */
  const Palette: seq<string> := [
    "#FF0000", "#00FF00", "#0000FF", "#FFFF00",
    "#FF00FF", "#00FFFF", "#FFA500", "#800080",
    "#FFC0CB", "#A52A2A", "#808080", "#000000"
  ]

  /** The swatch of a colour missing from the colour map. */
  const DefaultFill: string := "#CCCCCC"

  /**
   * The colour map once extended: the fixed swatches, then a drawn colour for every id
   * from 12 up to the largest colour in use.
   */
  function ColourMap(maxColour: int, draw: Draw): (m: map<int, string>)
    ensures forall i :: i in m <==> 0 <= i < |Palette| || |Palette| <= i <= maxColour
    ensures forall i :: 0 <= i < |Palette| ==> m[i] == Palette[i]
    ensures forall i :: |Palette| <= i <= maxColour ==> m[i] == HexColour(draw(i))
  {
    var bound := if maxColour + 1 > |Palette| then maxColour + 1 else |Palette|;
    map i | 0 <= i < bound :: if i < |Palette| then Palette[i] else HexColour(draw(i))
  }

  /** `color_map.get(color_id, "#CCCCCC")`. */
  function FillColour(colour: int, maxColour: int, draw: Draw): string {
    var m := ColourMap(maxColour, draw);
    if colour in m then m[colour] else DefaultFill
  }

  /**
   * Every colour up to the largest in use gets a swatch of its own kind: a fixed one, or
   * the drawn value written as `#RRGGBB`; only a negative colour falls back to grey.
   */
  lemma {:induction false} FillColourCases(colour: int, maxColour: int, draw: Draw)
    ensures 0 <= colour < |Palette| ==> FillColour(colour, maxColour, draw) == Palette[colour]
    ensures |Palette| <= colour <= maxColour ==>
      FillColour(colour, maxColour, draw) == HexColour(draw(colour)) &&
      HexValue(FillColour(colour, maxColour, draw)[1..]) == draw(colour)
    ensures colour < 0 ==> FillColour(colour, maxColour, draw) == DefaultFill
    ensures 0 <= colour <= maxColour || 0 <= colour < |Palette| ==> |FillColour(colour, maxColour, draw)| == 7
  {
    var m := ColourMap(maxColour, draw);
    if 0 <= colour < |Palette| {
      assert m[colour] == Palette[colour];
    }
  }

  // ---------------------------------------------------------------------------
  // Layers
  // ---------------------------------------------------------------------------

  /** A layer of the output: its colour, its group id, its swatch and its path data. */
  datatype Layer = Layer(colour: int, name: string, fill: string, paths: seq<string>)

  /** The path data of a shape: its own `d` attribute when it has a non-empty one, else its outline. */
  function ShapePathD(s: Shape, fmt: Formatter): string {
    if s.dAttribute.Some? && s.dAttribute.value != "" then s.dAttribute.value
    else PolygonToPathD(s.geometry, fmt)
  }

  /** Shape ids that index the shape list. */
  predicate IdsInRange(shapes: seq<Shape>, ids: seq<int>) {
    forall i :: 0 <= i < |ids| ==> 0 <= ids[i] < |shapes|
  }

  /** The path data of the listed shapes, in order, leaving out the empty ones. */
  function LayerPaths(shapes: seq<Shape>, ids: seq<int>, fmt: Formatter): (r: seq<string>)
    requires IdsInRange(shapes, ids)
    ensures |r| <= |ids|
    ensures forall i :: 0 <= i < |r| ==> r[i] != ""
  {
    if |ids| == 0 then []
    else
      var d := ShapePathD(shapes[ids[0]], fmt);
      (if d == "" then [] else [d]) + LayerPaths(shapes, ids[1..], fmt)
  }

  /** A path element is written for exactly the listed shapes whose path data is not empty. */
  lemma {:induction false} LayerPathsMember(shapes: seq<Shape>, ids: seq<int>, fmt: Formatter, d: string)
    requires IdsInRange(shapes, ids)
    ensures d in LayerPaths(shapes, ids, fmt) <==>
      d != "" && exists i :: 0 <= i < |ids| && ShapePathD(shapes[ids[i]], fmt) == d
    decreases |ids|
  {
    if |ids| > 0 {
      var rest := ids[1..];
      LayerPathsMember(shapes, rest, fmt, d);
      if d != "" && (exists i :: 0 <= i < |ids| && ShapePathD(shapes[ids[i]], fmt) == d) {
        var i :| 0 <= i < |ids| && ShapePathD(shapes[ids[i]], fmt) == d;
        if i > 0 {
          assert rest[i - 1] == ids[i];
        }
      }
      if d != "" && (exists i :: 0 <= i < |rest| && ShapePathD(shapes[rest[i]], fmt) == d) {
        var i :| 0 <= i < |rest| && ShapePathD(shapes[rest[i]], fmt) == d;
        assert ids[i + 1] == rest[i];
      }
    }
  }

  /** Every id the groups list indexes the shape list. */
  predicate GroupsInRange(shapes: seq<Shape>, groups: Groups) {
    forall i :: 0 <= i < |groups| ==> IdsInRange(shapes, groups[i].1)
  }

  function LayerName(colour: int): string {
    "Layer_Color_" + IntToString(colour)
  }

  /** The largest colour in use, or -1 with none: `max(coloring.keys(), default=-1)`. */
  function MaxColour(groups: Groups): (m: int)
    ensures forall i :: 0 <= i < |groups| ==> groups[i].0 <= m
    ensures |groups| == 0 ==> m == -1
  {
    if |groups| == 0 then -1 else MaxOf(KeysOf(groups))
  }

  /** The layer of one colour listed in the groups. */
  function LayerFor(shapes: seq<Shape>, groups: Groups, colour: int, fmt: Formatter, draw: Draw): (l: Layer)
    requires GroupsInRange(shapes, groups)
    requires colour in KeysOf(groups)
  {
    var ids := Get(groups, colour).value;
    assert IdsInRange(shapes, ids) by {
      var k :| 0 <= k < |groups| && groups[k] == (colour, ids);
    }
    Layer(colour, LayerName(colour), FillColour(colour, MaxColour(groups), draw), LayerPaths(shapes, ids, fmt))
  }

  /** The layers in the order `sorted(coloring.keys())` visits the colours. */
  function Layers(shapes: seq<Shape>, groups: Groups, fmt: Formatter, draw: Draw): (ls: seq<Layer>)
    requires GroupsInRange(shapes, groups)
    ensures |ls| == |groups|
  {
    var colours := Ascending(KeysOf(groups));
    PermutationMembers(KeysOf(groups), colours);
    seq(|colours|, i requires 0 <= i < |colours| => LayerFor(shapes, groups, colours[i], fmt, draw))
  }

  /** The colours in the order the layers take them: each colour of the groups once, ascending. */
  lemma {:induction false} LayerColours(groups: Groups)
    requires DistinctKeys(groups)
    ensures forall v :: v in Ascending(KeysOf(groups)) <==> v in KeysOf(groups)
    ensures forall i, j :: 0 <= i < j < |groups| ==> Ascending(KeysOf(groups))[i] < Ascending(KeysOf(groups))[j]
  {
    var keys := KeysOf(groups);
    var colours := Ascending(keys);
    assert NoDuplicates(keys) by {
      forall a, b | 0 <= a < b < |keys| ensures keys[a] != keys[b] {
        assert keys[a] == groups[a].0 && keys[b] == groups[b].0;
      }
    }
    NoDuplicatesPermutation(keys, colours);
    PermutationMembers(keys, colours);
  }

  /** One layer per colour of the groups, in strictly ascending colour order, with distinct names. */
  lemma {:induction false} LayersOrdered(shapes: seq<Shape>, groups: Groups, fmt: Formatter, draw: Draw)
    requires GroupsInRange(shapes, groups)
    requires DistinctKeys(groups)
    ensures forall i, j :: 0 <= i < j < |groups| ==>
      Layers(shapes, groups, fmt, draw)[i].colour < Layers(shapes, groups, fmt, draw)[j].colour &&
      Layers(shapes, groups, fmt, draw)[i].name != Layers(shapes, groups, fmt, draw)[j].name
    ensures forall v :: v in KeysOf(groups) <==> exists i :: 0 <= i < |groups| && Layers(shapes, groups, fmt, draw)[i].colour == v
  {
    var colours := Ascending(KeysOf(groups));
    var ls := Layers(shapes, groups, fmt, draw);
    LayerColours(groups);
    forall i, j | 0 <= i < j < |groups| ensures ls[i].colour < ls[j].colour && ls[i].name != ls[j].name {
      assert ls[i].colour == colours[i] && ls[j].colour == colours[j];
      if ls[i].name == ls[j].name {
        LayerNameInjective(colours[i], colours[j]);
      }
    }
    forall v ensures v in KeysOf(groups) <==> exists i :: 0 <= i < |groups| && ls[i].colour == v {
      if v in colours {
        var i :| 0 <= i < |colours| && colours[i] == v;
        assert ls[i].colour == v;
      }
    }
  }

  lemma {:induction false} LayerNameInjective(a: int, b: int)
    requires LayerName(a) == LayerName(b)
    ensures a == b
  {
    assert IntToString(a) == LayerName(a)[12..] == LayerName(b)[12..] == IntToString(b);
    IntToStringInjective(a, b);
  }

  /** Each layer holds the non-empty path data of exactly its own colour's group of shapes. */
  lemma {:induction false} LayersContents(shapes: seq<Shape>, groups: Groups, fmt: Formatter, draw: Draw, i: nat)
    requires GroupsInRange(shapes, groups)
    requires i < |groups|
    ensures Get(groups, Layers(shapes, groups, fmt, draw)[i].colour).Some?
    ensures IdsInRange(shapes, Get(groups, Layers(shapes, groups, fmt, draw)[i].colour).value)
    ensures Layers(shapes, groups, fmt, draw)[i].paths ==
      LayerPaths(shapes, Get(groups, Layers(shapes, groups, fmt, draw)[i].colour).value, fmt)
  {
    var colours := Ascending(KeysOf(groups));
    PermutationMembers(KeysOf(groups), colours);
    var l := Layers(shapes, groups, fmt, draw)[i];
    assert l == LayerFor(shapes, groups, colours[i], fmt, draw);
    var k :| 0 <= k < |groups| && groups[k] == (l.colour, Get(groups, l.colour).value);
  }

  // ---------------------------------------------------------------------------
  // The document
  // ---------------------------------------------------------------------------

  function SvgOpenTag(width: real, height: real, fmt: Formatter): string {
    "<svg width=\"" + fmt(width) + "\" height=\"" + fmt(height) + "\" viewBox=\"0 0 " +
    fmt(width) + " " + fmt(height) + "\"" + " xmlns=\"http://" + "www.w3.org/2000/svg\">"
  }

  function PathElement(d: string, fill: string): string {
    "    <path d=\"" + d + "\" fill=\"" + fill + "\"" + " stroke=\"black\"" + " stroke-width=\"1\"/>"
  }

  function GroupOpenTag(name: string): string {
    "  <g id=\"" + name + "\">"
  }

  const GroupCloseTag: string := "  </g>"

  /** The lines of one layer: its group's opening tag, one path element per path, the closing tag. */
  function LayerLines(l: Layer): (r: seq<string>)
    ensures |r| == |l.paths| + 2
  {
    [GroupOpenTag(l.name)] +
    seq(|l.paths|, i requires 0 <= i < |l.paths| => PathElement(l.paths[i], l.fill)) +
    [GroupCloseTag]
  }

  function AllLayerLines(ls: seq<Layer>): seq<string> {
    if |ls| == 0 then [] else LayerLines(ls[0]) + AllLayerLines(ls[1..])
  }

  /**
   * The text `save_layers_to_files` writes: the opening tag, each layer's lines, then the
   * crop-mark group with the marks written as one block, and the closing tag, every piece
   * ending its line.
   */
  function LayeredDocument(ls: seq<Layer>, width: real, height: real, fmt: Formatter): string {
    Unlines([SvgOpenTag(width, height, fmt)] + AllLayerLines(ls) +
            [GroupOpenTag("Crop_Marks"), CropMarksSvg(width, height, fmt), GroupCloseTag, "</svg>"])
  }

  /** The lines of the whole document, crop marks split into their own lines. */
  function DocumentLines(ls: seq<Layer>, width: real, height: real, fmt: Formatter): seq<string> {
    [SvgOpenTag(width, height, fmt)] + AllLayerLines(ls) +
    [GroupOpenTag("Crop_Marks")] + CropMarkPaths(width, height, fmt) + [GroupCloseTag, "</svg>"]
  }

  predicate OneLine(s: string) {
    '\n' !in s
  }

  /** No layer's name, swatch or path data breaks a line. */
  predicate LayersOneLine(ls: seq<Layer>) {
    forall i :: 0 <= i < |ls| ==>
      OneLine(ls[i].name) && OneLine(ls[i].fill) && (forall j :: 0 <= j < |ls[i].paths| ==> OneLine(ls[i].paths[j]))
  }

  lemma {:induction false} TagsOneLine(name: string, d: string, fill: string, width: real, height: real, fmt: Formatter)
    requires WordFormatter(fmt)
    requires OneLine(name) && OneLine(d) && OneLine(fill)
    ensures OneLine(GroupOpenTag(name))
    ensures OneLine(PathElement(d, fill))
    ensures OneLine(SvgOpenTag(width, height, fmt))
  {
    WordHasNoNewline(fmt(width));
    WordHasNoNewline(fmt(height));
  }

  lemma {:induction false} LayerLinesOneLine(l: Layer)
    requires OneLine(l.name) && OneLine(l.fill)
    requires forall j :: 0 <= j < |l.paths| ==> OneLine(l.paths[j])
    ensures forall k :: 0 <= k < |LayerLines(l)| ==> OneLine(LayerLines(l)[k])
  {
    var r := LayerLines(l);
    forall k | 0 <= k < |r| ensures OneLine(r[k]) {
      if k == 0 {
        TagsOneLine(l.name, "", l.fill, 0.0, 0.0, x => "0");
      } else if k <= |l.paths| {
        assert r[k] == PathElement(l.paths[k - 1], l.fill);
      }
    }
  }

  lemma {:induction false} AllLayerLinesOneLine(ls: seq<Layer>)
    requires LayersOneLine(ls)
    ensures forall k :: 0 <= k < |AllLayerLines(ls)| ==> OneLine(AllLayerLines(ls)[k])
    decreases |ls|
  {
    if |ls| > 0 {
      LayerLinesOneLine(ls[0]);
      assert LayersOneLine(ls[1..]) by {
        forall i | 0 <= i < |ls[1..]| ensures ls[1..][i] == ls[i + 1] {}
      }
      AllLayerLinesOneLine(ls[1..]);
    }
  }

  /** Writing the crop marks as one block is writing each mark as a line. */
  lemma {:induction false} DocumentUnlines(ls: seq<Layer>, width: real, height: real, fmt: Formatter)
    ensures LayeredDocument(ls, width, height, fmt) == Unlines(DocumentLines(ls, width, height, fmt))
  {
    var head := [SvgOpenTag(width, height, fmt)] + AllLayerLines(ls) + [GroupOpenTag("Crop_Marks")];
    var marks := CropMarkPaths(width, height, fmt);
    var tail := [GroupCloseTag, "</svg>"];
    var block := [Join(marks, "\n")];
    assert [SvgOpenTag(width, height, fmt)] + AllLayerLines(ls) +
           [GroupOpenTag("Crop_Marks"), CropMarksSvg(width, height, fmt), GroupCloseTag, "</svg>"]
        == (head + block) + tail;
    calc {
      LayeredDocument(ls, width, height, fmt);
      Unlines((head + block) + tail);
      { UnlinesAppend(head + block, tail); UnlinesAppend(head, block); }
      Unlines(head) + Unlines(block) + Unlines(tail);
      { UnlinesJoined(marks); }
      Unlines(head) + Unlines(marks) + Unlines(tail);
      { UnlinesAppend(head, marks); UnlinesAppend(head + marks, tail); }
      Unlines(head + marks + tail);
    }
    assert DocumentLines(ls, width, height, fmt) == head + marks + tail;
  }

  /**
   * When no name, swatch, path data or number text breaks a line, the document reads back
   * line by line as the opening tag, each layer's lines, the crop-mark group with one line
   * per mark, and the closing tag.
   */
  lemma {:induction false} LayeredDocumentLines(ls: seq<Layer>, width: real, height: real, fmt: Formatter)
    requires WordFormatter(fmt)
    requires LayersOneLine(ls)
    ensures SplitOn(LayeredDocument(ls, width, height, fmt), '\n') == DocumentLines(ls, width, height, fmt) + [""]
  {
    DocumentUnlines(ls, width, height, fmt);
    DocumentOneLine(ls, width, height, fmt);
    UnlinesSplit(DocumentLines(ls, width, height, fmt));
  }

  predicate AllOneLine(ls: seq<string>) {
    forall k :: 0 <= k < |ls| ==> OneLine(ls[k])
  }

  lemma {:induction false} AllOneLineAppend(a: seq<string>, b: seq<string>)
    requires AllOneLine(a) && AllOneLine(b)
    ensures AllOneLine(a + b)
  {
    forall k | 0 <= k < |a + b| ensures OneLine((a + b)[k]) {
      if k >= |a| {
        assert (a + b)[k] == b[k - |a|];
      }
    }
  }

  lemma {:induction false} DocumentOneLine(ls: seq<Layer>, width: real, height: real, fmt: Formatter)
    requires WordFormatter(fmt)
    requires LayersOneLine(ls)
    ensures forall k :: 0 <= k < |DocumentLines(ls, width, height, fmt)| ==> OneLine(DocumentLines(ls, width, height, fmt)[k])
  {
    var opening := [SvgOpenTag(width, height, fmt)];
    var all := AllLayerLines(ls);
    var marksOpen := [GroupOpenTag("Crop_Marks")];
    var marks := CropMarkPaths(width, height, fmt);
    var closing := [GroupCloseTag, "</svg>"];
    AllLayerLinesOneLine(ls);
    CropMarksLines(width, height, fmt);
    TagsOneLine("Crop_Marks", "", "", width, height, fmt);
    assert AllOneLine(opening) && AllOneLine(all) && AllOneLine(marksOpen) && AllOneLine(marks) && AllOneLine(closing);
    AllOneLineAppend(opening, all);
    AllOneLineAppend(opening + all, marksOpen);
    AllOneLineAppend(opening + all + marksOpen, marks);
    AllOneLineAppend(opening + all + marksOpen + marks, closing);
    assert DocumentLines(ls, width, height, fmt) == opening + all + marksOpen + marks + closing;
  }
}
