/**
 * The SVG reader: dimension strings with units, the document size, the conversion of
 * `rect` and `polygon` elements to polygons, metadata, and the numbering of shapes.
 *
 * Python's `float(str)` is the parameter `toFloat`; the curve approximations for
 * circles, ellipses and paths (shapely buffers, affine maps, svgpathtools) are the
 * parameter `approximate`. Everything around those calls is modelled here.
 */
module SvgParser {
  import opened Wrappers
  import opened Strings
  import opened Decimals
  import opened Geometry

  /** `float(text)`: the value, or `None` where Python raises `ValueError`. */
  type FloatParser = string -> Option<real>

  /** An element as lxml gives it: its (possibly namespaced) tag and its attributes. */
  datatype Element = Element(tag: string, attributes: map<string, string>)

  /** The polygon a shapely or svgpathtools approximation makes of a curved element. */
  type Approximator = Element -> Option<Polygon>

  /** `element.get(name)`. */
  function Attr(e: Element, name: string): Option<string> {
    if name in e.attributes then Some(e.attributes[name]) else None
  }

  type Metadata = map<string, Option<string>>

  datatype Shape = Shape(id: int, geometry: Polygon, metadata: Metadata, dAttribute: Option<string>)

  /** A parser that reads every decimal literal as the value it denotes, as Python's `float` does. */
  ghost predicate ParsesDecimals(toFloat: FloatParser) {
    forall p :: IsDecimal(p) ==> toFloat(p) == Some(DecimalValue(p))
  }

  // ---------------------------------------------------------------------------
  // Units and dimensions
  // ---------------------------------------------------------------------------

  const TwoLetterUnits: set<string> := {"px", "pt", "pc", "mm", "cm", "in", "em", "ex"}

  function LowerAscii(c: char): char {
    if 'A' <= c <= 'Z' then (c as int + 32) as char else c
  }

  /** One of the units `parse_dimension` strips, compared ignoring ASCII case. */
  predicate IsUnit(u: string) {
    u == "%" || (|u| == 2 && [LowerAscii(u[0]), LowerAscii(u[1])] in TwoLetterUnits)
  }

  /** `re.sub(r'(px|pt|pc|mm|cm|in|em|ex|%)$', '', s, flags=re.IGNORECASE)`: at most one unit goes. */
  function StripUnit(s: string): (r: string)
    ensures |r| <= |s| && r == s[..|r|]
    ensures r != s ==> IsUnit(s[|r|..])
  {
    if |s| >= 2 && IsUnit(s[|s| - 2..]) then s[..|s| - 2]
    else if |s| >= 1 && s[|s| - 1] == '%' then s[..|s| - 1]
    else s
  }

  /** A unit written after a value is removed, whatever its case. */
  lemma {:induction false} StripUnitAppended(x: string, u: string)
    requires IsUnit(u)
    ensures StripUnit(x + u) == x
  {
    var s := x + u;
    if |u| == 2 {
      assert s[|s| - 2..] == u;
      assert s[..|s| - 2] == x;
    } else {
      assert s[..|s| - 1] == x;
    }
  }

  /** A value ending in a digit carries no unit. */
  lemma {:induction false} StripUnitOfDigitEnd(s: string)
    requires |s| > 0 && IsDigit(s[|s| - 1])
    ensures StripUnit(s) == s
  {
    if |s| >= 2 {
      assert s[|s| - 2..][1] == s[|s| - 1];
    }
  }

  lemma {:induction false} UnitHasNoWhitespace(u: string)
    requires IsUnit(u)
    ensures NoWhitespace(u)
  {
    if |u| == 2 {
      assert LowerAscii(u[0]) in "ceimp" && LowerAscii(u[1]) in "cmntx";
    }
  }

  /** What the `except ValueError` branch yields: the captured decimal prefix, or 0.0. */
  function FallbackValue(clean: string): real {
    NumericPrefixSound(clean);
    match NumericPrefix(clean)
    case Some(p) => DecimalValue(p)
    case None => 0.0
  }

  /** `float(clean_value)`, falling back when it raises. */
  function ParseClean(clean: string, toFloat: FloatParser): real {
    match toFloat(clean)
    case Some(x) => x
    case None => FallbackValue(clean)
  }

  /**
   * `parse_dimension`. `None` is a missing attribute (the default `0` is falsy); the
   * empty and the blank string give 0.0 as well. Otherwise the stripped text loses
   * one trailing unit and is read by `ParseClean`.
   */
  function ParseDimension(value: Option<string>, toFloat: FloatParser): (r: real)
    ensures value.None? || AllWhitespace(value.value) ==> r == 0.0
  {
    match value
    case None => 0.0
    case Some(raw) =>
      if raw == "" then 0.0
      else
        var s := Strip(raw);
        if s == "" then 0.0 else ParseClean(StripUnit(s), toFloat)
  }

  /** Text without whitespace is read after only the unit is stripped. */
  lemma {:induction false} ParseDimensionOfWord(s: string, toFloat: FloatParser)
    requires IsWord(s)
    ensures ParseDimension(Some(s), toFloat) == ParseClean(StripUnit(s), toFloat)
  {
    StripOfNoWhitespace(s);
  }

  lemma {:induction false} AppendedUnitKeepsWord(d: string, u: string)
    requires IsWord(d) && IsUnit(u)
    ensures IsWord(d + u)
  {
    var s := d + u;
    UnitHasNoWhitespace(u);
    forall i | 0 <= i < |s| ensures !IsWhitespace(s[i]) {
      if i >= |d| { assert s[i] == u[i - |d|]; } else { assert s[i] == d[i]; }
    }
  }

  /** A unit after a number changes nothing: "10px" reads as "10" does. */
  lemma {:induction false} ParseDimensionIgnoresUnit(d: string, u: string, toFloat: FloatParser)
    requires IsWord(d) && IsDigit(d[|d| - 1])
    requires IsUnit(u)
    ensures ParseDimension(Some(d + u), toFloat) == ParseDimension(Some(d), toFloat)
  {
    AppendedUnitKeepsWord(d, u);
    ParseDimensionOfWord(d + u, toFloat);
    ParseDimensionOfWord(d, toFloat);
    StripUnitAppended(d, u);
    StripUnitOfDigitEnd(d);
  }

  /** With Python's reading of decimals, a literal with or without a unit has the literal's value. */
  lemma {:induction false} ParseDimensionOfDecimal(p: string, u: string, toFloat: FloatParser)
    requires ParsesDecimals(toFloat)
    requires IsDecimal(p)
    requires u == "" || IsUnit(u)
    ensures ParseDimension(Some(p + u), toFloat) == DecimalValue(p)
  {
    DecimalShape(p);
    assert ParseDimension(Some(p), toFloat) == DecimalValue(p) by {
      ParseDimensionOfWord(p, toFloat);
      StripUnitOfDigitEnd(p);
    }
    if u != "" {
      ParseDimensionIgnoresUnit(p, u, toFloat);
    } else {
      assert p + u == p;
    }
  }

  /** When `float` rejects the cleaned text, the longest decimal literal it starts with gives the value. */
  lemma {:induction false} ParseDimensionFallback(raw: string, k: nat, toFloat: FloatParser)
    requires Strip(raw) != ""
    requires toFloat(StripUnit(Strip(raw))) == None
    requires k <= |StripUnit(Strip(raw))| && IsDecimal(StripUnit(Strip(raw))[..k])
    ensures NumericPrefix(StripUnit(Strip(raw))).Some?
    ensures IsDecimal(NumericPrefix(StripUnit(Strip(raw))).value)
    ensures k <= |NumericPrefix(StripUnit(Strip(raw))).value|
    ensures ParseDimension(Some(raw), toFloat) == DecimalValue(NumericPrefix(StripUnit(Strip(raw))).value)
  {
    var clean := StripUnit(Strip(raw));
    NumericPrefixLongest(clean, k);
    NumericPrefixSound(clean);
  }

  /** When `float` rejects the cleaned text and it starts with no decimal literal, the value is 0. */
  lemma {:induction false} ParseDimensionGarbage(raw: string, toFloat: FloatParser)
    requires Strip(raw) != ""
    requires toFloat(StripUnit(Strip(raw))) == None
    requires forall k :: 0 <= k <= |StripUnit(Strip(raw))| ==> !IsDecimal(StripUnit(Strip(raw))[..k])
    ensures ParseDimension(Some(raw), toFloat) == 0.0
  {
    var clean := StripUnit(Strip(raw));
    NumericPrefixSound(clean);
  }

  // ---------------------------------------------------------------------------
  // Document size
  // ---------------------------------------------------------------------------

  function NonZeroOr(x: real, fallback: real): real {
    if x == 0.0 then fallback else x
  }

  /**
   * The decision in `get_svg_dimensions` once width and height are read: the
   * `viewBox` counts only when both are zero, and only when it has exactly four
   * fields; a field `float` rejects gives 800 by 600; a zero left over becomes
   * 800 (width) or 600 (height).
   */
  function SvgSize(width: real, height: real, viewBox: Option<string>, toFloat: FloatParser): (r: (real, real))
    ensures r.0 != 0.0 && r.1 != 0.0
    ensures width != 0.0 || height != 0.0 ==> r == (NonZeroOr(width, 800.0), NonZeroOr(height, 600.0))
    ensures viewBox.None? ==> r == (NonZeroOr(width, 800.0), NonZeroOr(height, 600.0))
    ensures width == 0.0 && height == 0.0 && viewBox.Some? && |SplitWhitespace(viewBox.value)| != 4 ==>
      r == (800.0, 600.0)
  {
    var size :=
      if width != 0.0 || height != 0.0 || viewBox.None? then (width, height)
      else
        var parts := SplitWhitespace(viewBox.value);
        if |parts| != 4 then (width, height)
        else
          match (toFloat(parts[2]), toFloat(parts[3]))
          case (Some(w), Some(h)) => (w, h)
          case _ => (800.0, 600.0);
    (NonZeroOr(size.0, 800.0), NonZeroOr(size.1, 600.0))
  }

  /** Without declared dimensions, a four-field `viewBox` gives the size from its last two fields. */
  lemma {:induction false} SvgSizeFromViewBox(a: string, b: string, c: string, d: string, w: real, h: real, toFloat: FloatParser)
    requires IsWord(a) && IsWord(b) && IsWord(c) && IsWord(d)
    requires toFloat(c) == Some(w) && toFloat(d) == Some(h) && w != 0.0 && h != 0.0
    ensures SvgSize(0.0, 0.0, Some(Join([a, b, c, d], " ")), toFloat) == (w, h)
  {
    var parts := [a, b, c, d];
    assert SplitWhitespace(Join(parts, " ")) == parts by { SplitWhitespaceJoin(parts); }
  }

  /** A four-field `viewBox` whose width field `float` rejects gives 800 by 600. */
  lemma {:induction false} SvgSizeBadViewBox(a: string, b: string, c: string, d: string, toFloat: FloatParser)
    requires IsWord(a) && IsWord(b) && IsWord(c) && IsWord(d)
    requires toFloat(c).None?
    ensures SvgSize(0.0, 0.0, Some(Join([a, b, c, d], " ")), toFloat) == (800.0, 600.0)
  {
    var parts := [a, b, c, d];
    assert SplitWhitespace(Join(parts, " ")) == parts by { SplitWhitespaceJoin(parts); }
  }

  function DeclaredWidth(root: Element, toFloat: FloatParser): real {
    ParseDimension(Some(Attr(root, "width").GetOr("0")), toFloat)
  }

  function DeclaredHeight(root: Element, toFloat: FloatParser): real {
    ParseDimension(Some(Attr(root, "height").GetOr("0")), toFloat)
  }

  /** `get_svg_dimensions`: width and height default to "0" and are read as dimensions. */
  function GetSvgDimensions(root: Element, toFloat: FloatParser): (r: (real, real))
    ensures r.0 != 0.0 && r.1 != 0.0
  {
    SvgSize(DeclaredWidth(root, toFloat), DeclaredHeight(root, toFloat), Attr(root, "viewBox"), toFloat)
  }

  /** With no size information at all the document is 800 by 600. */
  lemma {:induction false} DimensionsDefault(root: Element, toFloat: FloatParser)
    requires ParsesDecimals(toFloat)
    requires Attr(root, "width").None? && Attr(root, "height").None? && Attr(root, "viewBox").None?
    ensures GetSvgDimensions(root, toFloat) == (800.0, 600.0)
  {
    ZeroIsDecimal();
    ParseDimensionOfDecimal("0", "", toFloat);
    assert "0" + "" == "0";
  }

  // ---------------------------------------------------------------------------
  // Elements to polygons
  // ---------------------------------------------------------------------------

  /** A box from (x, y) spanning width by height, none when either is zero. */
  function RectPolygon(x: real, y: real, w: real, h: real): (r: Option<Polygon>)
    ensures r.None? <==> w == 0.0 || h == 0.0
    ensures r.Some? ==> Area(r.value) == Abs(w * h) && Area(r.value) > 0.0 && !IsEmpty(r.value)
  {
    if w == 0.0 || h == 0.0 then None
    else
      BoxPolygonArea(x, y, w, h);
      assert w * h != 0.0;
      Some(BoxPolygon(x, y, x + w, y + h))
  }

  /** The `rect` branch; a missing attribute reads as 0. */
  function ConvertRect(e: Element, toFloat: FloatParser): Option<Polygon> {
    RectPolygon(
      ParseDimension(Attr(e, "x"), toFloat), ParseDimension(Attr(e, "y"), toFloat),
      ParseDimension(Attr(e, "width"), toFloat), ParseDimension(Attr(e, "height"), toFloat))
  }

  /** How one coordinate text becomes a number. */
  type CoordinateReader = string -> real

  /** The polygon branch reads each coordinate with `parse_dimension`. */
  function DimensionReader(toFloat: FloatParser): CoordinateReader {
    s => ParseDimension(Some(s), toFloat)
  }

  /** One `x,y` token: exactly one comma, each side read as a coordinate. */
  function ParsePair(token: string, read: CoordinateReader): Option<Point> {
    var coords := SplitOn(token, ',');
    if |coords| == 2 then Some(Point(read(coords[0]), read(coords[1]))) else None
  }

  /** All tokens as points, or `None` as soon as one of them is malformed. */
  function ParsePoints(tokens: seq<string>, read: CoordinateReader): (r: Option<seq<Point>>)
    ensures r.Some? ==> |r.value| == |tokens|
    ensures r.Some? ==> forall i :: 0 <= i < |tokens| ==> ParsePair(tokens[i], read) == Some(r.value[i])
  {
    if |tokens| == 0 then Some([])
    else
      match ParsePair(tokens[0], read)
      case None => None
      case Some(p) =>
        match ParsePoints(tokens[1..], read)
        case None => None
        case Some(ps) =>
          assert forall i :: 1 <= i < |tokens| ==> tokens[i] == tokens[1..][i - 1];
          Some([p] + ps)
  }

  /** One malformed token rejects the whole attribute. */
  lemma {:induction false} ParsePointsRejects(tokens: seq<string>, read: CoordinateReader, j: nat)
    requires j < |tokens| && |SplitOn(tokens[j], ',')| != 2
    ensures ParsePoints(tokens, read).None?
    decreases j
  {
    if j > 0 {
      assert tokens[1..][j - 1] == tokens[j];
      ParsePointsRejects(tokens[1..], read, j - 1);
    }
  }

  /** Tokens that each hold one comma always parse. */
  lemma {:induction false} ParsePointsAccepts(tokens: seq<string>, read: CoordinateReader)
    requires forall i :: 0 <= i < |tokens| ==> |SplitOn(tokens[i], ',')| == 2
    ensures ParsePoints(tokens, read).Some?
  {
    if |tokens| > 0 {
      assert forall i :: 0 <= i < |tokens| - 1 ==> tokens[1..][i] == tokens[i + 1];
      ParsePointsAccepts(tokens[1..], read);
    }
  }

  /** The `polygon` branch after the attribute is split: at least three points, then `Polygon(points)`. */
  function PolygonFromTokens(tokens: seq<string>, read: CoordinateReader): (r: Option<Polygon>)
    ensures r.Some? ==> |tokens| >= 3 && |r.value.exterior| >= 4 && IsClosed(r.value.exterior)
    ensures r.Some? ==> |tokens| <= |r.value.exterior|
    ensures r.Some? ==> forall i :: 0 <= i < |tokens| ==> ParsePair(tokens[i], read) == Some(r.value.exterior[i])
  {
    match ParsePoints(tokens, read)
    case None => None
    case Some(pts) => if |pts| < 3 then None else PolygonFromPoints(pts)
  }

  /** The `polygon` branch: a blank `points` attribute gives no polygon. */
  function ConvertPolygon(e: Element, toFloat: FloatParser): (r: Option<Polygon>)
    ensures AllWhitespace(Attr(e, "points").GetOr("")) ==> r.None?
  {
    var text := Attr(e, "points").GetOr("");
    if Strip(text) == "" then None else PolygonFromTokens(SplitWhitespace(text), DimensionReader(toFloat))
  }

  function PairToken(pair: (string, string)): string {
    pair.0 + "," + pair.1
  }

  function PairTokens(pairs: seq<(string, string)>): (tokens: seq<string>)
    ensures |tokens| == |pairs|
    ensures forall i :: 0 <= i < |pairs| ==> tokens[i] == PairToken(pairs[i])
  {
    if |pairs| == 0 then [] else [PairToken(pairs[0])] + PairTokens(pairs[1..])
  }

  function PairPoints(pairs: seq<(string, string)>, read: CoordinateReader): (pts: seq<Point>)
    ensures |pts| == |pairs|
    ensures forall i :: 0 <= i < |pairs| ==> pts[i] == Point(read(pairs[i].0), read(pairs[i].1))
  {
    if |pairs| == 0 then [] else [Point(read(pairs[0].0), read(pairs[0].1))] + PairPoints(pairs[1..], read)
  }

  /** A coordinate written without whitespace or commas. */
  predicate IsCoordinateText(s: string) {
    NoWhitespace(s) && ',' !in s
  }

  lemma {:induction false} PairTokenParses(pair: (string, string), read: CoordinateReader)
    requires IsCoordinateText(pair.0) && IsCoordinateText(pair.1)
    ensures IsWord(PairToken(pair))
    ensures ParsePair(PairToken(pair), read) == Some(Point(read(pair.0), read(pair.1)))
  {
    var t := PairToken(pair);
    assert Join([pair.0, pair.1], [',']) == t;
    SplitOnJoin([pair.0, pair.1], ',');
    forall i | 0 <= i < |t| ensures !IsWhitespace(t[i]) {
      if i < |pair.0| {
        assert t[i] == pair.0[i];
      } else if i > |pair.0| {
        assert t[i] == pair.1[i - |pair.0| - 1];
      }
    }
  }

  /** Each `x,y` token is a word, and the tokens parse back to the points. */
  lemma {:induction false} PairTokensParse(pairs: seq<(string, string)>, read: CoordinateReader)
    requires forall i :: 0 <= i < |pairs| ==> IsCoordinateText(pairs[i].0) && IsCoordinateText(pairs[i].1)
    ensures forall i :: 0 <= i < |pairs| ==> IsWord(PairTokens(pairs)[i])
    ensures ParsePoints(PairTokens(pairs), read) == Some(PairPoints(pairs, read))
    decreases |pairs|
  {
    if |pairs| > 0 {
      var tokens := PairTokens(pairs);
      PairTokenParses(pairs[0], read);
      PairTokensParse(pairs[1..], read);
      assert tokens[1..] == PairTokens(pairs[1..]);
    }
  }

  /** Writing pairs as `x,y` tokens separated by spaces and parsing them back gives the points. */
  lemma {:induction false} PointsRoundTrip(pairs: seq<(string, string)>, read: CoordinateReader)
    requires forall i :: 0 <= i < |pairs| ==> IsCoordinateText(pairs[i].0) && IsCoordinateText(pairs[i].1)
    ensures SplitWhitespace(Join(PairTokens(pairs), " ")) == PairTokens(pairs)
    ensures ParsePoints(PairTokens(pairs), read) == Some(PairPoints(pairs, read))
  {
    PairTokensParse(pairs, read);
    SplitWhitespaceJoin(PairTokens(pairs));
  }

  /** A `points` attribute written from coordinate pairs yields the polygon through those points. */
  lemma {:induction false} ConvertPolygonOfPairs(e: Element, pairs: seq<(string, string)>, toFloat: FloatParser)
    requires forall i :: 0 <= i < |pairs| ==> IsCoordinateText(pairs[i].0) && IsCoordinateText(pairs[i].1)
    requires |pairs| >= 3
    requires Attr(e, "points") == Some(Join(PairTokens(pairs), " "))
    ensures ConvertPolygon(e, toFloat) == PolygonFromPoints(PairPoints(pairs, DimensionReader(toFloat)))
  {
    var read := DimensionReader(toFloat);
    var tokens := PairTokens(pairs);
    var text := Join(tokens, " ");
    PointsRoundTrip(pairs, read);
    PairTokensParse(pairs, read);
    assert !AllWhitespace(text) by {
      JoinHead(tokens, " ");
      assert text[0] == tokens[0][0];
    }
  }

  /** The triangle "0,0 10,0 5,10" has area 50. */
  lemma {:induction false} TriangleArea()
    ensures Area(PolygonFromPoints([Point(0.0, 0.0), Point(10.0, 0.0), Point(5.0, 10.0)]).value) == 50.0
  {
    var ring := CloseRing([Point(0.0, 0.0), Point(10.0, 0.0), Point(5.0, 10.0)]);
    assert ring == [Point(0.0, 0.0), Point(10.0, 0.0), Point(5.0, 10.0), Point(0.0, 0.0)];
    assert ring[3..][1..] == [];
    assert TwiceSignedArea(ring[2..]) == 0.0;
    assert TwiceSignedArea(ring[1..]) == 100.0;
    assert TwiceSignedArea(ring) == 100.0;
  }

  /**
   * `convert_to_polygon`, dispatching on the tag's ending in the source's order. A
   * zero radius, a zero semi-axis or a blank path gives no polygon before any curve
   * is approximated; a tag that is none of the five gives none either.
   */
  function ConvertToPolygon(e: Element, toFloat: FloatParser, approximate: Approximator): (r: Option<Polygon>)
    ensures r.Some? ==>
      EndsWith(e.tag, "rect") || EndsWith(e.tag, "circle") || EndsWith(e.tag, "ellipse") ||
      EndsWith(e.tag, "polygon") || EndsWith(e.tag, "path")
  {
    if EndsWith(e.tag, "rect") then ConvertRect(e, toFloat)
    else if EndsWith(e.tag, "circle") then
      if ParseDimension(Attr(e, "r"), toFloat) == 0.0 then None else approximate(e)
    else if EndsWith(e.tag, "ellipse") then
      if ParseDimension(Attr(e, "rx"), toFloat) == 0.0 || ParseDimension(Attr(e, "ry"), toFloat) == 0.0 then None
      else approximate(e)
    else if EndsWith(e.tag, "polygon") then ConvertPolygon(e, toFloat)
    else if EndsWith(e.tag, "path") then
      if Strip(Attr(e, "d").GetOr("")) == "" then None else approximate(e)
    else None
  }

  /** A circle with a missing or blank radius and a path with blank data are dropped whatever the approximation. */
  lemma {:induction false} DegenerateCurvesRejected(e: Element, toFloat: FloatParser, approximate: Approximator)
    requires !EndsWith(e.tag, "rect")
    requires (EndsWith(e.tag, "circle") && AllWhitespace(Attr(e, "r").GetOr(""))) ||
             (!EndsWith(e.tag, "circle") && !EndsWith(e.tag, "ellipse") && !EndsWith(e.tag, "polygon") &&
              AllWhitespace(Attr(e, "d").GetOr("")))
    ensures ConvertToPolygon(e, toFloat, approximate).None?
  {
    if EndsWith(e.tag, "circle") {
      assert ParseDimension(Attr(e, "r"), toFloat) == 0.0;
    }
  }

  /** `preserve_metadata`: exactly the keys style, transform and id, each the attribute or `None`. */
  function PreserveMetadata(e: Element): (m: Metadata)
    ensures m.Keys == {"style", "transform", "id"}
    ensures forall k :: k in m ==> m[k] == Attr(e, k)
  {
    map["style" := Attr(e, "style"), "transform" := Attr(e, "transform"), "id" := Attr(e, "id")]
  }

  // ---------------------------------------------------------------------------
  // Shapes
  // ---------------------------------------------------------------------------

  /** What becomes of one element: the polygon it contributes, if any. */
  type Acceptor = Element -> Option<Polygon>

  /** `if polygon:` drops `None` and empty geometries. */
  function Accepted(e: Element, toFloat: FloatParser, approximate: Approximator): (r: Option<Polygon>)
    ensures r.Some? ==> !IsEmpty(r.value)
  {
    match ConvertToPolygon(e, toFloat, approximate)
    case Some(p) => if IsEmpty(p) then None else Some(p)
    case None => None
  }

  function AcceptorOf(toFloat: FloatParser, approximate: Approximator): Acceptor {
    e => Accepted(e, toFloat, approximate)
  }

  /** The `d` attribute is kept, defaulting to "", for path elements only. */
  function DAttribute(e: Element): Option<string> {
    if EndsWith(e.tag, "path") then Some(Attr(e, "d").GetOr("")) else None
  }

  predicate IsShapeOf(s: Shape, e: Element, accept: Acceptor) {
    accept(e) == Some(s.geometry) && s.metadata == PreserveMetadata(e) && s.dAttribute == DAttribute(e)
  }

  /**
   * `extract_shapes` from position `start` of the elements `root.iter` yields: one
   * shape per accepted element, in document order, numbered by its position among
   * all yielded elements (rejected ones leave gaps).
   */
  function ExtractFrom(elements: seq<Element>, start: nat, accept: Acceptor): (shapes: seq<Shape>)
    requires start <= |elements|
    decreases |elements| - start
    ensures forall i :: 0 <= i < |shapes| ==>
      start <= shapes[i].id < |elements| && IsShapeOf(shapes[i], elements[shapes[i].id], accept)
    ensures forall i, j :: 0 <= i < j < |shapes| ==> shapes[i].id < shapes[j].id
  {
    if start == |elements| then []
    else
      var rest := ExtractFrom(elements, start + 1, accept);
      var e := elements[start];
      match accept(e)
      case None => rest
      case Some(p) =>
        var shapes := [Shape(start, p, PreserveMetadata(e), DAttribute(e))] + rest;
        assert forall i :: 1 <= i < |shapes| ==> shapes[i] == rest[i - 1];
        shapes
  }

  predicate HasShapeFor(shapes: seq<Shape>, k: nat) {
    exists i :: 0 <= i < |shapes| && shapes[i].id == k
  }

  /** Every accepted element from `start` on has a shape. */
  lemma {:induction false} ExtractFromComplete(elements: seq<Element>, start: nat, accept: Acceptor, k: nat)
    requires start <= k < |elements| && accept(elements[k]).Some?
    ensures HasShapeFor(ExtractFrom(elements, start, accept), k)
    decreases k - start
  {
    var shapes := ExtractFrom(elements, start, accept);
    var rest := ExtractFrom(elements, start + 1, accept);
    ExtractFromStep(elements, start, accept);
    if k == start {
      HasShapeForHead(shapes, k);
    } else {
      ExtractFromComplete(elements, start + 1, accept, k);
      HasShapeForTail(shapes, rest, k);
    }
  }

  lemma {:induction false} HasShapeForHead(shapes: seq<Shape>, k: nat)
    requires |shapes| > 0 && shapes[0].id == k
    ensures HasShapeFor(shapes, k)
  {
  }

  lemma {:induction false} HasShapeForTail(shapes: seq<Shape>, rest: seq<Shape>, k: nat)
    requires shapes == rest || (|shapes| > 0 && shapes[1..] == rest)
    requires HasShapeFor(rest, k)
    ensures HasShapeFor(shapes, k)
  {
    var i :| 0 <= i < |rest| && rest[i].id == k;
    if shapes != rest {
      assert shapes[i + 1] == rest[i];
    }
  }

  lemma {:induction false} ExtractFromStep(elements: seq<Element>, start: nat, accept: Acceptor)
    requires start < |elements|
    ensures accept(elements[start]).None? ==> ExtractFrom(elements, start, accept) == ExtractFrom(elements, start + 1, accept)
    ensures accept(elements[start]).Some? ==>
      ExtractFrom(elements, start, accept)[0].id == start &&
      ExtractFrom(elements, start, accept)[1..] == ExtractFrom(elements, start + 1, accept)
  {
  }

  function ExtractShapes(elements: seq<Element>, toFloat: FloatParser, approximate: Approximator): (shapes: seq<Shape>)
    ensures forall i :: 0 <= i < |shapes| ==>
      0 <= shapes[i].id < |elements| && IsShapeOf(shapes[i], elements[shapes[i].id], AcceptorOf(toFloat, approximate))
    ensures forall i, j :: 0 <= i < j < |shapes| ==> shapes[i].id < shapes[j].id
  {
    ExtractFrom(elements, 0, AcceptorOf(toFloat, approximate))
  }

  /** Every element that converts to a non-empty polygon has a shape. */
  lemma {:induction false} ExtractShapesComplete(elements: seq<Element>, toFloat: FloatParser, approximate: Approximator, k: nat)
    requires k < |elements| && Accepted(elements[k], toFloat, approximate).Some?
    ensures HasShapeFor(ExtractShapes(elements, toFloat, approximate), k)
  {
    ExtractFromComplete(elements, 0, AcceptorOf(toFloat, approximate), k);
  }

  /** Each shape is non-empty, keeps an `id` metadata entry, and has a `d` attribute exactly when it comes from a path. */
  lemma {:induction false} ExtractedShapesWellFormed(elements: seq<Element>, toFloat: FloatParser, approximate: Approximator, i: nat)
    requires i < |ExtractShapes(elements, toFloat, approximate)|
    ensures var s := ExtractShapes(elements, toFloat, approximate)[i];
      !IsEmpty(s.geometry) && "id" in s.metadata &&
      (s.dAttribute.Some? <==> EndsWith(elements[s.id].tag, "path"))
  {
    var s := ExtractShapes(elements, toFloat, approximate)[i];
    assert AcceptorOf(toFloat, approximate)(elements[s.id]) == Some(s.geometry);
  }
}
