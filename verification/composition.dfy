/**
 * The pipeline glue in `main.py`: rendering a polygon as SVG path data, the crop
 * marks, the background recolouring, and the per-colour tallies and grouping.
 */
module Composition {
  import opened Wrappers
  import opened Strings
  import opened Numerals
  import opened Geometry
  import opened SvgParser
  import opened Sorting
  import opened Counting
  import opened Dicts
  import GraphSolver

  // ---------------------------------------------------------------------------
  // polygon_to_svg_path_d
  // ---------------------------------------------------------------------------

  /** `"M x y"` for the first point of a ring. */
  function MoveEntry(pt: Point, fmt: Formatter): string {
    "M " + fmt(pt.x) + " " + fmt(pt.y)
  }

  /** One `"L x y"` per point, in order. */
  function LineEntries(pts: seq<Point>, fmt: Formatter): (r: seq<string>)
    ensures |r| == |pts|
  {
    if |pts| == 0 then [] else ["L " + fmt(pts[0].x) + " " + fmt(pts[0].y)] + LineEntries(pts[1..], fmt)
  }

  /** The entries of one non-empty ring: a move, a line to each further point, a close. */
  function RingEntries(ring: Ring, fmt: Formatter): (r: seq<string>)
    ensures |r| == if |ring| == 0 then 0 else |ring| + 1
  {
    if |ring| == 0 then [] else [MoveEntry(ring[0], fmt)] + LineEntries(ring[1..], fmt) + ["Z"]
  }

  function HoleEntries(holes: seq<Ring>, fmt: Formatter): seq<string> {
    if |holes| == 0 then [] else RingEntries(holes[0], fmt) + HoleEntries(holes[1..], fmt)
  }

  /**
   * `polygon_to_svg_path_d`: nothing for an empty polygon; otherwise the exterior's
   * subpath and then each non-empty hole's, every entry separated by one space.
   */
  function PolygonToPathD(p: Polygon, fmt: Formatter): (d: string)
    ensures IsEmpty(p) ==> d == ""
  {
    if IsEmpty(p) then "" else Join(RingEntries(p.exterior, fmt) + HoleEntries(p.interiors, fmt), " ")
  }

  /** A ring's coordinates as the text the formatter gives them. */
  type Subpath = seq<(string, string)>

  function FormatRing(ring: Ring, fmt: Formatter): (sp: Subpath)
    ensures |sp| == |ring|
  {
    seq(|ring|, i requires 0 <= i < |ring| => (fmt(ring[i].x), fmt(ring[i].y)))
  }

  /** The subpaths a polygon's path data describes: its non-empty rings, exterior first. */
  function Subpaths(p: Polygon, fmt: Formatter): (r: seq<Subpath>)
    ensures forall i :: 0 <= i < |r| ==> |r[i]| > 0
  {
    (if |p.exterior| == 0 then [] else [FormatRing(p.exterior, fmt)]) + HoleSubpaths(p.interiors, fmt)
  }

  function HoleSubpaths(holes: seq<Ring>, fmt: Formatter): (r: seq<Subpath>)
    ensures forall i :: 0 <= i < |r| ==> |r[i]| > 0
  {
    if |holes| == 0 then []
    else (if |holes[0]| == 0 then [] else [FormatRing(holes[0], fmt)]) + HoleSubpaths(holes[1..], fmt)
  }

  /** The single words of path data: commands and coordinates. */
  function LineWords(pts: Subpath): (r: seq<string>)
    ensures |r| == 3 * |pts|
  {
    if |pts| == 0 then [] else ["L", pts[0].0, pts[0].1] + LineWords(pts[1..])
  }

  function SubpathWords(sp: Subpath): seq<string>
    requires |sp| > 0
  {
    ["M", sp[0].0, sp[0].1] + LineWords(sp[1..]) + ["Z"]
  }

  function Words(sps: seq<Subpath>): seq<string>
    requires forall i :: 0 <= i < |sps| ==> |sps[i]| > 0
  {
    if |sps| == 0 then [] else SubpathWords(sps[0]) + Words(sps[1..])
  }

  /** Read `L x y` groups up to a `Z`; gives the points and the words after the `Z`. */
  function ParseLines(ws: seq<string>): (r: Option<(Subpath, seq<string>)>)
    ensures r.Some? ==> |r.value.1| < |ws|
    decreases |ws|
  {
    if |ws| > 0 && ws[0] == "Z" then Some(([], ws[1..]))
    else if |ws| >= 3 && ws[0] == "L" then
      match ParseLines(ws[3..])
      case None => None
      case Some((pts, rest)) => Some(([(ws[1], ws[2])] + pts, rest))
    else None
  }

  /** Read path data written as `M x y (L x y)* Z` subpaths back into their coordinates. */
  function ParseSubpaths(ws: seq<string>): Option<seq<Subpath>>
    decreases |ws|
  {
    if |ws| == 0 then Some([])
    else if |ws| >= 3 && ws[0] == "M" then
      match ParseLines(ws[3..])
      case None => None
      case Some((pts, rest)) =>
        match ParseSubpaths(rest)
        case None => None
        case Some(sps) => Some([[(ws[1], ws[2])] + pts] + sps)
    else None
  }

  lemma {:induction false} ParseLinesOf(pts: Subpath, tail: seq<string>)
    ensures ParseLines(LineWords(pts) + ["Z"] + tail) == Some((pts, tail))
    decreases |pts|
  {
    var ws := LineWords(pts) + ["Z"] + tail;
    if |pts| == 0 {
      assert ws == ["Z"] + tail;
    } else {
      var rest := pts[1..];
      assert ws == ["L", pts[0].0, pts[0].1] + (LineWords(rest) + ["Z"] + tail);
      assert ws[3..] == LineWords(rest) + ["Z"] + tail;
      ParseLinesOf(rest, tail);
      assert [(pts[0].0, pts[0].1)] + rest == pts;
    }
  }

  /** The parser inverts the writer: the words of non-empty subpaths read back as those subpaths. */
  lemma {:induction false} ParseSubpathsOf(sps: seq<Subpath>)
    requires forall i :: 0 <= i < |sps| ==> |sps[i]| > 0
    ensures ParseSubpaths(Words(sps)) == Some(sps)
    decreases |sps|
  {
    if |sps| > 0 {
      var sp := sps[0];
      var tail := Words(sps[1..]);
      var ws := Words(sps);
      assert ws == ["M", sp[0].0, sp[0].1] + (LineWords(sp[1..]) + ["Z"] + tail);
      assert ws[3..] == LineWords(sp[1..]) + ["Z"] + tail;
      ParseLinesOf(sp[1..], tail);
      ParseSubpathsOf(sps[1..]);
      assert [(sp[0].0, sp[0].1)] + sp[1..] == sp;
      assert [sp] + sps[1..] == sps;
    }
  }

  lemma {:induction false} WordsAppend(a: seq<Subpath>, b: seq<Subpath>)
    requires forall i :: 0 <= i < |a| ==> |a[i]| > 0
    requires forall i :: 0 <= i < |b| ==> |b[i]| > 0
    ensures Words(a + b) == Words(a) + Words(b)
    decreases |a|
  {
    if |a| > 0 {
      assert (a + b)[1..] == a[1..] + b;
      WordsAppend(a[1..], b);
    } else {
      assert a + b == b;
    }
  }

  /** The `"L x y"` entries join to the same text as their words. */
  lemma {:induction false} LineEntriesJoin(pts: seq<Point>, fmt: Formatter)
    requires |pts| > 0
    ensures Join(LineEntries(pts, fmt), " ") == Join(LineWords(FormatRing(pts, fmt)), " ")
    decreases |pts|
  {
    var sp := FormatRing(pts, fmt);
    var e := ["L " + fmt(pts[0].x) + " " + fmt(pts[0].y)];
    var w := ["L", fmt(pts[0].x), fmt(pts[0].y)];
    JoinThree("L", fmt(pts[0].x), fmt(pts[0].y), " ");
    assert sp[1..] == FormatRing(pts[1..], fmt);
    assert LineEntries(pts, fmt) == e + LineEntries(pts[1..], fmt);
    assert LineWords(sp) == w + LineWords(sp[1..]);
    if |pts| > 1 {
      LineEntriesJoin(pts[1..], fmt);
      JoinCongruent(e, LineEntries(pts[1..], fmt), w, LineWords(sp[1..]), " ");
    } else {
      assert LineWords(sp) == w;
    }
  }

  lemma {:induction false} RingEntriesJoin(ring: Ring, fmt: Formatter)
    requires |ring| > 0
    ensures Join(RingEntries(ring, fmt), " ") == Join(SubpathWords(FormatRing(ring, fmt)), " ")
  {
    var sp := FormatRing(ring, fmt);
    var m := [MoveEntry(ring[0], fmt)];
    var mw := ["M", fmt(ring[0].x), fmt(ring[0].y)];
    var le := LineEntries(ring[1..], fmt);
    var lw := LineWords(sp[1..]);
    assert Join(m, " ") == Join(mw, " ") by {
      JoinThree("M", fmt(ring[0].x), fmt(ring[0].y), " ");
    }
    assert RingEntries(ring, fmt) == m + (le + ["Z"]);
    assert SubpathWords(sp) == mw + (lw + ["Z"]) by {
      assert sp[0] == (fmt(ring[0].x), fmt(ring[0].y));
    }
    assert Join(le + ["Z"], " ") == Join(lw + ["Z"], " ") by {
      if |ring| > 1 {
        assert sp[1..] == FormatRing(ring[1..], fmt);
        LineEntriesJoin(ring[1..], fmt);
        JoinCongruent(le, ["Z"], lw, ["Z"], " ");
      } else {
        assert le + ["Z"] == ["Z"] && lw + ["Z"] == ["Z"];
      }
    }
    JoinCongruent(m, le + ["Z"], mw, lw + ["Z"], " ");
  }

  lemma {:induction false} HoleEntriesJoin(holes: seq<Ring>, fmt: Formatter)
    ensures |HoleEntries(holes, fmt)| == 0 <==> |Words(HoleSubpaths(holes, fmt))| == 0
    ensures Join(HoleEntries(holes, fmt), " ") == Join(Words(HoleSubpaths(holes, fmt)), " ")
    decreases |holes|
  {
    if |holes| > 0 {
      HoleEntriesJoin(holes[1..], fmt);
      HoleEntriesStep(holes, fmt);
    }
  }

  /** One hole's entries in front of the rest join like its words in front of theirs. */
  lemma {:induction false} HoleEntriesStep(holes: seq<Ring>, fmt: Formatter)
    requires |holes| > 0
    requires |HoleEntries(holes[1..], fmt)| == 0 <==> |Words(HoleSubpaths(holes[1..], fmt))| == 0
    requires Join(HoleEntries(holes[1..], fmt), " ") == Join(Words(HoleSubpaths(holes[1..], fmt)), " ")
    ensures |HoleEntries(holes, fmt)| == 0 <==> |Words(HoleSubpaths(holes, fmt))| == 0
    ensures Join(HoleEntries(holes, fmt), " ") == Join(Words(HoleSubpaths(holes, fmt)), " ")
  {
    var h := holes[0];
    var restE := HoleEntries(holes[1..], fmt);
    var restS := HoleSubpaths(holes[1..], fmt);
    var restW := Words(restS);
    assert HoleEntries(holes, fmt) == RingEntries(h, fmt) + restE;
    if |h| > 0 {
      var sp := FormatRing(h, fmt);
      assert HoleSubpaths(holes, fmt) == [sp] + restS;
      assert ([sp] + restS)[1..] == restS;
      assert Words(HoleSubpaths(holes, fmt)) == SubpathWords(sp) + restW;
      RingEntriesJoin(h, fmt);
      if |restE| > 0 {
        JoinCongruent(RingEntries(h, fmt), restE, SubpathWords(sp), restW, " ");
      } else {
        assert RingEntries(h, fmt) + restE == RingEntries(h, fmt);
        assert SubpathWords(sp) + restW == SubpathWords(sp);
      }
    } else {
      assert HoleSubpaths(holes, fmt) == restS;
      assert HoleEntries(holes, fmt) == restE;
    }
  }

  /** The path data is its words separated by single spaces. */
  lemma {:induction false} PathDWords(p: Polygon, fmt: Formatter)
    requires !IsEmpty(p)
    ensures PolygonToPathD(p, fmt) == Join(Words(Subpaths(p, fmt)), " ")
  {
    var ext := FormatRing(p.exterior, fmt);
    var holes := HoleSubpaths(p.interiors, fmt);
    var he := HoleEntries(p.interiors, fmt);
    RingEntriesJoin(p.exterior, fmt);
    HoleEntriesJoin(p.interiors, fmt);
    WordsAppend([ext], holes);
    assert Words([ext]) == SubpathWords(ext) + Words([]);
    if |he| > 0 {
      JoinCongruent(RingEntries(p.exterior, fmt), he, SubpathWords(ext), Words(holes), " ");
    } else {
      assert RingEntries(p.exterior, fmt) + he == RingEntries(p.exterior, fmt);
      assert SubpathWords(ext) + Words(holes) == SubpathWords(ext);
    }
  }

  lemma {:induction false} WordsAreWords(sps: seq<Subpath>)
    requires forall i :: 0 <= i < |sps| ==> |sps[i]| > 0
    requires WordCoordinates(sps)
    ensures forall k :: 0 <= k < |Words(sps)| ==> IsWord(Words(sps)[k])
    decreases |sps|
  {
    if |sps| > 0 {
      var sp := sps[0];
      LineWordsAreWords(sp[1..]);
      assert forall k :: 0 <= k < |sps| - 1 ==> sps[1..][k] == sps[k + 1];
      WordsAreWords(sps[1..]);
      assert IsWord("M") && IsWord("Z");
    }
  }

  lemma {:induction false} LineWordsAreWords(pts: Subpath)
    requires forall j :: 0 <= j < |pts| ==> IsWord(pts[j].0) && IsWord(pts[j].1)
    ensures forall k :: 0 <= k < |LineWords(pts)| ==> IsWord(LineWords(pts)[k])
    decreases |pts|
  {
    if |pts| > 0 {
      LineWordsAreWords(pts[1..]);
      assert IsWord("L");
    }
  }

  /** Every coordinate of a formatted ring is a single word when the formatter's output is. */
  predicate WordCoordinates(sps: seq<Subpath>) {
    forall i, j :: 0 <= i < |sps| && 0 <= j < |sps[i]| ==> IsWord(sps[i][j].0) && IsWord(sps[i][j].1)
  }

  lemma {:induction false} HoleSubpathsAreWords(holes: seq<Ring>, fmt: Formatter)
    requires WordFormatter(fmt)
    ensures WordCoordinates(HoleSubpaths(holes, fmt))
    decreases |holes|
  {
    if |holes| > 0 {
      var head: seq<Subpath> := if |holes[0]| == 0 then [] else [FormatRing(holes[0], fmt)];
      var rest := HoleSubpaths(holes[1..], fmt);
      HoleSubpathsAreWords(holes[1..], fmt);
      var sps: seq<Subpath> := head + rest;
      forall i, j | 0 <= i < |sps| && 0 <= j < |sps[i]| ensures IsWord(sps[i][j].0) && IsWord(sps[i][j].1) {
        if i >= |head| {
          assert sps[i] == rest[i - |head|];
        } else {
          assert sps[i][j] == (fmt(holes[0][j].x), fmt(holes[0][j].y));
        }
      }
    }
  }

  lemma {:induction false} SubpathsAreWords(p: Polygon, fmt: Formatter)
    requires WordFormatter(fmt)
    ensures WordCoordinates(Subpaths(p, fmt))
  {
    var head: seq<Subpath> := if |p.exterior| == 0 then [] else [FormatRing(p.exterior, fmt)];
    var rest := HoleSubpaths(p.interiors, fmt);
    HoleSubpathsAreWords(p.interiors, fmt);
    var sps: seq<Subpath> := head + rest;
    forall i, j | 0 <= i < |sps| && 0 <= j < |sps[i]| ensures IsWord(sps[i][j].0) && IsWord(sps[i][j].1) {
      if i >= |head| {
        assert sps[i] == rest[i - |head|];
      } else {
        assert sps[i][j] == (fmt(p.exterior[j].x), fmt(p.exterior[j].y));
      }
    }
  }

  /**
   * With numbers that print as single words, splitting the path data on whitespace and
   * reading it back gives exactly the polygon's non-empty rings, exterior first.
   */
  lemma {:induction false} PathDRoundTrip(p: Polygon, fmt: Formatter)
    requires WordFormatter(fmt)
    requires !IsEmpty(p)
    ensures ParseSubpaths(SplitWhitespace(PolygonToPathD(p, fmt))) == Some(Subpaths(p, fmt))
  {
    var sps := Subpaths(p, fmt);
    PathDWords(p, fmt);
    SubpathsAreWords(p, fmt);
    WordsAreWords(sps);
    SplitWhitespaceJoin(Words(sps));
    ParseSubpathsOf(sps);
  }

  // ---------------------------------------------------------------------------
  // generate_crop_marks_svg
  // ---------------------------------------------------------------------------

  /** The default arm length of a crop mark. */
  const MarkLength: int := 10

  function MarkElement(d: string): string {
    "<path d=\"" + d + "\" stroke=\"black\"" + " stroke-width=\"0.5\"" + " fill=\"none\"/>"
  }

  /**
   * The corner marks: top left, top right, bottom left, bottom right, each an L of
   * arm `MarkLength` whose bend is the page corner.
   */
  function CropMarkPaths(width: real, height: real, fmt: Formatter): (r: seq<string>)
    ensures |r| == 4
  {
    var m := IntToString(MarkLength);
    var w, h := fmt(width), fmt(height);
    var wm, hm := fmt(width - MarkLength as real), fmt(height - MarkLength as real);
    [ MarkElement("M 0 " + m + " L 0 0 L " + m + " 0"),
      MarkElement("M " + wm + " 0 L " + w + " 0 L " + w + " " + m),
      MarkElement("M 0 " + hm + " L 0 " + h + " L " + m + " " + h),
      MarkElement("M " + wm + " " + h + " L " + w + " " + h + " L " + w + " " + hm) ]
  }

  /** `generate_crop_marks_svg`: the marks, one per line. */
  function CropMarksSvg(width: real, height: real, fmt: Formatter): string {
    Join(CropMarkPaths(width, height, fmt), "\n")
  }

  /** With single-word numbers, the crop-mark text is exactly four path elements, one per line. */
  lemma {:induction false} CropMarksLines(width: real, height: real, fmt: Formatter)
    requires WordFormatter(fmt)
    ensures SplitOn(CropMarksSvg(width, height, fmt), '\n') == CropMarkPaths(width, height, fmt)
    ensures |SplitOn(CropMarksSvg(width, height, fmt), '\n')| == 4
    ensures forall i :: 0 <= i < 4 ==> '\n' !in CropMarkPaths(width, height, fmt)[i]
  {
    var paths := CropMarkPaths(width, height, fmt);
    WordHasNoNewline(fmt(width));
    WordHasNoNewline(fmt(height));
    WordHasNoNewline(fmt(width - MarkLength as real));
    WordHasNoNewline(fmt(height - MarkLength as real));
    IntToStringIsWord(MarkLength);
    assert "\n" == ['\n'];
    assert forall i :: 0 <= i < |paths| ==> '\n' !in paths[i] by {
      assert '\n' !in paths[0];
      assert '\n' !in paths[1];
      assert '\n' !in paths[2];
      assert '\n' !in paths[3];
    }
    SplitOnJoin(paths, '\n');
  }

  // ---------------------------------------------------------------------------
  // run_diastasis: background shape
  // ---------------------------------------------------------------------------

  /** A shape the background scan can pick: non-empty, with an area above the starting -1. */
  predicate Eligible(s: Shape) {
    !IsEmpty(s.geometry) && Area(s.geometry) > -1.0
  }

  /**
   * The background shape: the first index whose non-empty geometry has strictly the
   * largest area, or -1 when no shape qualifies.
   */
  method LargestShapeIndex(shapes: seq<Shape>) returns (largest: int)
    ensures -1 <= largest < |shapes|
    ensures largest == -1 <==> forall i :: 0 <= i < |shapes| ==> !Eligible(shapes[i])
    ensures largest >= 0 ==> Eligible(shapes[largest])
    ensures largest >= 0 ==> forall i :: 0 <= i < |shapes| && !IsEmpty(shapes[i].geometry) ==>
      Area(shapes[i].geometry) <= Area(shapes[largest].geometry)
    ensures largest >= 0 ==> forall i :: 0 <= i < largest && !IsEmpty(shapes[i].geometry) ==>
      Area(shapes[i].geometry) < Area(shapes[largest].geometry)
  {
    largest := -1;
    var maxArea := -1.0;
    for i := 0 to |shapes|
      invariant -1 <= largest < i || (largest == -1 && i == 0)
      invariant largest == -1 ==> maxArea == -1.0 && forall j :: 0 <= j < i ==> !Eligible(shapes[j])
      invariant largest >= 0 ==> largest < i && Eligible(shapes[largest]) && maxArea == Area(shapes[largest].geometry)
      invariant forall j :: 0 <= j < i && !IsEmpty(shapes[j].geometry) ==> Area(shapes[j].geometry) <= maxArea
      invariant largest >= 0 ==> forall j :: 0 <= j < largest && !IsEmpty(shapes[j].geometry) ==> Area(shapes[j].geometry) < maxArea
    {
      var s := shapes[i];
      if !IsEmpty(s.geometry) && Area(s.geometry) > maxArea {
        maxArea := Area(s.geometry);
        largest := i;
      }
    }
  }

  /** A colouring as `run_diastasis` holds it: a dictionary from shape index to colour. */
  type Colouring = Dict<int>

  /** One more than the largest colour in use, or 0 when nothing is coloured. */
  function FreshColour(c: Colouring): (r: int)
    ensures forall i :: 0 <= i < |c| ==> c[i].1 < r
  {
    if |c| == 0 then 0 else MaxOf(ValuesOf(c)) + 1
  }

  /** Give the background shape, if any, a colour of its own. */
  function RecolourBackground(c: Colouring, largest: int): Colouring {
    if largest == -1 then c else Put(c, largest, FreshColour(c))
  }

  /**
   * The background ends up with a colour above every other shape's, and nothing else
   * changes: the other shapes keep their colours.
   */
  lemma {:induction false} RecolourBackgroundFresh(c: Colouring, largest: int, k: int)
    requires DistinctKeys(c)
    requires largest != -1
    ensures DistinctKeys(RecolourBackground(c, largest))
    ensures Get(RecolourBackground(c, largest), largest) == Some(FreshColour(c))
    ensures k != largest ==> Get(RecolourBackground(c, largest), k) == Get(c, k)
    ensures k != largest && Get(c, k).Some? ==> Get(c, k).value < FreshColour(c)
  {
    PutGet(c, largest, FreshColour(c), k);
    PutGet(c, largest, FreshColour(c), largest);
  }

  /** The background's colour is shared with no other shape, so a proper colouring stays proper. */
  lemma {:induction false} RecolourBackgroundProper(g: GraphSolver.Graph, c: Colouring, largest: int)
    requires DistinctKeys(c)
    requires GraphSolver.Proper(g, ToMap(c))
    ensures GraphSolver.Proper(g, ToMap(RecolourBackground(c, largest)))
  {
    if largest != -1 {
      var m := ToMap(c);
      var m' := ToMap(RecolourBackground(c, largest));
      forall u, v | u in m' && v in m' && u != v && GraphSolver.Adjacent(g, u, v) ensures m'[u] != m'[v] {
        RecolourBackgroundFresh(c, largest, u);
        RecolourBackgroundFresh(c, largest, v);
      }
    }
  }

  // ---------------------------------------------------------------------------
  // run_diastasis: summary
  // ---------------------------------------------------------------------------

  /** The distinct elements in order of first occurrence. */
  function Dedup(s: seq<int>): (r: seq<int>)
    ensures forall x :: x in r <==> x in s
    ensures NoDuplicates(r)
  {
    if |s| == 0 then []
    else
      var init := s[..|s| - 1];
      var x := s[|s| - 1];
      assert s == init + [x];
      var r := Dedup(init);
      if x in r then r else r + [x]
  }

  lemma {:induction false} DedupSnoc(s: seq<int>, x: int)
    ensures Dedup(s + [x]) == if x in Dedup(s) then Dedup(s) else Dedup(s) + [x]
  {
    assert (s + [x])[..|s|] == s;
  }

  /** `sorted(set(coloring.values()))`: each colour in use, once, in ascending order. */
  function UsedColours(c: Colouring): (r: seq<int>)
    ensures forall x :: x in r <==> x in ValuesOf(c)
    ensures forall i, j :: 0 <= i < j < |r| ==> r[i] < r[j]
  {
    AscendingDistinct(Dedup(ValuesOf(c)));
    Ascending(Dedup(ValuesOf(c)))
  }

  /** Sorting values that are all different puts them in strictly ascending order. */
  lemma {:induction false} AscendingDistinct(d: seq<int>)
    requires NoDuplicates(d)
    ensures forall x :: x in Ascending(d) <==> x in d
    ensures forall i, j :: 0 <= i < j < |Ascending(d)| ==> Ascending(d)[i] < Ascending(d)[j]
  {
    var r := Ascending(d);
    NoDuplicatesPermutation(d, r);
    PermutationMembers(d, r);
    forall i, j | 0 <= i < j < |r| ensures r[i] < r[j] {
      assert r[i] <= r[j] && r[i] != r[j];
    }
  }

  function TallyLine(c: Colouring, colour: int): string {
    "Color " + IntToString(colour) + ": " + IntToString(multiset(ValuesOf(c))[colour]) + " shapes"
  }

  function Tallies(c: Colouring): (r: seq<string>)
    ensures |r| == |UsedColours(c)|
  {
    var used := UsedColours(c);
    seq(|used|, i requires 0 <= i < |used| => TallyLine(c, used[i]))
  }

  lemma {:induction false} TallyLineOneLine(c: Colouring, colour: int)
    ensures '\n' !in TallyLine(c, colour)
  {
    IntToStringIsWord(colour);
    IntToStringIsWord(multiset(ValuesOf(c))[colour]);
  }

  function SummaryHeader(c: Colouring): string {
    "Processing complete." + " Used " + IntToString(|UsedColours(c)|) + " colors."
  }

  /** The summary text: a header, a blank line, and one tally per colour, each ending its line. */
  function Summary(c: Colouring): string {
    Unlines([SummaryHeader(c), ""] + Tallies(c))
  }

  /** The summary's lines: the header, a blank line, then one tally per colour in use, ascending. */
  lemma {:induction false} SummaryLines(c: Colouring)
    ensures SplitOn(Summary(c), '\n') == [SummaryHeader(c), ""] + Tallies(c) + [""]
    ensures forall i :: 0 <= i < |UsedColours(c)| ==>
      SplitOn(Summary(c), '\n')[i + 2] == TallyLine(c, UsedColours(c)[i])
  {
    var ls := [SummaryHeader(c), ""] + Tallies(c);
    SummaryOneLineEach(c);
    UnlinesSplit(ls);
  }

  lemma {:induction false} SummaryOneLineEach(c: Colouring)
    ensures forall i :: 0 <= i < |UsedColours(c)| + 2 ==> '\n' !in ([SummaryHeader(c), ""] + Tallies(c))[i]
  {
    var ls := [SummaryHeader(c), ""] + Tallies(c);
    HeaderOneLine(c);
    forall i | 2 <= i < |ls| ensures '\n' !in ls[i] {
      assert ls[i] == TallyLine(c, UsedColours(c)[i - 2]);
      TallyLineOneLine(c, UsedColours(c)[i - 2]);
    }
  }

  lemma {:induction false} HeaderOneLine(c: Colouring)
    ensures '\n' !in SummaryHeader(c)
  {
    IntToStringIsWord(|UsedColours(c)|);
  }

  /** The tallies account for every shape exactly once: their counts add up to the number of shapes. */
  lemma {:induction false} TalliesCoverShapes(c: Colouring)
    ensures SumCounts(UsedColours(c), ValuesOf(c)) == |c|
  {
    var used := UsedColours(c);
    var vs := ValuesOf(c);
    SumCountsDistinct(used, vs);
    CountInAll(vs, used);
  }

  // ---------------------------------------------------------------------------
  // run_diastasis: grouping by colour
  // ---------------------------------------------------------------------------

  /** Shapes grouped by colour: each colour in use with its shape ids, in colouring order. */
  type Groups = Dict<seq<int>>

  /** `grouped[colour]` of a `defaultdict(list)`: the list stored under the colour, or a fresh empty one. */
  function Lookup(g: Groups, colour: int): seq<int> {
    if Get(g, colour).Some? then Get(g, colour).value else []
  }

  /** `grouped_coloring[color_id].append(shape_id)` over the colouring's items. */
  function GroupByColour(c: Colouring): Groups {
    if |c| == 0 then []
    else
      var g := GroupByColour(c[..|c| - 1]);
      var (shape, colour) := c[|c| - 1];
      Put(g, colour, (if Get(g, colour).Some? then Get(g, colour).value else []) + [shape])
  }

  /** Grouping keeps one entry per colour, and lists the colours in order of first use. */
  lemma {:induction false} GroupByColourKeys(c: Colouring)
    ensures DistinctKeys(GroupByColour(c))
    ensures KeysOf(GroupByColour(c)) == Dedup(ValuesOf(c))
    decreases |c|
  {
    if |c| > 0 {
      var init := c[..|c| - 1];
      var shape, colour := c[|c| - 1].0, c[|c| - 1].1;
      var g := GroupByColour(init);
      var g' := Put(g, colour, Lookup(g, colour) + [shape]);
      assert GroupByColour(c) == g';
      GroupByColourKeys(init);
      PutGet(g, colour, Lookup(g, colour) + [shape], colour);
      KeysOfPut(g, colour, Lookup(g, colour) + [shape]);
      ValuesOfSnoc(c);
      DedupSnoc(ValuesOf(init), colour);
      assert colour in KeysOf(g) <==> Get(g, colour).Some?;
    }
  }

  /** Grouping lists, under each colour in use, exactly the shapes of that colour, in colouring order. */
  lemma {:induction false} GroupByColourGet(c: Colouring, v: int)
    ensures Get(GroupByColour(c), v) == if v in ValuesOf(c) then Some(KeysWith(c, v)) else None
    decreases |c|
  {
    if |c| > 0 {
      var init := c[..|c| - 1];
      var shape, colour := c[|c| - 1].0, c[|c| - 1].1;
      var g := GroupByColour(init);
      var g' := Put(g, colour, Lookup(g, colour) + [shape]);
      assert GroupByColour(c) == g';
      GroupByColourKeys(init);
      GroupByColourGet(init, v);
      PutGet(g, colour, Lookup(g, colour) + [shape], v);
      ValuesOfSnoc(c);
      KeysWithSnoc(c, v);
      assert v in ValuesOf(c) <==> v in ValuesOf(init) || v == colour;
      if v == colour {
        assert Get(g', v) == Some(Lookup(g, v) + [shape]);
        if v !in ValuesOf(init) {
          assert multiset(ValuesOf(init))[v] == 0;
          assert Lookup(g, v) == [] == KeysWith(init, v);
        } else {
          assert Lookup(g, v) == KeysWith(init, v);
        }
      } else {
        assert Get(g', v) == Get(g, v);
        assert KeysWith(c, v) == KeysWith(init, v);
      }
    }
  }
}
