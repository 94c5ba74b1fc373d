/**
  Geometry primitives of the org-chart layout: rectangles, points, the two
  tree orientations and the point-on-rectangle helpers used by link routing.

  A tree is laid out either top-down (`Horizontal`: siblings are spread along
  x, layers advance along y) or left-right (`Vertical`: siblings along y,
  layers along x).  Every orientation-dependent computation of the layout is
  written once against the axis accessors below; the vertical variant is the
  horizontal one with x/y and width/height exchanged.
 */
module Geometry {

  datatype Orient = Horizontal | Vertical

  /** The other orientation. */
  function Flip(o: Orient): (r: Orient)
    ensures r != o
  {
    if o.Horizontal? then Vertical else Horizontal
  }

  datatype Point = Point(x: real, y: real)

  /** A node rectangle `[x, y, width, height]`, origin at the top-left corner. */
  datatype Rect = Rect(x: real, y: real, w: real, h: real)

  // ---- axis selectors -------------------------------------------------------

  /** Coordinate along the axis on which siblings are spread. */
  function Main(r: Rect, o: Orient): real { if o.Horizontal? then r.x else r.y }

  /** Extent along the sibling axis (width in a top-down tree). */
  function MainSize(r: Rect, o: Orient): real { if o.Horizontal? then r.w else r.h }

  /** Coordinate along the axis on which layers advance. */
  function Cross(r: Rect, o: Orient): real { if o.Horizontal? then r.y else r.x }

  /** Extent along the layer axis (height in a top-down tree). */
  function CrossSize(r: Rect, o: Orient): real { if o.Horizontal? then r.h else r.w }

  /** Trailing edge along the sibling axis: the right edge in a top-down tree. */
  function Trail(r: Rect, o: Orient): real { Main(r, o) + MainSize(r, o) }

  /** Far edge along the layer axis: the bottom edge in a top-down tree. */
  function Far(r: Rect, o: Orient): real { Cross(r, o) + CrossSize(r, o) }

  /** `r` with its sibling-axis coordinate replaced. */
  function WithMain(r: Rect, o: Orient, v: real): (r': Rect)
    ensures Main(r', o) == v && Cross(r', o) == Cross(r, o)
    ensures r'.w == r.w && r'.h == r.h
  {
    if o.Horizontal? then r.(x := v) else r.(y := v)
  }

  /** `r` with its layer-axis coordinate replaced. */
  function WithCross(r: Rect, o: Orient, v: real): (r': Rect)
    ensures Cross(r', o) == v && Main(r', o) == Main(r, o)
    ensures r'.w == r.w && r'.h == r.h
  {
    if o.Horizontal? then r.(y := v) else r.(x := v)
  }

  /** `r` translated by the offset vector `d` (moveTree's per-node update). */
  function Translate(r: Rect, d: Point): (r': Rect)
    ensures r'.x - r.x == d.x && r'.y - r.y == d.y
    ensures r'.w == r.w && r'.h == r.h
  {
    Rect(r.x + d.x, r.y + d.y, r.w, r.h)
  }

  /** The offset vector that moves by `d` along the sibling axis only. */
  function MainOffset(o: Orient, d: real): Point
  {
    if o.Horizontal? then Point(d, 0.0) else Point(0.0, d)
  }

  lemma TranslateMain(r: Rect, o: Orient, d: real)
    ensures Main(Translate(r, MainOffset(o, d)), o) == Main(r, o) + d
    ensures MainSize(Translate(r, MainOffset(o, d)), o) == MainSize(r, o)
    ensures Cross(Translate(r, MainOffset(o, d)), o) == Cross(r, o)
    ensures CrossSize(Translate(r, MainOffset(o, d)), o) == CrossSize(r, o)
  {
  }

  // ---- points on a rectangle ------------------------------------------------

  /** Middle of the top edge. */
  function TopCenter(r: Rect): (p: Point)
    ensures p.y == r.y
    ensures p.x - r.x == (r.x + r.w) - p.x
  {
    Point(r.x + r.w / 2.0, r.y)
  }

  /** Middle of the bottom edge. */
  function BottomCenter(r: Rect): (p: Point)
    ensures p.y == r.y + r.h
    ensures p.x - r.x == (r.x + r.w) - p.x
  {
    Point(r.x + r.w / 2.0, r.y + r.h)
  }

  /** Middle of the left edge. */
  function LeftCenter(r: Rect): (p: Point)
    ensures p.x == r.x
    ensures p.y - r.y == (r.y + r.h) - p.y
  {
    Point(r.x, r.y + r.h / 2.0)
  }

  /** Middle of the right edge. */
  function RightCenter(r: Rect): (p: Point)
    ensures p.x == r.x + r.w
    ensures p.y - r.y == (r.y + r.h) - p.y
  {
    Point(r.x + r.w, r.y + r.h / 2.0)
  }

  /** Builds a point from its sibling-axis and layer-axis coordinates. */
  function AxisPoint(o: Orient, main: real, cross: real): (p: Point)
  {
    if o.Horizontal? then Point(main, cross) else Point(cross, main)
  }

  function PMain(p: Point, o: Orient): real { if o.Horizontal? then p.x else p.y }

  function PCross(p: Point, o: Orient): real { if o.Horizontal? then p.y else p.x }

  /** Middle of the edge that faces the parent layer: top in a top-down tree, left otherwise. */
  function NearCenter(r: Rect, o: Orient): (p: Point)
    ensures o.Horizontal? ==> p == TopCenter(r)
    ensures o.Vertical? ==> p == LeftCenter(r)
  {
    AxisPoint(o, Main(r, o) + MainSize(r, o) / 2.0, Cross(r, o))
  }

  /** Middle of the edge that faces the child layer: bottom in a top-down tree, right otherwise. */
  function FarCenter(r: Rect, o: Orient): (p: Point)
    ensures o.Horizontal? ==> p == BottomCenter(r)
    ensures o.Vertical? ==> p == RightCenter(r)
  {
    AxisPoint(o, Main(r, o) + MainSize(r, o) / 2.0, Far(r, o))
  }

  lemma AxisPointCoords(o: Orient, main: real, cross: real)
    ensures PMain(AxisPoint(o, main, cross), o) == main
    ensures PCross(AxisPoint(o, main, cross), o) == cross
  {
  }

  function Max(a: real, b: real): (m: real)
    ensures m >= a && m >= b && (m == a || m == b)
  {
    if a >= b then a else b
  }
}
