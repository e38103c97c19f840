/**
 * The record written for one tile: `RECT xl yl xh yh` for an unsplit tile,
 * and for a split tile a three-vertex `POLYGON` tracing the half named by the
 * side bit, with the diagonal chosen by the direction bit.
 */
module Shapes {
  import opened LefTypes

  function Abs(x: int): nat { if x < 0 then -x else x }

  /** The three vertices written for the half `side` of a tile split along
      the diagonal `direction`, in the order of the four cases of the writer. */
  function Triangle(r: Rect, side: bool, direction: bool): (v: seq<Point>)
    ensures |v| == 3
  {
    var lt := Point(r.xbot, r.ytop);
    var rt := Point(r.xtop, r.ytop);
    var rb := Point(r.xtop, r.ybot);
    var lb := Point(r.xbot, r.ybot);
    if side then
      (if direction then [lt, rt, rb] else [rt, rb, lb])
    else
      (if direction then [lt, rb, lb] else [lt, rt, lb])
  }

  function Corners(r: Rect): set<Point> {
    {Point(r.xbot, r.ytop), Point(r.xtop, r.ytop), Point(r.xtop, r.ybot), Point(r.xbot, r.ybot)}
  }

  /** The two corners the diagonal joins: top-left to bottom-right when the
      direction bit is set, bottom-left to top-right otherwise. */
  function Diagonal(r: Rect, direction: bool): set<Point> {
    if direction then {Point(r.xbot, r.ytop), Point(r.xtop, r.ybot)}
    else {Point(r.xbot, r.ybot), Point(r.xtop, r.ytop)}
  }

  function Shift(p: Point, origin: Point): Point {
    Point(p.x - origin.x, p.y - origin.y)
  }

  function ShiftAll(ps: seq<Point>, origin: Point): (r: seq<Point>)
    ensures |r| == |ps|
  {
    seq(|ps|, i requires 0 <= i < |ps| => Shift(ps[i], origin))
  }

  /** The record for tile `t`, with coordinates relative to `origin`. It does
      not depend on whether a port or an obstruction is being written. */
  function ShapeOf(t: Tile, origin: Point): (tok: Token)
    ensures IsShape(tok)
    ensures tok.RectRec? <==> t.body.Plain?
    ensures tok.PolygonRec? ==> |tok.vertices| == 3
  {
    match t.body
    case Plain(_) =>
      RectRec(t.rect.xbot - origin.x, t.rect.ybot - origin.y,
              t.rect.xtop - origin.x, t.rect.ytop - origin.y)
    case Diagonal(_, _, side, direction) =>
      PolygonRec(ShiftAll(Triangle(t.rect, side, direction), origin))
  }

  /** Twice the signed area of a closed polygon (shoelace formula). */
  function Cross(a: Point, b: Point): int { a.x * b.y - b.x * a.y }

  function ShoelaceFrom(p: seq<Point>, i: nat): int
    requires |p| > 0
    decreases |p| - i
  {
    if i >= |p| then 0 else Cross(p[i], p[(i + 1) % |p|]) + ShoelaceFrom(p, i + 1)
  }

  function DoubledArea(p: seq<Point>): int {
    if p == [] then 0 else ShoelaceFrom(p, 0)
  }

  lemma ThreePointArea(a: Point, b: Point, c: Point)
    ensures DoubledArea([a, b, c]) == Cross(a, b) + Cross(b, c) + Cross(c, a)
  {
    var p := [a, b, c];
    assert ShoelaceFrom(p, 3) == 0;
    assert ShoelaceFrom(p, 2) == Cross(c, a);
    assert ShoelaceFrom(p, 1) == Cross(b, c) + Cross(c, a);
  }

  /** Each of the four cases is a triangle on three distinct corners of the
      tile whose area is half the tile's; all four are wound clockwise. */
  lemma TriangleIsHalfTile(r: Rect, side: bool, direction: bool)
    requires !r.IsEmpty()
    ensures var v := Triangle(r, side, direction);
      && v[0] != v[1] && v[1] != v[2] && v[0] != v[2]
      && (forall i :: 0 <= i < 3 ==> v[i] in Corners(r))
      && Abs(DoubledArea(v)) == r.Width() * r.Height()
      && DoubledArea(v) < 0
  {
    var v := Triangle(r, side, direction);
    ThreePointArea(v[0], v[1], v[2]);
    var w, h := r.Width(), r.Height();
    assert w > 0 && h > 0;
    var d := DoubledArea(v);
    assert d == (r.xbot - r.xtop) * (r.ytop - r.ybot);
  }

  /** For a fixed diagonal the two halves meet exactly on the diagonal and
      together use all four corners of the tile. */
  lemma HalvesShareDiagonal(r: Rect, direction: bool)
    requires !r.IsEmpty()
    ensures var a := Triangle(r, true, direction);
            var b := Triangle(r, false, direction);
      && (set i | 0 <= i < 3 :: a[i]) + (set i | 0 <= i < 3 :: b[i]) == Corners(r)
      && (set i | 0 <= i < 3 :: a[i]) * (set i | 0 <= i < 3 :: b[i]) == Diagonal(r, direction)
  {
    var a := Triangle(r, true, direction);
    var b := Triangle(r, false, direction);
    var sa := set i | 0 <= i < 3 :: a[i];
    var sb := set i | 0 <= i < 3 :: b[i];
    assert sa == {a[0], a[1], a[2]};
    assert sb == {b[0], b[1], b[2]};
  }

  /** The side bit selects the half that touches that side of the tile: both
      right-hand corners are vertices when it is set, both left-hand ones
      otherwise. */
  lemma SideSelectsHalf(r: Rect, side: bool, direction: bool)
    ensures var v := Triangle(r, side, direction);
      var x := if side then r.xtop else r.xbot;
      Point(x, r.ytop) in v && Point(x, r.ybot) in v
  {
  }

  /** The rectangle moved so that `origin` becomes (0, 0). */
  function ShiftRect(r: Rect, origin: Point): Rect {
    Rect(r.xbot - origin.x, r.ybot - origin.y, r.xtop - origin.x, r.ytop - origin.y)
  }

  /** The polygon written for a split tile is the triangle of the tile moved
      by the origin: three distinct corners of the moved tile, wound
      clockwise, enclosing half of the tile's area. */
  lemma SplitTileIsHalfTile(t: Tile, origin: Point)
    requires t.body.Diagonal? && !t.rect.IsEmpty()
    ensures var v := ShapeOf(t, origin).vertices;
      && |v| == 3
      && v[0] != v[1] && v[1] != v[2] && v[0] != v[2]
      && (forall i :: 0 <= i < 3 ==> v[i] in Corners(ShiftRect(t.rect, origin)))
      && Abs(DoubledArea(v)) == t.rect.Width() * t.rect.Height()
      && DoubledArea(v) < 0
  {
    var m := ShiftRect(t.rect, origin);
    var side, direction := t.body.side, t.body.direction;
    var v := ShapeOf(t, origin).vertices;
    var tri := Triangle(t.rect, side, direction);
    assert v == ShiftAll(tri, origin);
    assert v == Triangle(m, side, direction) by {
      var u := Triangle(m, side, direction);
      assert forall i :: 0 <= i < 3 ==> v[i] == u[i];
    }
    TriangleIsHalfTile(m, side, direction);
    assert m.Width() == t.rect.Width() && m.Height() == t.rect.Height();
  }

  /** An unsplit tile is written as its own rectangle. */
  lemma PlainTileIsRect(t: Tile, origin: Point)
    requires t.body.Plain?
    ensures var s := ShapeOf(t, origin);
      && s.xh - s.xl == t.rect.Width() && s.yh - s.yl == t.rect.Height()
      && Shift(Point(t.rect.xbot, t.rect.ybot), origin) == Point(s.xl, s.yl)
  {
  }
}
