/**
 * Shared data of the LEF writer model: tile types, rectangles, tiles of a
 * corner-stitched plane (possibly split by a diagonal), and the output
 * records the writer produces. Output is a sequence of tokens, one per LEF
 * statement, instead of formatted text; coordinates stay in internal units.
 */
module LefTypes {

  /** Magic tile types are small integers; LEF layer records use -1 for "none". */
  type TileType = int

  /** TT_SPACE, the empty type. */
  const Space: TileType := 0

  /** TT_TECHDEPBASE, the first technology-dependent type (database/database.h
      is not part of this model; Magic 8 numbers it 9). */
  const TechDepBase: TileType := 9

  datatype Option<T> = None | Some(value: T)

  datatype Point = Point(x: int, y: int)

  /** A Magic Rect: lower-left (xbot, ybot), upper-right (xtop, ytop). */
  datatype Rect = Rect(xbot: int, ybot: int, xtop: int, ytop: int) {
    /** GEO_RECTNULL: no interior. */
    predicate IsEmpty() { xbot >= xtop || ybot >= ytop }
    function Width(): int { xtop - xbot }
    function Height(): int { ytop - ybot }
    predicate Contains(r: Rect) {
      xbot <= r.xbot && ybot <= r.ybot && r.xtop <= xtop && r.ytop <= ytop
    }
  }

  /** What is painted in a tile: one type, or two types on either side of a
      diagonal. `side` is the TT_SIDE bit of the exact type the search handed
      over (which half is meant), `direction` the TT_DIRECTION bit (which way
      the diagonal runs). */
  datatype Body =
    | Plain(t: TileType)
    | Diagonal(left: TileType, right: TileType, side: bool, direction: bool)

  /** A tile with its client mark (ti_client != CLIENTDEFAULT). */
  datatype Tile = Tile(rect: Rect, body: Body, marked: bool)

  /** The type a callback works with: the tile's type, or for a split tile the
      type of the half named by the side bit (SplitRightType / SplitLeftType). */
  function TypeOf(b: Body): TileType {
    match b
    case Plain(t) => t
    case Diagonal(l, r, side, _) => if side then r else l
  }

  /** Inverse layer map: the LEF name of a tile type when lefInfo is non-NULL. */
  type LayerMap = TileType -> Option<string>

  /** One LEF statement of the output. */
  datatype Token =
    // geometry blocks
    | PortOpen | ObsOpen | BlockEnd
    | LayerRef(name: string)
    | RectRec(xl: int, yl: int, xh: int, yh: int)
    | PolygonRec(vertices: seq<Point>)
    // pins
    | PinOpen(pin: string) | PinDirection(dir: string) | PinUse(use: string) | PinClose(pin: string)
    // macro header and trailer
    | MacroOpen(cell: string) | MacroClass(cls: string) | MacroSource(src: string)
    | Foreign(cell: string) | Origin(ox: int, oy: int) | Size(w: int, h: int)
    | Symmetry(sym: string) | MacroClose(cell: string)
    // technology LAYER blocks
    | LayerOpen(layer: string) | LayerType(kind: string) | CutArea(area: int)
    | Pitch(pitch: int) | Width(width: int) | Spacing(spacing: int)
    | RouteDirection(horizontal: bool) | LayerClose(layer: string)

  /** RECT and POLYGON records. */
  predicate IsShape(t: Token) { t.RectRec? || t.PolygonRec? }

  /** Concatenation of a sequence of token blocks. */
  function Flatten(blocks: seq<seq<Token>>): seq<Token> {
    if blocks == [] then [] else blocks[0] + Flatten(blocks[1..])
  }

  /** Number of occurrences of `x` in `s`. */
  function Count<T(==)>(s: seq<T>, x: T): nat {
    if s == [] then 0 else (if s[0] == x then 1 else 0) + Count(s[1..], x)
  }

  lemma CountOne<T>(y: T, x: T)
    ensures Count([y], x) == if y == x then 1 else 0
  {
    assert [y][1..] == [];
  }

  lemma {:induction false} CountConcat<T>(a: seq<T>, b: seq<T>, x: T)
    ensures Count(a + b, x) == Count(a, x) + Count(b, x)
  {
    if a == [] {
      assert a + b == b;
    } else {
      assert (a + b)[1..] == a[1..] + b;
      CountConcat(a[1..], b, x);
    }
  }

  lemma {:induction false} CountZeroIffAbsent<T>(s: seq<T>, x: T)
    ensures Count(s, x) == 0 <==> x !in s
  {
    if s != [] {
      CountZeroIffAbsent(s[1..], x);
      assert s == [s[0]] + s[1..];
    }
  }
}
