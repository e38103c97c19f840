/**
 * The MACRO header of lefWriteMacro: CLASS (BLOCK when the cell has no
 * LEFclass property), the optional SOURCE, FOREIGN, ORIGIN and SIZE taken from
 * the cell boundary, and the optional SYMMETRY. The boundary is the union of
 * the boundary-layer tiles when the technology declares a boundary layer, and
 * the cell's bounding box otherwise.
 */
module Macro {
  import opened LefTypes

  /** GeoInclude: grow `dst` to include `src`. An empty `src` changes nothing;
      an empty `dst` is replaced by `src`. */
  function IncludeRect(src: Rect, dst: Rect): (r: Rect)
    ensures src.IsEmpty() ==> r == dst
    ensures !src.IsEmpty() ==> !r.IsEmpty() && r.Contains(src)
    ensures !src.IsEmpty() && !dst.IsEmpty() ==> r.Contains(dst)
    ensures !src.IsEmpty() ==> forall b: Rect :: b.Contains(src) && (dst.IsEmpty() || b.Contains(dst)) ==> b.Contains(r)
  {
    if src.IsEmpty() then dst
    else if dst.IsEmpty() then src
    else Rect(Min(src.xbot, dst.xbot), Min(src.ybot, dst.ybot), Max(src.xtop, dst.xtop), Max(src.ytop, dst.ytop))
  }

  function Min(a: int, b: int): int { if a <= b then a else b }
  function Max(a: int, b: int): int { if a >= b then a else b }

  /** lefGetBound over the boundary tiles, in search order, starting from `start`. */
  function BoundOf(tiles: seq<Rect>, start: Rect): Rect
    decreases |tiles|
  {
    if tiles == [] then start else IncludeRect(tiles[|tiles| - 1], BoundOf(tiles[..|tiles| - 1], start))
  }

  /** `b` contains every non-empty tile. */
  predicate Encloses(b: Rect, tiles: seq<Rect>) {
    forall i :: 0 <= i < |tiles| && !tiles[i].IsEmpty() ==> b.Contains(tiles[i])
  }

  predicate AllEmpty(tiles: seq<Rect>) {
    forall i :: 0 <= i < |tiles| ==> tiles[i].IsEmpty()
  }

  /** Starting from an empty rectangle, the fold is the least rectangle
      enclosing every non-empty tile, and stays the start when there is none. */
  lemma {:induction false} BoundEncloses(tiles: seq<Rect>, start: Rect)
    requires start.IsEmpty()
    ensures AllEmpty(tiles) <==> BoundOf(tiles, start) == start
    ensures !AllEmpty(tiles) ==> !BoundOf(tiles, start).IsEmpty()
    ensures Encloses(BoundOf(tiles, start), tiles)
    ensures !AllEmpty(tiles) ==> forall b: Rect :: Encloses(b, tiles) ==> b.Contains(BoundOf(tiles, start))
    decreases |tiles|
  {
    if tiles != [] {
      var init := tiles[..|tiles| - 1];
      var last := tiles[|tiles| - 1];
      BoundEncloses(init, start);
      assert forall i :: 0 <= i < |init| ==> init[i] == tiles[i];
      var prev := BoundOf(init, start);
      assert AllEmpty(tiles) <==> AllEmpty(init) && last.IsEmpty();
      if AllEmpty(init) {
        assert prev.IsEmpty();
      }
    }
  }

  /** The boundary with a boundary layer declared, the variable set to an
      empty rectangle first. */
  function Boundary(hasBoundLayer: bool, boundTiles: seq<Rect>, bbox: Rect): Rect {
    if hasBoundLayer then BoundOf(boundTiles, Rect(0, 0, 0, 0)) else bbox
  }

  /** The boundary as written: the variable is used without being set first,
      so the fold starts from whatever `junk` the stack holds. */
  function BoundaryAsWritten(junk: Rect, hasBoundLayer: bool, boundTiles: seq<Rect>, bbox: Rect): Rect {
    if hasBoundLayer then BoundOf(boundTiles, junk) else bbox
  }

  /** A leftover non-empty value makes the boundary too large: one boundary
      tile (10,10)-(20,20) over leftover (0,0)-(100,100) gives the leftover. */
  lemma UninitialisedBoundaryExample()
    ensures BoundaryAsWritten(Rect(0, 0, 100, 100), true, [Rect(10, 10, 20, 20)], Rect(0, 0, 1, 1)) == Rect(0, 0, 100, 100)
    ensures Boundary(true, [Rect(10, 10, 20, 20)], Rect(0, 0, 1, 1)) == Rect(10, 10, 20, 20)
  {
    assert BoundOf([Rect(10, 10, 20, 20)], Rect(0, 0, 0, 0)) == IncludeRect(Rect(10, 10, 20, 20), Rect(0, 0, 0, 0));
    assert BoundOf([Rect(10, 10, 20, 20)], Rect(0, 0, 100, 100)) == IncludeRect(Rect(10, 10, 20, 20), Rect(0, 0, 100, 100));
  }

  /** The ORIGIN statement: the offset that moves the boundary's lower-left
      corner to (0, 0). */
  function OriginOf(b: Rect): Point {
    Point(-b.xbot, -b.ybot)
  }

  /** The cell properties the header reads: LEFclass, LEFsource, LEFsymmetry. */
  datatype MacroProps = MacroProps(cls: Option<string>, source: Option<string>, symmetry: Option<string>)

  /** The SOURCE statement, written when the LEFsource property exists. */
  function SourcePart(props: MacroProps): seq<Token> {
    if props.source.Some? then [MacroSource(props.source.value)] else []
  }

  /** The SYMMETRY statement, written when the LEFsymmetry property exists. */
  function SymmetryPart(props: MacroProps): seq<Token> {
    if props.symmetry.Some? then [Symmetry(props.symmetry.value)] else []
  }

  /** The CLASS statement's value: the LEFclass property, else BLOCK. */
  function ClassOf(props: MacroProps): string {
    if props.cls.Some? then props.cls.value else "BLOCK"
  }

  /** Everything between MACRO and the first PIN. */
  function MacroHeader(cell: string, props: MacroProps, boundary: Rect): (h: seq<Token>)
    ensures |h| >= 5 && h[0] == MacroOpen(cell)
    ensures h[1] == MacroClass(ClassOf(props))
  {
    var o := OriginOf(boundary);
    [MacroOpen(cell), MacroClass(ClassOf(props))]
    + SourcePart(props)
    + [Foreign(cell), Origin(o.x, o.y), Size(boundary.Width(), boundary.Height())]
    + SymmetryPart(props)
  }

  /** The header laid out statement by statement. */
  lemma HeaderLayout(cell: string, props: MacroProps, boundary: Rect)
    ensures var h := MacroHeader(cell, props, boundary);
      var src := SourcePart(props);
      && |src| == (if props.source.Some? then 1 else 0)
      && |h| == 5 + |src| + (if props.symmetry.Some? then 1 else 0)
      && (props.source.Some? ==> h[2] == MacroSource(props.source.value))
      && h[2 + |src|] == Foreign(cell)
      && h[3 + |src|] == Origin(-boundary.xbot, -boundary.ybot)
      && h[4 + |src|] == Size(boundary.Width(), boundary.Height())
      && (props.symmetry.Some? ==> h[5 + |src|] == Symmetry(props.symmetry.value))
  {
    var h := MacroHeader(cell, props, boundary);
    var o := OriginOf(boundary);
    var src := SourcePart(props);
    var mid := [Foreign(cell), Origin(o.x, o.y), Size(boundary.Width(), boundary.Height())];
    assert h == [MacroOpen(cell), MacroClass(ClassOf(props))] + src + mid + SymmetryPart(props);
  }

  /** SOURCE appears in the header exactly when the property exists. */
  lemma HeaderSourceIff(cell: string, props: MacroProps, boundary: Rect)
    ensures var h := MacroHeader(cell, props, boundary);
      (exists i :: 0 <= i < |h| && h[i].MacroSource?) <==> props.source.Some?
  {
    var h := MacroHeader(cell, props, boundary);
    var pre := [MacroOpen(cell), MacroClass(ClassOf(props))];
    var rest := [Foreign(cell), Origin(-boundary.xbot, -boundary.ybot), Size(boundary.Width(), boundary.Height())] + SymmetryPart(props);
    assert h == pre + (SourcePart(props) + rest);
    assert forall i :: 0 <= i < |rest| ==> !rest[i].MacroSource?;
    if props.source.Some? { assert h[2].MacroSource?; }
  }

  /** SYMMETRY appears in the header exactly when the property exists. */
  lemma HeaderSymmetryIff(cell: string, props: MacroProps, boundary: Rect)
    ensures var h := MacroHeader(cell, props, boundary);
      (exists i :: 0 <= i < |h| && h[i].Symmetry?) <==> props.symmetry.Some?
  {
    var h := MacroHeader(cell, props, boundary);
    var pre := [MacroOpen(cell), MacroClass(ClassOf(props))] + SourcePart(props)
      + [Foreign(cell), Origin(-boundary.xbot, -boundary.ybot), Size(boundary.Width(), boundary.Height())];
    assert h == pre + SymmetryPart(props);
    assert forall i :: 0 <= i < |pre| ==> !pre[i].Symmetry?;
    if props.symmetry.Some? { assert h[|pre|].Symmetry?; }
  }

  /** The header names the cell in MACRO and FOREIGN, and writes SOURCE and
      SYMMETRY exactly when the properties exist. */
  lemma HeaderNamesCell(cell: string, props: MacroProps, boundary: Rect)
    ensures var h := MacroHeader(cell, props, boundary);
      && (exists i :: 0 <= i < |h| && h[i] == Foreign(cell))
      && ((exists i :: 0 <= i < |h| && h[i].MacroSource?) <==> props.source.Some?)
      && ((exists i :: 0 <= i < |h| && h[i].Symmetry?) <==> props.symmetry.Some?)
  {
    var h := MacroHeader(cell, props, boundary);
    HeaderLayout(cell, props, boundary);
    assert h[2 + |SourcePart(props)|] == Foreign(cell);
    HeaderSourceIff(cell, props, boundary);
    HeaderSymmetryIff(cell, props, boundary);
  }

  /** ORIGIN, followed by SIZE, places the boundary at (0, 0). */
  lemma HeaderPlacesBoundary(cell: string, props: MacroProps, boundary: Rect)
    ensures var h := MacroHeader(cell, props, boundary);
      exists i :: 0 <= i < |h| - 1 && h[i].Origin? && h[i + 1].Size?
        && Rect(boundary.xbot + h[i].ox, boundary.ybot + h[i].oy, boundary.xtop + h[i].ox, boundary.ytop + h[i].oy)
           == Rect(0, 0, h[i + 1].w, h[i + 1].h)
        && h[i + 1].w == boundary.Width() && h[i + 1].h == boundary.Height()
  {
    var h := MacroHeader(cell, props, boundary);
    var src := SourcePart(props);
    HeaderLayout(cell, props, boundary);
    var i := 3 + |src|;
    assert h[i] == Origin(-boundary.xbot, -boundary.ybot);
    assert h[i + 1] == Size(boundary.Width(), boundary.Height());
  }

  /** The whole MACRO block: header, the pin blocks in pin order, the
      obstruction block, and END with the cell name. */
  function MacroText(cell: string, props: MacroProps, boundary: Rect, pins: seq<seq<Token>>, obs: seq<Token>): (m: seq<Token>)
    ensures |m| >= 6
    ensures m[0] == MacroOpen(cell) && m[|m| - 1] == MacroClose(cell)
  {
    MacroHeader(cell, props, boundary) + Flatten(pins) + obs + [MacroClose(cell)]
  }
}
