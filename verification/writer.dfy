/**
 * lefWriteGeometry and the pass around it: the tiles of the yank buffer are
 * visited in search order; an unmarked tile is marked, and if its type is a
 * routing type it produces a record, preceded by the block opener (`PORT` or
 * `OBS`) when it is the first record of the pass and by a `LAYER` line when
 * its type differs from the last one named and has a LEF name. The pass
 * closes with `END` only when it wrote something.
 */
module Writer {
  import opened LefTypes
  import opened Shapes

  datatype Mode = PortMode | ObstructMode

  /** The fields of lefClient the writer updates. */
  datatype Client = Client(numWrites: nat, lastType: TileType)

  /** The fields of lefClient the writer only reads. */
  datatype Ctx = Ctx(mode: Mode, rmask: set<TileType>, lmap: LayerMap, origin: Point)

  datatype Step = Step(client: Client, out: seq<Token>, tile: Tile)

  function Opener(m: Mode): Token { if m == PortMode then PortOpen else ObsOpen }

  function OtherOpener(m: Mode): Token { if m == PortMode then ObsOpen else PortOpen }

  /** A tile that produces a record: not yet visited, on a routing type. */
  predicate Emits(t: Tile, rmask: set<TileType>) {
    !t.marked && TypeOf(t.body) in rmask
  }

  /** One call of the callback. */
  function WriteTile(c: Client, t: Tile, ctx: Ctx): (s: Step)
    ensures t.marked ==> s == Step(c, [], t)
    ensures s.tile == t.(marked := true)
    ensures !Emits(t, ctx.rmask) ==> s.client == c && s.out == []
    ensures Emits(t, ctx.rmask) ==>
      && s.client.numWrites == c.numWrites + 1
      && |s.out| >= 1
      && s.out[|s.out| - 1] == ShapeOf(t, ctx.origin)
      && (s.out[0] == Opener(ctx.mode) <==> c.numWrites == 0)
    ensures (exists i :: 0 <= i < |s.out| && s.out[i].LayerRef?) <==> Emits(t, ctx.rmask) && Renames(c, TypeOf(t.body), ctx)
    ensures Emits(t, ctx.rmask) ==>
      s.client.lastType == (if Renames(c, TypeOf(t.body), ctx) then TypeOf(t.body) else c.lastType)
  {
    if t.marked then Step(c, [], t)
    else
      var visited := t.(marked := true);
      var ty := TypeOf(t.body);
      if ty !in ctx.rmask then Step(c, [], visited)
      else
        var last := if Renames(c, ty, ctx) then ty else c.lastType;
        var out := OpenPart(c, ctx) + LayerPart(c, ty, ctx) + [ShapeOf(t, ctx.origin)];
        LayerOnlyFromLayerPart(OpenPart(c, ctx), LayerPart(c, ty, ctx), ShapeOf(t, ctx.origin));
        Step(Client(c.numWrites + 1, last), out, visited)
  }

  /** In a record, LAYER comes only from the layer part. */
  lemma LayerOnlyFromLayerPart(open: seq<Token>, layer: seq<Token>, shape: Token)
    requires forall i :: 0 <= i < |open| ==> !open[i].LayerRef?
    requires forall i :: 0 <= i < |layer| ==> layer[i].LayerRef?
    requires !shape.LayerRef?
    ensures var out := open + layer + [shape];
      (exists i :: 0 <= i < |out| && out[i].LayerRef?) <==> layer != []
  {
    var out := open + layer + [shape];
    if layer != [] {
      assert out[|open|] == layer[0];
    }
    if i :| 0 <= i < |out| && out[i].LayerRef? {
      if |open| <= i < |open| + |layer| {
        assert out[i] == layer[i - |open|];
      }
    }
  }

  /** The same split tile with the side bit flipped: the other half. */
  function OtherHalf(t: Tile): (h: Tile)
    requires t.body.Diagonal?
    ensures h.body.Diagonal? && h.rect == t.rect && h.marked == t.marked
    ensures TypeOf(h.body) == (if t.body.side then t.body.left else t.body.right)
  {
    t.(body := t.body.(side := !t.body.side))
  }

  /** The search reports a split tile once for each half that matches the
      mask, and both reports are the same tile: the first report marks it,
      so the second returns at the mark check. Only the half reported first
      is ever written, whatever the type of the other half. */
  function ReportBothHalves(c: Client, t: Tile, ctx: Ctx): (s: Step)
    requires t.body.Diagonal?
    ensures s.client == WriteTile(c, t, ctx).client
    ensures s.out == WriteTile(c, t, ctx).out
    ensures s.tile.marked
    ensures !t.marked ==> (s.out != [] <==> TypeOf(t.body) in ctx.rmask)
  {
    var first := WriteTile(c, t, ctx);
    var second := WriteTile(first.client, OtherHalf(first.tile), ctx);
    Step(second.client, first.out + second.out, second.tile)
  }

  /** The block opener, written before the first record of a pass. */
  function OpenPart(c: Client, ctx: Ctx): seq<Token> {
    if c.numWrites == 0 then [Opener(ctx.mode)] else []
  }

  /** A record names its layer when the type differs from the last one
      named and has a LEF name. */
  predicate Renames(c: Client, ty: TileType, ctx: Ctx) {
    ty != c.lastType && ctx.lmap(ty).Some?
  }

  function LayerPart(c: Client, ty: TileType, ctx: Ctx): seq<Token> {
    if Renames(c, ty, ctx) then [LayerRef(ctx.lmap(ty).value)] else []
  }

  /** Number of tiles that produce a record. */
  function NumEmitting(tiles: seq<Tile>, rmask: set<TileType>): nat {
    if tiles == [] then 0
    else (if Emits(tiles[0], rmask) then 1 else 0) + NumEmitting(tiles[1..], rmask)
  }

  datatype Scan = Scan(client: Client, out: seq<Token>, tiles: seq<Tile>)

  /** The callback applied to every tile the area search hands over. */
  function WriteScan(c: Client, tiles: seq<Tile>, ctx: Ctx): (r: Scan)
    ensures |r.tiles| == |tiles|
    ensures forall i :: 0 <= i < |tiles| ==> r.tiles[i] == tiles[i].(marked := true)
    ensures r.client.numWrites == c.numWrites + NumEmitting(tiles, ctx.rmask)
    decreases |tiles|
  {
    if tiles == [] then Scan(c, [], [])
    else
      var s := WriteTile(c, tiles[0], ctx);
      var rest := WriteScan(s.client, tiles[1..], ctx);
      Scan(rest.client, s.out + rest.out, [s.tile] + rest.tiles)
  }

  datatype Pass = Pass(out: seq<Token>, tiles: seq<Tile>)

  /** One port or obstruction pass: numWrites and lastType start afresh, and
      `END` follows only when something was written. */
  function WritePass(tiles: seq<Tile>, ctx: Ctx): (p: Pass)
    ensures |p.tiles| == |tiles|
    ensures forall i :: 0 <= i < |tiles| ==> p.tiles[i].marked
  {
    var s := WriteScan(Client(0, Space), tiles, ctx);
    Pass(s.out + (if s.client.numWrites > 0 then [BlockEnd] else []), s.tiles)
  }

  // ---------------------------------------------------------------------
  // Framing

  /** How often one call writes a block keyword (`PORT`, `OBS` or `END`). */
  lemma StepKeywordCount(c: Client, t: Tile, ctx: Ctx, k: Token)
    requires k == BlockEnd || k == PortOpen || k == ObsOpen
    ensures Count(WriteTile(c, t, ctx).out, k) ==
      (if Emits(t, ctx.rmask) && c.numWrites == 0 && k == Opener(ctx.mode) then 1 else 0)
  {
    if Emits(t, ctx.rmask) {
      var ty := TypeOf(t.body);
      var open := OpenPart(c, ctx);
      var layer := LayerPart(c, ty, ctx);
      var shape := [ShapeOf(t, ctx.origin)];
      assert WriteTile(c, t, ctx).out == open + (layer + shape);
      CountOne(ShapeOf(t, ctx.origin), k);
      if Renames(c, ty, ctx) { CountOne(LayerRef(ctx.lmap(ty).value), k); }
      if c.numWrites == 0 { CountOne(Opener(ctx.mode), k); }
      CountConcat(layer, shape, k);
      CountConcat(open, layer + shape, k);
    }
  }

  lemma StepFraming(c: Client, t: Tile, ctx: Ctx)
    ensures var out := WriteTile(c, t, ctx).out;
      && Count(out, BlockEnd) == 0
      && Count(out, OtherOpener(ctx.mode)) == 0
      && Count(out, Opener(ctx.mode)) == (if Emits(t, ctx.rmask) && c.numWrites == 0 then 1 else 0)
  {
    StepKeywordCount(c, t, ctx, BlockEnd);
    StepKeywordCount(c, t, ctx, OtherOpener(ctx.mode));
    StepKeywordCount(c, t, ctx, Opener(ctx.mode));
  }

  lemma {:induction false} ScanFraming(c: Client, tiles: seq<Tile>, ctx: Ctx)
    ensures var out := WriteScan(c, tiles, ctx).out;
      && Count(out, BlockEnd) == 0
      && Count(out, OtherOpener(ctx.mode)) == 0
      && (NumEmitting(tiles, ctx.rmask) == 0 ==> out == [])
      && (c.numWrites > 0 ==> Count(out, Opener(ctx.mode)) == 0)
      && (c.numWrites == 0 && NumEmitting(tiles, ctx.rmask) > 0 ==>
            out != [] && out[0] == Opener(ctx.mode) && Count(out, Opener(ctx.mode)) == 1)
    decreases |tiles|
  {
    if tiles != [] {
      var s := WriteTile(c, tiles[0], ctx);
      var rest := WriteScan(s.client, tiles[1..], ctx);
      ScanFraming(s.client, tiles[1..], ctx);
      StepFraming(c, tiles[0], ctx);
      assert WriteScan(c, tiles, ctx).out == s.out + rest.out;
      CountConcat(s.out, rest.out, BlockEnd);
      CountConcat(s.out, rest.out, OtherOpener(ctx.mode));
      CountConcat(s.out, rest.out, Opener(ctx.mode));
    }
  }

  /** A pass writes nothing at all when no unmarked routing tile is visited;
      otherwise it writes its opener exactly once, as the first statement,
      never the other block's opener, and `END` exactly once, as the last. */
  lemma PassFraming(tiles: seq<Tile>, ctx: Ctx)
    ensures var out := WritePass(tiles, ctx).out;
      && (out == [] <==> NumEmitting(tiles, ctx.rmask) == 0)
      && Count(out, OtherOpener(ctx.mode)) == 0
      && (NumEmitting(tiles, ctx.rmask) > 0 ==>
            && out != [] && out[0] == Opener(ctx.mode) && Count(out, Opener(ctx.mode)) == 1
            && out[|out| - 1] == BlockEnd && Count(out, BlockEnd) == 1)
  {
    var s := WriteScan(Client(0, Space), tiles, ctx);
    ScanFraming(Client(0, Space), tiles, ctx);
    var tail := if s.client.numWrites > 0 then [BlockEnd] else [];
    CountConcat(s.out, tail, BlockEnd);
    CountConcat(s.out, tail, Opener(ctx.mode));
    CountConcat(s.out, tail, OtherOpener(ctx.mode));
  }

  // ---------------------------------------------------------------------
  // Reading the records back

  /** A shape record with the layer a LEF reader assigns it. */
  datatype Placed = Placed(layer: Option<string>, shape: Token)

  /** How a reader attributes records: each RECT or POLYGON belongs to the
      last LAYER statement before it (`cur` before the first). */
  function ReadShapes(toks: seq<Token>, cur: Option<string>): seq<Placed>
    decreases |toks|
  {
    if toks == [] then []
    else if toks[0].LayerRef? then ReadShapes(toks[1..], Some(toks[0].name))
    else if IsShape(toks[0]) then [Placed(cur, toks[0])] + ReadShapes(toks[1..], cur)
    else ReadShapes(toks[1..], cur)
  }

  /** The layer in effect after reading `toks`. */
  function LayerAfter(toks: seq<Token>, cur: Option<string>): Option<string>
    decreases |toks|
  {
    if toks == [] then cur
    else LayerAfter(toks[1..], if toks[0].LayerRef? then Some(toks[0].name) else cur)
  }

  lemma {:induction false} ReadConcat(a: seq<Token>, b: seq<Token>, cur: Option<string>)
    ensures ReadShapes(a + b, cur) == ReadShapes(a, cur) + ReadShapes(b, LayerAfter(a, cur))
    ensures LayerAfter(a + b, cur) == LayerAfter(b, LayerAfter(a, cur))
    decreases |a|
  {
    if a != [] {
      assert (a + b)[1..] == a[1..] + b;
      ReadConcat(a[1..], b, if a[0].LayerRef? then Some(a[0].name) else cur);
    } else {
      assert a + b == b;
    }
  }

  /** What the pass should convey: every unmarked routing tile's shape, on
      the tile's own LEF layer, in visiting order. */
  function Expected(tiles: seq<Tile>, ctx: Ctx): seq<Placed> {
    if tiles == [] then [] else Contribution(tiles[0], ctx) + Expected(tiles[1..], ctx)
  }

  /** One tile's part of it. */
  function Contribution(t: Tile, ctx: Ctx): seq<Placed> {
    if Emits(t, ctx.rmask) then [Placed(ctx.lmap(TypeOf(t.body)), ShapeOf(t, ctx.origin))] else []
  }

  /** lastType and the reader's current layer agree. */
  predicate InSync(c: Client, cur: Option<string>, lmap: LayerMap) {
    if c.lastType == Space then cur == None else cur == lmap(c.lastType)
  }

  /** Every tile that produces a record has a LEF name, and space is no
      routing type. The yank paints only types with a LEF name, and the
      routing mask never holds space; names of types that are never visited
      do not matter. */
  predicate EmittersNamed(tiles: seq<Tile>, ctx: Ctx) {
    && Space !in ctx.rmask
    && forall i :: 0 <= i < |tiles| && Emits(tiles[i], ctx.rmask) ==> ctx.lmap(TypeOf(tiles[i].body)).Some?
  }

  lemma StepReadsBack(c: Client, cur: Option<string>, t: Tile, ctx: Ctx)
    requires EmittersNamed([t], ctx) && InSync(c, cur, ctx.lmap)
    ensures var s := WriteTile(c, t, ctx);
      && ReadShapes(s.out, cur) == Contribution(t, ctx)
      && InSync(s.client, LayerAfter(s.out, cur), ctx.lmap)
  {
    var s := WriteTile(c, t, ctx);
    if Emits(t, ctx.rmask) {
      assert [t][0] == t;
      var ty := TypeOf(t.body);
      var shape := ShapeOf(t, ctx.origin);
      var open := OpenPart(c, ctx);
      var named := Renames(c, ty, ctx);
      var layer := LayerPart(c, ty, ctx);
      assert s.out == open + layer + [shape];
      ReadConcat(open, layer + [shape], cur);
      assert open + (layer + [shape]) == s.out;
      assert ReadShapes(open, cur) == [] && LayerAfter(open, cur) == cur;
      ReadConcat(layer, [shape], cur);
      assert ReadShapes([shape], LayerAfter(layer, cur)) == [Placed(LayerAfter(layer, cur), shape)];
      assert LayerAfter([shape], LayerAfter(layer, cur)) == LayerAfter(layer, cur);
      if named {
        assert LayerAfter(layer, cur) == ctx.lmap(ty);
      } else {
        assert LayerAfter(layer, cur) == cur;
      }
    }
  }

  lemma {:induction false} ScanReadsBack(c: Client, cur: Option<string>, tiles: seq<Tile>, ctx: Ctx)
    requires EmittersNamed(tiles, ctx) && InSync(c, cur, ctx.lmap)
    ensures var r := WriteScan(c, tiles, ctx);
      && ReadShapes(r.out, cur) == Expected(tiles, ctx)
      && InSync(r.client, LayerAfter(r.out, cur), ctx.lmap)
    decreases |tiles|
  {
    if tiles != [] {
      var s := WriteTile(c, tiles[0], ctx);
      assert [tiles[0]][0] == tiles[0];
      StepReadsBack(c, cur, tiles[0], ctx);
      assert forall i :: 0 <= i < |tiles[1..]| ==> tiles[1..][i] == tiles[i + 1];
      var cur' := LayerAfter(s.out, cur);
      ScanReadsBack(s.client, cur', tiles[1..], ctx);
      var rest := WriteScan(s.client, tiles[1..], ctx);
      assert WriteScan(c, tiles, ctx).out == s.out + rest.out;
      ReadConcat(s.out, rest.out, cur);
    }
  }

  /** When every tile that produces a record has a LEF name, a reader of the pass's output
      recovers exactly the shapes of the unmarked routing tiles, each on its
      own layer, in visiting order: `LAYER` lines are omitted only when the
      layer in effect is already the right one. */
  lemma PassReadsBack(tiles: seq<Tile>, ctx: Ctx)
    requires EmittersNamed(tiles, ctx)
    ensures ReadShapes(WritePass(tiles, ctx).out, None) == Expected(tiles, ctx)
  {
    var s := WriteScan(Client(0, Space), tiles, ctx);
    ScanReadsBack(Client(0, Space), None, tiles, ctx);
    var tail := if s.client.numWrites > 0 then [BlockEnd] else [];
    ReadConcat(s.out, tail, None);
  }

  /** One call in the two modes: the same client, and output that differs at
      most in the opener, which only the first record of a pass writes. */
  lemma StepModeIndependent(c: Client, t: Tile, ctx: Ctx)
    ensures var sp := WriteTile(c, t, ctx.(mode := PortMode));
            var so := WriteTile(c, t, ctx.(mode := ObstructMode));
      && sp.client == so.client
      && |sp.out| == |so.out|
      && (forall i :: 0 < i < |sp.out| ==> sp.out[i] == so.out[i])
      && (c.numWrites > 0 || !Emits(t, ctx.rmask) ==> sp.out == so.out)
  {
  }

  /** The records do not depend on the mode: a port pass and an obstruction
      pass over the same tiles differ only in their first statement, so split
      tiles give polygons inside PORT blocks too. */
  lemma {:induction false} ScanModeIndependent(c: Client, tiles: seq<Tile>, ctx: Ctx)
    ensures var a := WriteScan(c, tiles, ctx.(mode := PortMode)).out;
            var b := WriteScan(c, tiles, ctx.(mode := ObstructMode)).out;
      && |a| == |b|
      && (forall i :: 0 < i < |a| ==> a[i] == b[i])
      && (c.numWrites > 0 ==> a == b)
    decreases |tiles|
  {
    if tiles != [] {
      var pc := ctx.(mode := PortMode);
      var oc := ctx.(mode := ObstructMode);
      var sp := WriteTile(c, tiles[0], pc);
      var so := WriteTile(c, tiles[0], oc);
      StepModeIndependent(c, tiles[0], ctx);
      ScanModeIndependent(sp.client, tiles[1..], ctx);
      var rp := WriteScan(sp.client, tiles[1..], pc);
      var ro := WriteScan(so.client, tiles[1..], oc);
      assert WriteScan(c, tiles, pc).out == sp.out + rp.out;
      assert WriteScan(c, tiles, oc).out == so.out + ro.out;
      if Emits(tiles[0], ctx.rmask) {
        assert rp.out == ro.out;
      }
    }
  }

  /** A 10 x 10 metal1 square as the only pin geometry gives
      PORT / LAYER metal1 / RECT 0 0 10 10 / END. */
  lemma SquarePinScenario()
    ensures var ctx := Ctx(PortMode, {10}, (t: TileType) => if t == 10 then Some("metal1") else None, Point(0, 0));
      WritePass([Tile(Rect(0, 0, 10, 10), Plain(10), false)], ctx).out
        == [PortOpen, LayerRef("metal1"), RectRec(0, 0, 10, 10), BlockEnd]
  {
  }

  /** A split tile yanked for a pin is written as a polygon inside the PORT
      block, against the struct comment that says port mode ignores it. */
  lemma SplitPinScenario()
    ensures var ctx := Ctx(PortMode, {10}, (t: TileType) => if t == 10 then Some("metal1") else None, Point(0, 0));
      WritePass([Tile(Rect(0, 0, 10, 10), Diagonal(0, 10, true, true), false)], ctx).out
        == [PortOpen, LayerRef("metal1"), PolygonRec([Point(0, 10), Point(10, 10), Point(10, 0)]), BlockEnd]
  {
    var ctx := Ctx(PortMode, {10}, (t: TileType) => if t == 10 then Some("metal1") else None, Point(0, 0));
    var t := Tile(Rect(0, 0, 10, 10), Diagonal(0, 10, true, true), false);
    assert ShapeOf(t, ctx.origin) == PolygonRec([Point(0, 10), Point(10, 10), Point(10, 0)]);
  }
}
