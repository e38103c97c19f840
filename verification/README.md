# LEF macro writer of magic 8.1, modelled in Dafny

This project models the decision logic of `lef/lefWrite.c`, the writer that
turns a Magic cell hierarchy into a LEF library (LEF/DEF Language Reference
5.3: LAYER, MACRO, PIN/PORT and OBS statements). Output is a sequence of
`Token`s, one per LEF statement, instead of text, and all coordinates, areas
and pitches are integers in Magic internal units (the float scaling by
`oscale` is left out). The tile database, the net search and the residue
masks are parameters.

| file | module | what it models |
|---|---|---|
| `lef_types.dfy` | `LefTypes` | rectangles, tiles with split side/direction flags, tokens |
| `sanitize.dfy` | `Sanitize` | `MakeLegalLEFSyntax`, the name sanitiser |
| `shapes.dfy` | `Shapes` | the RECT / POLYGON record of one tile |
| `writer.dfy` | `Writer` | `lefWriteGeometry`: PORT/OBS framing, LAYER lines, visit marks |
| `yank.dfy` | `Yank` | `lefYankGeometry`: which types a tile is yanked as |
| `claim.dfy` | `Claim` | the claim/erase protocol between pin passes and the obstruction pass |
| `header.dfy` | `Header` | the LAYER section of `lefWriteHeader` with the refCnt sign trick |
| `pins.dfy` | `Pins` | pin order, duplicate index check, DIRECTION/USE, label growth |
| `macro.dfy` | `Macro` | boundary, ORIGIN/SIZE and the MACRO header |
| `hierarchy.dfy` | `Hierarchy` | `lefDefPushFunc` and the pop loop of `LefWriteAll` |
| `filename.dfy` | `FileName` | the name choice and suffix strip of `lefFileOpen` |

Where the source and its comments disagree, the model follows the code:

- The sanitiser's table holds `; # space - * $ newline`. The doc comment
  names percent, not dollar.
- Polygons are written in port mode too. The `lefClient` comment says port
  mode ignores split tiles.
- The pop order of `LefWriteAll` is the reverse of the push (pre-)order. It is
  leaf-first only for trees: with a shared subcell that is enumerated first, a
  parent is popped before its child (`Hierarchy.SharedChildPoppedLate`).

## Model

| member | source | states |
|---|---|---|
| Sanitize.Legalize | lef/lefWrite.c:563-568 | the sanitised name has the length of the input |
| Sanitize.LegalizeSpec | lef/lefWrite.c:586-605 | position by position, each illegal character becomes `_` and every other character is kept |
| Sanitize.LegalizeChangesOnlyIllegal | lef/lefWrite.c:563-568 | the result differs from the input exactly at the positions holding one of `; # space - * $ newline`, and each of those holds `_` |
| Sanitize.LegalizeIsLegal | lef/lefWrite.c:564-568 | the result contains no illegal LEF character |
| Sanitize.LegalizeFixedIffLegal | lef/lefWrite.c:570-574 | the name comes back unchanged exactly when it is already legal |
| Sanitize.LegalizeIdempotent | lef/lefWrite.c:563-608 | sanitising twice equals sanitising once |
| Sanitize.InnerScan | lef/lefWrite.c:591-592 | the table scan stops at the first table position holding the character, or at the NUL exactly when the character is not in the table |
| Sanitize.ScanIsBad | lef/lefWrite.c:591-592 | the table scan stops inside the table exactly when the character is one of the illegal ones |
| Sanitize.MakeLegalLEFSyntax | lef/lefWrite.c:582-608 | the original name is handed back exactly when it has no illegal character; the returned name is always the sanitised one |
| Sanitize.DetectIllegal | lef/lefWrite.c:590-595 | the detection loop, stopping at the first character found in the table, reports the name legal exactly when no character is illegal |
| Sanitize.ReplaceIllegal | lef/lefWrite.c:597-605 | the copy has every illegal character replaced by `_`, every other kept: it is the sanitised name |
| Sanitize.DetectScanAsWritten | lef/lefWrite.c:590-592 | the detection loop as written never leaves early, so the scan `bptr` ends on belongs to the last character; it is unset on the empty name |
| Sanitize.ReturnsOriginalAsWritten | lef/lefWrite.c:590-595 | as written, the original name is returned exactly when its last character is legal; the empty name reads an unset pointer |
| Sanitize.AsWrittenReturnsIllegalName | lef/lefWrite.c:590-595 | every illegal name whose last character is legal comes back unchanged from the routine as written |
| Sanitize.AsWrittenExample | lef/lefWrite.c:590-595 | `a#b` comes back unchanged as written, where `a_b` is meant |
| Sanitize.ReplaceScanAsWritten | lef/lefWrite.c:599-605 | the replacement scan as written finds a table entry only at a position holding the character |
| Sanitize.ReplaceScanOverruns | lef/lefWrite.c:600 | for every legal non-NUL character the replacement scan as written runs past the end of the table |
| Shapes.Triangle | lef/lefWrite.c:510-548 | a split tile is written as a polygon of three vertices |
| Shapes.ShapeOf | lef/lefWrite.c:510-554 | a tile gives a RECT exactly when it is not split, and a split tile a three-vertex POLYGON |
| Shapes.ThreePointArea | lef/lefWrite.c:510-548 | the doubled shoelace area of a three-vertex polygon is the sum of its three cross products |
| Shapes.TriangleIsHalfTile | lef/lefWrite.c:510-548 | each side x direction case uses three distinct corners of the tile, with doubled area magnitude (R-L)(T-B) |
| Shapes.HalvesShareDiagonal | lef/lefWrite.c:510-548 | for one direction the two sides share the two diagonal corners and together use all four corners |
| Shapes.SideSelectsHalf | lef/lefWrite.c:511-548 | the side bit selects the half that touches that side of the tile |
| Shapes.PlainTileIsRect | lef/lefWrite.c:549-554 | an unsplit tile is written as RECT L B R T |
| Shapes.SplitTileIsHalfTile | lef/lefWrite.c:510-548 | the POLYGON written for a split tile has three distinct vertices, each a corner of the tile moved by the origin, wound clockwise and enclosing half the tile's area |
| Writer.WriteTile | lef/lefWrite.c:464-557 | a marked tile writes nothing; every visited tile ends marked; a tile off the routing types writes nothing; an emitting tile counts one write, starts with PORT/OBS exactly on the first write and ends with its shape; a LAYER line is written exactly when the tile emits and its type differs from lastType and has a LEF name, and lastType then becomes that type and otherwise stays |
| Writer.ReportBothHalves | lef/lefWrite.c:475-491 | when one split tile is reported for both halves, the second report writes nothing and leaves the client as the first left it; the tile ends marked, and an unmarked tile writes something exactly when the half reported first is a routing type, whatever the other half's type |
| Writer.LayerOnlyFromLayerPart | lef/lefWrite.c:502-508 | within one record only the layer part can hold a LAYER line |
| Writer.WriteScan | lef/lefWrite.c:475-500 | every tile of the search is marked, and the write count grows by the number of unmarked routing tiles |
| Writer.WritePass | lef/lefWrite.c:932-952 | after a pass every tile handed over is marked |
| Writer.StepKeywordCount | lef/lefWrite.c:493-500 | one callback writes END and the other mode's opener never, and its own opener once exactly when it emits the first record of the pass |
| Writer.StepFraming | lef/lefWrite.c:493-500 | one callback writes no END and no opener of the other mode, and its own opener once exactly when it emits the first record |
| Writer.ScanFraming | lef/lefWrite.c:493-508 | over a whole search the opener is written once, before the first record, and never when the count was already positive |
| Writer.PassFraming | lef/lefWrite.c:932-952 | a pass writes nothing exactly when no unmarked routing tile is visited; otherwise it starts with PORT/OBS once and ends with END |
| Writer.ReadConcat | lef/lefWrite.c:502-508 | reading records back distributes over concatenation, carrying the current LAYER |
| Writer.StepReadsBack | lef/lefWrite.c:502-554 | when the tile, if it emits, has a LEF name and space is no routing type (:919), a reader attributes the tile's record to the layer of its type, and lastType stays in step with the reader |
| Writer.ScanReadsBack | lef/lefWrite.c:502-554 | when every emitting tile has a LEF name and space is no routing type, every unmarked routing tile is read back on its own layer, in search order |
| Writer.PassReadsBack | lef/lefWrite.c:932-952 | when every emitting tile has a LEF name (the yank paints only named types, :426) and space is no routing type (:919), a reader of the pass gets exactly the expected shapes on their layers |
| Writer.StepModeIndependent | lef/lefWrite.c:493-554 | one callback in the two modes updates the client alike and writes the same records, the opener aside |
| Writer.ScanModeIndependent | lef/lefWrite.c:493-554 | the records do not depend on the mode; only the opener differs |
| Writer.SquarePinScenario | lef/lefWrite.c:932-952 | a single metal1 square pin gives PORT, LAYER metal1, RECT, END |
| Writer.SplitPinScenario | lef/lefWrite.c:510-548 | a split tile in a pin pass is written as a POLYGON inside PORT |
| Yank.YankedTile | lef/lefWrite.c:421-438 | the tile painted into the yank buffer has the source area, only the yanked side set, and is unmarked |
| Yank.YankGeometry | lef/lefWrite.c:373-449 | a marked tile paints nothing; a non-contact paints its own type exactly when it is a mapped routing type; a contact paints every mapped routing type of its residues at or above the first technology type, ascending |
| Claim.ClaimPins | lef/lefWrite.c:924-949 | after the pin passes the flattened cell is what it was less every pin's selection |
| Claim.ClaimsCoverCell | lef/lefWrite.c:311-334 | every selection lies in the flattened cell, and the cell is the disjoint union of the selections and what the obstruction pass sees |
| Claim.ClaimsDisjoint | lef/lefWrite.c:945-947 | no unit is claimed by two pins |
| Claim.ClaimsConserveArea | lef/lefWrite.c:989-999 | the sizes of all selections and of the rest add up to the size of the flattened cell |
| Claim.UnionContains | lef/lefWrite.c:924-947 | each selection is part of the union of all selections |
| Header.LayerBlock | lef/lefWrite.c:222-258 | a LAYER block opens and closes with the layer's canonical name |
| Header.CutAreaGating | lef/lefWrite.c:223-232 | CUT AREA appears exactly for a VIA layer with positive area, with that area |
| Header.PitchGating | lef/lefWrite.c:233-238 | PITCH appears exactly on routing layers with positive pitch, with that pitch |
| Header.SpacingGating | lef/lefWrite.c:233-244 | SPACING appears exactly on routing layers with positive spacing, with that spacing |
| Header.WidthGating | lef/lefWrite.c:233-241 | WIDTH appears exactly on routing layers with positive width, with that width |
| Header.DirectionGating | lef/lefWrite.c:245-248 | DIRECTION appears exactly when WIDTH does, with the layer's orientation |
| Header.TwoOccurrences | lef/lefWrite.c:207-210 | two hash entries naming one record give it a reference count of at least two |
| Header.LayerPass | lef/lefWrite.c:201-260 | a record gets a block exactly when some entry names it, its count is positive and no class filter skips it; with consistent counts no record gets two blocks; counts above one are negated once seen |
| Header.RestoreCounts | lef/lefWrite.c:262-269 | every negated count is made positive again and nothing else changes |
| Header.WriteLayers | lef/lefWrite.c:201-269 | after both passes every count is the absolute value it had, so with consistent counts the records are unchanged |
| Pins.DirectionWord | lef/lefWrite.c:839-861 | the DIRECTION word reads back as the label's class, and is empty exactly for an unknown class |
| Pins.UseWord | lef/lefWrite.c:862-884 | the USE word reads back as the label's use, and is empty exactly for an unknown use |
| Pins.GrowDegenerate | lef/lefWrite.c:907-916 | the search area contains the label, keeps each non-zero extent and grows each zero extent to 2 |
| Pins.GrowIdempotent | lef/lefWrite.c:907-916 | growing an already grown rectangle changes nothing |
| Pins.PinBlock | lef/lefWrite.c:838-956 | a pin block opens and closes with the sanitised label name |
| Pins.PinBlockAsWritten | lef/lefWrite.c:838-956 | the pin block as printed opens and closes with the raw label text |
| Pins.PinBlockNameAndGeometry | lef/lefWrite.c:838-956 | a pin block names a legal identifier at both ends and carries the port geometry before the closing END |
| Pins.PinBlockDirection | lef/lefWrite.c:839-861 | DIRECTION appears exactly when the label has a class, and reads back as that class |
| Pins.PinBlockUse | lef/lefWrite.c:862-884 | USE appears exactly when the label has a use, and reads back as that use |
| Pins.AsWrittenPinNameIllegal | lef/lefWrite.c:838-957 | the printed pin block differs from the sanitised one exactly when the label text is illegal, and then prints an illegal name |
| Pins.NumPorts | lef/lefWrite.c:802-811 | the port count is zero exactly when no label is a port |
| Pins.MaxPort | lef/lefWrite.c:802-811 | maxport bounds every port index and is attained, and is -1 exactly when there are no ports |
| Pins.NoIndexedPortsMeansNoPorts | lef/lefWrite.c:813-829 | a negative maxport means there are no ports, so the label-list branch writes nothing |
| Pins.FirstOpenAt | lef/lefWrite.c:822-826 | the search finds the first unvisited port with the index, or reports that there is none |
| Pins.DupScan | lef/lefWrite.c:959-971 | the intended check warns about the written index, and not at all when no later port has it |
| Pins.DupScanCounts | lef/lefWrite.c:959-971 | the intended check warns exactly once per later port with the written index |
| Pins.DupScanAsWritten | lef/lefWrite.c:959-971 | the check as written lowers the index once per warning, and its warnings name idx, idx-1, ... in turn |
| Pins.SilentAsWritten | lef/lefWrite.c:959-971 | the check as written is silent exactly when no later port has the written index |
| Pins.SpuriousDuplicateWarning | lef/lefWrite.c:959-971 | with ports A(1), C(1), B(0) the check as written warns about index 0, which only one port uses |
| Pins.OpenSetShrinks | lef/lefWrite.c:953 | writing a pin removes it from the unvisited ports, so the loop measure decreases |
| Pins.EmitStep | lef/lefWrite.c:822-971 | one pin written keeps the loop invariant: visited bits, order, index bound and warnings |
| Pins.PinOrder | lef/lefWrite.c:802-979 | every port unvisited on entry is written exactly once, in ascending index with ties in list order; every warning names an index two ports share and every shared index is warned about; all PORT_VISITED bits are clear on exit |
| Pins.EmitIdxAsWritten | lef/lefWrite.c:818-971 | after a pin is written, every port still unvisited has an index above the one the loop as written continues from |
| Pins.PinOrderAsWritten | lef/lefWrite.c:802-979 | the loop as written, which continues from the decremented index, still ends, writes every port unvisited on entry exactly once, in ascending index with ties in list order, and clears every PORT_VISITED bit |
| Macro.IncludeRect | lef/lefWrite.c:348-359 | growing the boundary by a tile gives the least rectangle holding both, and an empty tile changes nothing |
| Macro.BoundEncloses | lef/lefWrite.c:761-769 | from an empty start the boundary is the least rectangle enclosing every boundary tile, and stays empty when there is none |
| Macro.UninitialisedBoundaryExample | lef/lefWrite.c:761-769 | a leftover boundary value (0,0)-(100,100) survives one boundary tile (10,10)-(20,20), where the tile is meant |
| Macro.MacroHeader | lef/lefWrite.c:729-747 | the header opens with MACRO and the cell name, and CLASS is the cell's class or BLOCK |
| Macro.HeaderLayout | lef/lefWrite.c:729-787 | the header is MACRO, CLASS, SOURCE when present, FOREIGN, ORIGIN at minus the boundary's lower-left corner, SIZE as the boundary's extent, SYMMETRY when present |
| Macro.HeaderSourceIff | lef/lefWrite.c:749-751 | SOURCE appears in the header exactly when the LEFsource property exists |
| Macro.HeaderSymmetryIff | lef/lefWrite.c:784-786 | SYMMETRY appears in the header exactly when the LEFsymmetry property exists |
| Macro.HeaderNamesCell | lef/lefWrite.c:729-787 | FOREIGN names the cell; SOURCE and SYMMETRY appear exactly when their properties exist |
| Macro.HeaderPlacesBoundary | lef/lefWrite.c:761-778 | ORIGIN followed by SIZE moves the boundary onto (0,0)-SIZE, SIZE being the boundary's extent |
| Macro.MacroText | lef/lefWrite.c:729-1004 | a macro opens with MACRO and closes with END and the cell name |
| Hierarchy.Push | lef/lefWrite.c:1119-1132 | the walk keeps each def on the stack once and never an internal def, only appends, and a def not yet stacked and not internal is the first entry it adds |
| Hierarchy.PushChildren | lef/lefWrite.c:1130 | after the children loop every child is internal or on the stack |
| Hierarchy.PushFacts | lef/lefWrite.c:1119-1132 | every child of a def pushed by the walk is internal or on the stack, and every new entry sits above one of its parents |
| Hierarchy.ReachableIsPushed | lef/lefWrite.c:1119-1132 | every def reachable from the root through non-internal defs is on the stack |
| Hierarchy.WalkFromRoot | lef/lefWrite.c:1054-1059 | from unmarked defs the walk stacks each reachable def once, the root first, every entry above one of its parents, and nothing when the root is internal |
| Hierarchy.PopAll | lef/lefWrite.c:1084-1090 | defs pop in reverse push order, all marks are cleared, and every popped def is written except the root when the top cell is not wanted |
| Hierarchy.WriteAll | lef/lefWrite.c:1054-1090 | when the file opens, each stacked def is popped once, the root last, and written unless it is the root and the top cell is not wanted, and no mark is left; when it does not open (:1068-1078) nothing is popped or written and every stacked def stays marked |
| Hierarchy.SharedChildPoppedLate | lef/lefWrite.c:1119-1132 | when `top` enumerates `shared` before `parent`, which also uses `shared`, the pop order is parent, shared, top |
| FileName.LastIndex | lef/lefWrite.c:103-109 | the position found holds the character and no later position does |
| FileName.SuffixDot | lef/lefWrite.c:103-109 | the suffix dot is the last '.' after the last '/', or none |
| FileName.StripSuffix | lef/lefWrite.c:101-119 | the name passed on is a prefix of the name, at most 511 characters when it was shortened |
| FileName.StripSuffixSpec | lef/lefWrite.c:109-118 | the name is shortened exactly when its last dot after the last '/' starts the requested suffix, and appending the suffix gives the name back |
| FileName.StripAppended | lef/lefWrite.c:101-119 | appending a plain suffix to a name of at most 511 characters and stripping it gives the name back |
| FileName.OtherSuffixKept | lef/lefWrite.c:109-118 | a name not ending in the suffix is passed on unchanged |
| FileName.DirectoryDotKept | lef/lefWrite.c:103-118 | in `a.lef/c.lef` only the last suffix is stripped, and `d/.lef` strips to `d/` with its trailing '/' |
| FileName.ChooseName | lef/lefWrite.c:89-118 | there is a name exactly when a file or a def is given; it is the file, else the def's cd_file, else its cd_name, each with the suffix stripped, and it is the def's own name string exactly when cd_name was taken and not stripped |
| FileName.Attempts | lef/lefWrite.c:124-134 | at most two names are tried; the first is the chosen name; a second, the def's name, is tried exactly when the first fails, a def is given and the chosen name is not the def's own name string |
| FileName.FileOpen | lef/lefWrite.c:124-134 | a name is returned only if it opens and was one of the attempts |
| FileName.FileOpenFindsDefName | lef/lefWrite.c:124-134 | the open fails exactly when every attempt fails, and a def whose name opens is always found |

## Left out

- File output: `fprintf`, `fclose`, `PaOpen`'s path search. Opening is a parameter `opens`, and the statements are tokens.
- Floating point: the `%.4f`/`%f` scaling by `oscale` and `CIFGetOutputScale`. Coordinates, areas and pitches stay integers in internal units.
- The tile-plane database: `DBSrPaintArea`, `DBNMPaintPlane`, `DBErase`, `TiToRect`, flattening by `DBCellCopyAllPaint`. Tiles come as sequences in search order, and geometry as sets of units.
- The net search `SelectNet` is a parameter of the claim protocol. `DBFullResidueMask` is a field of the technology record.
- `GeoInclude` (utils/geometry.c) is not part of this model. `Macro.IncludeRect` assumes it ignores an empty source and replaces an empty destination.
- The value of `TT_TECHDEPBASE` (database.h is not part of this model) is taken as 9.
- Hash-table iteration order: the LefInfo entries are a given sequence.
- The construction of the routing and boundary masks from the LEF layer table (lef/lefWrite.c:689-722) is a parameter.
- Undo, interrupt handling and the `SigInterruptPending` check of the pop loop.
- Writer.WriteScan: each callback is a separate tile with its own mark. When both halves of a split tile are routing types, the search reports the same tile twice and only the half reported first is written (see `Writer.ReportBothHalves`); WriteScan, ScanReadsBack and PassReadsBack would write and read back both triangles.
- Sanitize.MakeLegalLEFSyntax: names are assumed to hold no NUL character. A C string ends at its first NUL, so the source would treat `a\0#` as `a` and return it unchanged.
- The packing of split types into `ptype` (lef/lefWrite.c:430-431). `Yank.YankedTile` states only that the yanked side is the one set.
- Header.CutAreaGating: the cut area is an unbounded integer. In the source it is a 32-bit `int` product, whose overflow is not modelled.
- Hierarchy.WriteAll: "any def first reached through parent P is popped before P" is stated for SOME parent of each stacked def (`ParentsBefore`), not for the particular parent through which it was first reached.
- Macro.MacroText: it does not tie the pin blocks to `Pins.PinOrder`. The pin blocks and obstruction records are inputs.
- ext2spice/tmp.c: SPICE output plumbing with a floating-point threshold, outside the LEF writer.

## Findings

| source | as written | input that shows it | evidently intended | confidence | as-written member | corrected member |
|---|---|---|---|---|---|---|
| lef/lefWrite.c:590-595 | the detection loop does not stop at an illegal character, so only the last character decides whether the original pointer is returned; on an empty name `bptr` is read unset | `a#b` is returned unchanged | return the original only when no character is illegal | high, not executed | Sanitize.AsWrittenExample | Sanitize.MakeLegalLEFSyntax |
| lef/lefWrite.c:600 | the replacement loop tests the pointer `bptr != '\0'` instead of `*bptr`, so a legal character scans past the table's NUL | any legal character, e.g. `a` | stop at the table's terminating NUL | high, not executed | Sanitize.ReplaceScanOverruns | Sanitize.ReplaceIllegal |
| lef/lefWrite.c:838-957 | the sanitised pin name is computed after the pin is written and never printed; PIN and END carry the raw label text | label `a#b` prints `PIN a#b` | print the sanitised name | high, not executed | Pins.AsWrittenPinNameIllegal | Pins.PinBlockNameAndGeometry |
| lef/lefWrite.c:761-769 | `boundary` is grown by `lefGetBound` without being set first | leftover (0,0)-(100,100), boundary tile (10,10)-(20,20) gives (0,0)-(100,100) | start from an empty rectangle | medium, not executed | Macro.UninitialisedBoundaryExample | Macro.BoundEncloses |
| lef/lefWrite.c:959-971 | the duplicate check compares later ports with the index after its own decrements, so it can report an index only one port uses; the loop it feeds still writes every port once, in order (`Pins.PinOrderAsWritten`) | ports A(1), C(1), B(0): warns about index 0 | compare with the written pin's index | high, not executed | Pins.SpuriousDuplicateWarning | Pins.PinOrder |
