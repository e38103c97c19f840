/**
 * The pin section of lefWriteMacro. Ports are labels with a direction mask;
 * each has a port index. The writer walks the indices 0..maxport and writes,
 * for each, the first not-yet-visited port with that index; after writing a
 * pin it scans the rest of the label list for other ports with the same
 * index, warns once per such port and steps the index back so they are
 * written too. A pin block carries the optional DIRECTION and USE words, the
 * port geometry, and the pin name at both ends.
 */
module Pins {
  import opened LefTypes
  import Sanitize

  /** PORT_CLASS_MASK bits of a label: no class, the five known classes, or a
      value none of the cases name. */
  datatype PortClass = NoClass | Input | Output | Tristate | Bidirectional | Feedthrough | UnknownClass

  /** PORT_USE_MASK bits of a label. */
  datatype PortUse = NoUse | Signal | Analog | Power | Ground | Clock | UnknownUse

  /** A label of the cell: its text and type, its rectangle, whether it is a
      port (PORT_DIR_MASK set), its port index (PORT_NUM_MASK), the
      PORT_VISITED bit, and its class and use. */
  datatype Label = Label(
    text: string,
    ltype: TileType,
    rect: Rect,
    isPort: bool,
    index: nat,
    visited: bool,
    cls: PortClass,
    use: PortUse)

  /** How a direction is read back from a DIRECTION statement. */
  function ParseDirection(w: string): PortClass {
    if w == "INPUT" then Input
    else if w == "OUTPUT" then Output
    else if w == "OUTPUT TRISTATE" then Tristate
    else if w == "INOUT" then Bidirectional
    else if w == "FEEDTHRU" then Feedthrough
    else UnknownClass
  }

  /** The word written after DIRECTION; an unknown class writes nothing. */
  function DirectionWord(c: PortClass): (w: string)
    requires c != NoClass
    ensures ParseDirection(w) == c
    ensures w == "" <==> c == UnknownClass
  {
    match c
    case Input => "INPUT"
    case Output => "OUTPUT"
    case Tristate => "OUTPUT TRISTATE"
    case Bidirectional => "INOUT"
    case Feedthrough => "FEEDTHRU"
    case UnknownClass => ""
  }

  /** How a use is read back from a USE statement. */
  function ParseUse(w: string): PortUse {
    if w == "SIGNAL" then Signal
    else if w == "ANALOG" then Analog
    else if w == "POWER" then Power
    else if w == "GROUND" then Ground
    else if w == "CLOCK" then Clock
    else UnknownUse
  }

  /** The word written after USE; an unknown use writes nothing. */
  function UseWord(u: PortUse): (w: string)
    requires u != NoUse
    ensures ParseUse(w) == u
    ensures w == "" <==> u == UnknownUse
  {
    match u
    case Signal => "SIGNAL"
    case Analog => "ANALOG"
    case Power => "POWER"
    case Ground => "GROUND"
    case Clock => "CLOCK"
    case UnknownUse => ""
  }

  /** The label rectangle used as the net search area: a zero width or
      height is grown by one unit on each side. */
  function GrowDegenerate(r: Rect): (g: Rect)
    ensures g.Contains(r)
    ensures r.Width() != 0 ==> g.xbot == r.xbot && g.xtop == r.xtop
    ensures r.Height() != 0 ==> g.ybot == r.ybot && g.ytop == r.ytop
    ensures r.Width() == 0 ==> g.Width() == 2
    ensures r.Height() == 0 ==> g.Height() == 2
    ensures r.Width() >= 0 && r.Height() >= 0 ==> !g.IsEmpty()
  {
    var x := if r.Width() == 0 then (r.xbot - 1, r.xtop + 1) else (r.xbot, r.xtop);
    var y := if r.Height() == 0 then (r.ybot - 1, r.ytop + 1) else (r.ybot, r.ytop);
    Rect(x.0, y.0, x.1, y.1)
  }

  /** Growing twice is growing once. */
  lemma GrowIdempotent(r: Rect)
    ensures GrowDegenerate(GrowDegenerate(r)) == GrowDegenerate(r)
  {
    var g := GrowDegenerate(r);
    assert g.Width() != 0 && g.Height() != 0;
  }

  /** The pin block of label `lab` whose port geometry is `geom`. The pin is
      named by the legalised label text at both ends. */
  function PinBlock(lab: Label, geom: seq<Token>): (b: seq<Token>)
    ensures |b| >= 2
    ensures b[0] == PinOpen(Sanitize.Legalize(lab.text))
    ensures b[|b| - 1] == PinClose(Sanitize.Legalize(lab.text))
  {
    var name := Sanitize.Legalize(lab.text);
    [PinOpen(name)]
    + (if lab.cls != NoClass then [PinDirection(DirectionWord(lab.cls))] else [])
    + (if lab.use != NoUse then [PinUse(UseWord(lab.use))] else [])
    + geom
    + [PinClose(name)]
  }

  /** The pin block as the writer prints it: the raw label text at both ends. */
  function PinBlockAsWritten(lab: Label, geom: seq<Token>): (b: seq<Token>)
    ensures |b| >= 2
    ensures b[0] == PinOpen(lab.text) && b[|b| - 1] == PinClose(lab.text)
  {
    [PinOpen(lab.text)]
    + (if lab.cls != NoClass then [PinDirection(DirectionWord(lab.cls))] else [])
    + (if lab.use != NoUse then [PinUse(UseWord(lab.use))] else [])
    + geom
    + [PinClose(lab.text)]
  }

  /** Geometry statements only (no pin, macro or layer statement). */
  predicate IsGeometry(t: Token) {
    t.PortOpen? || t.ObsOpen? || t.BlockEnd? || t.LayerRef? || IsShape(t)
  }

  /** A pin block laid out statement by statement. */
  lemma PinLayout(lab: Label, geom: seq<Token>)
    ensures PinBlock(lab, geom) ==
      [PinOpen(Sanitize.Legalize(lab.text))]
      + (if lab.cls != NoClass then [PinDirection(DirectionWord(lab.cls))] else [])
      + (if lab.use != NoUse then [PinUse(UseWord(lab.use))] else [])
      + geom + [PinClose(Sanitize.Legalize(lab.text))]
  {
  }

  /** A pin block names a legal LEF identifier at both ends and ends with the
      port geometry. */
  lemma PinBlockNameAndGeometry(lab: Label, geom: seq<Token>)
    ensures var b := PinBlock(lab, geom);
      && Sanitize.IsLegal(b[0].pin) && b[0].pin == b[|b| - 1].pin
      && b[|b| - 1 - |geom| .. |b| - 1] == geom
  {
    Sanitize.LegalizeIsLegal(lab.text);
    PinLayout(lab, geom);
  }

  /** A pin block holds DIRECTION exactly when the label has a class, and the
      word reads back as that class. */
  lemma PinBlockDirection(lab: Label, geom: seq<Token>)
    requires forall i :: 0 <= i < |geom| ==> IsGeometry(geom[i])
    ensures var b := PinBlock(lab, geom);
      && ((exists i :: 0 <= i < |b| && b[i].PinDirection?) <==> lab.cls != NoClass)
      && (forall i :: 0 <= i < |b| && b[i].PinDirection? ==> ParseDirection(b[i].dir) == lab.cls)
  {
    var b := PinBlock(lab, geom);
    PinLayout(lab, geom);
    var d := if lab.cls != NoClass then [PinDirection(DirectionWord(lab.cls))] else [];
    var u := if lab.use != NoUse then [PinUse(UseWord(lab.use))] else [];
    assert forall i :: 1 + |d| + |u| <= i < |b| - 1 ==> b[i] == geom[i - 1 - |d| - |u|];
    if lab.cls != NoClass { assert b[1].PinDirection?; }
    assert forall i :: 0 <= i < |b| && b[i].PinDirection? ==> i == 1 && lab.cls != NoClass;
  }

  /** A pin block holds USE exactly when the label has a use, and the word
      reads back as that use. */
  lemma PinBlockUse(lab: Label, geom: seq<Token>)
    requires forall i :: 0 <= i < |geom| ==> IsGeometry(geom[i])
    ensures var b := PinBlock(lab, geom);
      && ((exists i :: 0 <= i < |b| && b[i].PinUse?) <==> lab.use != NoUse)
      && (forall i :: 0 <= i < |b| && b[i].PinUse? ==> ParseUse(b[i].use) == lab.use)
  {
    var b := PinBlock(lab, geom);
    PinLayout(lab, geom);
    var d := if lab.cls != NoClass then [PinDirection(DirectionWord(lab.cls))] else [];
    var u := if lab.use != NoUse then [PinUse(UseWord(lab.use))] else [];
    assert forall i :: 1 + |d| + |u| <= i < |b| - 1 ==> b[i] == geom[i - 1 - |d| - |u|];
    if lab.use != NoUse { assert b[1 + |d|].PinUse?; }
    assert forall i :: 0 <= i < |b| && b[i].PinUse? ==> i == 1 + |d| && lab.use != NoUse;
  }

  /** The writer's pin block differs from the legalised one exactly when the
      label text is not a legal LEF identifier. */
  lemma AsWrittenPinNameIllegal(lab: Label, geom: seq<Token>)
    ensures PinBlockAsWritten(lab, geom) == PinBlock(lab, geom) <==> Sanitize.IsLegal(lab.text)
    ensures !Sanitize.IsLegal(lab.text) ==> !Sanitize.IsLegal(PinBlockAsWritten(lab, geom)[0].pin)
  {
    Sanitize.LegalizeFixedIffLegal(lab.text);
    if PinBlockAsWritten(lab, geom) == PinBlock(lab, geom) {
      assert PinBlockAsWritten(lab, geom)[0] == PinBlock(lab, geom)[0];
    }
  }

  /** Number of ports (curport). */
  function NumPorts(labels: seq<Label>): (n: nat)
    ensures n <= |labels|
    ensures n == 0 <==> forall p :: 0 <= p < |labels| ==> !labels[p].isPort
    decreases |labels|
  {
    if labels == [] then 0
    else NumPorts(labels[..|labels| - 1]) + (if labels[|labels| - 1].isPort then 1 else 0)
  }

  /** The largest port index (maxport), -1 when there is no port. */
  function MaxPort(labels: seq<Label>): (m: int)
    ensures m >= -1
    ensures forall p :: 0 <= p < |labels| && labels[p].isPort ==> labels[p].index <= m
    ensures m >= 0 ==> exists p :: 0 <= p < |labels| && labels[p].isPort && labels[p].index == m
    ensures m == -1 <==> NumPorts(labels) == 0
    decreases |labels|
  {
    if labels == [] then -1
    else
      var init := labels[..|labels| - 1];
      var m := MaxPort(init);
      var last := labels[|labels| - 1];
      assert forall p :: 0 <= p < |init| ==> init[p] == labels[p];
      if last.isPort && last.index > m then last.index else m
  }

  /** When no label carries a port index the label-list branch of the pin
      loop runs zero times (its bound, curport, is then zero too). */
  lemma NoIndexedPortsMeansNoPorts(labels: seq<Label>)
    requires MaxPort(labels) < 0
    ensures NumPorts(labels) == 0
    ensures forall p :: 0 <= p < |labels| ==> !labels[p].isPort
  {
  }

  /** A port that is not visited in `vis`. */
  predicate IsOpen(labels: seq<Label>, vis: seq<bool>, p: int)
    requires |vis| == |labels|
  {
    0 <= p < |labels| && labels[p].isPort && !vis[p]
  }

  function OpenSet(labels: seq<Label>, vis: seq<bool>): set<nat>
    requires |vis| == |labels|
  {
    set p: nat | p < |labels| && IsOpen(labels, vis, p)
  }

  /** The search of the pin loop: the first unvisited port with index `idx`
      at or after position `from`. */
  function FirstOpenAt(labels: seq<Label>, vis: seq<bool>, idx: int, from: nat): (r: Option<nat>)
    requires |vis| == |labels| && from <= |labels|
    ensures r.Some? ==> from <= r.value < |labels| && IsOpen(labels, vis, r.value) && labels[r.value].index == idx
    ensures r.Some? ==> forall q :: from <= q < r.value && labels[q].index == idx ==> !IsOpen(labels, vis, q)
    ensures r.None? ==> forall q :: from <= q < |labels| && labels[q].index == idx ==> !IsOpen(labels, vis, q)
    decreases |labels| - from
  {
    if from == |labels| then None
    else if IsOpen(labels, vis, from) && labels[from].index == idx then Some(from)
    else FirstOpenAt(labels, vis, idx, from + 1)
  }

  /** The duplicate check after writing a pin with index `idx`, comparing
      every later port with `idx` itself: one warning per later port that has
      the same index. */
  function DupScan(labels: seq<Label>, from: nat, idx: int): (w: seq<int>)
    requires from <= |labels|
    ensures forall i :: 0 <= i < |w| ==> w[i] == idx
    ensures w == [] <==> forall q :: from <= q < |labels| ==> !(labels[q].isPort && labels[q].index == idx)
    decreases |labels| - from
  {
    if from == |labels| then []
    else (if labels[from].isPort && labels[from].index == idx then [idx] else []) + DupScan(labels, from + 1, idx)
  }

  /** The ports from position `from` on whose index is `idx`. */
  function PortsWithIndex(labels: seq<Label>, from: nat, idx: int): set<nat> {
    set q: nat | from <= q < |labels| && labels[q].isPort && labels[q].index == idx
  }

  /** The check with a fixed index warns once per later port with that index. */
  lemma {:induction false} DupScanCounts(labels: seq<Label>, from: nat, idx: int)
    requires from <= |labels|
    ensures |DupScan(labels, from, idx)| == |PortsWithIndex(labels, from, idx)|
    decreases |labels| - from
  {
    var here := PortsWithIndex(labels, from, idx);
    if from == |labels| {
      assert here == {};
    } else {
      DupScanCounts(labels, from + 1, idx);
      var later := PortsWithIndex(labels, from + 1, idx);
      if labels[from].isPort && labels[from].index == idx {
        assert here == later + {from};
        assert from !in later;
      } else {
        assert here == later;
      }
    }
  }

  /** The check as written stays silent only when no later port has the
      index the pin was written with. */
  lemma {:induction false} SilentAsWritten(labels: seq<Label>, from: nat, idx: int)
    requires from <= |labels|
    ensures DupScanAsWritten(labels, from, idx).warnings == [] <==>
      forall q :: from <= q < |labels| ==> !(labels[q].isPort && labels[q].index == idx)
    decreases |labels| - from
  {
    if from < |labels| {
      if labels[from].isPort && labels[from].index == idx {
        assert DupScanAsWritten(labels, from, idx).warnings[0] == idx;
      } else {
        SilentAsWritten(labels, from + 1, idx);
      }
    }
  }

  /** Result of the duplicate check as written: the warnings, and the index
      the loop continues from before its increment. */
  datatype DupResult = DupResult(warnings: seq<int>, idx: int)

  /** The duplicate check as the writer has it: each match decrements `idx`,
      and later ports are compared with the decremented value. */
  function DupScanAsWritten(labels: seq<Label>, from: nat, idx: int): (r: DupResult)
    requires from <= |labels|
    ensures r.idx == idx - |r.warnings|
    ensures |r.warnings| <= |labels| - from
    ensures forall i :: 0 <= i < |r.warnings| ==> r.warnings[i] == idx - i
    decreases |labels| - from
  {
    if from == |labels| then DupResult([], idx)
    else if labels[from].isPort && labels[from].index == idx then
      var rest := DupScanAsWritten(labels, from + 1, idx - 1);
      DupResult([idx] + rest.warnings, rest.idx)
    else DupScanAsWritten(labels, from + 1, idx)
  }

  /** Two ports share index `w`. */
  predicate UsedTwice(labels: seq<Label>, w: int) {
    exists a, b :: 0 <= a < b < |labels| && labels[a].isPort && labels[b].isPort
      && labels[a].index == w && labels[b].index == w
  }

  /** Ports A (index 1), C (index 1), B (index 0): after writing A the check
      as written warns about index 1 and then about index 0, although B is
      the only port with index 0. The check with a fixed index warns once. */
  lemma SpuriousDuplicateWarning()
    ensures var r := Rect(0, 0, 1, 1);
      var a := Label("A", 1, r, true, 1, false, NoClass, NoUse);
      var c := Label("C", 1, r, true, 1, false, NoClass, NoUse);
      var b := Label("B", 1, r, true, 0, false, NoClass, NoUse);
      var labels := [a, c, b];
      && DupScanAsWritten(labels, 1, 1) == DupResult([1, 0], -1)
      && !UsedTwice(labels, 0)
      && DupScan(labels, 1, 1) == [1]
  {
    var r := Rect(0, 0, 1, 1);
    var labels := [Label("A", 1, r, true, 1, false, NoClass, NoUse),
                   Label("C", 1, r, true, 1, false, NoClass, NoUse),
                   Label("B", 1, r, true, 0, false, NoClass, NoUse)];
    assert DupScanAsWritten(labels, 3, -1) == DupResult([], -1);
    assert DupScanAsWritten(labels, 2, 0) == DupResult([0], -1);
    assert DupScan(labels, 3, 1) == [];
    assert DupScan(labels, 2, 1) == [];
  }

  /** Pin order: by port index, ties by position in the label list. */
  predicate KeyLess(labels: seq<Label>, p: nat, q: nat)
    requires p < |labels| && q < |labels|
  {
    labels[p].index < labels[q].index || (labels[p].index == labels[q].index && p < q)
  }

  /** A port not visited when the pin loop starts. */
  predicate OpenOnEntry(labels: seq<Label>, p: int) {
    0 <= p < |labels| && labels[p].isPort && !labels[p].visited
  }

  lemma OpenSetShrinks(labels: seq<Label>, vis: seq<bool>, p: nat)
    requires |vis| == |labels| && IsOpen(labels, vis, p)
    ensures OpenSet(labels, vis[p := true]) == OpenSet(labels, vis) - {p}
    ensures |OpenSet(labels, vis[p := true])| < |OpenSet(labels, vis)|
  {
    assert p in OpenSet(labels, vis);
  }

  /** The PORT_VISITED bits: set on entry or written by the loop; everything
      written was an unvisited port on entry. */
  ghost predicate VisInv(labels: seq<Label>, vis: seq<bool>, order: seq<nat>) {
    && |vis| == |labels|
    && (forall p :: 0 <= p < |labels| ==> (vis[p] <==> labels[p].visited || p in order))
    && (forall i :: 0 <= i < |order| ==> OpenOnEntry(labels, order[i]))
  }

  /** Every port with an index below `idx` has been written. */
  ghost predicate IdxInv(labels: seq<Label>, vis: seq<bool>, idx: int)
    requires |vis| == |labels|
  {
    forall p :: IsOpen(labels, vis, p) ==> labels[p].index >= idx
  }

  /** The pins written so far are in key order, and before every port still
      to be written. */
  ghost predicate OrderInv(labels: seq<Label>, vis: seq<bool>, order: seq<nat>)
    requires VisInv(labels, vis, order)
  {
    && (forall i, j :: 0 <= i < j < |order| ==> KeyLess(labels, order[i], order[j]))
    && (forall i, p :: 0 <= i < |order| && IsOpen(labels, vis, p) ==> KeyLess(labels, order[i], p))
  }

  /** Every warning names a shared index, and every written port that shares
      its index with a later port has been warned about. */
  ghost predicate WarnInv(labels: seq<Label>, order: seq<nat>, warnings: seq<int>) {
    && (forall w :: w in warnings ==> UsedTwice(labels, w))
    && (forall a, b :: DupPair(labels, a, b) && a in order ==> labels[a].index in warnings)
  }

  /** What the pin loop keeps true, with `vis` the PORT_VISITED bits and
      `idx` the index about to be searched. */
  ghost predicate PinLoopInv(labels: seq<Label>, vis: seq<bool>, order: seq<nat>, warnings: seq<int>, idx: int) {
    && VisInv(labels, vis, order)
    && IdxInv(labels, vis, idx)
    && OrderInv(labels, vis, order)
    && WarnInv(labels, order, warnings)
  }

  /** Two ports sharing an index, the first not visited on entry. */
  predicate DupPair(labels: seq<Label>, a: int, b: int) {
    0 <= a < b < |labels| && OpenOnEntry(labels, a) && labels[b].isPort && labels[a].index == labels[b].index
  }

  /** No unvisited port has index `idx`: the loop moves to the next index. */
  lemma SkipStep(labels: seq<Label>, vis: seq<bool>, order: seq<nat>, warnings: seq<int>, idx: int)
    requires PinLoopInv(labels, vis, order, warnings, idx)
    requires FirstOpenAt(labels, vis, idx, 0).None?
    ensures PinLoopInv(labels, vis, order, warnings, idx + 1)
  {
  }

  lemma EmitVis(labels: seq<Label>, vis: seq<bool>, order: seq<nat>, idx: int, p: nat)
    requires VisInv(labels, vis, order)
    requires FirstOpenAt(labels, vis, idx, 0) == Some(p)
    ensures VisInv(labels, vis[p := true], order + [p])
  {
  }

  lemma EmitOrder(labels: seq<Label>, vis: seq<bool>, order: seq<nat>, idx: int, p: nat)
    requires VisInv(labels, vis, order) && IdxInv(labels, vis, idx) && OrderInv(labels, vis, order)
    requires FirstOpenAt(labels, vis, idx, 0) == Some(p)
    ensures VisInv(labels, vis[p := true], order + [p])
    ensures OrderInv(labels, vis[p := true], order + [p])
  {
    EmitVis(labels, vis, order, idx, p);
    var vis', order' := vis[p := true], order + [p];
    assert forall q :: IsOpen(labels, vis', q) ==> IsOpen(labels, vis, q) && q != p;
    assert forall q :: IsOpen(labels, vis', q) ==> KeyLess(labels, p, q);
    assert forall i, j :: 0 <= i < j < |order'| ==> KeyLess(labels, order'[i], order'[j]) by {
      forall i, j | 0 <= i < j < |order'|
        ensures KeyLess(labels, order'[i], order'[j])
      {
        if j == |order| {
          assert IsOpen(labels, vis, p);
        }
      }
    }
  }

  lemma EmitIdx(labels: seq<Label>, vis: seq<bool>, order: seq<nat>, idx: int, p: nat)
    requires VisInv(labels, vis, order) && IdxInv(labels, vis, idx)
    requires FirstOpenAt(labels, vis, idx, 0) == Some(p)
    ensures |vis[p := true]| == |labels|
    ensures IdxInv(labels, vis[p := true], idx - |DupScan(labels, p + 1, idx)| + 1)
  {
    var vis' := vis[p := true];
    assert forall q :: IsOpen(labels, vis', q) ==> IsOpen(labels, vis, q) && q != p;
    if DupScan(labels, p + 1, idx) == [] {
      assert forall q :: IsOpen(labels, vis', q) ==> labels[q].index != idx;
    }
  }

  lemma EmitWarn(labels: seq<Label>, vis: seq<bool>, order: seq<nat>, warnings: seq<int>, idx: int, p: nat)
    requires VisInv(labels, vis, order) && WarnInv(labels, order, warnings)
    requires FirstOpenAt(labels, vis, idx, 0) == Some(p)
    ensures WarnInv(labels, order + [p], warnings + DupScan(labels, p + 1, idx))
  {
    var w := DupScan(labels, p + 1, idx);
    var order', warnings' := order + [p], warnings + w;
    if w != [] {
      var q :| p + 1 <= q < |labels| && labels[q].isPort && labels[q].index == idx;
      assert UsedTwice(labels, idx);
      assert w[0] == idx;
    }
    assert forall w0 :: w0 in warnings' ==> UsedTwice(labels, w0);
    forall a, b | DupPair(labels, a, b) && a in order'
      ensures labels[a].index in warnings'
    {
      if a == p {
        assert !(forall q :: p + 1 <= q < |labels| ==> !(labels[q].isPort && labels[q].index == idx));
        assert w[0] == idx;
      } else {
        assert a in order;
      }
    }
  }

  /** The pin of port `p` is written and the duplicate check run. */
  lemma EmitStep(labels: seq<Label>, vis: seq<bool>, order: seq<nat>, warnings: seq<int>, idx: int, p: nat)
    requires PinLoopInv(labels, vis, order, warnings, idx)
    requires FirstOpenAt(labels, vis, idx, 0) == Some(p)
    ensures var w := DupScan(labels, p + 1, idx);
      PinLoopInv(labels, vis[p := true], order + [p], warnings + w, idx - |w| + 1)
  {
    EmitOrder(labels, vis, order, idx, p);
    EmitIdx(labels, vis, order, idx, p);
    EmitWarn(labels, vis, order, warnings, idx, p);
  }

  /** The pin loop of lefWriteMacro. Returns the label positions in the order
      their pins are written, the duplicate-index warnings, and the labels
      with PORT_VISITED cleared on every port afterwards. */
  method PinOrder(labels: seq<Label>) returns (order: seq<nat>, warnings: seq<int>, after: seq<Label>)
    ensures forall i :: 0 <= i < |order| ==> order[i] < |labels|
    ensures forall p :: p in order <==> OpenOnEntry(labels, p)
    ensures forall i, j :: 0 <= i < j < |order| ==> KeyLess(labels, order[i], order[j])
    ensures forall w :: w in warnings ==> UsedTwice(labels, w)
    ensures forall a, b :: DupPair(labels, a, b) && OpenOnEntry(labels, b) ==> labels[a].index in warnings
    ensures |after| == |labels|
    ensures forall p :: 0 <= p < |labels| ==>
      after[p] == labels[p].(visited := labels[p].visited && !labels[p].isPort)
  {
    var bound := MaxPort(labels) + 1;
    var vis := seq(|labels|, p requires 0 <= p < |labels| => labels[p].visited);
    var idx: int := 0;
    order, warnings := [], [];
    ghost var pending := OpenSet(labels, vis);
    while idx < bound
      invariant PinLoopInv(labels, vis, order, warnings, idx)
      invariant pending == OpenSet(labels, vis)
      decreases |pending|, bound - idx
    {
      var found := FirstOpenAt(labels, vis, idx, 0);
      if found.None? {
        SkipStep(labels, vis, order, warnings, idx);
        idx := idx + 1;
        continue;
      }
      var p := found.value;
      EmitStep(labels, vis, order, warnings, idx, p);
      OpenSetShrinks(labels, vis, p);
      var w := DupScan(labels, p + 1, idx);
      vis := vis[p := true];
      order := order + [p];
      pending := pending - {p};
      warnings := warnings + w;
      idx := idx - |w| + 1;
    }
    forall p | OpenOnEntry(labels, p)
      ensures p in order
    {
      assert labels[p].index <= MaxPort(labels);
      assert !IsOpen(labels, vis, p);
    }
    after := seq(|labels|, p requires 0 <= p < |labels| =>
      labels[p].(visited := vis[p] && !labels[p].isPort));
  }

  /** The index a step of the loop as written continues from: with no
      warning every open port with index `idx` has been written; with a
      warning the index goes back, below every open port's index. */
  lemma EmitIdxAsWritten(labels: seq<Label>, vis: seq<bool>, order: seq<nat>, idx: int, p: nat)
    requires VisInv(labels, vis, order) && IdxInv(labels, vis, idx)
    requires FirstOpenAt(labels, vis, idx, 0) == Some(p)
    ensures |vis[p := true]| == |labels|
    ensures IdxInv(labels, vis[p := true], DupScanAsWritten(labels, p + 1, idx).idx + 1)
  {
    var vis' := vis[p := true];
    var r := DupScanAsWritten(labels, p + 1, idx);
    assert forall q :: IsOpen(labels, vis', q) ==> IsOpen(labels, vis, q) && q != p;
    SilentAsWritten(labels, p + 1, idx);
    if r.warnings == [] {
      assert forall q :: IsOpen(labels, vis', q) ==> labels[q].index != idx;
    }
  }

  /** What the loop as written keeps true. */
  ghost predicate PinLoopInvAsWritten(labels: seq<Label>, vis: seq<bool>, order: seq<nat>, idx: int) {
    && VisInv(labels, vis, order)
    && IdxInv(labels, vis, idx)
    && OrderInv(labels, vis, order)
  }

  /** The pin loop as the writer has it: after a pin is written the index
      continues from the duplicate check's decremented value. It still ends,
      writes every unvisited port once, and in key order; only its warnings
      may name indices no two ports share. */
  method PinOrderAsWritten(labels: seq<Label>) returns (order: seq<nat>, warnings: seq<int>, after: seq<Label>)
    ensures forall i :: 0 <= i < |order| ==> order[i] < |labels|
    ensures forall p :: p in order <==> OpenOnEntry(labels, p)
    ensures forall i, j :: 0 <= i < j < |order| ==> KeyLess(labels, order[i], order[j])
    ensures |after| == |labels|
    ensures forall p :: 0 <= p < |labels| ==>
      after[p] == labels[p].(visited := labels[p].visited && !labels[p].isPort)
  {
    var bound := MaxPort(labels) + 1;
    var vis := seq(|labels|, p requires 0 <= p < |labels| => labels[p].visited);
    var idx: int := 0;
    order, warnings := [], [];
    ghost var pending := OpenSet(labels, vis);
    while idx < bound
      invariant PinLoopInvAsWritten(labels, vis, order, idx)
      invariant pending == OpenSet(labels, vis)
      decreases |pending|, bound - idx
    {
      var found := FirstOpenAt(labels, vis, idx, 0);
      if found.None? {
        idx := idx + 1;
        continue;
      }
      var p := found.value;
      EmitOrder(labels, vis, order, idx, p);
      EmitIdxAsWritten(labels, vis, order, idx, p);
      OpenSetShrinks(labels, vis, p);
      var r := DupScanAsWritten(labels, p + 1, idx);
      vis := vis[p := true];
      order := order + [p];
      pending := pending - {p};
      warnings := warnings + r.warnings;
      idx := r.idx + 1;
    }
    forall p | OpenOnEntry(labels, p)
      ensures p in order
    {
      assert labels[p].index <= MaxPort(labels);
      assert !IsOpen(labels, vis, p);
    }
    after := seq(|labels|, p requires 0 <= p < |labels| =>
      labels[p].(visited := vis[p] && !labels[p].isPort));
  }
}
