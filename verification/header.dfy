/**
 * The LAYER section of lefWriteHeader. Several names of the LefInfo table can
 * point at one layer record; the record's reference count is negated at its
 * first visit (when it is above 1) so later visits skip it, and every negated
 * count is made positive again after the pass. Records of type -1
 * (obstruction-only), VIA records with a via cell, and BOUNDARY records get
 * no block. Inside a block, CUT AREA, PITCH, WIDTH and SPACING appear only
 * when positive, and DIRECTION only with a positive WIDTH.
 */
module Header {
  import opened LefTypes

  datatype LayerClass = ClassRoute | ClassVia | ClassMaster | ClassOverlap | ClassBound | ClassOther

  /** The fields of a lefLayer record the header pass reads. */
  datatype LayerRecord = LayerRecord(
    canonName: string,
    refCnt: int,
    ltype: TileType,
    cls: LayerClass,
    viaCell: bool,      // info.via.cell != NULL
    cutArea: Rect,      // info.via.area
    pitch: int,
    width: int,
    spacing: int,
    horizontal: bool)

  /** Records that never get a block of their own. */
  predicate Skipped(r: LayerRecord) {
    r.ltype == -1 || (r.cls == ClassVia && r.viaCell) || r.cls == ClassBound
  }

  function CutAreaOf(a: Rect): int { a.Width() * a.Height() }

  function When(c: bool, t: Token): seq<Token> { if c then [t] else [] }

  function LayerBody(r: LayerRecord): seq<Token> {
    match r.cls
    case ClassVia => [LayerType("CUT")] + When(CutAreaOf(r.cutArea) > 0, CutArea(CutAreaOf(r.cutArea)))
    case ClassRoute =>
      [LayerType("ROUTING")]
      + When(r.pitch > 0, Pitch(r.pitch))
      + When(r.width > 0, Width(r.width))
      + When(r.spacing > 0, Spacing(r.spacing))
      + When(r.width > 0, RouteDirection(r.horizontal))
    case ClassMaster => [LayerType("MASTERSLICE")]
    case ClassOverlap => [LayerType("OVERLAP")]
    case _ => []
  }

  /** The `LAYER <name> ... END <name>` block of one record. */
  function LayerBlock(r: LayerRecord): (b: seq<Token>)
    ensures |b| >= 2 && b[0] == LayerOpen(r.canonName) && b[|b| - 1] == LayerClose(r.canonName)
  {
    [LayerOpen(r.canonName)] + LayerBody(r) + [LayerClose(r.canonName)]
  }

  /** CUT AREA appears exactly in a VIA block whose cut area is positive, and
      carries that area. */
  lemma CutAreaGating(r: LayerRecord)
    ensures var b := LayerBlock(r);
      && ((exists i :: 0 <= i < |b| && b[i].CutArea?) <==> r.cls == ClassVia && CutAreaOf(r.cutArea) > 0)
      && (forall i :: 0 <= i < |b| && b[i].CutArea? ==> b[i].area == CutAreaOf(r.cutArea))
  {
    var b := LayerBlock(r);
    if r.cls == ClassVia && CutAreaOf(r.cutArea) > 0 {
      assert b[2].CutArea?;
    }
  }

  /** A ROUTING block laid out statement by statement. */
  lemma RouteLayout(r: LayerRecord)
    requires r.cls == ClassRoute
    ensures LayerBlock(r) == [LayerOpen(r.canonName), LayerType("ROUTING")]
      + When(r.pitch > 0, Pitch(r.pitch)) + When(r.width > 0, Width(r.width))
      + When(r.spacing > 0, Spacing(r.spacing)) + When(r.width > 0, RouteDirection(r.horizontal))
      + [LayerClose(r.canonName)]
  {
  }

  /** Only ROUTING blocks carry PITCH, WIDTH, SPACING or DIRECTION. */
  lemma NonRouteLayout(r: LayerRecord)
    requires r.cls != ClassRoute
    ensures forall i :: 0 <= i < |LayerBlock(r)| ==>
      var t := LayerBlock(r)[i]; !t.Pitch? && !t.Width? && !t.Spacing? && !t.RouteDirection?
  {
    var b := LayerBlock(r);
    assert |b| <= 4;
    if r.cls == ClassVia && CutAreaOf(r.cutArea) > 0 {
      assert b == [LayerOpen(r.canonName), LayerType("CUT"), CutArea(CutAreaOf(r.cutArea)), LayerClose(r.canonName)];
    }
  }

  /** PITCH appears exactly in a ROUTING block whose pitch is positive, and
      carries that pitch. */
  lemma PitchGating(r: LayerRecord)
    ensures var b := LayerBlock(r);
      && ((exists i :: 0 <= i < |b| && b[i].Pitch?) <==> r.cls == ClassRoute && r.pitch > 0)
      && (forall i :: 0 <= i < |b| && b[i].Pitch? ==> b[i].pitch == r.pitch)
  {
    var b := LayerBlock(r);
    if r.cls == ClassRoute {
      RouteLayout(r);
      var p := When(r.pitch > 0, Pitch(r.pitch));
      if r.pitch > 0 { assert b[2].Pitch?; }
      forall i | 0 <= i < |b| && b[i].Pitch?
        ensures i == 2 && r.pitch > 0 && b[i].pitch == r.pitch
      {
        if 2 <= i < 2 + |p| {
          assert b[i] == p[i - 2];
        }
      }
    } else {
      NonRouteLayout(r);
    }
  }

  /** SPACING appears exactly in a ROUTING block whose spacing is positive,
      and carries that spacing. */
  lemma SpacingGating(r: LayerRecord)
    ensures var b := LayerBlock(r);
      && ((exists i :: 0 <= i < |b| && b[i].Spacing?) <==> r.cls == ClassRoute && r.spacing > 0)
      && (forall i :: 0 <= i < |b| && b[i].Spacing? ==> b[i].spacing == r.spacing)
  {
    var b := LayerBlock(r);
    if r.cls == ClassRoute {
      RouteLayout(r);
      var p := When(r.pitch > 0, Pitch(r.pitch));
      var w := When(r.width > 0, Width(r.width));
      var sp := When(r.spacing > 0, Spacing(r.spacing));
      var n := 2 + |p| + |w|;
      if r.spacing > 0 { assert b[n].Spacing?; }
      forall i | 0 <= i < |b| && b[i].Spacing?
        ensures i == n && r.spacing > 0 && b[i].spacing == r.spacing
      {
        if n <= i < n + |sp| {
          assert b[i] == sp[i - n];
        }
      }
    } else {
      NonRouteLayout(r);
    }
  }

  /** WIDTH appears exactly in a ROUTING block whose width is positive, and
      carries that width. */
  lemma WidthGating(r: LayerRecord)
    ensures var b := LayerBlock(r);
      && ((exists i :: 0 <= i < |b| && b[i].Width?) <==> r.cls == ClassRoute && r.width > 0)
      && (forall i :: 0 <= i < |b| && b[i].Width? ==> b[i].width == r.width)
  {
    var b := LayerBlock(r);
    if r.cls == ClassRoute {
      RouteLayout(r);
      var p := When(r.pitch > 0, Pitch(r.pitch));
      var w := When(r.width > 0, Width(r.width));
      var n := 2 + |p|;
      if r.width > 0 { assert b[n].Width?; }
      forall i | 0 <= i < |b| && b[i].Width?
        ensures i == n && r.width > 0 && b[i].width == r.width
      {
        if n <= i < n + |w| {
          assert b[i] == w[i - n];
        }
      }
    } else {
      NonRouteLayout(r);
    }
  }

  /** DIRECTION appears exactly when WIDTH does, with the record's
      orientation: no direction without a known width. */
  lemma DirectionGating(r: LayerRecord)
    ensures var b := LayerBlock(r);
      && ((exists i :: 0 <= i < |b| && b[i].RouteDirection?) <==> r.cls == ClassRoute && r.width > 0)
      && (forall i :: 0 <= i < |b| && b[i].RouteDirection? ==> b[i].horizontal == r.horizontal)
  {
    var b := LayerBlock(r);
    if r.cls == ClassRoute {
      RouteLayout(r);
      var p := When(r.pitch > 0, Pitch(r.pitch));
      var w := When(r.width > 0, Width(r.width));
      var sp := When(r.spacing > 0, Spacing(r.spacing));
      var d := When(r.width > 0, RouteDirection(r.horizontal));
      var n := 2 + |p| + |w| + |sp|;
      if r.width > 0 { assert b[n].RouteDirection?; }
      forall i | 0 <= i < |b| && b[i].RouteDirection?
        ensures i == n && r.width > 0 && b[i].horizontal == r.horizontal
      {
        if n <= i < n + |d| {
          assert b[i] == d[i - n];
        }
      }
    } else {
      NonRouteLayout(r);
    }
  }

  /** Number of LefInfo entries pointing at record k. */
  function Refs(entries: seq<Option<nat>>, k: nat): nat {
    Count(entries, Some(k))
  }

  /** Every record's reference count is the number of entries pointing at it. */
  predicate Consistent(records: seq<LayerRecord>, entries: seq<Option<nat>>) {
    forall k :: 0 <= k < |records| ==> records[k].refCnt == Refs(entries, k)
  }

  predicate NoDup(s: seq<nat>) {
    forall i, j :: 0 <= i < j < |s| ==> s[i] != s[j]
  }

  function Blocks(records: seq<LayerRecord>, ks: seq<nat>): seq<Token>
    requires forall i :: 0 <= i < |ks| ==> ks[i] < |records|
    decreases |ks|
  {
    if ks == [] then [] else Blocks(records, ks[..|ks| - 1]) + LayerBlock(records[ks[|ks| - 1]])
  }

  function Abs(x: int): int { if x < 0 then -x else x }

  lemma TwoOccurrences<T>(s: seq<T>, x: T, a: nat, b: nat)
    requires a < b < |s| && s[a] == x && s[b] == x
    ensures Count(s, x) >= 2
  {
    assert s == s[..b] + s[b..];
    CountConcat(s[..b], s[b..], x);
    assert s[..b][a] == x;
    CountZeroIffAbsent(s[..b], x);
    assert s[b..] == [x] + s[b + 1..];
    CountConcat([x], s[b + 1..], x);
  }

  lemma AppendNoDup(s: seq<nat>, k: nat)
    requires NoDup(s) && k !in s
    ensures NoDup(s + [k])
  {
  }

  /** The count the pass leaves in a record: negated once the record was
      visited with more than one reference. */
  function Marked(r: LayerRecord, seen: bool): int {
    if r.refCnt > 1 && seen then -r.refCnt else r.refCnt
  }

  /** What the first loop has produced so far. */
  datatype PassState = PassState(out: seq<Token>, emitted: seq<nat>, cnt: seq<int>)

  predicate EntriesInRange(records: seq<LayerRecord>, entries: seq<Option<nat>>) {
    forall j :: 0 <= j < |entries| && entries[j].Some? ==> entries[j].value < |records|
  }

  /** One hash entry visited by the first loop. */
  function VisitEntry(records: seq<LayerRecord>, e: Option<nat>, st: PassState): PassState
    requires |st.cnt| == |records| && (e.Some? ==> e.value < |records|)
  {
    if e.None? || st.cnt[e.value] <= 0 then st
    else
      var k := e.value;
      var cnt := if st.cnt[k] > 1 then st.cnt[k := -st.cnt[k]] else st.cnt;
      if Skipped(records[k]) then st.(cnt := cnt)
      else PassState(st.out + LayerBlock(records[k]), st.emitted + [k], cnt)
  }

  /** The loop invariant after the first `j` entries. */
  ghost predicate PassInv(records: seq<LayerRecord>, entries: seq<Option<nat>>, j: nat, st: PassState) {
    && CountsInv(records, entries, j, st.cnt)
    && EmittedInv(records, entries, j, st.emitted)
    && st.out == Blocks(records, st.emitted)
    && (Consistent(records, entries) ==> NoDup(st.emitted))
  }

  /** An entry seen among the first j + 1 is one of the first j or the j-th. */
  lemma SeenStep(entries: seq<Option<nat>>, j: nat, k: nat)
    requires j < |entries|
    ensures Some(k) in entries[..j + 1] <==> Some(k) in entries[..j] || entries[j] == Some(k)
  {
    assert entries[..j + 1] == entries[..j] + [entries[j]];
  }

  ghost predicate CountsInv(records: seq<LayerRecord>, entries: seq<Option<nat>>, j: nat, cnt: seq<int>) {
    && j <= |entries| && |cnt| == |records|
    && forall k :: 0 <= k < |records| ==> cnt[k] == Marked(records[k], Some(k) in entries[..j])
  }

  /** The counts after one more entry. */
  lemma StepCounts(records: seq<LayerRecord>, entries: seq<Option<nat>>, j: nat, st: PassState)
    requires EntriesInRange(records, entries) && j < |entries| && CountsInv(records, entries, j, st.cnt)
    ensures CountsInv(records, entries, j + 1, VisitEntry(records, entries[j], st).cnt)
  {
    var cnt' := VisitEntry(records, entries[j], st).cnt;
    forall k | 0 <= k < |records|
      ensures cnt'[k] == Marked(records[k], Some(k) in entries[..j + 1])
    {
      SeenStep(entries, j, k);
    }
  }

  ghost predicate EmittedInv(records: seq<LayerRecord>, entries: seq<Option<nat>>, j: nat, emitted: seq<nat>) {
    && j <= |entries|
    && (forall i :: 0 <= i < |emitted| ==> emitted[i] < |records|)
    && (forall k :: k in emitted <==>
         (0 <= k < |records| && Some(k) in entries[..j] && records[k].refCnt > 0 && !Skipped(records[k])))
  }

  /** The emitted records after one more entry. */
  lemma StepEmitted(records: seq<LayerRecord>, entries: seq<Option<nat>>, j: nat, st: PassState)
    requires EntriesInRange(records, entries) && j < |entries|
    requires CountsInv(records, entries, j, st.cnt) && EmittedInv(records, entries, j, st.emitted)
    ensures EmittedInv(records, entries, j + 1, VisitEntry(records, entries[j], st).emitted)
  {
    var em' := VisitEntry(records, entries[j], st).emitted;
    forall k: nat
      ensures k in em' <==>
        (0 <= k < |records| && Some(k) in entries[..j + 1] && records[k].refCnt > 0 && !Skipped(records[k]))
    {
      SeenStep(entries, j, k);
    }
  }

  /** The output after one more entry is the blocks of the emitted records. */
  lemma StepOut(records: seq<LayerRecord>, entries: seq<Option<nat>>, j: nat, st: PassState)
    requires EntriesInRange(records, entries) && j < |entries| && |st.cnt| == |records|
    requires forall i :: 0 <= i < |st.emitted| ==> st.emitted[i] < |records|
    requires st.out == Blocks(records, st.emitted)
    ensures var st' := VisitEntry(records, entries[j], st);
      && (forall i :: 0 <= i < |st'.emitted| ==> st'.emitted[i] < |records|)
      && st'.out == Blocks(records, st'.emitted)
  {
    var e := entries[j];
    if e.Some? && st.cnt[e.value] > 0 && !Skipped(records[e.value]) {
      var k := e.value;
      var em := st.emitted + [k];
      assert VisitEntry(records, e, st).emitted == em;
      assert VisitEntry(records, e, st).out == st.out + LayerBlock(records[k]);
      forall i | 0 <= i < |em|
        ensures em[i] < |records|
      {
        if i < |st.emitted| {
          assert em[i] == st.emitted[i];
        }
      }
      assert em[..|st.emitted|] == st.emitted;
      assert Blocks(records, em) == Blocks(records, st.emitted) + LayerBlock(records[k]);
    } else {
      assert VisitEntry(records, e, st).emitted == st.emitted;
      assert VisitEntry(records, e, st).out == st.out;
    }
  }

  /** With consistent counts no record is emitted twice: a second entry for
      a record means a count of two or more, negated at the first entry. */
  lemma StepNoDup(records: seq<LayerRecord>, entries: seq<Option<nat>>, j: nat, st: PassState)
    requires EntriesInRange(records, entries) && j < |entries| && PassInv(records, entries, j, st)
    requires Consistent(records, entries)
    ensures NoDup(VisitEntry(records, entries[j], st).emitted)
  {
    var st' := VisitEntry(records, entries[j], st);
    if st'.emitted != st.emitted {
      var k := entries[j].value;
      assert k !in st.emitted by {
        if k in st.emitted {
          var a :| 0 <= a < j && entries[a] == Some(k);
          TwoOccurrences(entries, Some(k), a, j);
        }
      }
      AppendNoDup(st.emitted, k);
    }
  }

  lemma PassStep(records: seq<LayerRecord>, entries: seq<Option<nat>>, j: nat, st: PassState)
    requires EntriesInRange(records, entries) && j < |entries| && PassInv(records, entries, j, st)
    ensures PassInv(records, entries, j + 1, VisitEntry(records, entries[j], st))
  {
    StepCounts(records, entries, j, st);
    StepEmitted(records, entries, j, st);
    StepOut(records, entries, j, st);
    if Consistent(records, entries) {
      StepNoDup(records, entries, j, st);
    }
  }

  /** The first loop of the layer pass. `entries` is LefInfo in hash order,
      each entry the index of its record (None for an empty value). Returns
      the output, the records that got a block (in output order), and the
      reference counts as the loop leaves them. */
  method LayerPass(records: seq<LayerRecord>, entries: seq<Option<nat>>)
    returns (out: seq<Token>, emitted: seq<nat>, cnt: seq<int>)
    requires EntriesInRange(records, entries)
    ensures forall i :: 0 <= i < |emitted| ==> emitted[i] < |records|
    ensures out == Blocks(records, emitted)
    ensures forall k :: k in emitted <==>
      (0 <= k < |records| && Some(k) in entries && records[k].refCnt > 0 && !Skipped(records[k]))
    ensures Consistent(records, entries) ==> NoDup(emitted)
    ensures |cnt| == |records|
    ensures forall k :: 0 <= k < |records| ==> cnt[k] == Marked(records[k], Some(k) in entries)
  {
    var st := PassState([], [], seq(|records|, k requires 0 <= k < |records| => records[k].refCnt));
    var j := 0;
    while j < |entries|
      invariant PassInv(records, entries, j, st)
    {
      PassStep(records, entries, j, st);
      st := VisitEntry(records, entries[j], st);
      j := j + 1;
    }
    assert entries[..|entries|] == entries;
    out, emitted, cnt := st.out, st.emitted, st.cnt;
  }

  /** The second loop: every negated count is made positive again. */
  method RestoreCounts(records: seq<LayerRecord>, cnt: seq<int>) returns (after: seq<LayerRecord>)
    requires |cnt| == |records|
    ensures |after| == |records|
    ensures forall k :: 0 <= k < |records| ==> after[k] == records[k].(refCnt := Abs(cnt[k]))
  {
    after := [];
    var i := 0;
    while i < |records|
      invariant 0 <= i <= |records|
      invariant |after| == i
      invariant forall k :: 0 <= k < i ==> after[k] == records[k].(refCnt := Abs(cnt[k]))
    {
      after := after + [records[i].(refCnt := if cnt[i] < 0 then -cnt[i] else cnt[i])];
      i := i + 1;
    }
  }

  /** The whole layer section: the records come back with their reference
      counts intact whenever those counts were non-negative to begin with. */
  method WriteLayers(records: seq<LayerRecord>, entries: seq<Option<nat>>)
    returns (out: seq<Token>, emitted: seq<nat>, after: seq<LayerRecord>)
    requires forall j :: 0 <= j < |entries| && entries[j].Some? ==> entries[j].value < |records|
    ensures forall i :: 0 <= i < |emitted| ==> emitted[i] < |records|
    ensures out == Blocks(records, emitted)
    ensures forall k :: k in emitted <==>
      (0 <= k < |records| && Some(k) in entries && records[k].refCnt > 0 && !Skipped(records[k]))
    ensures Consistent(records, entries) ==> NoDup(emitted)
    ensures |after| == |records|
    ensures forall k :: 0 <= k < |records| ==> after[k] == records[k].(refCnt := Abs(records[k].refCnt))
    ensures Consistent(records, entries) ==> after == records
  {
    var cnt;
    out, emitted, cnt := LayerPass(records, entries);
    after := RestoreCounts(records, cnt);
    if Consistent(records, entries) {
      assert forall k :: 0 <= k < |records| ==> after[k] == records[k];
    }
  }
}
