/**
 * The claim/erase protocol of lefWriteMacro. Geometry is modelled as a finite
 * set of units (a type at one grid cell). For each pin in turn the net around
 * the pin is selected from the flattened cell, written out, and then erased
 * from the flattened cell (lefEraseGeometry); the obstruction pass finally
 * works on what is left. The net search is a parameter.
 */
module Claim {
  import opened LefTypes

  /** One unit of paint: a type at one grid cell. */
  datatype Unit = Unit(layer: TileType, x: int, y: int)

  type Geometry = set<Unit>

  /** SelectNet for the k-th pin, run over the current flattened cell. */
  type Selector = (nat, Geometry) -> Geometry

  /** The selection of every pin pass, and the flattened cell afterwards. */
  datatype Claims = Claims(sel: seq<Geometry>, rest: Geometry)

  function UnionAll(gs: seq<Geometry>): Geometry
    decreases |gs|
  {
    if gs == [] then {} else UnionAll(gs[..|gs| - 1]) + gs[|gs| - 1]
  }

  /** The pin passes: each selection is erased before the next pin selects.
      The obstruction pass sees the flattened cell minus every selection. */
  function ClaimPins(flat: Geometry, n: nat, select: Selector): (r: Claims)
    ensures |r.sel| == n
    ensures r.rest == flat - UnionAll(r.sel)
    decreases n
  {
    if n == 0 then Claims([], flat)
    else
      var prev := ClaimPins(flat, n - 1, select);
      var s := select(n - 1, prev.rest);
      assert (prev.sel + [s])[..n - 1] == prev.sel;
      Claims(prev.sel + [s], prev.rest - s)
  }

  /** The net search only ever finds geometry that is still there. */
  ghost predicate DrawsFromCurrent(select: Selector) {
    forall k, g :: select(k, g) <= g
  }

  function SumSizes(gs: seq<Geometry>): nat
    decreases |gs|
  {
    if gs == [] then 0 else SumSizes(gs[..|gs| - 1]) + |gs[|gs| - 1]|
  }

  /** Every pin selection is part of the flattened cell, and the cell is the
      disjoint union of all selections and the rest. */
  lemma {:induction false} ClaimsCoverCell(flat: Geometry, n: nat, select: Selector)
    requires DrawsFromCurrent(select)
    ensures var r := ClaimPins(flat, n, select);
      && (forall i :: 0 <= i < n ==> r.sel[i] <= flat)
      && UnionAll(r.sel) !! r.rest
      && flat == UnionAll(r.sel) + r.rest
    decreases n
  {
    var r := ClaimPins(flat, n, select);
    if n > 0 {
      var prev := ClaimPins(flat, n - 1, select);
      ClaimsCoverCell(flat, n - 1, select);
      var s := select(n - 1, prev.rest);
      assert s <= prev.rest;
      assert r.sel == prev.sel + [s];
      assert r.sel[..n - 1] == prev.sel;
      assert UnionAll(r.sel) == UnionAll(prev.sel) + s;
      assert forall i :: 0 <= i < n - 1 ==> r.sel[i] == prev.sel[i];
    }
  }

  ghost predicate PairwiseDisjoint(gs: seq<Geometry>) {
    forall i, j :: 0 <= i < j < |gs| ==> gs[i] !! gs[j]
  }

  /** No unit is claimed by two pins. */
  lemma {:induction false} ClaimsDisjoint(flat: Geometry, n: nat, select: Selector)
    requires DrawsFromCurrent(select)
    ensures PairwiseDisjoint(ClaimPins(flat, n, select).sel)
    decreases n
  {
    var r := ClaimPins(flat, n, select);
    if n > 0 {
      var prev := ClaimPins(flat, n - 1, select);
      ClaimsDisjoint(flat, n - 1, select);
      var s := select(n - 1, prev.rest);
      assert s <= prev.rest;
      assert r.sel == prev.sel + [s];
      forall i, j | 0 <= i < j < n
        ensures r.sel[i] !! r.sel[j]
      {
        assert r.sel[i] == prev.sel[i];
        if j == n - 1 {
          UnionContains(prev.sel, i);
          assert r.sel[j] == s;
          assert prev.rest == flat - UnionAll(prev.sel);
          assert s !! UnionAll(prev.sel);
          assert forall u :: u in r.sel[i] ==> u !in s;
        } else {
          assert r.sel[j] == prev.sel[j];
          assert PairwiseDisjoint(prev.sel);
        }
      }
    }
  }

  /** Area conservation: the sizes of all selections and of the rest add up
      to the size of the flattened cell, so nothing is counted twice or lost. */
  lemma {:induction false} ClaimsConserveArea(flat: Geometry, n: nat, select: Selector)
    requires DrawsFromCurrent(select)
    ensures var r := ClaimPins(flat, n, select);
      |flat| == SumSizes(r.sel) + |r.rest|
    decreases n
  {
    var r := ClaimPins(flat, n, select);
    if n > 0 {
      var prev := ClaimPins(flat, n - 1, select);
      ClaimsConserveArea(flat, n - 1, select);
      var s := select(n - 1, prev.rest);
      assert r.sel == prev.sel + [s];
      assert r.sel[..n - 1] == prev.sel;
      assert SumSizes(r.sel) == SumSizes(prev.sel) + |s|;
      assert r.rest == prev.rest - s;
      SplitSize(prev.rest, s);
    }
  }

  lemma SplitSize(a: Geometry, b: Geometry)
    requires b <= a
    ensures |a| == |b| + |a - b|
  {
    assert a == b + (a - b);
    assert b !! (a - b);
  }

  lemma {:induction false} UnionContains(gs: seq<Geometry>, i: nat)
    requires i < |gs|
    ensures gs[i] <= UnionAll(gs)
    decreases |gs|
  {
    if i < |gs| - 1 {
      UnionContains(gs[..|gs| - 1], i);
    }
  }
}
