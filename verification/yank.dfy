/**
 * lefYankGeometry: the callback that copies one selected tile into the yank
 * buffer under the routing types it stands for. A marked tile is skipped. A
 * plain layer qualifies when its type is a routing type. A contact is
 * decomposed into its residue types and painted once for every residue type,
 * in ascending order from TT_TECHDEPBASE, that is a routing type; in both
 * cases painting happens only for types with a LEF layer.
 */
module Yank {
  import opened LefTypes

  /** Technology facts the callback consults: DBNumTypes, DBIsContact and
      DBFullResidueMask. */
  datatype Tech = Tech(numTypes: int, isContact: TileType -> bool, residues: TileType -> set<TileType>)

  /** The tile painted into the yank buffer for type `t`: the same area, and
      for a split tile only the half being yanked carries the type. */
  function YankedTile(src: Tile, t: TileType): (y: Tile)
    ensures y.rect == src.rect && !y.marked && TypeOf(y.body) == t
    ensures y.body.Diagonal? <==> src.body.Diagonal?
    ensures src.body.Diagonal? ==>
      && y.body.side == src.body.side && y.body.direction == src.body.direction
      && (if y.body.side then y.body.left else y.body.right) == Space
  {
    match src.body
    case Plain(_) => Tile(src.rect, Plain(t), false)
    case Diagonal(_, _, side, direction) =>
      Tile(src.rect, Diagonal(if side then Space else t, if side then t else Space, side, direction), false)
  }

  /** The types a contact of type `c` is painted as. */
  function ContactLayers(c: TileType, rmask: set<TileType>, lmap: LayerMap, tech: Tech): set<TileType> {
    set x | TechDepBase <= x < tech.numTypes && x in tech.residues(c) && x in rmask && lmap(x).Some?
  }

  /** The sequence of types painted for tile `t` (each as YankedTile(t, type)). */
  method YankGeometry(t: Tile, rmask: set<TileType>, lmap: LayerMap, tech: Tech) returns (types: seq<TileType>)
    ensures t.marked ==> types == []
    ensures !t.marked && !tech.isContact(TypeOf(t.body)) ==>
      var ty := TypeOf(t.body);
      types == (if ty in rmask && ty < tech.numTypes && lmap(ty).Some? then [ty] else [])
    ensures !t.marked && tech.isContact(TypeOf(t.body)) ==>
      && (forall i, j :: 0 <= i < j < |types| ==> types[i] < types[j])
      && (forall x :: x in types <==> x in ContactLayers(TypeOf(t.body), rmask, lmap, tech))
  {
    if t.marked {
      return [];
    }
    var otype := TypeOf(t.body);
    var ty := otype;
    var sMask: set<TileType> := {};
    var iscut: bool;
    if tech.isContact(ty) {
      sMask := tech.residues(ty);
      ty := TechDepBase;
      while ty < tech.numTypes && !(ty in sMask && ty in rmask)
        invariant TechDepBase <= ty
        invariant forall x :: TechDepBase <= x < ty ==> !(x in sMask && x in rmask)
        decreases tech.numTypes - ty
      {
        ty := ty + 1;
      }
      if ty == tech.numTypes {
        return [];
      }
      iscut := true;
    } else {
      if ty !in rmask {
        return [];
      }
      iscut := false;
    }
    types := [];
    while ty < tech.numTypes
      invariant iscut <==> tech.isContact(otype)
      invariant !iscut ==> ty == otype && types == [] && ty in rmask
      invariant iscut ==> sMask == tech.residues(otype) && TechDepBase <= ty
      invariant iscut && ty < tech.numTypes ==> ty in sMask && ty in rmask
      invariant forall i, j :: 0 <= i < j < |types| ==> types[i] < types[j]
      invariant forall i :: 0 <= i < |types| ==> types[i] < ty
      invariant iscut ==> forall x :: x in types <==>
        (TechDepBase <= x < ty && x < tech.numTypes && x in sMask && x in rmask && lmap(x).Some?)
      decreases tech.numTypes - ty
    {
      if lmap(ty).Some? {
        types := types + [ty];
      }
      if !iscut {
        break;
      }
      ty := ty + 1;
      while ty < tech.numTypes && !(ty in sMask && ty in rmask)
        invariant TechDepBase <= ty
        invariant forall i :: 0 <= i < |types| ==> types[i] < ty
        invariant forall x :: x in types <==>
          (TechDepBase <= x < ty && x < tech.numTypes && x in sMask && x in rmask && lmap(x).Some?)
        decreases tech.numTypes - ty
      {
        ty := ty + 1;
      }
    }
  }
}
