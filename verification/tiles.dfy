/** The tile catalogue: five road tiles, each with one side label per
    direction, and the adjacency rule that compares two labels. */
module Tiles {

  /** Side labels. The solver only ever compares them for equality. */
  datatype Side = Blank | Road

  /** A tile is its four side labels, indexed by direction. The image
      coordinates the source keeps beside them are rendering hints only. */
  datatype Tile = Tile(sides: seq<Side>)

  /** Directions are the integers the source uses to index `sides`. */
  type Direction = d: nat | d < 4

  const North: Direction := 0
  const East: Direction := 1
  const South: Direction := 2
  const West: Direction := 3

  /** The catalogue, in the source's order: blank, top, east, south, west. */
  const Catalogue: seq<Tile> := [
    Tile([Blank, Blank, Blank, Blank]),
    Tile([Road, Road, Blank, Road]),
    Tile([Road, Road, Road, Blank]),
    Tile([Blank, Road, Road, Road]),
    Tile([Road, Blank, Road, Road])
  ]

  /** The number of sides of a tile; the source reads it off the first tile. */
  const SideCount: nat := |Catalogue[0].sides|

  /** Whether `id` names a tile of the catalogue. */
  predicate IsTileId(id: nat) {
    id < |Catalogue|
  }

  /** Every entry names a tile of the catalogue. */
  predicate IdsValid(xs: seq<nat>) {
    forall i :: 0 <= i < |xs| ==> IsTileId(xs[i])
  }

  /** The direction facing `d`: half a turn further round the tile. */
  function Opposite(d: Direction): (r: Direction)
    ensures d == North <==> r == South
    ensures d == East <==> r == West
    ensures d == South <==> r == North
    ensures d == West <==> r == East
  {
    (d + SideCount / 2) % SideCount
  }

  /** The label on side `d` of tile `id`. */
  function SideOf(id: nat, d: Direction): Side
    requires IsTileId(id)
  {
    Catalogue[id].sides[d]
  }

  /** Whether tile `t` may lie on side `d` of tile `c`: the label on c's
      side `d` equals the label on t's opposite side. */
  predicate Compatible(c: nat, d: Direction, t: nat)
    requires IsTileId(c) && IsTileId(t)
    ensures d == North ==> (Compatible(c, d, t) <==> SideOf(c, North) == SideOf(t, South))
    ensures d == East ==> (Compatible(c, d, t) <==> SideOf(c, East) == SideOf(t, West))
    ensures d == South ==> (Compatible(c, d, t) <==> SideOf(c, South) == SideOf(t, North))
    ensures d == West ==> (Compatible(c, d, t) <==> SideOf(c, West) == SideOf(t, East))
  {
    SideOf(c, d) == SideOf(t, Opposite(d))
  }

  /** The adjacency rule seen from the other tile: `t` fits on side `d` of
      `c` exactly when `c` fits on the opposite side of `t`. */
  lemma CompatibleSymmetric(c: nat, d: Direction, t: nat)
    requires IsTileId(c) && IsTileId(t)
    ensures Compatible(c, d, t) <==> Compatible(t, Opposite(d), c)
  {
    assert Opposite(Opposite(d)) == d;
  }

  /** Every tile id of the catalogue, ascending. */
  function AllTileIds(): (r: seq<nat>)
    ensures |r| == |Catalogue|
    ensures forall i :: 0 <= i < |r| ==> r[i] == i
  {
    seq(|Catalogue|, i => i)
  }
}
