/** Region coordinates, the classification parameters and the per-region
    records that extraction produces and classification consumes. */
module Geometry {

  /** A position on the region grid (one region is 32 x 32 chunks); the same
      pair type is used for chunk coordinates. */
  datatype Coord = Coord(x: int, z: int)

  /** One entry of the region registry: a region and the largest
      InhabitedTime found among its chunks. */
  datatype Record = Record(pos: Coord, maxInhabited: int)

  /** The command-line settings the classifier reads: the map centre, the
      border and spawn radii (in regions) and the inhabited threshold (ticks). */
  datatype Params = Params(center: Coord, border: int, spawn: int, threshold: int)

  function Abs(n: int): nat
  {
    if n < 0 then -n else n
  }

  /** Chebyshev distance max(|dx|, |dz|): the square border and spawn areas. */
  function Chebyshev(a: Coord, b: Coord): (d: nat)
    ensures Abs(a.x - b.x) <= d && Abs(a.z - b.z) <= d
    ensures d == Abs(a.x - b.x) || d == Abs(a.z - b.z)
  {
    if Abs(a.x - b.x) < Abs(a.z - b.z) then Abs(a.z - b.z) else Abs(a.x - b.x)
  }

  /** The coordinates that occur in a registry. */
  function Coords(data: seq<Record>): set<Coord>
  {
    set i | 0 <= i < |data| :: data[i].pos
  }

  /** Records that share a coordinate agree on its value; a registry without
      duplicate coordinates is consistent. */
  predicate Consistent(data: seq<Record>)
  {
    forall i, j :: 0 <= i < |data| && 0 <= j < |data| && data[i].pos == data[j].pos ==>
      data[i].maxInhabited == data[j].maxInhabited
  }
}
