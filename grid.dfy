/** Integer cells of the voxel world, relative moves between them and the
    movement cost the search charges for a move. */
module Grid {

  /** A cell of the world, by its block coordinates. */
  datatype Coord = Coord(x: int, y: int, z: int)

  /** One entry of a candidate table: a relative move {dx, dy, dz}. */
  datatype Offset = Offset(dx: int, dy: int, dz: int)

  function Abs(n: int): nat
  {
    if n < 0 then -n else n
  }

  /** The cell reached from `c` by the move `o`. */
  function Shift(c: Coord, o: Offset): Coord
  {
    Coord(c.x + o.dx, c.y + o.dy, c.z + o.dz)
  }

  /** Number of single-axis unit steps a move consists of. */
  function Length(o: Offset): nat
  {
    Abs(o.dx) + Abs(o.dy) + Abs(o.dz)
  }

  /** A move along exactly one axis by exactly one block. */
  predicate IsUnitStep(o: Offset)
  {
    (Abs(o.dx) == 1 && o.dy == 0 && o.dz == 0) ||
    (o.dx == 0 && Abs(o.dy) == 1 && o.dz == 0) ||
    (o.dx == 0 && o.dy == 0 && Abs(o.dz) == 1)
  }

  /** getCostNodeToNode: one unit for every adjacent block to traverse,
      no diagonals. It is zero exactly between equal cells. */
  function Manhattan(a: Coord, b: Coord): (d: nat)
    ensures d == 0 <==> a == b
  {
    Abs(a.x - b.x) + Abs(a.y - b.y) + Abs(a.z - b.z)
  }

  lemma ManhattanSymmetric(a: Coord, b: Coord)
    ensures Manhattan(a, b) == Manhattan(b, a)
  {
  }

  /** The cost of a move is its length, wherever it starts. */
  lemma ManhattanOfShift(c: Coord, o: Offset)
    ensures Manhattan(c, Shift(c, o)) == Length(o)
    ensures Manhattan(Shift(c, o), c) == Length(o)
  {
  }

  /** A single-axis unit step costs exactly 1. */
  lemma ManhattanUnitStep(c: Coord, o: Offset)
    requires IsUnitStep(o)
    ensures Manhattan(c, Shift(c, o)) == 1
  {
    ManhattanOfShift(c, o);
  }
}
