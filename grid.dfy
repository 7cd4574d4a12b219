/** Grid: map coordinates of a `dim × dim` square grid, the four unit
    directions, and the row-major conversion between a coordinate and a cell
    index (`MapCoord_To_Index`, `Index_To_MapCoord`). Coordinates are whole
    numbers; the source carries them in float vectors but only ever stores
    integral values in them. */
module Grid {
  import opened Arith

  datatype Coord = Coord(x: int, y: int)

  const Up := Coord(0, 1)
  const Down := Coord(0, -1)
  const Right := Coord(1, 0)
  const Left := Coord(-1, 0)

  function Add(a: Coord, b: Coord): Coord { Coord(a.x + b.x, a.y + b.y) }
  function Sub(a: Coord, b: Coord): Coord { Coord(a.x - b.x, a.y - b.y) }
  function Neg(a: Coord): Coord { Coord(-a.x, -a.y) }

  /** One of the four axis-aligned unit vectors. */
  predicate IsUnit(d: Coord) {
    d == Up || d == Down || d == Right || d == Left
  }

  predicate InGrid(dim: int, c: Coord) {
    0 <= c.x < dim && 0 <= c.y < dim
  }

  /** `y` rows of `dim` cells. It is `y * dim` (`RowsIsProduct`), written as
      repeated addition so that the proofs that only move between indices
      never meet a product of two unknowns. */
  function Rows(dim: int, y: int): int
    decreases if y < 0 then -y else y
  {
    if y == 0 then 0
    else if y > 0 then Rows(dim, y - 1) + dim
    else Rows(dim, y + 1) - dim
  }

  lemma {:induction false} RowsIsProduct(dim: int, y: int)
    ensures Rows(dim, y) == y * dim
    decreases if y < 0 then -y else y
  {
    if y > 0 {
      RowsIsProduct(dim, y - 1);
    } else if y < 0 {
      RowsIsProduct(dim, y + 1);
    }
  }

  /** The number of cells of a `dim × dim` grid, `dim * dim`; a grid with
      at least one row has at least one cell per row. */
  function CellCount(dim: int): (r: int)
    ensures dim > 0 ==> r >= dim
  {
    RowsIsProduct(dim, dim);
    if dim > 0 then MulAtLeast(dim, dim); Rows(dim, dim) else Rows(dim, dim)
  }

  /** Row-major cell index of a coordinate, `x + y * dim`; a cell of the grid
      gets an index below the number of cells. */
  function MapCoordToIndex(dim: int, c: Coord): (r: int)
    ensures InGrid(dim, c) ==> 0 <= r < CellCount(dim)
  {
    RowsIsProduct(dim, c.y);
    RowsIsProduct(dim, dim);
    IndexInRange(dim, c);
    c.x + Rows(dim, c.y)
  }

  lemma IndexInRange(dim: int, c: Coord)
    ensures InGrid(dim, c) ==> 0 <= c.x + c.y * dim < dim * dim
  {
    if InGrid(dim, c) {
      MulAtMost(c.y, dim - 1, dim);
    }
  }

  lemma MulAtMost(a: int, b: int, k: int)
    requires 0 <= a <= b && k >= 0
    ensures a * k <= b * k
  {
    if a < b {
      if k > 0 {
        MulAtLeast(b - a, k);
      }
      assert b * k - a * k == (b - a) * k;
    }
  }

  /** The coordinate `Index_To_MapCoord` computes for a non-negative index. */
  function CoordOf(dim: int, index: int): Coord
    requires dim > 0
  {
    Coord(index % dim, index / dim)
  }

  /** Converting a grid coordinate to its index and back gives the coordinate. */
  lemma CoordRoundTrip(dim: int, c: Coord)
    requires dim > 0 && InGrid(dim, c)
    ensures CoordOf(dim, MapCoordToIndex(dim, c)) == c
  {
    RowsIsProduct(dim, c.y);
    DivModUnique(c.x + c.y * dim, dim, c.y, c.x);
  }

  /** Every index of the grid is the index of exactly the grid cell `CoordOf` gives. */
  lemma IndexRoundTrip(dim: int, index: int)
    requires dim > 0 && 0 <= index < CellCount(dim)
    ensures InGrid(dim, CoordOf(dim, index))
    ensures MapCoordToIndex(dim, CoordOf(dim, index)) == index
  {
    var q, r := index / dim, index % dim;
    RowsIsProduct(dim, dim);
    RowsIsProduct(dim, q);
    assert index == q * dim + r;
    if q >= dim {
      MulAtMost(dim, q, dim);
    }
  }

  /** Two grid cells share an index exactly when they are the same cell. */
  lemma IndexInjective(dim: int, p: Coord, q: Coord)
    requires dim > 0 && InGrid(dim, p) && InGrid(dim, q)
    ensures MapCoordToIndex(dim, p) == MapCoordToIndex(dim, q) <==> p == q
  {
    CoordRoundTrip(dim, p);
    CoordRoundTrip(dim, q);
  }

  /** A unit step always leaves the cell. */
  lemma UnitStepLeaves(p: Coord, d: Coord)
    requires IsUnit(d)
    ensures Add(p, d) != p
  {
    assert Add(p, d).x != p.x || Add(p, d).y != p.y;
  }

  /** The step from `p` to `Add(p, d)` is `d`. */
  lemma SubOfAdd(p: Coord, d: Coord)
    ensures Sub(Add(p, d), p) == d
  {
  }

  /** Stepping back from where a step led returns to its start. */
  lemma StepBack(p: Coord, d: Coord, q: Coord)
    requires Add(p, d) == q
    ensures Add(q, Neg(d)) == p
  {
  }

  /** `Index_To_MapCoord`: counts how many whole rows fit into the index by
      repeated subtraction; what is left is the column. An index below `dim`
      (negative ones too) stays in row 0. */
  method IndexToMapCoord(dim: int, index: int) returns (coord: Coord)
    requires dim > 0
    ensures index >= 0 ==> coord == CoordOf(dim, index)
    ensures index < dim ==> coord == Coord(index, 0)
  {
    var i := index;
    var y := 0;
    while i >= dim
      invariant y >= 0 && i == index - y * dim
      invariant y > 0 ==> i >= 0
      invariant y == 0 ==> i == index
      decreases i
    {
      i := i - dim;
      y := y + 1;
    }
    coord := Coord(i, y);
    if index >= 0 {
      DivModUnique(index, dim, y, i);
    }
  }
}
