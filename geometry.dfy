/** Cells, the eight moves of the search and their costs, and the occupancy grid. */
module Geometry {

  /** A grid coordinate (row, column). */
  datatype Cell = Cell(row: int, col: int)

  /** A move (row change, column change). */
  datatype Offset = Offset(dr: int, dc: int)

  /** The eight moves the search tries from every cell, in the order it tries them. */
  const NEIGHBORS: seq<Offset> :=
    [Offset(0, 1), Offset(0, -1), Offset(1, 0), Offset(-1, 0),
     Offset(1, 1), Offset(1, -1), Offset(-1, 1), Offset(-1, -1)]

  /** The cost of a diagonal move: the shortest decimal form of the float64 square root
      of two, slightly above the square root of two itself. */
  const DIAGONAL_COST: real := 1.4142135623730951

  function Move(c: Cell, o: Offset): Cell {
    Cell(c.row + o.dr, c.col + o.dc)
  }

  /** The square root of dr^2 + dc^2 for the two lengths a move can have. */
  function MoveCost(o: Offset): (cost: real)
    requires o in NEIGHBORS
    ensures cost >= 1.0
    ensures cost == 1.0 <==> o.dr == 0 || o.dc == 0
    ensures cost == DIAGONAL_COST <==> o.dr != 0 && o.dc != 0
  {
    if o.dr * o.dr + o.dc * o.dc == 1 then 1.0 else DIAGONAL_COST
  }

  /** Two distinct cells that touch by a side or a corner (a king's move). */
  predicate Adjacent(a: Cell, b: Cell) {
    a != b && -1 <= b.row - a.row <= 1 && -1 <= b.col - a.col <= 1
  }

  /** NEIGHBORS lists exactly the king's moves: each of its moves reaches an adjacent
      cell, and every adjacent cell is reached by one of them. */
  lemma NeighborsAreKingMoves(a: Cell, b: Cell)
    ensures Adjacent(a, b) <==> exists k :: 0 <= k < |NEIGHBORS| && Move(a, NEIGHBORS[k]) == b
  {
    if Adjacent(a, b) {
      var o := Offset(b.row - a.row, b.col - a.col);
      var k := if o.dr == 0 then (if o.dc == 1 then 0 else 1)
               else if o.dc == 0 then (if o.dr == 1 then 2 else 3)
               else if o.dr == 1 then (if o.dc == 1 then 4 else 5)
               else (if o.dc == 1 then 6 else 7);
      assert NEIGHBORS[k] == o;
      assert Move(a, NEIGHBORS[k]) == b;
    }
  }

  predicate InBounds(grid: array2<int>, c: Cell) {
    0 <= c.row < grid.Length0 && 0 <= c.col < grid.Length1
  }

  /** A cell the search may enter: inside the grid and not an obstacle (value 1). */
  predicate Walkable(grid: array2<int>, c: Cell)
    reads grid
  {
    InBounds(grid, c) && grid[c.row, c.col] != 1
  }
}
