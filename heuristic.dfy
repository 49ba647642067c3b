/** The search's heuristic: the straight-line (Euclidean) distance between two cells.
    Dafny has no square root, so the heuristic is characterised rather than computed: it
    is non-negative and its square is the squared distance. The search itself takes the
    heuristic as a parameter; this module proves what that characterisation gives,
    including consistency and admissibility. */
module Heuristic {
  import opened Geometry
  import opened PathFinder

  /** (b.row - a.row)^2 + (b.col - a.col)^2: zero exactly for the same cell. */
  function SquaredDistance(a: Cell, b: Cell): (d: int)
    ensures d >= 0
    ensures d == 0 <==> a == b
  {
    var dr, dc := b.row - a.row, b.col - a.col;
    assert dr * dr >= 0 && dc * dc >= 0;
    assert dr != 0 ==> dr * dr > 0;
    assert dc != 0 ==> dc * dc > 0;
    dr * dr + dc * dc
  }

  /** h is the square root of the squared distance, for every pair of cells. */
  ghost predicate IsEuclidean(h: (Cell, Cell) -> real) {
    forall a, b :: h(a, b) >= 0.0 && h(a, b) * h(a, b) == SquaredDistance(a, b) as real
  }

  /** The squared distance as a real, written over the real coordinate differences. */
  lemma {:induction false} SquaredDistanceAsReal(a: Cell, b: Cell)
    ensures SquaredDistance(a, b) as real
            == (b.row - a.row) as real * (b.row - a.row) as real
               + (b.col - a.col) as real * (b.col - a.col) as real
  {
    var dr, dc := b.row - a.row, b.col - a.col;
    assert (dr * dr) as real == dr as real * dr as real;
    assert (dc * dc) as real == dc as real * dc as real;
  }

  lemma MulPositive(a: real, b: real)
    requires a > 0.0 && b > 0.0
    ensures a * b > 0.0
  {
  }

  /** A larger non-negative number has a larger square. */
  lemma {:induction false} SquareStrict(x: real, y: real)
    requires x >= 0.0 && y >= 0.0
    ensures x > y ==> x * x > y * y
  {
    if x > y {
      assert x * x - y * y == (x - y) * (x + y);
      MulPositive(x - y, x + y);
    }
  }

  /** Squaring is monotone on the non-negative reals, so it can be undone. */
  lemma {:induction false} SquareMonotone(x: real, y: real)
    requires x >= 0.0 && y >= 0.0 && x * x <= y * y
    ensures x <= y
  {
    SquareStrict(x, y);
  }

  /** Lagrange's identity gives Cauchy-Schwarz in the plane: the dot product squared is
      at most the product of the squared lengths. */
  lemma {:induction false} CauchySchwarz(u1: real, u2: real, v1: real, v2: real)
    ensures (u1 * v1 + u2 * v2) * (u1 * v1 + u2 * v2) <= (u1 * u1 + u2 * u2) * (v1 * v1 + v2 * v2)
  {
    var cross := u1 * v2 - u2 * v1;
    assert cross * cross >= 0.0;
    assert (u1 * u1 + u2 * u2) * (v1 * v1 + v2 * v2)
           == (u1 * v1 + u2 * v2) * (u1 * v1 + u2 * v2) + cross * cross;
  }

  /** With x and y the lengths of u and v, the dot product of u and v is at most x * y. */
  lemma {:induction false} DotBound(u1: real, u2: real, v1: real, v2: real, x: real, y: real)
    requires x >= 0.0 && x * x == u1 * u1 + u2 * u2
    requires y >= 0.0 && y * y == v1 * v1 + v2 * v2
    ensures u1 * v1 + u2 * v2 <= x * y
  {
    var dot, p := u1 * v1 + u2 * v2, x * y;
    assert p >= 0.0;
    if dot > 0.0 {
      CauchySchwarz(u1, u2, v1, v2);
      assert p * p == (x * x) * (y * y);
      SquareMonotone(dot, p);
    }
  }

  /** The Euclidean heuristic does not depend on the order of its arguments. */
  lemma EuclideanSymmetric(h: (Cell, Cell) -> real, a: Cell, b: Cell)
    requires IsEuclidean(h)
    ensures h(a, b) == h(b, a)
  {
    assert SquaredDistance(a, b) == SquaredDistance(b, a) by {
      assert (a.row - b.row) * (a.row - b.row) == (b.row - a.row) * (b.row - a.row);
      assert (a.col - b.col) * (a.col - b.col) == (b.col - a.col) * (b.col - a.col);
    }
    SquareMonotone(h(a, b), h(b, a));
    SquareMonotone(h(b, a), h(a, b));
  }

  /** The heuristic is zero exactly at the goal itself. */
  lemma EuclideanZero(h: (Cell, Cell) -> real, a: Cell, b: Cell)
    requires IsEuclidean(h)
    ensures h(a, b) == 0.0 <==> a == b
  {
    var x := h(a, b);
    assert x >= 0.0 && x * x == SquaredDistance(a, b) as real;
    SquareStrict(x, 0.0);
  }

  /** Across one move the heuristic is at most the move's cost: exactly 1 for a straight
      move, and below DIAGONAL_COST for a diagonal one, since DIAGONAL_COST squared
      exceeds 2. */
  lemma EuclideanStep(h: (Cell, Cell) -> real, c: Cell, o: Offset)
    requires IsEuclidean(h) && o in NEIGHBORS
    ensures h(c, Move(c, o)) <= MoveCost(o)
    ensures o.dr == 0 || o.dc == 0 ==> h(c, Move(c, o)) == 1.0
  {
    var x := h(c, Move(c, o));
    assert x >= 0.0 && x * x == SquaredDistance(c, Move(c, o)) as real;
    if o.dr == 0 || o.dc == 0 {
      assert x * x == 1.0;
      SquareMonotone(x, 1.0);
      SquareMonotone(1.0, x);
    } else {
      assert x * x == 2.0;
      assert 2.0 <= DIAGONAL_COST * DIAGONAL_COST;
      SquareMonotone(x, DIAGONAL_COST);
    }
  }

  /** The triangle inequality for the Euclidean distance. */
  lemma EuclideanTriangle(h: (Cell, Cell) -> real, a: Cell, b: Cell, c: Cell)
    requires IsEuclidean(h)
    ensures h(a, c) <= h(a, b) + h(b, c)
  {
    var x, y, z := h(a, b), h(b, c), h(a, c);
    var u1, u2 := (b.row - a.row) as real, (b.col - a.col) as real;
    var v1, v2 := (c.row - b.row) as real, (c.col - b.col) as real;
    SquaredDistanceAsReal(a, b);
    SquaredDistanceAsReal(b, c);
    SquaredDistanceAsReal(a, c);
    assert x >= 0.0 && x * x == u1 * u1 + u2 * u2;
    assert y >= 0.0 && y * y == v1 * v1 + v2 * v2;
    assert z >= 0.0 && z * z == (u1 + v1) * (u1 + v1) + (u2 + v2) * (u2 + v2);
    DotBound(u1, u2, v1, v2, x, y);
    assert z * z <= (x + y) * (x + y);
    SquareMonotone(z, x + y);
  }

  /** The Euclidean heuristic is consistent: one move never lowers h by more than the
      move's cost. */
  lemma EuclideanConsistent(h: (Cell, Cell) -> real, a: Cell, o: Offset, goal: Cell)
    requires IsEuclidean(h) && o in NEIGHBORS
    ensures h(a, goal) <= MoveCost(o) + h(Move(a, o), goal)
  {
    EuclideanTriangle(h, a, Move(a, o), goal);
    EuclideanStep(h, a, o);
  }

  /** The cost of one step between adjacent cells: 1 straight, DIAGONAL_COST diagonally. */
  function StepCost(a: Cell, b: Cell): real {
    if a.row == b.row || a.col == b.col then 1.0 else DIAGONAL_COST
  }

  /** The cell a walk from start ends on. */
  function End(start: Cell, path: seq<Cell>): Cell {
    if path == [] then start else path[|path| - 1]
  }

  /** The cost of a walk from start: the sum of its step costs. Every step costs at least
      1, and a walk made only of straight steps costs exactly its number of steps. */
  function WalkCost(start: Cell, path: seq<Cell>): (cost: real)
    ensures cost >= |path| as real
  {
    if path == [] then 0.0
    else
      var prefix := path[..|path| - 1];
      WalkCost(start, prefix) + StepCost(End(start, prefix), path[|path| - 1])
  }

  /** The step the walk takes into path[|path| - 1] is one of the eight moves, and costs
      what the search charges for that move. */
  lemma {:induction false} LastStepIsMove(start: Cell, path: seq<Cell>)
    requires IsWalk(start, path) && path != []
    ensures var b := End(start, path[..|path| - 1]);
      exists k :: 0 <= k < |NEIGHBORS| && Move(b, NEIGHBORS[k]) == path[|path| - 1]
                  && MoveCost(NEIGHBORS[k]) == StepCost(b, path[|path| - 1])
  {
    var prefix, c := path[..|path| - 1], path[|path| - 1];
    var b := End(start, prefix);
    assert Before(start, path, |path| - 1) == b;
    NeighborsAreKingMoves(b, c);
    var k :| 0 <= k < |NEIGHBORS| && Move(b, NEIGHBORS[k]) == c;
    assert MoveCost(NEIGHBORS[k]) == StepCost(b, c);
  }

  /** The Euclidean heuristic is admissible: from a, it never exceeds the cost of any walk
      to the cell the walk ends on. */
  lemma {:induction false} EuclideanAdmissible(h: (Cell, Cell) -> real, a: Cell, path: seq<Cell>)
    requires IsEuclidean(h) && IsWalk(a, path)
    ensures h(a, End(a, path)) <= WalkCost(a, path)
  {
    if path == [] {
      EuclideanZero(h, a, a);
    } else {
      var prefix, c := path[..|path| - 1], path[|path| - 1];
      var b := End(a, prefix);
      assert IsWalk(a, prefix) by {
        forall i | 0 <= i < |prefix| ensures Adjacent(Before(a, prefix, i), prefix[i]) {
          assert Before(a, prefix, i) == Before(a, path, i);
        }
      }
      EuclideanAdmissible(h, a, prefix);
      LastStepIsMove(a, path);
      var k :| 0 <= k < |NEIGHBORS| && Move(b, NEIGHBORS[k]) == c
               && MoveCost(NEIGHBORS[k]) == StepCost(b, c);
      EuclideanStep(h, b, NEIGHBORS[k]);
      EuclideanTriangle(h, a, b, c);
    }
  }
}
