/** The bookkeeping of one A* call (g- and f-scores, predecessors, closed set, open
    heap), the relaxation of one edge, and the invariant the search keeps. */
module Search {
  import opened Geometry
  import opened OpenList

  datatype SearchState = SearchState(
    oheap: seq<Entry>,
    closeSet: set<Cell>,
    cameFrom: map<Cell, Cell>,
    gScore: map<Cell, real>,
    fScore: map<Cell, real>)

  /** Python's dict.get(k, default). */
  function Get(m: map<Cell, real>, k: Cell, default: real): real {
    if k in m then m[k] else default
  }

  /** The state before the first pop: start scored 0 and pushed with f = h(start, goal). */
  function Initial(start: Cell, goal: Cell, h: (Cell, Cell) -> real): (s: SearchState)
    ensures s.oheap == [Entry(h(start, goal), start)]
    ensures s.closeSet == {} && s.cameFrom == map[]
    ensures s.gScore == map[start := 0.0] && s.fScore == map[start := h(start, goal)]
  {
    SearchState([Entry(h(start, goal), start)], {}, map[], map[start := 0.0], map[start := h(start, goal)])
  }

  /** Cell x has the same g-score, f-score and predecessor (or lack of them) in s and t. */
  predicate SameAt(s: SearchState, t: SearchState, x: Cell) {
    && (x in s.gScore <==> x in t.gScore)
    && (x in s.gScore ==> s.gScore[x] == t.gScore[x])
    && (x in s.fScore <==> x in t.fScore)
    && (x in s.fScore ==> s.fScore[x] == t.fScore[x])
    && (x in s.cameFrom <==> x in t.cameFrom)
    && (x in s.cameFrom ==> s.cameFrom[x] == t.cameFrom[x])
  }

  /** One pass of the neighbour loop: the edge from current through offset o. A cell's
      g-score is only ever set lower than it was (or set for the first time), and its
      predecessor and f-score change only together with such a decrease, which also
      pushes the cell onto the heap. */
  function Relax(grid: array2<int>, goal: Cell, h: (Cell, Cell) -> real,
                 s: SearchState, current: Cell, o: Offset): (r: SearchState)
    reads grid
    requires current in s.gScore && o in NEIGHBORS
    ensures r.closeSet == s.closeSet
    ensures forall x :: x != Move(current, o) ==> SameAt(s, r, x)
    ensures SameAt(s, r, Move(current, o)) ==> r == s
    ensures !SameAt(s, r, Move(current, o)) ==>
      var nb, g := Move(current, o), s.gScore[current] + MoveCost(o);
      && Walkable(grid, nb)
      && (nb !in s.gScore || g < s.gScore[nb])
      && !(nb in s.closeSet && g >= Get(s.gScore, nb, 0.0))
      && nb in r.gScore && r.gScore[nb] == g
      && nb in r.cameFrom && r.cameFrom[nb] == current
      && nb in r.fScore && r.fScore[nb] == g + h(nb, goal)
      && r.oheap == s.oheap + [Entry(g + h(nb, goal), nb)]
    ensures Walkable(grid, Move(current, o))
            && (Move(current, o) !in s.gScore || s.gScore[current] + MoveCost(o) < s.gScore[Move(current, o)])
            && !(Move(current, o) in s.closeSet
                 && s.gScore[current] + MoveCost(o) >= Get(s.gScore, Move(current, o), 0.0))
            ==> !SameAt(s, r, Move(current, o))
  {
    var nb := Move(current, o);
    if !InBounds(grid, nb) then s
    else if grid[nb.row, nb.col] == 1 then s
    else
      var tentative := s.gScore[current] + MoveCost(o);
      if nb in s.closeSet && tentative >= Get(s.gScore, nb, 0.0) then s
      else if nb !in s.gScore || tentative < s.gScore[nb] then
        var f := tentative + h(nb, goal);
        s.(cameFrom := s.cameFrom[nb := current],
           gScore := s.gScore[nb := tentative],
           fScore := s.fScore[nb := f],
           oheap := s.oheap + [Entry(f, nb)])
      else s
  }

  /** Every predecessor link joins adjacent cells and goes to a strictly smaller g-score. */
  ghost predicate PredecessorsOrdered(cameFrom: map<Cell, Cell>, gScore: map<Cell, real>) {
    forall x {:trigger cameFrom[x]} | x in cameFrom ::
      && x in gScore
      && cameFrom[x] in gScore
      && gScore[cameFrom[x]] < gScore[x]
      && Adjacent(cameFrom[x], x)
  }

  /** What holds of the search state before every pop. */
  ghost predicate Inv(grid: array2<int>, start: Cell, goal: Cell, h: (Cell, Cell) -> real,
                      s: SearchState)
    reads grid
  {
    && start in s.gScore && s.gScore[start] == 0.0
    && start !in s.cameFrom
    && s.fScore.Keys == s.gScore.Keys
    && (forall x | x in s.gScore :: s.gScore[x] >= 0.0 && s.fScore[x] == s.gScore[x] + h(x, goal))
    && (forall x | x in s.gScore && x != start :: x in s.cameFrom && Walkable(grid, x))
    && PredecessorsOrdered(s.cameFrom, s.gScore)
    && (forall e | e in s.oheap :: e.cell in s.gScore)
  }

  lemma InitialInv(grid: array2<int>, start: Cell, goal: Cell, h: (Cell, Cell) -> real)
    ensures Inv(grid, start, goal, h, Initial(start, goal, h))
  {
  }

  /** Relaxing an edge keeps the predecessor links ordered: the neighbour's new link goes
      to current, whose score is lower by the cost of the move, and a cell whose
      predecessor is the neighbour only sees that predecessor's score drop. */
  lemma RelaxKeepsOrder(grid: array2<int>, start: Cell, goal: Cell, h: (Cell, Cell) -> real,
                        s: SearchState, current: Cell, o: Offset)
    requires Inv(grid, start, goal, h, s)
    requires current in s.gScore && o in NEIGHBORS
    ensures var r := Relax(grid, goal, h, s, current, o);
      PredecessorsOrdered(r.cameFrom, r.gScore)
  {
    var r := Relax(grid, goal, h, s, current, o);
    var nb := Move(current, o);
    if !SameAt(s, r, nb) {
      assert nb != current && Adjacent(current, nb);
      forall x | x in r.cameFrom
        ensures x in r.gScore && r.cameFrom[x] in r.gScore
        ensures r.gScore[r.cameFrom[x]] < r.gScore[x] && Adjacent(r.cameFrom[x], x)
      {
        if x != nb {
          assert SameAt(s, r, x);
          var p := s.cameFrom[x];
          if p != nb {
            assert SameAt(s, r, p);
          }
        }
      }
    }
  }

  /** Relaxing an edge keeps the invariant and never pushes start again: start keeps
      g = 0, which no path through a move of cost at least 1 can beat. */
  lemma RelaxKeepsInv(grid: array2<int>, start: Cell, goal: Cell, h: (Cell, Cell) -> real,
                      s: SearchState, current: Cell, o: Offset)
    requires Inv(grid, start, goal, h, s)
    requires current in s.gScore && o in NEIGHBORS
    ensures Inv(grid, start, goal, h, Relax(grid, goal, h, s, current, o))
    ensures forall e | e in Relax(grid, goal, h, s, current, o).oheap :: e in s.oheap || e.cell != start
  {
    var r := Relax(grid, goal, h, s, current, o);
    var nb := Move(current, o);
    RelaxKeepsOrder(grid, start, goal, h, s, current, o);
    if !SameAt(s, r, nb) {
      assert nb != start;
      forall x | x in r.gScore
        ensures r.gScore[x] >= 0.0 && r.fScore[x] == r.gScore[x] + h(x, goal)
        ensures x != start ==> x in r.cameFrom && Walkable(grid, x)
      {
        if x != nb { assert SameAt(s, r, x); }
      }
      assert SameAt(s, r, start);
      assert r.fScore.Keys == r.gScore.Keys by {
        forall x ensures x in r.fScore <==> x in r.gScore {
          if x != nb { assert SameAt(s, r, x); }
        }
      }
    }
  }
}
