/** A* search over an occupancy grid with eight-way moves: the main loop that pops the
    open heap, records the exploration trace and relaxes the neighbours of each popped
    cell, and the walk back along the predecessor links that builds the path. */
module PathFinder {
  import opened Geometry
  import opened OpenList
  import opened Search
  import opened SearchProgress

  /** Python's s[::-1]. */
  function Reversed(s: seq<Cell>): (r: seq<Cell>)
    ensures |r| == |s|
    ensures forall k :: 0 <= k < |s| ==> r[k] == s[|s| - 1 - k]
  {
    if s == [] then [] else Reversed(s[1..]) + [s[0]]
  }

  /** The cell a walk from start is on before it steps to path[i]. */
  function Before(start: Cell, path: seq<Cell>, i: int): Cell
    requires 0 <= i < |path|
  {
    if i == 0 then start else path[i - 1]
  }

  /** Each cell of path touches the one before it, the first one touching start. */
  predicate IsWalk(start: Cell, path: seq<Cell>) {
    forall i | 0 <= i < |path| :: Adjacent(Before(start, path, i), path[i])
  }

  /** b is one of the eight moves away from a. */
  predicate IsMove(a: Cell, b: Cell) {
    exists k :: 0 <= k < |NEIGHBORS| && Move(a, NEIGHBORS[k]) == b
  }

  /** Every step of a walk is one of the eight moves the search tries. */
  lemma WalkStepsAreMoves(start: Cell, path: seq<Cell>)
    requires IsWalk(start, path)
    ensures forall i | 0 <= i < |path| :: IsMove(Before(start, path, i), path[i])
  {
    forall i | 0 <= i < |path| ensures IsMove(Before(start, path, i), path[i]) {
      NeighborsAreKingMoves(Before(start, path, i), path[i]);
    }
  }

  predicate Distinct(path: seq<Cell>) {
    forall i, j | 0 <= i < j < |path| :: path[i] != path[j]
  }

  /** The cells with a g-score below that of x: the walk back shrinks this set. */
  ghost function Below(gScore: map<Cell, real>, x: Cell): set<Cell>
    requires x in gScore
  {
    set y | y in gScore && gScore[y] < gScore[x]
  }

  /** rev is the walk back from goal so far and current the cell reached: each cell of rev
      has current's successor as its predecessor, and g-scores fall along rev. */
  ghost predicate BackChain(cameFrom: map<Cell, Cell>, gScore: map<Cell, real>, goal: Cell,
                            rev: seq<Cell>, current: Cell)
  {
    && current in gScore
    && (rev == [] ==> current == goal)
    && (rev != [] ==> rev[0] == goal && rev[|rev| - 1] in cameFrom && cameFrom[rev[|rev| - 1]] == current)
    && (forall i | 0 <= i < |rev| :: rev[i] in cameFrom && rev[i] in gScore && gScore[current] < gScore[rev[i]])
    && (forall i | 0 <= i < |rev| - 1 :: cameFrom[rev[i]] == rev[i + 1])
    && (forall i, j | 0 <= i < j < |rev| :: gScore[rev[j]] < gScore[rev[i]])
  }

  lemma BackChainStep(cameFrom: map<Cell, Cell>, gScore: map<Cell, real>, goal: Cell,
                      rev: seq<Cell>, current: Cell)
    requires PredecessorsOrdered(cameFrom, gScore)
    requires BackChain(cameFrom, gScore, goal, rev, current) && current in cameFrom
    ensures BackChain(cameFrom, gScore, goal, rev + [current], cameFrom[current])
  {
  }

  /** Reversing a finished walk back gives a walk out of start that climbs in g-score. */
  lemma BackChainReversed(cameFrom: map<Cell, Cell>, gScore: map<Cell, real>, start: Cell,
                          goal: Cell, rev: seq<Cell>)
    requires PredecessorsOrdered(cameFrom, gScore)
    requires BackChain(cameFrom, gScore, goal, rev, start)
    ensures var path := Reversed(rev);
      && (path != [] ==> path[|path| - 1] == goal)
      && IsWalk(start, path)
      && (forall i | 0 <= i < |path| :: path[i] in cameFrom)
      && (forall i, j | 0 <= i < j < |path| :: gScore[path[i]] < gScore[path[j]])
      && Distinct(path) && start !in path
  {
    var path := Reversed(rev);
    var n := |rev|;
    forall i | 0 <= i < n
      ensures Adjacent(Before(start, path, i), path[i])
    {
      assert path[i] == rev[n - 1 - i];
      if i > 0 {
        assert path[i - 1] == rev[n - i] == cameFrom[rev[n - 1 - i]];
      }
    }
    forall i, j | 0 <= i < j < n ensures gScore[path[i]] < gScore[path[j]] {
      assert path[i] == rev[n - 1 - i] && path[j] == rev[n - 1 - j];
    }
  }

  /** Follows the predecessor links back from goal until a cell without one (which is
      start), then reverses. The path climbs strictly in g-score, so it has no repeated
      cell, leaves start out and ends at goal. */
  method ReconstructPath(cameFrom: map<Cell, Cell>, gScore: map<Cell, real>, start: Cell, goal: Cell)
    returns (path: seq<Cell>)
    requires PredecessorsOrdered(cameFrom, gScore)
    requires start in gScore && start !in cameFrom
    requires forall x | x in gScore && x != start :: x in cameFrom
    requires goal in gScore
    ensures path == [] <==> goal == start
    ensures path != [] ==> path[|path| - 1] == goal
    ensures IsWalk(start, path)
    ensures forall i | 0 <= i < |path| :: path[i] in cameFrom
    ensures forall i, j | 0 <= i < j < |path| :: gScore[path[i]] < gScore[path[j]]
    ensures Distinct(path) && start !in path
  {
    var rev: seq<Cell> := [];
    var current := goal;
    while current in cameFrom
      invariant BackChain(cameFrom, gScore, goal, rev, current)
      decreases Below(gScore, current)
    {
      var previous := cameFrom[current];
      assert previous in Below(gScore, current) - Below(gScore, previous);
      BackChainStep(cameFrom, gScore, goal, rev, current);
      rev := rev + [current];
      current := previous;
    }
    BackChainReversed(cameFrom, gScore, start, goal, rev);
    path := Reversed(rev);
  }

  /** Popping the least entry keeps the invariant. The first pop yields start; every
      later one yields a walkable cell other than start. */
  lemma PopKeepsInv(grid: array2<int>, start: Cell, goal: Cell, h: (Cell, Cell) -> real,
                    s: SearchState, first: bool)
    requires Inv(grid, start, goal, h, s) && s.oheap != []
    requires first ==> s.oheap == [Entry(h(start, goal), start)]
    requires !first ==> forall e | e in s.oheap :: e.cell != start
    ensures var (e, rest) := Pop(s.oheap);
      && e.cell in s.gScore
      && (first ==> e.cell == start)
      && (!first ==> e.cell != start && Walkable(grid, e.cell))
      && (forall e' | e' in rest :: e' in s.oheap)
      && Inv(grid, start, goal, h, s.(oheap := rest))
      && Inv(grid, start, goal, h, s.(oheap := rest, closeSet := s.closeSet + {e.cell}))
  {
  }

  /** The neighbour loop of one expansion: relaxes the eight edges out of current. Scores
      only improve, start is never pushed again, and either nothing changed or the set
      of scores still available shrank. */
  method ExpandNeighbors(grid: array2<int>, ghost start: Cell, goal: Cell, h: (Cell, Cell) -> real,
                         s0: SearchState, current: Cell, ghost hops0: map<Cell, (nat, nat)>)
    returns (s: SearchState, ghost hops: map<Cell, (nat, nat)>)
    requires Inv(grid, start, goal, h, s0) && current in s0.gScore
    requires Lattice(s0.gScore, hops0)
    requires forall e | e in s0.oheap :: e.cell != start
    ensures Inv(grid, start, goal, h, s) && Lattice(s.gScore, hops)
    ensures s.closeSet == s0.closeSet
    ensures forall e | e in s.oheap :: e.cell != start
    ensures (s.gScore == s0.gScore && s.oheap == s0.oheap)
            || Potential(grid, start, s.gScore) < Potential(grid, start, s0.gScore)
  {
    s, hops := s0, hops0;
    for k := 0 to |NEIGHBORS|
      invariant Inv(grid, start, goal, h, s)
      invariant Lattice(s.gScore, hops)
      invariant current in s.gScore && s.closeSet == s0.closeSet
      invariant forall e | e in s.oheap :: e.cell != start
      invariant (s.gScore == s0.gScore && s.oheap == s0.oheap)
                || Potential(grid, start, s.gScore) < Potential(grid, start, s0.gScore)
    {
      var o := NEIGHBORS[k];
      RelaxStep(grid, start, goal, h, s, current, o, hops);
      var next := Relax(grid, goal, h, s, current, o);
      hops := NextHops(hops, s.gScore, next.gScore, current, o);
      s := next;
    }
  }

  /** The exploration trace so far: start first, then walkable cells other than start. */
  ghost predicate TraceOk(grid: array2<int>, start: Cell, explored: seq<Cell>)
    reads grid
  {
    && (explored != [] ==> explored[0] == start)
    && (forall i | 1 <= i < |explored| :: Walkable(grid, explored[i]) && explored[i] != start)
  }

  lemma TraceExtend(grid: array2<int>, start: Cell, explored: seq<Cell>, c: Cell)
    requires TraceOk(grid, start, explored)
    requires explored == [] ==> c == start
    requires explored != [] ==> Walkable(grid, c) && c != start
    ensures TraceOk(grid, start, explored + [c])
  {
  }

  /** A route the robot can drive: a walk from start through walkable cells, each visited
      once, never back through start, and ending at goal unless it is empty. */
  predicate DrivablePath(grid: array2<int>, start: Cell, goal: Cell, path: seq<Cell>)
    reads grid
  {
    && (path != [] ==> path[|path| - 1] == goal)
    && IsWalk(start, path)
    && (forall c | c in path :: Walkable(grid, c))
    && Distinct(path) && start !in path
  }

  /** Builds the path once goal is popped: a walk of walkable cells from start to goal. */
  method Finish(grid: array2<int>, start: Cell, goal: Cell, h: (Cell, Cell) -> real, s: SearchState)
    returns (path: seq<Cell>)
    requires Inv(grid, start, goal, h, s) && goal in s.gScore
    ensures path == [] <==> goal == start
    ensures DrivablePath(grid, start, goal, path)
  {
    path := ReconstructPath(s.cameFrom, s.gScore, start, goal);
    forall c | c in path ensures Walkable(grid, c) {
      assert c in s.cameFrom && c != start;
    }
  }

  /** astar(grid, start, goal): returns the path (empty when there is none, or when start
      is goal) and the trace of every popped cell in pop order. h is the heuristic. */
  method AStar(grid: array2<int>, start: Cell, goal: Cell, h: (Cell, Cell) -> real)
    returns (path: seq<Cell>, explored: seq<Cell>)
    ensures explored != [] && TraceOk(grid, start, explored)
    ensures start == goal ==> path == [] && explored == [start]
    ensures path != [] <==> start != goal && goal in explored
    ensures goal in explored ==>
      explored[|explored| - 1] == goal && goal !in explored[..|explored| - 1]
    ensures DrivablePath(grid, start, goal, path)
  {
    var s := Initial(start, goal, h);
    InitialInv(grid, start, goal, h);
    explored := [];
    ghost var hops: map<Cell, (nat, nat)> := map[start := (0, 0)];
    InitialLattice(start, goal, h);
    while s.oheap != []
      invariant Inv(grid, start, goal, h, s)
      invariant Lattice(s.gScore, hops)
      invariant explored == [] ==> s.oheap == [Entry(h(start, goal), start)]
      invariant explored != [] ==> forall e | e in s.oheap :: e.cell != start
      invariant TraceOk(grid, start, explored)
      invariant goal !in explored
      decreases Potential(grid, start, s.gScore), |s.oheap|
    {
      var popped := Pop(s.oheap);
      var current := popped.0.cell;
      PopKeepsInv(grid, start, goal, h, s, explored == []);
      TraceExtend(grid, start, explored, current);
      ghost var traced := explored;
      s := s.(oheap := popped.1);
      explored := explored + [current];

      if current == goal {
        path := Finish(grid, start, goal, h, s);
        assert explored[..|explored| - 1] == traced;
        return;
      }

      s := s.(closeSet := s.closeSet + {current});
      s, hops := ExpandNeighbors(grid, start, goal, h, s, current, hops);
    }
    path := [];
  }
}
