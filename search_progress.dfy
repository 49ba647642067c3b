/** Why the main loop of the search ends. Every g-score is a + b * DIAGONAL_COST for
    natural numbers a, b (a straight and b diagonal moves), and no g-score exceeds
    DIAGONAL_COST * (number of scored cells - 1). So each cell can take only finitely
    many g-scores, and the set of (cell, a, b) triples whose value is still below the
    cell's current g-score shrinks with every push; between pushes the heap shrinks. */
module SearchProgress {
  import opened Geometry
  import opened OpenList
  import opened Search

  /** The cells that can ever be scored: start and the cells of the grid. */
  ghost function Cells(grid: array2<int>, start: Cell): set<Cell> {
    {start} + set r, c | 0 <= r < grid.Length0 && 0 <= c < grid.Length1 :: Cell(r, c)
  }

  /** The cost of a straight moves and b diagonal moves. */
  function Value(a: int, b: int): real {
    a as real + b as real * DIAGONAL_COST
  }

  ghost function Universe(cells: set<Cell>): set<(Cell, int, int)> {
    var k := 2 * |cells|;
    set x, a, b | x in cells && 0 <= a <= k && 0 <= b <= k :: (x, a, b)
  }

  /** The (cell, a, b) triples a cell may still be scored with. */
  ghost function Avail(cells: set<Cell>, g: map<Cell, real>): set<(Cell, int, int)> {
    set t | t in Universe(cells) && (t.0 !in g || Value(t.1, t.2) < g[t.0])
  }

  /** How many (cell, a, b) triples are still available: the main loop's measure. */
  ghost function Potential(grid: array2<int>, start: Cell, g: map<Cell, real>): nat {
    |Avail(Cells(grid, start), g)|
  }

  /** hops[x] counts the straight and diagonal moves whose cost is g[x]. */
  ghost predicate Lattice(g: map<Cell, real>, hops: map<Cell, (nat, nat)>) {
    && g.Keys <= hops.Keys
    && (forall x | x in g :: g[x] == Value(hops[x].0, hops[x].1))
    && (forall x | x in g :: g[x] <= DIAGONAL_COST * (|g| - 1) as real)
  }

  /** The move counts after a relaxation from current through o took the scores from g
      to g2. */
  ghost function NextHops(hops: map<Cell, (nat, nat)>, g: map<Cell, real>, g2: map<Cell, real>,
                          current: Cell, o: Offset): map<Cell, (nat, nat)>
    requires current in hops
  {
    if g2 == g then hops
    else if o.dr != 0 && o.dc != 0 then hops[Move(current, o) := (hops[current].0, hops[current].1 + 1)]
    else hops[Move(current, o) := (hops[current].0 + 1, hops[current].1)]
  }

  /** What a score-changing relaxation does to the g-scores: nb gets the score through
      current, which is lower than any it had, and nothing else changes. */
  ghost predicate ScoreUpdate(g: map<Cell, real>, g2: map<Cell, real>, current: Cell, o: Offset)
    requires o in NEIGHBORS
  {
    var nb := Move(current, o);
    && current in g && nb != current
    && g2.Keys == g.Keys + {nb}
    && (forall x | x in g2 && x != nb :: g[x] == g2[x])
    && g2[nb] == g[current] + MoveCost(o)
    && (nb in g ==> g2[nb] < g[nb])
  }

  lemma {:induction false} SubsetCard<T>(a: set<T>, b: set<T>)
    requires a <= b
    ensures |a| <= |b|
  {
    if a != {} {
      var x :| x in a;
      SubsetCard(a - {x}, b - {x});
    }
  }

  lemma {:induction false} StrictSubsetCard<T>(a: set<T>, b: set<T>)
    requires a < b
    ensures |a| < |b|
  {
    assert b - a != {};
    var x :| x in b - a;
    SubsetCard(a, b - {x});
  }

  lemma InitialLattice(start: Cell, goal: Cell, h: (Cell, Cell) -> real)
    ensures Lattice(Initial(start, goal, h).gScore, map[start := (0, 0)])
  {
  }

  /** A relaxation that changes the scores is a ScoreUpdate into a walkable cell other
      than start. */
  lemma RelaxScores(grid: array2<int>, start: Cell, goal: Cell, h: (Cell, Cell) -> real,
                    s: SearchState, current: Cell, o: Offset)
    requires Inv(grid, start, goal, h, s)
    requires current in s.gScore && o in NEIGHBORS
    requires Relax(grid, goal, h, s, current, o).gScore != s.gScore
    ensures ScoreUpdate(s.gScore, Relax(grid, goal, h, s, current, o).gScore, current, o)
    ensures Move(current, o) != start && Walkable(grid, Move(current, o))
  {
    var r, nb := Relax(grid, goal, h, s, current, o), Move(current, o);
    assert !SameAt(s, r, nb);
    forall x ensures x in r.gScore <==> x in s.gScore || x == nb {
      if x != nb { assert SameAt(s, r, x); }
    }
    forall x | x in r.gScore && x != nb ensures s.gScore[x] == r.gScore[x] {
      assert SameAt(s, r, x);
    }
  }

  /** The new score of nb is the move counts of current plus one move, within the bound. */
  lemma UpdatedScoreInLattice(g: map<Cell, real>, g2: map<Cell, real>, current: Cell, o: Offset,
                              hops: map<Cell, (nat, nat)>)
    requires o in NEIGHBORS && ScoreUpdate(g, g2, current, o)
    requires Lattice(g, hops)
    ensures var nb, hops2 := Move(current, o), NextHops(hops, g, g2, current, o);
      && g2[nb] == Value(hops2[nb].0, hops2[nb].1)
      && g2[nb] <= DIAGONAL_COST * (|g2| - 1) as real
  {
    var nb := Move(current, o);
    assert g2.Keys == g.Keys + {nb};
    assert |g2| == |g2.Keys| && |g| == |g.Keys|;
    if nb in g {
      assert g2.Keys == g.Keys;
      assert g2[nb] < g[nb];
    } else {
      assert |g2.Keys| == |g.Keys| + 1;
      assert g[current] <= DIAGONAL_COST * (|g| - 1) as real;
    }
  }

  /** A score update keeps every g-score a count of straight and diagonal moves within
      the bound. */
  lemma UpdateKeepsLattice(g: map<Cell, real>, g2: map<Cell, real>, current: Cell, o: Offset,
                           hops: map<Cell, (nat, nat)>)
    requires o in NEIGHBORS && ScoreUpdate(g, g2, current, o)
    requires Lattice(g, hops)
    ensures Lattice(g2, NextHops(hops, g, g2, current, o))
  {
    var nb := Move(current, o);
    var hops2 := NextHops(hops, g, g2, current, o);
    UpdatedScoreInLattice(g, g2, current, o, hops);
    assert |g| <= |g2| by {
      assert g.Keys <= g2.Keys;
      SubsetCard(g.Keys, g2.Keys);
    }
    forall x | x in g2 && x != nb
      ensures g2[x] == Value(hops2[x].0, hops2[x].1)
      ensures g2[x] <= DIAGONAL_COST * (|g2| - 1) as real
    {
      assert g2[x] == g[x] && hops2[x] == hops[x];
    }
  }

  /** A score update takes the triple of nb's new score out of Avail and adds none. */
  lemma UpdateShrinksAvail(cells: set<Cell>, g: map<Cell, real>, g2: map<Cell, real>,
                           current: Cell, o: Offset, hops: map<Cell, (nat, nat)>)
    requires o in NEIGHBORS && ScoreUpdate(g, g2, current, o)
    requires g2.Keys <= cells
    requires Lattice(g2, hops)
    ensures Avail(cells, g2) < Avail(cells, g)
  {
    var nb := Move(current, o);
    SubsetCard(g2.Keys, cells);
    var t := (nb, hops[nb].0 as int, hops[nb].1 as int);
    assert t in Universe(cells);
    assert t in Avail(cells, g);
    assert t !in Avail(cells, g2);
    forall u | u in Avail(cells, g2) ensures u in Avail(cells, g) {
    }
  }

  /** Every scored cell is start or a cell of the grid. */
  lemma ScoredCells(grid: array2<int>, start: Cell, goal: Cell, h: (Cell, Cell) -> real, s: SearchState)
    requires Inv(grid, start, goal, h, s)
    ensures s.gScore.Keys <= Cells(grid, start)
  {
    forall x | x in s.gScore ensures x in Cells(grid, start) {
      if x != start { assert Walkable(grid, x); }
    }
  }

  /** One relaxation as the neighbour loop sees it: the invariant and the move counts are
      kept, start is not pushed, and either nothing changed or the potential dropped. */
  lemma RelaxStep(grid: array2<int>, start: Cell, goal: Cell, h: (Cell, Cell) -> real,
                  s: SearchState, current: Cell, o: Offset, hops: map<Cell, (nat, nat)>)
    requires Inv(grid, start, goal, h, s)
    requires current in s.gScore && o in NEIGHBORS
    requires Lattice(s.gScore, hops)
    requires forall e | e in s.oheap :: e.cell != start
    ensures var r := Relax(grid, goal, h, s, current, o);
      && Inv(grid, start, goal, h, r)
      && Lattice(r.gScore, NextHops(hops, s.gScore, r.gScore, current, o))
      && current in r.gScore && r.closeSet == s.closeSet
      && (forall e | e in r.oheap :: e.cell != start)
      && ((r.gScore == s.gScore && r.oheap == s.oheap)
          || Potential(grid, start, r.gScore) < Potential(grid, start, s.gScore))
  {
    var r := Relax(grid, goal, h, s, current, o);
    RelaxKeepsInv(grid, start, goal, h, s, current, o);
    if r.gScore != s.gScore {
      RelaxScores(grid, start, goal, h, s, current, o);
      UpdateKeepsLattice(s.gScore, r.gScore, current, o, hops);
      ScoredCells(grid, start, goal, h, r);
      var cells := Cells(grid, start);
      UpdateShrinksAvail(cells, s.gScore, r.gScore, current, o, NextHops(hops, s.gScore, r.gScore, current, o));
      StrictSubsetCard(Avail(cells, r.gScore), Avail(cells, s.gScore));
    } else {
      assert SameAt(s, r, Move(current, o));
    }
  }
}
