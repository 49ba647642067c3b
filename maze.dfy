/** The maze editor: the grid the user draws on, the start and goal markers, the brush,
    and the frame arithmetic of the animation that plays a solution back. Drawing and
    marker placement never block start or goal, which is what the search relies on. */
module Maze {
  import opened Geometry
  import opened PathFinder

  /** Map resolution: the grid is GRID_SIZE x GRID_SIZE. */
  const GRID_SIZE: nat := 100
  /** Path cells the robot advances per animation frame. */
  const ROBOT_SPEED: nat := 2
  /** Roughly how many frames the exploration playback is spread over. */
  const EXPLORE_SPEED: nat := 25

  /** What a click does: draw or erase walls, move the start, move the goal. */
  datatype Mode = Draw | Start | Goal

  datatype Option<T> = None | Some(value: T)

  function Max(a: int, b: int): int { if a < b then b else a }

  function Min(a: int, b: int): int { if a < b then a else b }

  predicate InSpan(k: int, span: (int, int)) {
    span.0 <= k < span.1
  }

  /** The half-open index range [lo, hi) a brush of radius r centred on c covers along
      one axis, clipped to [0, n): exactly the in-range indices within r of c. */
  function BrushSpan(c: int, r: int, n: int): (span: (int, int))
    requires 0 <= c < n && r >= 0
    ensures 0 <= span.0 <= c < span.1 <= n
    ensures forall k :: InSpan(k, span) <==> 0 <= k < n && c - r <= k <= c + r
  {
    (Max(0, c - r), Min(n, c + r + 1))
  }

  /** Cell (i, j) lies in the square of radius r around the click (cy, cx). */
  predicate Covered(i: int, j: int, cx: int, cy: int, r: int) {
    cy - r <= i <= cy + r && cx - r <= j <= cx + r
  }

  class MazeApp {
    const gridSize: nat
    var grid: array2<int>
    var start: Cell
    var goal: Cell
    var brushRadius: int
    var mode: Mode
    var drawVal: int
    var drawing: bool

    /** The grid is gridSize x gridSize and holds only 0 (free) and 1 (wall); start and
        goal lie on it and are free; the brush radius comes from the 1..5 slider; the
        value being drawn is 0 or 1. */
    ghost predicate Valid()
      reads this, grid
    {
      && gridSize == GRID_SIZE
      && grid.Length0 == gridSize && grid.Length1 == gridSize
      && InBounds(grid, start) && InBounds(grid, goal)
      && grid[start.row, start.col] == 0 && grid[goal.row, goal.col] == 0
      && (forall i, j | 0 <= i < gridSize && 0 <= j < gridSize :: grid[i, j] == 0 || grid[i, j] == 1)
      && 0 <= brushRadius <= 4
      && (drawVal == 0 || drawVal == 1)
    }

    /** The click (cy, cx) is a cell of the grid. */
    predicate OnGrid(cx: int, cy: int) {
      0 <= cx < gridSize && 0 <= cy < gridSize
    }

    /** The effect of one brush stroke at (cy, cx): the covered square gets drawVal,
        except start and goal, which end free, and every other cell keeps its value. */
    twostate predicate Brushed(cx: int, cy: int)
      reads this, grid
    {
      && grid == old(grid)
      && (forall i, j | 0 <= i < grid.Length0 && 0 <= j < grid.Length1 ::
            grid[i, j] == (if Cell(i, j) == start || Cell(i, j) == goal then 0
                           else if Covered(i, j, cx, cy, brushRadius) then drawVal
                           else old(grid[i, j])))
    }

    /** An empty map with start near one corner and goal near the opposite one, a radius-0
        brush, Draw mode, drawing walls, and no stroke in progress. */
    constructor()
      ensures Valid() && fresh(grid)
      ensures forall i, j | 0 <= i < gridSize && 0 <= j < gridSize :: grid[i, j] == 0
      ensures start == Cell(2, 2) && goal == Cell(GRID_SIZE - 3, GRID_SIZE - 3)
      ensures brushRadius == 0 && mode == Draw && drawVal == 1 && !drawing
    {
      gridSize := GRID_SIZE;
      grid := new int[GRID_SIZE, GRID_SIZE]((i, j) => 0);
      start := Cell(2, 2);
      goal := Cell(GRID_SIZE - 3, GRID_SIZE - 3);
      brushRadius := 0;
      mode := Draw;
      drawVal := 1;
      drawing := false;
    }

    method ChangeMode(selected: Mode)
      requires Valid()
      modifies this
      ensures Valid() && mode == selected
      ensures grid == old(grid) && start == old(start) && goal == old(goal)
      ensures brushRadius == old(brushRadius) && drawVal == old(drawVal) && drawing == old(drawing)
    {
      mode := selected;
    }

    /** The slider gives a size from 1 to 5; the radius is one less. */
    method UpdateBrushSize(val: int)
      requires Valid() && 1 <= val <= 5
      modifies this
      ensures Valid() && brushRadius == val - 1 && 0 <= brushRadius <= 4
      ensures grid == old(grid) && start == old(start) && goal == old(goal)
      ensures mode == old(mode) && drawVal == old(drawVal) && drawing == old(drawing)
    {
      brushRadius := val - 1;
    }

    /** Paints the clipped square of radius brushRadius around the click with drawVal,
        then frees start and goal. A click off the grid does nothing. */
    method ApplyBrush(cx: int, cy: int)
      requires Valid()
      modifies grid
      ensures Valid()
      ensures OnGrid(cx, cy) ==> Brushed(cx, cy)
      ensures !OnGrid(cx, cy) ==> unchanged(grid)
    {
      if !OnGrid(cx, cy) {
        return;
      }
      var r := brushRadius;
      var xs := BrushSpan(cx, r, gridSize);
      var ys := BrushSpan(cy, r, gridSize);
      forall i, j | ys.0 <= i < ys.1 && xs.0 <= j < xs.1 {
        grid[i, j] := drawVal;
      }
      grid[start.row, start.col] := 0;
      grid[goal.row, goal.col] := 0;
    }

    /** A click: off the grid it does nothing. In Draw mode it starts a stroke, erasing
        if the clicked cell is a wall and drawing otherwise, and paints there. In Start
        or Goal mode it moves that marker to the clicked cell and frees the cell. */
    method OnPress(cx: int, cy: int)
      requires Valid()
      modifies this, grid
      ensures Valid()
      ensures grid == old(grid) && mode == old(mode) && brushRadius == old(brushRadius)
      ensures !OnGrid(cx, cy) ==>
        && unchanged(grid) && start == old(start) && goal == old(goal)
        && drawing == old(drawing) && drawVal == old(drawVal)
      ensures OnGrid(cx, cy) && mode == Draw ==>
        && drawing
        && drawVal == (if old(grid[cy, cx]) == 1 then 0 else 1)
        && start == old(start) && goal == old(goal)
        && Brushed(cx, cy)
      ensures OnGrid(cx, cy) && mode != Draw ==>
        && drawing == old(drawing) && drawVal == old(drawVal)
        && (forall i, j | 0 <= i < gridSize && 0 <= j < gridSize ::
              grid[i, j] == if i == cy && j == cx then 0 else old(grid[i, j]))
      ensures OnGrid(cx, cy) && mode == Start ==> start == Cell(cy, cx) && goal == old(goal)
      ensures OnGrid(cx, cy) && mode == Goal ==> goal == Cell(cy, cx) && start == old(start)
    {
      if !OnGrid(cx, cy) {
        return;
      }
      match mode {
        case Draw =>
          drawing := true;
          var currentVal := grid[cy, cx];
          drawVal := if currentVal == 1 then 0 else 1;
          ApplyBrush(cx, cy);
        case Start =>
          start := Cell(cy, cx);
          grid[start.row, start.col] := 0;
        case Goal =>
          goal := Cell(cy, cx);
          grid[goal.row, goal.col] := 0;
      }
    }

    /** Releasing the mouse button ends the stroke. */
    method OnRelease()
      requires Valid()
      modifies this
      ensures Valid() && !drawing
      ensures grid == old(grid) && start == old(start) && goal == old(goal)
      ensures mode == old(mode) && brushRadius == old(brushRadius) && drawVal == old(drawVal)
    {
      drawing := false;
    }

    /** Dragging paints only during a stroke in Draw mode. */
    method OnMotion(cx: int, cy: int)
      requires Valid()
      modifies grid
      ensures Valid()
      ensures drawing && mode == Draw && OnGrid(cx, cy) ==> Brushed(cx, cy)
      ensures !(drawing && mode == Draw && OnGrid(cx, cy)) ==> unchanged(grid)
    {
      if drawing && mode == Draw {
        ApplyBrush(cx, cy);
      }
    }

    /** Clears every wall; the markers, mode and brush stay. */
    method ResetMap()
      requires Valid()
      modifies this
      ensures Valid() && fresh(grid)
      ensures forall i, j | 0 <= i < gridSize && 0 <= j < gridSize :: grid[i, j] == 0
      ensures start == old(start) && goal == old(goal) && mode == old(mode)
      ensures brushRadius == old(brushRadius) && drawVal == old(drawVal) && drawing == old(drawing)
    {
      grid := new int[gridSize, gridSize]((i, j) => 0);
    }

    /** Runs the search from start to goal on the current grid. Without a path there is
        no animation; with one, the number of frames to play. Every cell the robot drives
        through, and every explored cell after start, is free. */
    method Solve(h: (Cell, Cell) -> real)
      returns (path: seq<Cell>, explored: seq<Cell>, frames: Option<nat>)
      requires Valid()
      ensures explored != [] && explored[0] == start
      ensures path != [] <==> start != goal && goal in explored
      ensures DrivablePath(grid, start, goal, path)
      ensures forall c | c in path :: grid[c.row, c.col] == 0
      ensures forall i | 0 <= i < |explored| :: InBounds(grid, explored[i]) && grid[explored[i].row, explored[i].col] == 0
      ensures frames == None <==> path == []
      ensures path != [] ==> frames == Some(TotalFrames(|explored|, |path|))
    {
      path, explored := AStar(grid, start, goal, h);
      assert forall i | 1 <= i < |explored| :: Walkable(grid, explored[i]);
      if path == [] {
        return path, explored, None;
      }
      frames := Some(TotalFrames(|explored|, |path|));
    }
  }

  /** max(1, n // EXPLORE_SPEED): how many explored cells each exploration frame adds. */
  function StepsPerFrameExplore(n: nat): (s: nat)
    ensures s >= 1
    ensures n < EXPLORE_SPEED ==> s == 1
    ensures n >= EXPLORE_SPEED ==> s * EXPLORE_SPEED <= n < (s + 1) * EXPLORE_SPEED
  {
    Max(1, n / EXPLORE_SPEED)
  }

  /** The exploration phase: enough frames to show all n explored cells, plus 5. */
  function FramesExplore(n: nat): (f: nat)
    ensures f >= 5
    ensures (f - 5) * StepsPerFrameExplore(n) <= n < (f - 4) * StepsPerFrameExplore(n)
  {
    var s := StepsPerFrameExplore(n);
    var q := n / s;
    assert q * s <= n < q * s + s;
    q + 5
  }

  /** The driving phase: a frame per ROBOT_SPEED path cells, plus 10. */
  function FramesRobot(len: nat): (f: nat)
    ensures f >= 10
    ensures (f - 10) * ROBOT_SPEED <= len < (f - 9) * ROBOT_SPEED
  {
    len / ROBOT_SPEED + 10
  }

  /** The whole animation: the exploration frames, then at least ten driving frames. */
  function TotalFrames(n: nat, len: nat): (t: nat)
    ensures t >= FramesExplore(n) + 10
  {
    FramesExplore(n) + FramesRobot(len)
  }

  /** What frame i of the animation shows: the first `shown` explored cells, or the
      robot at path index `index`. */
  datatype View = Exploring(shown: nat) | Driving(index: nat)

  /** animate(i) for a trace of n cells and a path of len >= 1 cells. */
  function Animate(i: nat, n: nat, len: nat): (v: View)
    requires len >= 1
    ensures v.Exploring? <==> i < FramesExplore(n)
    ensures v.Exploring? ==> v.shown <= n
    ensures v.Driving? ==> v.index < len
  {
    if i < FramesExplore(n) then
      Exploring(Min(i * StepsPerFrameExplore(n), n))
    else
      Driving(Min((i - FramesExplore(n)) * ROBOT_SPEED, len - 1))
  }

  /** Later frames never show fewer explored cells or put the robot further back. */
  lemma {:induction false} AnimateMonotone(i: nat, k: nat, n: nat, len: nat)
    requires len >= 1 && i <= k
    ensures Animate(i, n, len).Exploring? && Animate(k, n, len).Exploring? ==>
      Animate(i, n, len).shown <= Animate(k, n, len).shown
    ensures Animate(i, n, len).Driving? ==> Animate(k, n, len).Driving?
    ensures Animate(i, n, len).Driving? ==> Animate(i, n, len).index <= Animate(k, n, len).index
  {
    var s := StepsPerFrameExplore(n);
    assert i * s <= k * s;
    assert (i - FramesExplore(n)) * ROBOT_SPEED <= (k - FramesExplore(n)) * ROBOT_SPEED;
  }

  /** The last exploration frame shows the whole trace. */
  lemma {:induction false} ExploreFinishes(n: nat, len: nat)
    requires len >= 1
    ensures Animate(FramesExplore(n) - 1, n, len) == Exploring(n)
  {
    var s := StepsPerFrameExplore(n);
    var q := n / s;
    assert n < (q + 1) * s;
    assert (q + 1) * s <= (q + 4) * s;
  }

  /** The last frame of the animation shows the robot on the goal, the path's last cell. */
  lemma {:induction false} RobotReachesGoal(n: nat, len: nat)
    requires len >= 1
    ensures Animate(TotalFrames(n, len) - 1, n, len) == Driving(len - 1)
  {
    var q := len / ROBOT_SPEED;
    assert len < (q + 1) * ROBOT_SPEED;
  }

  lemma {:induction false} MulMonotone(a: int, b: int, s: nat)
    ensures a <= b ==> a * s <= b * s
  {
    if a <= b {
      assert b * s - a * s == (b - a) * s;
    }
  }

  /** The exploration playback is short whatever the size of the trace: under
      2 * EXPLORE_SPEED + 5 frames. */
  lemma {:induction false} ExploreFramesBounded(n: nat)
    ensures FramesExplore(n) < 2 * EXPLORE_SPEED + 5
  {
    var s := StepsPerFrameExplore(n);
    var q := n / s;
    if n >= EXPLORE_SPEED {
      assert q * s <= n < (s + 1) * EXPLORE_SPEED;
      MulMonotone(1, s, EXPLORE_SPEED);
      MulMonotone(2 * EXPLORE_SPEED, q, s);
      assert q * s < 2 * EXPLORE_SPEED * s;
    }
  }
}
