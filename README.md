# A* robot maze: a Dafny model

This project models the two pieces of logic in the A* robot demo:

- **The A\* search** over an occupancy grid (`astar` and `heuristic` in `astar_logic.py`). The grid is a 2-D array where 1 marks a wall.
  - The search moves in eight directions. A straight move costs 1 and a diagonal move costs `DIAGONAL_COST` (1.4142135623730951, the shortest decimal form of the float64 square root of two, slightly above √2).
  - It keeps five structures: an open heap of `(f, cell)` pairs, a map of g-scores, a map of f-scores, a map of predecessors (`came_from`) and a closed set.
  - It records every cell it pops, in order: the exploration trace.
  - It returns the path from start to goal, which leaves start out, together with the trace.
- **The maze editor** (`MazeApp` in `main.py`). The user paints walls with a square brush, moves the start and goal markers and clears the map.
  - `solve` runs the search.
  - `solve` also computes how many animation frames play the exploration and then drive the robot along the path.

The modules follow the program's structure:

| module | contents |
|---|---|
| `Geometry` (geometry.dfy) | cells, the eight moves in the order the search tries them, move costs, adjacency, walkable cells |
| `OpenList` (open_list.dfy) | the open heap as a sequence of entries; popping takes the least `(f, row, col)` tuple, as `heapq` does |
| `Search` (search_state.dfy) | the search state, the relaxation of one edge (lines 51-73 of `astar_logic.py`), and the invariant the search keeps |
| `SearchProgress` (search_progress.dfy) | why the main loop ends (explained after this table) |
| `PathFinder` (pathfinder.dfy) | the main loop (`AStar`), the neighbour loop (`ExpandNeighbors`) and the walk back along the predecessor links (`ReconstructPath`) |
| `Heuristic` (heuristic.dfy) | the Euclidean heuristic, characterised by h ≥ 0 and h² = squared distance, with its symmetry, its zeros, the one-step bound, the triangle inequality, consistency and admissibility |
| `Maze` (maze.dfy) | the `MazeApp` class: its fields, the event handlers that change them, `Solve`, and the frame arithmetic of the animation |

Why the main loop of `AStar` ends (the `SearchProgress` module):

- Every g-score equals a + b·`DIAGONAL_COST` for natural numbers a and b: the straight and diagonal moves that reach the cell.
- No g-score exceeds `DIAGONAL_COST`·(number of scored cells − 1).
- So a cell can only take finitely many g-scores.
- The number of (cell, a, b) triples that are still below the cell's current score drops with every push onto the heap.
- Between pushes, the heap shrinks.

Two details of the code that the model keeps:

- **Ties in the heap.** `heapq` compares whole `(f, (row, col))` tuples, so among entries with equal f-scores the one with the smaller cell comes out first. `OpenList.Pop` takes the least tuple.
- **Path length.** The returned path leaves start out, so three straight moves give a three-cell path. `AStar` ensures `start !in path`.

## Model

| member | source | states |
|---|---|---|
| Geometry.MoveCost | astar_logic.py:62-63 | a move costs at least 1; it costs exactly 1 when the move is straight and exactly `DIAGONAL_COST` when it is diagonal |
| Geometry.NeighborsAreKingMoves | astar_logic.py:25 | the eight offsets reach exactly the cells that touch a cell by a side or a corner: every offset gives an adjacent cell, and every adjacent cell comes from some offset |
| Geometry.Move | astar_logic.py:52 | no contract: the cell reached from a cell by adding an offset's row and column changes |
| Geometry.Walkable | astar_logic.py:55-60 | no contract: the cell is inside the grid's shape and its value is not 1 |
| Search.Get | astar_logic.py:66 | no contract: `dict.get(k, default)`, also used with the infinite default at line 69 |
| OpenList.EntryLeIsTotalOrder | astar_logic.py:34 | heap entries are compared as `(f, (row, col))` tuples, which is a total order: any two entries compare, entries that tie in every component are equal, and the order is transitive |
| OpenList.MinIndex | astar_logic.py:39 | the index of an entry that is no greater than any other entry in the heap |
| OpenList.Pop | astar_logic.py:39 | `heappop` returns an entry of the heap that is least in tuple order; the rest of the heap is the old contents minus exactly that entry (as a multiset) and one entry shorter |
| Search.Initial | astar_logic.py:27-34 | before the first pop the heap holds only `(h(start, goal), start)`; nothing is closed or has a predecessor; only start is scored, with g = 0 and f = h(start, goal) |
| Search.Relax | astar_logic.py:51-73 | relaxing the edge from current to a neighbour changes only that neighbour and the heap. It changes something if and only if all of these hold: the neighbour is inside the grid and not a wall; it is not skipped as a closed cell with `tentative >= g.get(neighbor, 0)`; and it has no score yet or the tentative score is lower. When it changes something, the neighbour's g-score, predecessor and f-score are set together and `(f, neighbor)` is pushed. The closed set never changes |
| Search.InitialInv | astar_logic.py:27-34 | the invariant of the search holds before the first pop |
| Search.RelaxKeepsOrder | astar_logic.py:64-71 | after a relaxation every predecessor link still joins adjacent cells and still leads to a strictly smaller g-score |
| Search.RelaxKeepsInv | astar_logic.py:49-73 | a relaxation keeps the invariant: start keeps g = 0 and never gets a predecessor; scores are non-negative with f = g + h; every scored cell other than start is walkable and has a predecessor; every heap entry is for a scored cell. Start is never pushed again |
| SearchProgress.InitialLattice | astar_logic.py:30 | start's score 0 is 0 straight moves plus 0 diagonal ones, within the bound |
| SearchProgress.RelaxScores | astar_logic.py:66-72 | a relaxation that changes the g-scores adds exactly the neighbour, gives it g(current) + move cost, lowers any score it had, leaves every other score alone, and never touches start or a wall |
| SearchProgress.UpdatedScoreInLattice | astar_logic.py:63-64 | the neighbour's new score is current's moves plus one straight or diagonal move, and stays within `DIAGONAL_COST`·(number of scored cells − 1) |
| SearchProgress.UpdateKeepsLattice | astar_logic.py:63-64 | after a score update, every g-score is still a count of straight and diagonal moves within the bound |
| SearchProgress.UpdateShrinksAvail | astar_logic.py:69-73 | a score update removes at least one triple from the set of (cell, straight, diagonal) triples still below the current scores, and adds none |
| SearchProgress.ScoredCells | astar_logic.py:55-60 | every scored cell is start or a cell of the grid |
| SearchProgress.RelaxStep | astar_logic.py:51-73 | one pass of the neighbour loop keeps the invariant and the move counts, does not close anything, and does not push start. Either it changes neither scores nor heap, or the measure of the main loop strictly drops |
| PathFinder.Reversed | astar_logic.py:47 | `s[::-1]`: the same length, with element k of the result equal to element len − 1 − k of the input |
| PathFinder.WalkStepsAreMoves | astar_logic.py:51-52 | each step of `[start] + path` is one of the eight offsets of the neighbour loop |
| PathFinder.BackChainStep | astar_logic.py:44-46 | one step back along `came_from` extends the chain of predecessors, with g-scores falling along it |
| PathFinder.BackChainReversed | astar_logic.py:44-47 | reversing the finished chain gives a walk out of start that ends at goal, has strictly rising g-scores, repeats no cell and leaves start out |
| PathFinder.ReconstructPath | astar_logic.py:43-47 | the walk back terminates. The result is empty if and only if goal is start; otherwise it ends at goal. Consecutive cells of `[start] + path` are adjacent, g-scores rise strictly along the path, no cell repeats, and start is not on it |
| PathFinder.PopKeepsInv | astar_logic.py:39-40 | the first pop yields start and every later pop yields a walkable cell other than start; popping and then closing that cell keeps the invariant |
| PathFinder.ExpandNeighbors | astar_logic.py:49-73 | the neighbour loop keeps the invariant and the move counts, leaves the closed set as it was, never pushes start, and either changes nothing or lowers the measure of the main loop |
| PathFinder.Finish | astar_logic.py:42-47 | once goal is popped, the reconstructed path is empty exactly when goal is start, and is otherwise a walk through walkable cells from start to goal |
| PathFinder.AStar | astar_logic.py:10-75 | the trace starts with start, and every later element is walkable and not start. If start is goal the result is `([], [start])`. The path is non-empty if and only if goal was popped, and then goal is the last element of the trace and appears nowhere else in it; when the heap runs out the path is empty. A non-empty path ends at goal, is a walk from start through walkable cells, repeats no cell and leaves start out. The grid is only read |
| Heuristic.SquaredDistance | astar_logic.py:8 | the squared distance is non-negative and zero exactly for the same cell |
| Heuristic.EuclideanSymmetric | astar_logic.py:4-8 | the Euclidean heuristic gives the same value for (a, b) and (b, a) |
| Heuristic.EuclideanZero | astar_logic.py:4-8 | the heuristic is zero exactly when the two cells are the same |
| Heuristic.EuclideanStep | astar_logic.py:4-8 | across one of the eight moves the heuristic is at most the move's cost, and exactly 1 for a straight move |
| Heuristic.EuclideanTriangle | astar_logic.py:4-8 | the triangle inequality: h(a, c) ≤ h(a, b) + h(b, c) |
| Heuristic.EuclideanConsistent | astar_logic.py:4-8 | the heuristic is consistent: one move lowers it by at most the move's cost |
| Heuristic.EuclideanAdmissible | astar_logic.py:4-8 | the heuristic is admissible: from a, it is at most the cost of any walk of king's moves to the cell the walk ends on |
| Heuristic.LastStepIsMove | astar_logic.py:51-63 | the last step of a walk is one of the eight moves of the neighbour loop, and the walk's cost for it is that move's `move_cost` |
| Heuristic.WalkCost | astar_logic.py:62-64 | the cost of a walk, summing 1 per straight step and `DIAGONAL_COST` per diagonal step, is at least its number of steps |
| Maze.BrushSpan | main.py:144-146 | the clipped range `[max(0, c - r), min(n, c + r + 1))` holds exactly the in-grid indices within r of the click, and it contains the click |
| Maze.MazeApp.OnGrid | main.py:142 | no contract: the test `0 <= cx < grid_size and 0 <= cy < grid_size`, also at line 157 |
| Maze.MazeApp.constructor | main.py:17-26 | the map starts empty (all zeros); start is (2, 2) and goal is (97, 97); the brush radius is 0, the mode is Draw, walls are being drawn and no stroke is in progress; the state is valid |
| Maze.MazeApp.ChangeMode | main.py:115-116 | the mode becomes the selected one and nothing else changes |
| Maze.MazeApp.UpdateBrushSize | main.py:136-137 | a slider value of 1 to 5 gives a brush radius one less, between 0 and 4, and nothing else changes |
| Maze.MazeApp.ApplyBrush | main.py:139-150 | a click off the grid changes nothing. Otherwise every cell within the brush radius of the click takes the drawn value, start and goal end free, and every other cell keeps its value. The state stays valid: a 0/1 grid with start and goal free |
| Maze.MazeApp.OnPress | main.py:154-176 | a click off the grid changes nothing. In Draw mode a click starts a stroke, erases if the clicked cell was a wall and draws otherwise, then brushes. In Start or Goal mode the marker moves to the clicked cell, that one cell becomes free and all others keep their values. Start and goal stay free |
| Maze.MazeApp.OnRelease | main.py:178-179 | releasing the button ends the stroke and changes nothing else |
| Maze.MazeApp.OnMotion | main.py:181-182 | moving the mouse brushes only during a stroke in Draw mode; otherwise the grid is unchanged |
| Maze.MazeApp.ResetMap | main.py:192-196 | the map is replaced by an all-free one; start, goal, mode, brush and stroke state are kept |
| Maze.MazeApp.Solve | main.py:198-221 | runs the search on the current map. Every explored cell and every path cell is in the grid and free (value 0). The path is non-empty exactly when start is not goal and goal was reached. With no path there is no animation; otherwise the number of frames is the exploration frames plus the driving frames |
| Maze.StepsPerFrameExplore | main.py:217 | at least one explored cell per frame: 1 for a trace shorter than 25, and otherwise `len // 25`, the largest s with 25·s ≤ len |
| Maze.FramesExplore | main.py:218 | the exploration phase has at least 5 frames; leaving the 5 out, its frames times the cells shown per frame cover the trace to within one frame's worth |
| Maze.FramesRobot | main.py:220 | the driving phase has at least 10 frames; leaving the 10 out, its frames times `ROBOT_SPEED` cover the path to within one frame's worth |
| Maze.TotalFrames | main.py:221 | the animation lasts the exploration frames and then at least 10 more for driving |
| Maze.Animate | main.py:223-238 | frame i shows part of the exploration exactly when i is below the number of exploration frames; it never shows more explored cells than there are, and in the driving phase the robot's index is a valid path index |
| Maze.AnimateMonotone | main.py:223-238 | later frames never show fewer explored cells and never put the robot further back; once driving has started it continues |
| Maze.ExploreFinishes | main.py:217-225 | the last exploration frame shows the whole trace |
| Maze.RobotReachesGoal | main.py:220-234 | the last frame of the animation shows the robot on the last path cell, which is the goal |
| Maze.ExploreFramesBounded | main.py:217-218 | the exploration phase lasts fewer than 2 · 25 + 5 frames, whatever the length of the trace |

## Left out

- Rendering is not modelled. This covers the matplotlib figure, widgets, colours, titles, `draw_idle`, the scatter, line and marker updates, `FuncAnimation` scheduling and the `ani` field. These are library calls with no effect on the modelled state.
- `clear_solution` and `handle_button_hover` change only what is drawn, so they are not modelled. `reset_map` is modelled without its call to `clear_solution`.
- The `event.inaxes` test and the `int(event.xdata + 0.5)` rounding of mouse coordinates are not modelled. Clicks arrive as integer cells `(cx, cy)`, and a click off the grid is handled as the code handles it.
- Floating point is not modelled. Costs and scores are exact reals. A diagonal move costs `DIAGONAL_COST` = 1.4142135623730951, the shortest decimal form of float64 √2, slightly above √2. Rounding in the accumulated g-scores, and comparisons between rounded values, are not modelled.
- `np.sqrt` in `heuristic` is not available in Dafny. The search and `Solve` take the heuristic as a parameter `h`, and every property of `AStar` holds for any `h`. The Euclidean heuristic is characterised by `Heuristic.IsEuclidean` rather than computed.
- The grid's numpy float values are modelled as integers 0 and 1.
- The radio-button labels are modelled by the `Mode` datatype. A label outside 'Draw', 'Start' and 'Goal' cannot arise, so it is not modelled.
- The slider value is modelled as an integer from 1 to 5. It steps by 1 from 1 to 5, so `int(val)` is exact.
- `heapq`'s internal array layout is not modelled. The heap is modelled by its contents, and a pop takes the least `(f, row, col)` entry, which is what `heappop` returns.
- Optimality of the returned path is not modelled. It depends on real square roots and on float comparisons, and the code does not promise it.
- PathFinder.AStar: does not state that the trace is free of repeats. A cell re-pushed with a lower score can be popped again, as the code allows.
- Maze.MazeApp.Solve: the "no path found" title and the drawing of the explored cells when there is no path are UI work and are not modelled.
