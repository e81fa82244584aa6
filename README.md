# Chairbot grid path planner, modelled in Dafny

This project models the path planner of the chairbot overlay sandbox
(`path_planner.py`). The planner takes the robots a camera sees, snaps
each robot's heading to a multiple of 45 degrees, and builds a coarse
occupancy grid: one cell per 10 x 10 pixels, with a 5 x 5 block of cells
marked 255 for each robot. It then runs an A* search over
(x, y, heading) states, where a robot may turn in place to any of nine
headings or step forward one cell along its heading. Finally it scales the
path back to pixels and keeps only the waypoints where the heading changes.

Modules, one per component of the planner:

- `Wrappers` (wrappers.dfy): the `Option` type.
- `Motion` (motion.dfy): states, the forward-move table, and the successor
  function `get_adjacent_squares`.
- `Poses` (poses.dfy): `process_robots` and Python's truncating `int()`.
- `Grid` (grid.dfy): `scale_grid`, with the grid as an `array2<int>`
  written in place.
- `Search` (search.dfy): `astar`. Nodes live in an arena, a sequence where
  a parent is an index. The open list is a sequence of arena indices and
  the closed set is a `set<State>`.
- `PostProcess` (postprocess.dfy): `rescale_paths` and `simplify_path`.

The model keeps the code's own behaviour, including its quirks:

- Quantisation truncates toward zero. It does not round.
- `scale_grid` writes `grid[y][x]`. The search's bounds and walkability
  tests use the state's first component as the row (`Search.Walkable`).
- Blocks are not clipped. An index past the end of an axis is an
  IndexError (`GridResult.IndexError`). A negative index counts from the
  far end of the axis, as numpy indexing does (`Grid.NpIndex`).
- The start cell is never tested. Every state of a plan after the first
  must be walkable (`Search.IsPlan`).
- Every child whose state is not closed is appended to the open list. A
  popped node whose state is already closed is expanded again.
- Headings 0 and 360 are different states, so the goal test sees them as
  different. They move the same way.
- The start node has g = h = f = 0. Every other node has g = parent's
  g + 1, h = squared distance to the goal ignoring heading, and f = g + h.
- An unknown heading makes the table lookup raise KeyError, returned as
  `Outcome.KeyError`.

The main results:

- A path the search returns is a plan: it starts at the start, ends at
  the goal, each step is a successor, and every state after the first is
  walkable.
- If the search reports that the open list ran out, no plan exists.
- A search from a state to itself returns that state alone (for fuel ≥ 1).
- KeyError happens exactly when the start heading is unknown and the
  start is not the goal (for fuel ≥ 1).

## Model

| member | source | states |
|---|---|---|
| `Motion.ForwardDelta` | path_planner.py:115-126 | The lookup succeeds exactly for the nine headings 0, 45, ..., 360. Every offset is a unit 8-connected step: both components are in -1..1 and not both 0. |
| `Motion.RotationAngles` | path_planner.py:109 | `range(from, 361, 45)` has (360 - from) / 45 + 1 elements (none past 360), and element i is from + 45 i. |
| `Motion.AdjacentSquares` | path_planner.py:103-129 | The result exists exactly for a known heading. It has 10 states: the nine turns (x, y, 45 i) in order, then (x + dx, y + dy, θ), where (dx, dy) is the table entry for θ and the heading is unchanged. |
| `Motion.SuccessorIff` | path_planner.py:103-129 | t is a successor of s iff s has a known heading, and t is either s's cell with any known heading or the forward step from s. |
| `Motion.SuccessorHeading` | path_planner.py:109-127 | Both ends of a successor step have known headings. |
| `Motion.ZeroAnd360StepAlike` | path_planner.py:115-125 | Headings 0 and 360 have the same offset, yet (x, y, 0) and (x, y, 360) are different states. |
| `Motion.OppositeHeadings` | path_planner.py:115-125 | θ and θ + 180 have negated offsets. |
| `Poses.Trunc` | path_planner.py:48 | `int(v)` truncates toward zero: for v ≥ 0, r ≤ v < r + 1; for v < 0, r - 1 < v ≤ r. |
| `Poses.Quantize` | path_planner.py:47-49 | The heading is a multiple of 45 with h ≤ angle < h + 45 for angle ≥ 0, and h - 45 < angle ≤ h below 0. For 0 ≤ angle ≤ 360 it is one of 0, 45, ..., 360. |
| `Poses.ProcessRobots` | path_planner.py:41-53 | Keeps the number and order of robots and each robot's x and y. Each heading is `Quantize` of its angle. |
| `Grid.CellCount` | path_planner.py:57-62 | Rounding up to tens and then dividing by 10 gives the r with 10r - 10 < n ≤ 10r, which is ceil(n / 10). |
| `Grid.ScaleBot` | path_planner.py:67-72 | The heading is kept. For a non-negative coordinate v, the cell c satisfies 10c ≤ v < 10c + 10. |
| `Grid.NpIndex` | path_planner.py:79 | An index is valid iff -n ≤ k < n. A negative index reads k + n. |
| `Grid.Scaled` | path_planner.py:66-72 | One scaled robot per input robot, in order. |
| `Grid.ScaleGrid` | path_planner.py:55-81 | Succeeds iff every block cell is a valid index. The grid is then fresh and CellCount(height) x CellCount(width). The scaled robots are returned. Each cell is 255 iff some robot's block covers it, and 0 otherwise. |
| `Grid.FitIff` | path_planner.py:74-79 | The blocks fit iff every robot has -rows ≤ y and y + 5 ≤ rows, and -cols ≤ x and x + 5 ≤ cols. |
| `Grid.OccupiedIffCovered` | path_planner.py:74-79 | For robots at non-negative cells, cell (r, c) is covered iff some robot has y ≤ r < y + 5 and x ≤ c < x + 5. |
| `Search.SameNode` | path_planner.py:87-101 | Nodes are equal iff their states agree in x, y and heading, whatever their parents and costs. Because `__hash__` hashes the position too, the closed set is modelled as a `set<State>`. |
| `Search.SquaredDistance` | path_planner.py:202 | The heuristic is non-negative, and it is 0 exactly when the two cells coincide, whatever the headings. |
| `Search.SelectMin` | path_planner.py:150-156 | Returns the first open entry of minimum f: nothing has a smaller f, and every earlier entry has a strictly larger f. |
| `Search.Pop` | path_planner.py:159 | Removing entry i keeps the entries before i and shifts the later ones down by one. |
| `Search.Walkables` | path_planner.py:179-185 | A state survives the filter iff it is one of the given successors, is in bounds with the first component as the row, and is on a zero cell. |
| `Search.WalkableChildren` | path_planner.py:174-191 | The children list is exactly the filtered successors, in order. |
| `Search.Admitted` | path_planner.py:196-198 | A child is admitted iff its state is not closed. |
| `Search.AddChildren` | path_planner.py:193-211 | Appends one node per admitted child, in order, whatever the open list already holds. Each new node has parent = the current node, g = parent's g + 1, h = squared distance to the goal, and f = g + h. Each new node's index is appended to the open list. |
| `Search.Reconstruct` | path_planner.py:163-172 | Walking the parent links and reversing yields the root-to-goal chain `Route`. |
| `Search.AStar` | path_planner.py:131-211 | A returned path is a plan from start to end. NoPath means no plan exists. For fuel ≥ 1, a search from a state to itself returns `[start]` at once. For fuel ≥ 1, KeyError happens iff the start heading is unknown and start ≠ end. |
| `Search.RouteIsPlan` | path_planner.py:163-172 | The parent chain of any arena node is a plan from the start to that node's state. |
| `Search.GoalReached` | path_planner.py:162-172 | When the popped node is the goal, its chain is a plan, and it is `[start]` when the start is the goal. |
| `Search.UnknownHeading` | path_planner.py:126 | A failed lookup can only come from the start node, which is not the goal and has an unknown heading. |
| `Search.NoPlanWhenExhausted` | path_planner.py:148 | A closed set that holds the start but not the goal, and is closed under walkable successors, rules out every plan. |
| `Search.ExpandKeepsInv` | path_planner.py:158-211 | One expansion of a non-goal node keeps the search invariant. The arena stays well formed, the goal is not closed, and every closed state's walkable successors are closed or queued. |
| `PostProcess.RescalePaths` | path_planner.py:213-226 | Keeps the number of robots and each path's length, and maps (x, y, a) to (10x, 10y, a). |
| `PostProcess.RescaleRoundTrip` | path_planner.py:221-222 | Dividing a rescaled waypoint by 10, as scale_grid does, restores the grid state. |
| `PostProcess.SimplifyPath` | path_planner.py:231-237 | Returns `Simplified(path)`: the first waypoint and each waypoint whose heading differs from the one before it. |
| `PostProcess.SimplifyPaths` | path_planner.py:228-238 | One simplified path per input path, in order. |
| `PostProcess.SimplifiedIsSubsequence` | path_planner.py:228-238 | The output starts with path[0], is no longer than the input, and is a subsequence of it. |
| `PostProcess.SimplifiedAlternates` | path_planner.py:233-236 | Consecutive output waypoints have different headings. |
| `PostProcess.SimplifiedHeadings` | path_planner.py:228-238 | The output's headings are the input's headings with each run of equal consecutive values collapsed. |
| `PostProcess.SimplifyIdempotent` | path_planner.py:228-238 | Simplifying a simplified path changes nothing. |

## Left out

- `_find_chairbots` (path_planner.py:5-39) is not modelled. It is marker detection through the vision library plus float trigonometry. `ProcessRobots` takes its output as a sequence of observations.
- `main` (path_planner.py:240-260) is not modelled. It reads an image file, uses fixed inputs and prints. The image is replaced by its height and width, which are parameters of `ScaleGrid`.
- draw_arrow.py is not part of this model. It handles drawing, blending and display.
- Floating-point values (pixel positions, angles, `height / 10.0`) are modelled as exact reals, so float rounding is not modelled.
- The grid cells are integers (0 or 255), not numpy floats.
- The maze given to `AStar` is a rectangular `array2<int>`, as `scale_grid` produces. A ragged list-of-lists maze is not modelled.
- The open-list loop at path_planner.py:206-208 is not modelled. Its `continue` only continues that loop, so it has no effect.
- AStar: runs for at most `fuel` iterations and reports `OutOfFuel` when they run out. The code promises no bound, so an unbounded run is not modelled, and nothing is stated about the `OutOfFuel` outcome.
- AStar: the search is not claimed to find a shortest plan. The squared-distance heuristic is not admissible.
- `RescalePaths` takes found paths only. A missing path would raise TypeError at path_planner.py:217.
- `SimplifyPath` and `SimplifyPaths` require non-empty paths. An empty path raises IndexError at path_planner.py:231, and `AStar` never returns one.
