/**
 * The A* search over (x, y, heading) states. Nodes live in an arena (a
 * sequence; a parent is an arena index), the open list is a sequence of
 * arena indices and the closed set a set of states. As in the planner:
 * the first node of minimum f is expanded; a successor is kept when it is in
 * bounds, on a zero cell and its state is not closed; every kept successor is
 * appended to the open list even when an equal state is already queued; a
 * popped node whose state is already closed is expanded again; the goal test
 * compares all three components. The state's first component indexes the
 * grid's rows, and the start cell is never tested. The search runs for at
 * most `fuel` iterations.
 */
module Search {
  import opened Wrappers
  import opened Motion

  /** One arena entry: its state, the arena index of its parent, and its costs g, h and f. */
  datatype SearchNode = SearchNode(pos: State, parent: Option<nat>, g: int, h: int, f: int)

  /** Node identity: two nodes are equal when their states are, whatever their parents and costs. */
  predicate SameNode(a: SearchNode, b: SearchNode): (r: bool)
    ensures r <==> a.pos.x == b.pos.x && a.pos.y == b.pos.y && a.pos.heading == b.pos.heading
  {
    a.pos == b.pos
  }

  /** What a search ends with: a path, an exhausted open list, the table's KeyError, or spent fuel. */
  datatype Outcome = Found(path: seq<State>) | NoPath | KeyError | OutOfFuel

  /** The bounds test of the expansion step: the first component against the rows. */
  predicate InBounds(maze: array2<int>, s: State) {
    0 <= s.x < maze.Length0 && 0 <= s.y < maze.Length1
  }

  /** In bounds and on a zero cell. */
  predicate Walkable(maze: array2<int>, s: State)
    reads maze
  {
    InBounds(maze, s) && maze[s.x, s.y] == 0
  }

  /** The heuristic: squared distance between the cells, heading ignored. */
  function SquaredDistance(a: State, b: State): (d: int)
    ensures d >= 0
    ensures d == 0 <==> a.x == b.x && a.y == b.y
  {
    var dx, dy := a.x - b.x, a.y - b.y;
    assert dx * dx >= 0 && dy * dy >= 0;
    assert dx != 0 ==> dx * dx > 0;
    assert dy != 0 ==> dy * dy > 0;
    dx * dx + dy * dy
  }

  /**
   * A plan from `start` to `end`: starts at `start`, ends at `end`, each
   * state is a successor of the one before, and every state after the first
   * is walkable.
   */
  ghost predicate IsPlan(maze: array2<int>, start: State, end: State, p: seq<State>)
    reads maze
  {
    |p| > 0 && p[0] == start && p[|p| - 1] == end &&
    (forall i :: 0 <= i < |p| - 1 ==> Successor(p[i], p[i + 1])) &&
    (forall i :: 1 <= i < |p| ==> Walkable(maze, p[i]))
  }

  /** Parents come earlier in the arena. */
  ghost predicate Linked(arena: seq<SearchNode>) {
    forall k :: 0 <= k < |arena| && arena[k].parent.Some? ==> arena[k].parent.value < k
  }

  /** The states from the root to node `k`, following parent links. */
  ghost function Route(arena: seq<SearchNode>, k: nat): seq<State>
    requires Linked(arena) && k < |arena|
    decreases k
  {
    match arena[k].parent
    case None => [arena[k].pos]
    case Some(p) => Route(arena, p) + [arena[k].pos]
  }

  /** The node a parent at arena index `parent` gets for a child at `pos`. */
  function NewChild(arena: seq<SearchNode>, parent: nat, pos: State, end: State): SearchNode
    requires parent < |arena|
  {
    var g := arena[parent].g + 1;
    var h := SquaredDistance(pos, end);
    SearchNode(pos, Some(parent), g, h, g + h)
  }

  /** Node `k` was made from a walkable successor of its earlier parent, with the planner's costs. */
  ghost predicate ChildOk(maze: array2<int>, end: State, arena: seq<SearchNode>, k: nat)
    reads maze
    requires k < |arena|
  {
    var n := arena[k];
    n.parent.Some? && n.parent.value < k &&
    Successor(arena[n.parent.value].pos, n.pos) && Walkable(maze, n.pos) &&
    n == NewChild(arena, n.parent.value, n.pos, end)
  }

  /** The arena is rooted at the start node (costs 0) and every other node is a proper child. */
  ghost predicate ArenaOk(maze: array2<int>, start: State, end: State, arena: seq<SearchNode>)
    reads maze
  {
    |arena| > 0 && arena[0] == SearchNode(start, None, 0, 0, 0) &&
    forall k :: 1 <= k < |arena| ==> ChildOk(maze, end, arena, k)
  }

  /** Some open entry holds state `t`. */
  ghost predicate Queued(arena: seq<SearchNode>, open: seq<nat>, t: State) {
    exists j :: 0 <= j < |open| && open[j] < |arena| && arena[open[j]].pos == t
  }

  /** Every walkable successor of a closed state is closed or queued. */
  ghost predicate Explored(maze: array2<int>, arena: seq<SearchNode>, open: seq<nat>, closed: set<State>)
    reads maze
  {
    forall u, t :: u in closed && Successor(u, t) && Walkable(maze, t) ==> t in closed || Queued(arena, open, t)
  }

  /** What holds at the head of every iteration of the search loop. */
  ghost predicate SearchInv(maze: array2<int>, start: State, end: State,
                            arena: seq<SearchNode>, open: seq<nat>, closed: set<State>)
    reads maze
  {
    ArenaOk(maze, start, end, arena) &&
    (forall j :: 0 <= j < |open| ==> open[j] < |arena|) &&
    end !in closed &&
    (start in closed ==> IsHeading(start.heading)) &&
    (open == [0] || (start in closed && forall j :: 0 <= j < |open| ==> 0 < open[j])) &&
    Explored(maze, arena, open, closed)
  }

  /** The successors that pass the bounds and walkability tests, in order. */
  function Walkables(maze: array2<int>, ns: seq<State>): (r: seq<State>)
    reads maze
    ensures forall t :: t in r <==> t in ns && Walkable(maze, t)
  {
    if ns == [] then []
    else
      var rest := Walkables(maze, ns[..|ns| - 1]);
      var t := ns[|ns| - 1];
      assert ns == ns[..|ns| - 1] + [t];
      if Walkable(maze, t) then rest + [t] else rest
  }

  /** The children whose state is not closed, in order. */
  function Admitted(children: seq<State>, closed: set<State>): (r: seq<State>)
    ensures forall t :: t in r <==> t in children && t !in closed
  {
    if children == [] then []
    else
      var rest := Admitted(children[..|children| - 1], closed);
      var t := children[|children| - 1];
      assert children == children[..|children| - 1] + [t];
      if t !in closed then rest + [t] else rest
  }

  /** The arena and open list after appending one node per admitted child of `parent`. */
  ghost predicate Appended(arena: seq<SearchNode>, open: seq<nat>, parent: nat, end: State,
                           admitted: seq<State>, arena': seq<SearchNode>, open': seq<nat>)
    requires parent < |arena|
  {
    |arena'| == |arena| + |admitted| && arena'[..|arena|] == arena &&
    (forall j :: |arena| <= j < |arena'| ==> arena'[j] == NewChild(arena, parent, admitted[j - |arena|], end)) &&
    |open'| == |open| + |admitted| && open'[..|open|] == open &&
    (forall j :: |open| <= j < |open'| ==> open'[j] == |arena| + (j - |open|))
  }

  /** The linear scan of the open list: the first entry of minimum f. */
  method SelectMin(arena: seq<SearchNode>, open: seq<nat>) returns (best: nat)
    requires |open| > 0
    requires forall j :: 0 <= j < |open| ==> open[j] < |arena|
    ensures best < |open|
    ensures forall j :: 0 <= j < |open| ==> arena[open[best]].f <= arena[open[j]].f
    ensures forall j :: 0 <= j < best ==> arena[open[best]].f < arena[open[j]].f
  {
    best := 0;
    var index := 0;
    while index < |open|
      invariant best <= index <= |open| && best < |open|
      invariant forall j :: 0 <= j < index ==> arena[open[best]].f <= arena[open[j]].f
      invariant forall j :: 0 <= j < best ==> arena[open[best]].f < arena[open[j]].f
    {
      if arena[open[index]].f < arena[open[best]].f {
        best := index;
      }
      index := index + 1;
    }
  }

  /** Filters the successors of the current node by the bounds and walkability tests. */
  method WalkableChildren(maze: array2<int>, neighbors: seq<State>) returns (children: seq<State>)
    ensures children == Walkables(maze, neighbors)
  {
    children := [];
    for n := 0 to |neighbors|
      invariant children == Walkables(maze, neighbors[..n])
    {
      assert neighbors[..n + 1][..n] == neighbors[..n];
      var p := neighbors[n];
      if p.x > maze.Length0 - 1 || p.x < 0 || p.y > maze.Length1 - 1 || p.y < 0 {
        continue;
      }
      if maze[p.x, p.y] != 0 {
        continue;
      }
      children := children + [p];
    }
    assert neighbors[..|neighbors|] == neighbors;
  }

  /** Appends a node, with g = parent's g + 1 and h = squared distance to `end`, for each child not closed. */
  method AddChildren(arena: seq<SearchNode>, open: seq<nat>, closed: set<State>,
                     children: seq<State>, current: nat, end: State)
    returns (arena': seq<SearchNode>, open': seq<nat>)
    requires current < |arena|
    ensures Appended(arena, open, current, end, Admitted(children, closed), arena', open')
  {
    arena', open' := arena, open;
    for n := 0 to |children|
      invariant Appended(arena, open, current, end, Admitted(children[..n], closed), arena', open')
    {
      assert children[..n + 1][..n] == children[..n];
      var child := children[n];
      ghost var before := Admitted(children[..n], closed);
      assert Admitted(children[..n + 1], closed) == if child in closed then before else before + [child];
      if child in closed {
        continue;
      }
      var g := arena[current].g + 1;
      var h := SquaredDistance(child, end);
      open' := open' + [|arena'|];
      arena' := arena' + [SearchNode(child, Some(current), g, h, g + h)];
    }
    assert children[..|children|] == children;
  }

  /** Reverses a sequence. */
  function Reversed(s: seq<State>): (r: seq<State>)
    ensures |r| == |s|
    ensures forall i :: 0 <= i < |s| ==> r[i] == s[|s| - 1 - i]
  {
    seq(|s|, i requires 0 <= i < |s| => s[|s| - 1 - i])
  }

  /** Walks the parent links from node `goal` and returns the states root first. */
  method Reconstruct(arena: seq<SearchNode>, goal: nat) returns (path: seq<State>)
    requires Linked(arena) && goal < |arena|
    ensures path == Route(arena, goal)
  {
    var walked: seq<State> := [];
    var current: Option<nat> := Some(goal);
    while current.Some?
      invariant current.Some? ==> current.value < |arena|
      invariant (if current.Some? then Route(arena, current.value) else []) + Reversed(walked) == Route(arena, goal)
      decreases if current.Some? then current.value + 1 else 0
    {
      var node := arena[current.value];
      assert Reversed(walked + [node.pos]) == [node.pos] + Reversed(walked);
      walked := walked + [node.pos];
      current := node.parent;
    }
    path := Reversed(walked);
  }

  /** `open_list.pop(i)`: the list without its entry at `i`. */
  function Pop(open: seq<nat>, i: nat): (r: seq<nat>)
    requires i < |open|
    ensures |r| == |open| - 1
    ensures forall j :: 0 <= j < i ==> r[j] == open[j]
    ensures forall j :: i <= j < |r| ==> r[j] == open[j + 1]
  {
    open[..i] + open[i + 1..]
  }

  /**
   * The planner's A*: returns the parent chain of the first expanded node
   * whose state is `end`, or NoPath once the open list is empty. A returned
   * path is a plan, NoPath means no plan exists, a search from `end` to
   * itself returns `[end]` at once, and the table's KeyError arises exactly
   * when the start's heading is unknown and the start is not the goal.
   */
  method AStar(maze: array2<int>, start: State, end: State, fuel: nat) returns (r: Outcome)
    ensures r.Found? ==> IsPlan(maze, start, end, r.path)
    ensures r.NoPath? ==> forall p :: !IsPlan(maze, start, end, p)
    ensures start == end && fuel > 0 ==> r == Found([start])
    ensures r.KeyError? <==> fuel > 0 && start != end && !IsHeading(start.heading)
  {
    var startNode := SearchNode(start, None, 0, 0, 0);
    var endNode := SearchNode(end, None, 0, 0, 0);
    var arena := [startNode];
    var open: seq<nat> := [0];
    var closed: set<State> := {};
    var remaining: nat := fuel;
    while |open| > 0
      invariant SearchInv(maze, start, end, arena, open, closed)
      invariant remaining <= fuel
      invariant remaining < fuel ==> start in closed
      decreases remaining
    {
      if remaining == 0 {
        return OutOfFuel;
      }
      remaining := remaining - 1;

      var best := SelectMin(arena, open);
      var current := open[best];
      var node := arena[current];
      ghost var arena0, open0, closed0 := arena, open, closed;
      open := Pop(open, best);
      closed := closed + {node.pos};

      if SameNode(node, endNode) {
        GoalReached(maze, start, end, arena, open0, closed0, best);
        var path := Reconstruct(arena, current);
        return Found(path);
      }

      var neighbors := AdjacentSquares(node.pos);
      if neighbors.None? {
        UnknownHeading(maze, start, end, arena, open0, closed0, best);
        return KeyError;
      }
      var children := WalkableChildren(maze, neighbors.value);
      arena, open := AddChildren(arena, open, closed, children, current, end);
      ExpandKeepsInv(maze, start, end, arena0, open0, closed0, best, children, arena, open);
    }
    NoPlanWhenExhausted(maze, start, end, arena, closed);
    return NoPath;
  }

  /** Expanding a goal node: its parent chain is a plan, the one-state plan when the start is the goal. */
  lemma GoalReached(maze: array2<int>, start: State, end: State,
                    arena: seq<SearchNode>, open: seq<nat>, closed: set<State>, best: nat)
    requires SearchInv(maze, start, end, arena, open, closed)
    requires best < |open| && arena[open[best]].pos == end
    ensures Linked(arena) && IsPlan(maze, start, end, Route(arena, open[best]))
    ensures start == end ==> Route(arena, open[best]) == [start]
    ensures start != end ==> IsHeading(start.heading)
  {
    ArenaLinked(maze, start, end, arena);
    RouteIsPlan(maze, start, end, arena, open[best]);
    if open == [0] {
      assert open[best] == 0;
    }
  }

  /** The table lookup can fail only on the start node, and only when it is not the goal. */
  lemma UnknownHeading(maze: array2<int>, start: State, end: State,
                       arena: seq<SearchNode>, open: seq<nat>, closed: set<State>, best: nat)
    requires SearchInv(maze, start, end, arena, open, closed)
    requires best < |open| && arena[open[best]].pos != end
    requires AdjacentSquares(arena[open[best]].pos).None?
    ensures start != end && !IsHeading(start.heading)
  {
    ArenaHeadings(maze, start, end, arena);
    assert open[best] == 0;
  }

  /** An arena rooted at the start is linked. */
  lemma ArenaLinked(maze: array2<int>, start: State, end: State, arena: seq<SearchNode>)
    requires ArenaOk(maze, start, end, arena)
    ensures Linked(arena)
  {
    forall k | 0 <= k < |arena| && arena[k].parent.Some?
      ensures arena[k].parent.value < k
    {
      assert k != 0;
      assert ChildOk(maze, end, arena, k);
    }
  }

  /** Every node other than the root has a known heading. */
  lemma ArenaHeadings(maze: array2<int>, start: State, end: State, arena: seq<SearchNode>)
    requires ArenaOk(maze, start, end, arena)
    ensures forall k :: 1 <= k < |arena| ==> IsHeading(arena[k].pos.heading)
  {
    forall k | 1 <= k < |arena|
      ensures IsHeading(arena[k].pos.heading)
    {
      assert ChildOk(maze, end, arena, k);
      SuccessorHeading(arena[arena[k].parent.value].pos, arena[k].pos);
    }
  }

  /** The parent chain of any node is a plan from the start to that node's state. */
  lemma {:induction false} RouteIsPlan(maze: array2<int>, start: State, end: State, arena: seq<SearchNode>, k: nat)
    requires ArenaOk(maze, start, end, arena) && Linked(arena) && k < |arena|
    ensures IsPlan(maze, start, arena[k].pos, Route(arena, k))
  {
    if k == 0 {
    } else {
      assert ChildOk(maze, end, arena, k);
      var p := arena[k].parent.value;
      RouteIsPlan(maze, start, end, arena, p);
      var before := Route(arena, p);
      var route := Route(arena, k);
      assert route == before + [arena[k].pos];
      forall i | 0 <= i < |route| - 1
        ensures Successor(route[i], route[i + 1])
      {
        if i < |before| - 1 {
          assert route[i] == before[i] && route[i + 1] == before[i + 1];
        }
      }
      forall i | 1 <= i < |route|
        ensures Walkable(maze, route[i])
      {
        if i < |before| {
          assert route[i] == before[i];
        }
      }
    }
  }

  /** If a set holding `start` but not `end` is closed under walkable successors, no plan exists. */
  lemma NoPlanWhenExhausted(maze: array2<int>, start: State, end: State, arena: seq<SearchNode>, closed: set<State>)
    requires start in closed && end !in closed
    requires Explored(maze, arena, [], closed)
    ensures forall p :: !IsPlan(maze, start, end, p)
  {
    forall p | IsPlan(maze, start, end, p)
      ensures false
    {
      PlanStaysClosed(maze, start, end, arena, closed, p, |p| - 1);
    }
  }

  /** Along a plan, every state is in a closed set that holds the start and is closed under walkable successors. */
  lemma {:induction false} PlanStaysClosed(maze: array2<int>, start: State, end: State, arena: seq<SearchNode>,
                                           closed: set<State>, p: seq<State>, i: nat)
    requires start in closed && Explored(maze, arena, [], closed)
    requires IsPlan(maze, start, end, p) && i < |p|
    ensures p[i] in closed
  {
    if i > 0 {
      PlanStaysClosed(maze, start, end, arena, closed, p, i - 1);
      assert Successor(p[i - 1], p[i]) && Walkable(maze, p[i]);
      assert !Queued(arena, [], p[i]);
    }
  }

  /** One iteration that expands a node which is not the goal keeps the loop invariant. */
  lemma ExpandKeepsInv(maze: array2<int>, start: State, end: State,
                       arena0: seq<SearchNode>, open0: seq<nat>, closed0: set<State>,
                       best: nat, children: seq<State>, arena': seq<SearchNode>, open': seq<nat>)
    requires SearchInv(maze, start, end, arena0, open0, closed0)
    requires best < |open0|
    requires arena0[open0[best]].pos != end
    requires AdjacentSquares(arena0[open0[best]].pos).Some?
    requires children == Walkables(maze, AdjacentSquares(arena0[open0[best]].pos).value)
    requires Appended(arena0, Pop(open0, best), open0[best], end,
                      Admitted(children, closed0 + {arena0[open0[best]].pos}), arena', open')
    ensures SearchInv(maze, start, end, arena', open', closed0 + {arena0[open0[best]].pos})
    ensures start in closed0 + {arena0[open0[best]].pos}
  {
    var current := open0[best];
    var s := arena0[current].pos;
    var closed := closed0 + {s};
    var popped := Pop(open0, best);
    var admitted := Admitted(children, closed);
    ArenaGrows(maze, start, end, arena0, current, children, admitted, popped, arena', open');
    ExploredStep(maze, arena0, open0, closed0, best, children, end, arena', open');
    if open0 == [0] {
      assert current == 0 && s == start;
    }
    assert forall j :: 0 <= j < |open'| ==> 0 < open'[j] by {
      forall j | 0 <= j < |open'|
        ensures 0 < open'[j]
      {
        if j < |popped| {
          assert open'[j] == popped[j];
        }
      }
    }
    assert s == start ==> IsHeading(start.heading);
  }

  /** Appending the admitted children of a node keeps the arena well formed. */
  lemma ArenaGrows(maze: array2<int>, start: State, end: State, arena: seq<SearchNode>, current: nat,
                   children: seq<State>, admitted: seq<State>, open: seq<nat>,
                   arena': seq<SearchNode>, open': seq<nat>)
    requires ArenaOk(maze, start, end, arena) && current < |arena|
    requires forall j :: 0 <= j < |open| ==> open[j] < |arena|
    requires AdjacentSquares(arena[current].pos).Some?
    requires children == Walkables(maze, AdjacentSquares(arena[current].pos).value)
    requires forall t :: t in admitted ==> t in children
    requires Appended(arena, open, current, end, admitted, arena', open')
    ensures ArenaOk(maze, start, end, arena')
    ensures forall j :: 0 <= j < |open'| ==> open'[j] < |arena'|
  {
    forall k | 1 <= k < |arena'|
      ensures ChildOk(maze, end, arena', k)
    {
      if k < |arena| {
        assert arena'[k] == arena'[..|arena|][k];
        assert ChildOk(maze, end, arena, k);
        var p := arena[k].parent.value;
        assert arena'[p] == arena'[..|arena|][p];
      } else {
        var t := admitted[k - |arena|];
        assert t in admitted;
        assert arena'[current] == arena'[..|arena|][current];
        assert Successor(arena[current].pos, t) && Walkable(maze, t);
      }
    }
    assert arena'[0] == arena'[..|arena|][0];
    forall j | 0 <= j < |open'|
      ensures open'[j] < |arena'|
    {
      if j < |open| {
        assert open'[j] == open'[..|open|][j];
      }
    }
  }

  /** Closing the expanded state and queueing its admitted children keeps every closed state explored. */
  lemma ExploredStep(maze: array2<int>, arena: seq<SearchNode>, open: seq<nat>, closed: set<State>,
                     best: nat, children: seq<State>, end: State, arena': seq<SearchNode>, open': seq<nat>)
    requires Explored(maze, arena, open, closed)
    requires forall j :: 0 <= j < |open| ==> open[j] < |arena|
    requires best < |open|
    requires AdjacentSquares(arena[open[best]].pos).Some?
    requires children == Walkables(maze, AdjacentSquares(arena[open[best]].pos).value)
    requires Appended(arena, Pop(open, best), open[best], end,
                      Admitted(children, closed + {arena[open[best]].pos}), arena', open')
    ensures Explored(maze, arena', open', closed + {arena[open[best]].pos})
  {
    var s := arena[open[best]].pos;
    var closed' := closed + {s};
    var admitted := Admitted(children, closed');
    var popped := Pop(open, best);
    forall u, t | u in closed' && Successor(u, t) && Walkable(maze, t) && t !in closed'
      ensures Queued(arena', open', t)
    {
      if u == s {
        assert t in children;
        assert t in admitted;
        var k :| 0 <= k < |admitted| && admitted[k] == t;
        assert open'[|popped| + k] == |arena| + k;
        assert arena'[|arena| + k] == NewChild(arena, open[best], admitted[k], end);
      } else {
        assert Queued(arena, open, t);
        var j :| 0 <= j < |open| && open[j] < |arena| && arena[open[j]].pos == t;
        assert j != best;
        var j' := if j < best then j else j - 1;
        assert popped[j'] == open[j];
        assert open'[j'] == open'[..|popped|][j'];
        assert arena'[open[j]] == arena'[..|arena|][open[j]];
      }
    }
  }
}
