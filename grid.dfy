/**
 * The grid builder: the workspace is cut into 10-pixel cells, each robot is
 * moved into cell coordinates by truncating division, and a 5 x 5 block of
 * cells from each robot's cell on is marked 255 (blocked). The block is not
 * clipped: an index past the grid raises IndexError, and a negative index
 * counts from the far end of the axis, as numpy indexing does.
 */
module Grid {
  import opened Wrappers
  import opened Motion
  import opened Poses

  /** Side of the square block a robot occupies, in cells. */
  const RobotSize := 5

  /** Cells along an axis of `n` pixels: `n` rounded up to a multiple of 10, then divided by 10. */
  function CellCount(n: nat): (r: nat)
    ensures 10 * r - 10 < n <= 10 * r
  {
    var rounded := (n + 9) / 10 * 10;
    rounded / 10
  }

  /** A robot in cell coordinates: `(int(x / 10), int(y / 10), heading)`. */
  function ScaleBot(b: Pose): (s: State)
    ensures s.heading == b.heading
    ensures 0.0 <= b.x ==> (10 * s.x) as real <= b.x < (10 * s.x + 10) as real
    ensures 0.0 <= b.y ==> (10 * s.y) as real <= b.y < (10 * s.y + 10) as real
  {
    State(Trunc(b.x / 10.0), Trunc(b.y / 10.0), b.heading)
  }

  /** numpy's reading of index `k` on an axis of length `n`; None is IndexError. */
  function NpIndex(k: int, n: nat): (r: Option<nat>)
    ensures r.Some? <==> 0 <= k + n && k < n
    ensures r.Some? ==> r.value < n && (if k < 0 then r.value == k + n else r.value == k)
  {
    if 0 <= k < n then Some(k) else if 0 <= k + n && k < 0 then Some(k + n) else None
  }

  /** Offset (i, j) of robot k's block lands on cell (r, c). */
  ghost predicate Hits(s: seq<State>, rows: nat, cols: nat, k: nat, i: int, j: int, r: int, c: int)
    requires k < |s|
  {
    NpIndex(s[k].y + i, rows) == Some(r) && NpIndex(s[k].x + j, cols) == Some(c)
  }

  /** Offset (i, j) of robot k's block is a valid index. */
  ghost predicate InRange(s: seq<State>, rows: nat, cols: nat, k: nat, i: int, j: int)
    requires k < |s|
  {
    NpIndex(s[k].y + i, rows).Some? && NpIndex(s[k].x + j, cols).Some?
  }

  /** Every cell of every robot's block is a valid index. */
  ghost predicate FootprintsFit(s: seq<State>, rows: nat, cols: nat) {
    forall k, i, j :: 0 <= k < |s| && 0 <= i < RobotSize && 0 <= j < RobotSize ==> InRange(s, rows, cols, k, i, j)
  }

  /** Some robot's block covers cell (r, c). */
  ghost predicate Occupied(s: seq<State>, rows: nat, cols: nat, r: int, c: int) {
    exists k, i, j :: 0 <= k < |s| && 0 <= i < RobotSize && 0 <= j < RobotSize && Hits(s, rows, cols, k, i, j, r, c)
  }

  /** (i, j, k) comes before (i0, j0, k0) in the stamping order: i, then j, then robot. */
  predicate Before(i: int, j: int, k: int, i0: int, j0: int, k0: int) {
    i < i0 || (i == i0 && (j < j0 || (j == j0 && k < k0)))
  }

  /** Some write before (i0, j0, k0) has landed on (r, c). */
  ghost predicate Stamped(s: seq<State>, rows: nat, cols: nat, i0: int, j0: int, k0: int, r: int, c: int) {
    exists k, i, j :: 0 <= k < |s| && 0 <= i < RobotSize && 0 <= j < RobotSize &&
      Before(i, j, k, i0, j0, k0) && Hits(s, rows, cols, k, i, j, r, c)
  }

  /** Every write before (i0, j0, k0) was in range. */
  ghost predicate FitSoFar(s: seq<State>, rows: nat, cols: nat, i0: int, j0: int, k0: int) {
    forall k, i, j :: 0 <= k < |s| && 0 <= i < RobotSize && 0 <= j < RobotSize && Before(i, j, k, i0, j0, k0) ==>
      InRange(s, rows, cols, k, i, j)
  }

  datatype GridResult = Built(grid: array2<int>, scaled: seq<State>) | IndexError

  /**
   * Builds the occupancy grid of a `height` x `width` image. On success the
   * grid has one cell per 10 x 10 pixels, the scaled robots are the inputs in
   * cell coordinates, and a cell is 255 exactly when a robot's block covers it.
   */
  method ScaleGrid(bots: seq<Pose>, height: nat, width: nat) returns (res: GridResult)
    ensures res.Built? <==> FootprintsFit(Scaled(bots), CellCount(height), CellCount(width))
    ensures res.Built? ==>
      fresh(res.grid) && res.grid.Length0 == CellCount(height) && res.grid.Length1 == CellCount(width)
    ensures res.Built? ==> res.scaled == Scaled(bots)
    ensures res.Built? ==> forall r, c :: 0 <= r < res.grid.Length0 && 0 <= c < res.grid.Length1 ==>
      res.grid[r, c] == if Occupied(res.scaled, res.grid.Length0, res.grid.Length1, r, c) then 255 else 0
  {
    var rows := CellCount(height);
    var cols := CellCount(width);
    var grid := new int[rows, cols]((r, c) => 0);

    var scaled: seq<State> := [];
    for n := 0 to |bots|
      invariant scaled == Scaled(bots[..n])
    {
      assert bots[..n + 1] == bots[..n] + [bots[n]];
      scaled := scaled + [ScaleBot(bots[n])];
    }
    assert bots[..|bots|] == bots;

    for i := 0 to RobotSize
      invariant FitSoFar(scaled, rows, cols, i, 0, 0)
      invariant forall r, c :: 0 <= r < rows && 0 <= c < cols ==>
        grid[r, c] == if Stamped(scaled, rows, cols, i, 0, 0, r, c) then 255 else 0
    {
      for j := 0 to RobotSize
        invariant FitSoFar(scaled, rows, cols, i, j, 0)
        invariant forall r, c :: 0 <= r < rows && 0 <= c < cols ==>
          grid[r, c] == if Stamped(scaled, rows, cols, i, j, 0, r, c) then 255 else 0
      {
        for k := 0 to |scaled|
          invariant FitSoFar(scaled, rows, cols, i, j, k)
          invariant forall r, c :: 0 <= r < rows && 0 <= c < cols ==>
            grid[r, c] == if Stamped(scaled, rows, cols, i, j, k, r, c) then 255 else 0
        {
          var bot := scaled[k];
          var row := NpIndex(bot.y + i, rows);
          var col := NpIndex(bot.x + j, cols);
          if row.None? || col.None? {
            assert !InRange(scaled, rows, cols, k, i, j);
            return IndexError;
          }
          StampStep(scaled, rows, cols, i, j, k);
          label Written:
          grid[row.value, col.value] := 255;
          forall r, c | 0 <= r < rows && 0 <= c < cols
            ensures grid[r, c] == if Stamped(scaled, rows, cols, i, j, k + 1, r, c) then 255 else 0
          {
            if r != row.value || c != col.value {
              assert !Hits(scaled, rows, cols, k, i, j, r, c);
              assert grid[r, c] == old@Written(grid[r, c]);
            } else {
              assert Hits(scaled, rows, cols, k, i, j, r, c);
            }
          }
        }
        NextColumn(scaled, rows, cols, i, j);
      }
      NextRow(scaled, rows, cols, i);
    }
    StampedAll(scaled, rows, cols);
    res := Built(grid, scaled);
  }

  /** The robots of `bots` in cell coordinates. */
  function Scaled(bots: seq<Pose>): (s: seq<State>)
    ensures |s| == |bots|
    ensures forall k :: 0 <= k < |bots| ==> s[k] == ScaleBot(bots[k])
  {
    if bots == [] then [] else Scaled(bots[..|bots| - 1]) + [ScaleBot(bots[|bots| - 1])]
  }

  /** One write: the cells stamped after it are those before it plus the one it hits. */
  lemma StampStep(s: seq<State>, rows: nat, cols: nat, i: int, j: int, k: nat)
    requires k < |s| && 0 <= i < RobotSize && 0 <= j < RobotSize
    requires FitSoFar(s, rows, cols, i, j, k)
    requires InRange(s, rows, cols, k, i, j)
    ensures FitSoFar(s, rows, cols, i, j, k + 1)
    ensures forall r, c :: Stamped(s, rows, cols, i, j, k + 1, r, c) <==>
      Stamped(s, rows, cols, i, j, k, r, c) || Hits(s, rows, cols, k, i, j, r, c)
  {
    forall r, c
      ensures Stamped(s, rows, cols, i, j, k + 1, r, c) <==>
        Stamped(s, rows, cols, i, j, k, r, c) || Hits(s, rows, cols, k, i, j, r, c)
    {
      if Hits(s, rows, cols, k, i, j, r, c) {
        assert Before(i, j, k, i, j, k + 1);
      }
    }
  }

  /** Finishing all robots at offset (i, j) is starting offset (i, j + 1). */
  lemma NextColumn(s: seq<State>, rows: nat, cols: nat, i: int, j: int)
    requires FitSoFar(s, rows, cols, i, j, |s|)
    ensures FitSoFar(s, rows, cols, i, j + 1, 0)
    ensures forall r, c :: Stamped(s, rows, cols, i, j + 1, 0, r, c) <==> Stamped(s, rows, cols, i, j, |s|, r, c)
  {
    forall r, c
      ensures Stamped(s, rows, cols, i, j + 1, 0, r, c) <==> Stamped(s, rows, cols, i, j, |s|, r, c)
    {
      if Stamped(s, rows, cols, i, j + 1, 0, r, c) {
        var k, i', j' :| 0 <= k < |s| && 0 <= i' < RobotSize && 0 <= j' < RobotSize &&
          Before(i', j', k, i, j + 1, 0) && Hits(s, rows, cols, k, i', j', r, c);
        assert Before(i', j', k, i, j, |s|);
      }
    }
  }

  /** Finishing all offsets of row i is starting row i + 1. */
  lemma NextRow(s: seq<State>, rows: nat, cols: nat, i: int)
    requires FitSoFar(s, rows, cols, i, RobotSize, 0)
    ensures FitSoFar(s, rows, cols, i + 1, 0, 0)
    ensures forall r, c :: Stamped(s, rows, cols, i + 1, 0, 0, r, c) <==> Stamped(s, rows, cols, i, RobotSize, 0, r, c)
  {
    forall r, c
      ensures Stamped(s, rows, cols, i + 1, 0, 0, r, c) <==> Stamped(s, rows, cols, i, RobotSize, 0, r, c)
    {
      if Stamped(s, rows, cols, i + 1, 0, 0, r, c) {
        var k, i', j' :| 0 <= k < |s| && 0 <= i' < RobotSize && 0 <= j' < RobotSize &&
          Before(i', j', k, i + 1, 0, 0) && Hits(s, rows, cols, k, i', j', r, c);
        assert Before(i', j', k, i, RobotSize, 0);
      }
    }
  }

  /** After every offset of every robot, the stamped cells are the occupied ones. */
  lemma StampedAll(s: seq<State>, rows: nat, cols: nat)
    requires FitSoFar(s, rows, cols, RobotSize, 0, 0)
    ensures FootprintsFit(s, rows, cols)
    ensures forall r, c :: Stamped(s, rows, cols, RobotSize, 0, 0, r, c) <==> Occupied(s, rows, cols, r, c)
  {
    forall r, c
      ensures Stamped(s, rows, cols, RobotSize, 0, 0, r, c) <==> Occupied(s, rows, cols, r, c)
    {
      if Occupied(s, rows, cols, r, c) {
        var k, i, j :| 0 <= k < |s| && 0 <= i < RobotSize && 0 <= j < RobotSize && Hits(s, rows, cols, k, i, j, r, c);
        assert Before(i, j, k, RobotSize, 0, 0);
      }
    }
  }

  /** The blocks fit exactly when no robot's cell is more than one axis length below zero and every block ends inside the grid. */
  lemma FitIff(s: seq<State>, rows: nat, cols: nat)
    ensures FootprintsFit(s, rows, cols) <==>
      forall k :: 0 <= k < |s| ==>
        0 <= s[k].y + rows && s[k].y + RobotSize <= rows && 0 <= s[k].x + cols && s[k].x + RobotSize <= cols
  {
    if FootprintsFit(s, rows, cols) {
      forall k | 0 <= k < |s|
        ensures 0 <= s[k].y + rows && s[k].y + RobotSize <= rows && 0 <= s[k].x + cols && s[k].x + RobotSize <= cols
      {
        assert InRange(s, rows, cols, k, 0, 0);
        assert InRange(s, rows, cols, k, 4, 4);
      }
    }
  }

  /**
   * With robots at non-negative cells, a cell is occupied exactly when it lies
   * in the 5 x 5 block whose top-left corner is some robot's cell.
   */
  lemma OccupiedIffCovered(s: seq<State>, rows: nat, cols: nat, r: int, c: int)
    requires forall k :: 0 <= k < |s| ==> 0 <= s[k].x && 0 <= s[k].y
    requires 0 <= r < rows && 0 <= c < cols
    ensures Occupied(s, rows, cols, r, c) <==>
      exists k :: 0 <= k < |s| && s[k].y <= r < s[k].y + RobotSize && s[k].x <= c < s[k].x + RobotSize
  {
    if k :| 0 <= k < |s| && s[k].y <= r < s[k].y + RobotSize && s[k].x <= c < s[k].x + RobotSize {
      assert Hits(s, rows, cols, k, r - s[k].y, c - s[k].x, r, c);
    }
  }
}
