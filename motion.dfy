/**
 * The nonholonomic motion model of the planner: a robot state is a grid
 * cell and one of nine headings, and its successors are the nine in-place
 * turns followed by one forward step along the current heading.
 */
module Motion {
  import opened Wrappers

  /** A discrete robot state (x, y, heading in degrees). */
  datatype State = State(x: int, y: int, heading: int)

  /** The nine keys of the direction table: 0, 45, ..., 360 (0 and 360 are distinct). */
  predicate IsHeading(theta: int) {
    0 <= theta <= 360 && theta % 45 == 0
  }

  /** The forward-move table: heading to the (dx, dy) offset of one step. */
  const ForwardDeltaTable: map<int, (int, int)> :=
    map[0 := (-1, 0), 45 := (-1, 1), 90 := (0, 1), 135 := (1, 1), 180 := (1, 0),
        225 := (1, -1), 270 := (0, -1), 315 := (-1, -1), 360 := (-1, 0)]

  /** Looks a heading up in the table; None is the KeyError of an unknown key. */
  function ForwardDelta(theta: int): (r: Option<(int, int)>)
    ensures r.Some? <==> IsHeading(theta)
    ensures r.Some? ==> -1 <= r.value.0 <= 1 && -1 <= r.value.1 <= 1 && r.value != (0, 0)
  {
    if theta in ForwardDeltaTable then Some(ForwardDeltaTable[theta]) else None
  }

  /** The angles of `range(from, 361, 45)`. */
  function RotationAngles(from: int): (r: seq<int>)
    decreases 361 - from
    ensures |r| == if from <= 360 then (360 - from) / 45 + 1 else 0
    ensures forall i :: 0 <= i < |r| ==> r[i] == from + 45 * i
  {
    if from > 360 then [] else [from] + RotationAngles(from + 45)
  }

  /** The in-place turns of `s`, one per angle, in order. */
  function TurnInPlace(s: State, angles: seq<int>): seq<State> {
    seq(|angles|, i requires 0 <= i < |angles| => State(s.x, s.y, angles[i]))
  }

  /**
   * The successors of `s`: the nine turns to 0, 45, ..., 360 and then the
   * forward step, which keeps the heading. A heading the table does not know
   * yields None (the lookup raises after the turns are built).
   */
  function AdjacentSquares(s: State): (r: Option<seq<State>>)
    ensures r.Some? <==> IsHeading(s.heading)
    ensures r.Some? ==> |r.value| == 10
    ensures r.Some? ==> forall i :: 0 <= i < 9 ==> r.value[i] == State(s.x, s.y, 45 * i)
    ensures r.Some? ==>
      var d := ForwardDelta(s.heading).value;
      r.value[9] == State(s.x + d.0, s.y + d.1, s.heading)
  {
    var turns := TurnInPlace(s, RotationAngles(0));
    match ForwardDelta(s.heading)
    case None => None
    case Some(d) => Some(turns + [State(s.x + d.0, s.y + d.1, s.heading)])
  }

  /** `t` is one of the states `AdjacentSquares(s)` lists. */
  predicate Successor(s: State, t: State) {
    AdjacentSquares(s).Some? && t in AdjacentSquares(s).value
  }

  /** The forward step from a state with a known heading. */
  function Forward(s: State): State
    requires IsHeading(s.heading)
  {
    var d := ForwardDelta(s.heading).value;
    State(s.x + d.0, s.y + d.1, s.heading)
  }

  /**
   * The successor relation in closed form: from a known heading, a robot may
   * turn in place to any known heading, or step forward and keep its heading.
   */
  lemma SuccessorIff(s: State, t: State)
    ensures Successor(s, t) <==>
      IsHeading(s.heading) &&
      ((t.x == s.x && t.y == s.y && IsHeading(t.heading)) || t == Forward(s))
  {
    if IsHeading(s.heading) {
      var ns := AdjacentSquares(s).value;
      if t.x == s.x && t.y == s.y && IsHeading(t.heading) {
        var i := t.heading / 45;
        assert ns[i] == t;
      }
      if t in ns {
        var i :| 0 <= i < |ns| && ns[i] == t;
        if i < 9 {
          assert t.heading == 45 * i;
        }
      }
    }
  }

  /** Every successor has one of the nine known headings. */
  lemma SuccessorHeading(s: State, t: State)
    requires Successor(s, t)
    ensures IsHeading(s.heading) && IsHeading(t.heading)
  {
    SuccessorIff(s, t);
  }

  /** Headings 0 and 360 move the same way, though they are different states. */
  lemma ZeroAnd360StepAlike(x: int, y: int)
    ensures ForwardDelta(0) == ForwardDelta(360)
    ensures State(x, y, 0) != State(x, y, 360)
  {
  }

  /** Opposite headings step in opposite directions. */
  lemma OppositeHeadings(theta: int)
    requires IsHeading(theta) && theta + 180 <= 360
    ensures ForwardDelta(theta + 180).value.0 == -ForwardDelta(theta).value.0
    ensures ForwardDelta(theta + 180).value.1 == -ForwardDelta(theta).value.1
  {
  }
}
