/**
 * Path post-processing: grid paths are scaled back to pixels, and each path
 * is reduced to its first waypoint and the waypoints where the heading
 * changes. Both operate on found paths only (a missing path is not a list).
 */
module PostProcess {
  import opened Motion
  import opened Poses
  import opened Grid

  /** A waypoint in pixel coordinates: x and y times 10, heading kept. */
  function Rescaled(s: State): State {
    State(s.x * 10, s.y * 10, s.heading)
  }

  /** Rescales every waypoint of every robot's path, keeping counts and order. */
  method RescalePaths(planned: seq<seq<State>>) returns (out: seq<seq<State>>)
    ensures |out| == |planned|
    ensures forall i :: 0 <= i < |planned| ==> |out[i]| == |planned[i]|
    ensures forall i, j :: 0 <= i < |planned| && 0 <= j < |planned[i]| ==> out[i][j] == Rescaled(planned[i][j])
  {
    out := [];
    for i := 0 to |planned|
      invariant |out| == i
      invariant forall m :: 0 <= m < i ==> |out[m]| == |planned[m]|
      invariant forall m, j :: 0 <= m < i && 0 <= j < |planned[m]| ==> out[m][j] == Rescaled(planned[m][j])
    {
      var path := planned[i];
      var rescaled: seq<State> := [];
      for j := 0 to |path|
        invariant |rescaled| == j
        invariant forall k :: 0 <= k < j ==> rescaled[k] == Rescaled(path[k])
      {
        var p := path[j];
        rescaled := rescaled + [State(p.x * 10, p.y * 10, p.heading)];
      }
      out := out + [rescaled];
    }
  }

  /** Dividing a rescaled waypoint by 10 as the grid builder does gives back the grid state. */
  lemma RescaleRoundTrip(s: State)
    ensures ScaleBot(Pose(Rescaled(s).x as real, Rescaled(s).y as real, Rescaled(s).heading)) == s
  {
    var b := Pose(Rescaled(s).x as real, Rescaled(s).y as real, s.heading);
    assert b.x / 10.0 == s.x as real;
    assert b.y / 10.0 == s.y as real;
  }

  /** The heading of every waypoint, in order. */
  function Headings(p: seq<State>): (hs: seq<int>)
    ensures |hs| == |p|
    ensures forall i :: 0 <= i < |p| ==> hs[i] == p[i].heading
  {
    seq(|p|, i requires 0 <= i < |p| => p[i].heading)
  }

  /** The waypoints among `p[1..n]` whose heading differs from the waypoint before them. */
  function Turns(p: seq<State>, n: nat): (r: seq<State>)
    requires n <= |p|
    ensures n > 0 ==> |r| < n
  {
    if n <= 1 then []
    else Turns(p, n - 1) + (if p[n - 1].heading != p[n - 2].heading then [p[n - 1]] else [])
  }

  /** What the simplification keeps: the first waypoint and every heading change. */
  function Simplified(p: seq<State>): seq<State>
    requires |p| > 0
  {
    [p[0]] + Turns(p, |p|)
  }

  /** Simplifies one path: keep the first waypoint, then each one whose heading differs from the last kept. */
  method SimplifyPath(path: seq<State>) returns (simple: seq<State>)
    requires |path| > 0
    ensures simple == Simplified(path)
  {
    var compare := path[0];
    simple := [path[0]];
    for i := 0 to |path|
      invariant simple == [path[0]] + Turns(path, i)
      invariant compare == simple[|simple| - 1]
      invariant compare.heading == path[if i == 0 then 0 else i - 1].heading
    {
      var coord := path[i];
      if coord.heading != compare.heading {
        compare := coord;
        simple := simple + [compare];
      }
    }
  }

  /** Simplifies every robot's path. */
  method SimplifyPaths(rescaled: seq<seq<State>>) returns (out: seq<seq<State>>)
    requires forall i :: 0 <= i < |rescaled| ==> |rescaled[i]| > 0
    ensures |out| == |rescaled|
    ensures forall i :: 0 <= i < |rescaled| ==> out[i] == Simplified(rescaled[i])
  {
    out := [];
    for i := 0 to |rescaled|
      invariant |out| == i
      invariant forall m :: 0 <= m < i ==> out[m] == Simplified(rescaled[m])
    {
      var simple := SimplifyPath(rescaled[i]);
      out := out + [simple];
    }
  }

  /** `idx` picks the elements of `a` out of `b`, in order. */
  ghost predicate Embeds(idx: seq<nat>, a: seq<State>, b: seq<State>) {
    |idx| == |a| &&
    (forall k :: 0 <= k < |idx| ==> idx[k] < |b| && a[k] == b[idx[k]]) &&
    (forall k :: 0 <= k < |idx| - 1 ==> idx[k] < idx[k + 1])
  }

  /** `a` is a subsequence of `b`. */
  ghost predicate IsSubsequence(a: seq<State>, b: seq<State>) {
    exists idx :: Embeds(idx, a, b)
  }

  /** The positions in `p` of the waypoints `Turns(p, n)` keeps; all lie in 1 .. n - 1. */
  lemma {:induction false} TurnsEmbed(p: seq<State>, n: nat) returns (idx: seq<nat>)
    requires n <= |p|
    ensures Embeds(idx, Turns(p, n), p)
    ensures forall k :: 0 <= k < |idx| ==> 1 <= idx[k] < n
  {
    if n <= 1 {
      idx := [];
    } else {
      var before := TurnsEmbed(p, n - 1);
      if p[n - 1].heading != p[n - 2].heading {
        var kept := Turns(p, n - 1);
        assert Turns(p, n) == kept + [p[n - 1]];
        idx := before + [n - 1];
        forall k | 0 <= k < |idx|
          ensures idx[k] < |p| && Turns(p, n)[k] == p[idx[k]]
        {
          if k < |before| {
            assert idx[k] == before[k] && Turns(p, n)[k] == kept[k];
          }
        }
        forall k | 0 <= k < |idx| - 1
          ensures idx[k] < idx[k + 1]
        {
          if k < |before| - 1 {
            assert idx[k] == before[k] && idx[k + 1] == before[k + 1];
          }
        }
      } else {
        idx := before;
      }
    }
  }

  /** The simplified path starts with the input's first waypoint, is no longer, and is a subsequence of it. */
  lemma SimplifiedIsSubsequence(p: seq<State>)
    requires |p| > 0
    ensures Simplified(p)[0] == p[0]
    ensures |Simplified(p)| <= |p|
    ensures IsSubsequence(Simplified(p), p)
  {
    var idx := TurnsEmbed(p, |p|);
    assert Embeds([0] + idx, Simplified(p), p);
  }

  /** The last waypoint kept up to `n` has the heading of waypoint n - 1. */
  lemma {:induction false} LastKeptHeading(p: seq<State>, n: nat)
    requires 1 <= n <= |p|
    ensures var s := [p[0]] + Turns(p, n); s[|s| - 1].heading == p[n - 1].heading
  {
    if n > 1 {
      LastKeptHeading(p, n - 1);
    }
  }

  /** Consecutive waypoints kept up to `n` have different headings. */
  lemma {:induction false} TurnsAlternate(p: seq<State>, n: nat)
    requires 1 <= n <= |p|
    ensures Alternating([p[0]] + Turns(p, n))
  {
    if n > 1 {
      TurnsAlternate(p, n - 1);
      LastKeptHeading(p, n - 1);
      var before := [p[0]] + Turns(p, n - 1);
      if p[n - 1].heading != p[n - 2].heading {
        var s := [p[0]] + Turns(p, n);
        assert s == before + [p[n - 1]];
        forall k | 0 <= k < |s| - 1
          ensures s[k].heading != s[k + 1].heading
        {
          if k < |before| - 1 {
            assert s[k] == before[k] && s[k + 1] == before[k + 1];
          }
        }
      } else {
        assert [p[0]] + Turns(p, n) == before;
      }
    }
  }

  /** Consecutive waypoints have different headings. */
  ghost predicate Alternating(s: seq<State>) {
    forall k :: 0 <= k < |s| - 1 ==> s[k].heading != s[k + 1].heading
  }

  /** Consecutive waypoints of a simplified path have different headings. */
  lemma SimplifiedAlternates(p: seq<State>)
    requires |p| > 0
    ensures Alternating(Simplified(p))
  {
    TurnsAlternate(p, |p|);
  }

  /** A path whose consecutive headings all differ keeps every waypoint. */
  lemma {:induction false} TurnsOfAlternating(p: seq<State>, n: nat)
    requires 1 <= n <= |p|
    requires Alternating(p)
    ensures Turns(p, n) == p[1..n]
  {
    if n > 1 {
      TurnsOfAlternating(p, n - 1);
      assert p[n - 2].heading != p[n - 1].heading;
      assert p[1..n] == p[1..n - 1] + [p[n - 1]];
    }
  }

  /** Simplifying twice is simplifying once. */
  lemma SimplifyIdempotent(p: seq<State>)
    requires |p| > 0
    ensures Simplified(Simplified(p)) == Simplified(p)
  {
    var s := Simplified(p);
    SimplifiedAlternates(p);
    TurnsOfAlternating(s, |s|);
  }

  /** A heading sequence with each run of equal consecutive values collapsed to one. */
  function Collapse(hs: seq<int>): (r: seq<int>)
  {
    if |hs| <= 1 then hs
    else if hs[0] == hs[1] then Collapse(hs[1..])
    else [hs[0]] + Collapse(hs[1..])
  }

  /** Dropping the first waypoint moves every later kept waypoint one place left. */
  lemma {:induction false} TurnsShift(p: seq<State>, n: nat)
    requires 2 <= n <= |p|
    ensures Turns(p, n) == (if p[1].heading != p[0].heading then [p[1]] else []) + Turns(p[1..], n - 1)
  {
    if n > 2 {
      TurnsShift(p, n - 1);
      assert p[1..][n - 2] == p[n - 1] && p[1..][n - 3] == p[n - 2];
    }
  }

  /** The headings of a simplified path are the input's headings with repeats collapsed. */
  lemma {:induction false} SimplifiedHeadings(p: seq<State>)
    requires |p| > 0
    ensures Headings(Simplified(p)) == Collapse(Headings(p))
    decreases |p|
  {
    if |p| > 1 {
      var q := p[1..];
      SimplifiedHeadings(q);
      TurnsShift(p, |p|);
      assert Headings(p)[1..] == Headings(q);
      if p[0].heading == p[1].heading {
        assert Headings(Simplified(p)) == Headings(Simplified(q));
      } else {
        assert Simplified(p) == [p[0]] + Simplified(q);
        assert Headings(Simplified(p)) == [p[0].heading] + Headings(Simplified(q));
      }
    }
  }
}
