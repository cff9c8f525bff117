/**
 * A pendulum's state and trail, and `step`: advance the state with the
 * integrator, then push the trail point of the new angles. The integrator
 * and the trigonometry that turns angles into a trail point are parameters.
 */
module Pendula {
  import opened Geometry
  import opened Trail
  import opened Ribbon

  /** Capacity of every pendulum's trail. */
  const TailMax: nat := 400

  /** Angles and canonical momenta of the two links. */
  datatype State = State(a1: real, a2: real, p1: real, p2: real)

  datatype Pendulum = Pendulum(state: State, tail: History)

  /** A pendulum created from an explicit initial state, with an empty trail. */
  function NewPendulum(init: State): (p: Pendulum)
    ensures p.state == init && p.tail.Valid() && p.tail.cap == TailMax
    ensures Contents(p.tail) == []
  {
    Pendulum(init, Empty(TailMax))
  }

  /**
   * `step(dt)`: the trail point pushed is computed from the state AFTER the
   * integration step, so the newest trail sample always matches the current
   * state.
   */
  function Step(p: Pendulum, dt: real, rk4: (State, real) -> State, trailPoint: (real, real) -> Vec2): (q: Pendulum)
    requires p.tail.Valid()
    ensures q.tail.Valid() && q.tail.cap == p.tail.cap
    ensures q.state == rk4(p.state, dt)
    ensures 1 <= q.tail.length && Recent(q.tail)[0] == trailPoint(q.state.a1, q.state.a2)
    ensures Contents(q.tail) == Keep(Contents(p.tail) + [trailPoint(q.state.a1, q.state.a2)], p.tail.cap)
  {
    var s := rk4(p.state, dt);
    PushContents(p.tail, trailPoint(s.a1, s.a2));
    PushNewest(p.tail, trailPoint(s.a1, s.a2));
    Pendulum(s, Push(p.tail, trailPoint(s.a1, s.a2)))
  }

  /** One `step` per element of `dts`, in order, as the animation loop does. */
  function Run(p: Pendulum, dts: seq<real>, rk4: (State, real) -> State, trailPoint: (real, real) -> Vec2): (q: Pendulum)
    requires p.tail.Valid()
    ensures q.tail.Valid() && q.tail.cap == p.tail.cap
    decreases |dts|
  {
    if dts == [] then p else Step(Run(p, dts[..|dts| - 1], rk4, trailPoint), dts[|dts| - 1], rk4, trailPoint)
  }

  /** The states the integrator produces from `s` under the time steps `dts`, the start excluded. */
  function Trajectory(s: State, dts: seq<real>, rk4: (State, real) -> State): (ss: seq<State>)
    ensures |ss| == |dts|
    decreases |dts|
  {
    if dts == [] then []
    else
      var prev := Trajectory(s, dts[..|dts| - 1], rk4);
      prev + [rk4(if prev == [] then s else prev[|prev| - 1], dts[|dts| - 1])]
  }

  /** The trail points of a sequence of states. */
  function TrailOf(ss: seq<State>, trailPoint: (real, real) -> Vec2): (ps: seq<Vec2>)
    ensures |ps| == |ss|
  {
    seq(|ss|, k requires 0 <= k < |ss| => trailPoint(ss[k].a1, ss[k].a2))
  }

  lemma TrailOfSnoc(ss: seq<State>, s: State, trailPoint: (real, real) -> Vec2)
    ensures TrailOf(ss + [s], trailPoint) == TrailOf(ss, trailPoint) + [trailPoint(s.a1, s.a2)]
  {
    var l, r := TrailOf(ss + [s], trailPoint), TrailOf(ss, trailPoint) + [trailPoint(s.a1, s.a2)];
    forall k | 0 <= k < |l|
      ensures l[k] == r[k]
    {
      if k < |ss| {
        assert (ss + [s])[k] == ss[k];
      }
    }
  }

  /** After a run, the state is the last one the integrator produced. */
  lemma {:induction false} RunState(p: Pendulum, dts: seq<real>, rk4: (State, real) -> State, trailPoint: (real, real) -> Vec2)
    requires p.tail.Valid()
    ensures var ss := Trajectory(p.state, dts, rk4);
            Run(p, dts, rk4, trailPoint).state == if dts == [] then p.state else ss[|ss| - 1]
    decreases |dts|
  {
    if dts != [] {
      RunState(p, dts[..|dts| - 1], rk4, trailPoint);
    }
  }

  /**
   * After a run, the trail holds the trail points of the most recent states
   * the integrator produced, oldest first, at most `cap` of them.
   */
  lemma {:induction false} RunTrail(p: Pendulum, dts: seq<real>, rk4: (State, real) -> State, trailPoint: (real, real) -> Vec2)
    requires p.tail.Valid()
    ensures Contents(Run(p, dts, rk4, trailPoint).tail)
            == Keep(Contents(p.tail) + TrailOf(Trajectory(p.state, dts, rk4), trailPoint), p.tail.cap)
    decreases |dts|, 0
  {
    if dts == [] {
      assert Contents(p.tail) + TrailOf([], trailPoint) == Contents(p.tail);
    } else {
      var init, dt := dts[..|dts| - 1], dts[|dts| - 1];
      assert init + [dt] == dts;
      RunTrailStep(p, init, dt, rk4, trailPoint);
    }
  }

  /** The inductive step of `RunTrail`: one more step appends one trail point. */
  lemma {:induction false} RunTrailStep(p: Pendulum, init: seq<real>, dt: real, rk4: (State, real) -> State, trailPoint: (real, real) -> Vec2)
    requires p.tail.Valid()
    ensures Contents(Run(p, init + [dt], rk4, trailPoint).tail)
            == Keep(Contents(p.tail) + TrailOf(Trajectory(p.state, init + [dt], rk4), trailPoint), p.tail.cap)
    decreases |init|, 1
  {
    var dts := init + [dt];
    assert dts[..|dts| - 1] == init;
    RunTrail(p, init, rk4, trailPoint);
    var q0 := Run(p, init, rk4, trailPoint);
    var q := Step(q0, dt, rk4, trailPoint);
    assert Run(p, dts, rk4, trailPoint) == q;
    RunState(p, dts, rk4, trailPoint);
    var ss0, ss := Trajectory(p.state, init, rk4), Trajectory(p.state, dts, rk4);
    var last := ss[|ss| - 1];
    assert ss == ss0 + [last];
    assert q.state == last;
    var pt := trailPoint(last.a1, last.a2);
    TrailOfSnoc(ss0, last, trailPoint);
    KeepSnoc(Contents(p.tail), TrailOf(ss0, trailPoint), pt, p.tail.cap, Contents(q0.tail), Contents(q.tail));
  }

  /**
   * A new pendulum stepped `|dts|` times has a trail of `min(|dts|, 400)`
   * samples: the trail points of its last states, never its initial one.
   */
  lemma NewPendulumTrail(init: State, dts: seq<real>, rk4: (State, real) -> State, trailPoint: (real, real) -> Vec2)
    ensures var q := Run(NewPendulum(init), dts, rk4, trailPoint);
            && q.tail.length == Min(|dts|, TailMax)
            && Contents(q.tail) == Keep(TrailOf(Trajectory(init, dts, rk4), trailPoint), TailMax)
  {
    var p := NewPendulum(init);
    RunTrail(p, dts, rk4, trailPoint);
    assert Contents(p.tail) + TrailOf(Trajectory(init, dts, rk4), trailPoint) == TrailOf(Trajectory(init, dts, rk4), trailPoint);
  }

  /** Vertex `v` of a triangle strip read from a flat buffer of number pairs. */
  function StripVertex(poly: seq<real>, v: nat): Vec2
    requires 2 * v + 2 <= |poly|
  {
    Vec2(poly[2 * v], poly[2 * v + 1])
  }

  /** Block `b` of four numbers is strip vertices `2b` and `2b + 1`. */
  lemma StripOfBlock(poly: seq<real>, b: nat)
    requires 4 * b + 4 <= |poly|
    ensures StripVertex(poly, 2 * b) == Emitted(poly, b).0
    ensures StripVertex(poly, 2 * b + 1) == Emitted(poly, b).1
  {
  }

  /**
   * The trail branch of `draw3d` for one pendulum: when the trail is not empty,
   * rebuild the ribbon into the renderer's buffer of `TailMax * 4` numbers and
   * draw `2 * length` strip vertices from it. Returns the buffer and the vertex
   * count drawn (0 when the branch is skipped). With a single sample, `visit`
   * makes no call and block 0 is written from the builder's never-assigned
   * points; its contents are left unspecified.
   */
  method DrawTail(p: Pendulum, buf: seq<real>, off: Join -> Vec2) returns (out: seq<real>, count: nat)
    requires p.tail.Valid() && p.tail.cap == TailMax && |buf| == TailMax * 4
    ensures |out| == |buf| && 2 * count <= |out|
    ensures p.tail.length == 0 ==> count == 0 && out == buf
    ensures p.tail.length != 0 ==> count == 2 * p.tail.length
    ensures forall t :: 4 * p.tail.length <= t < |out| ==> out[t] == buf[t]
    ensures 2 <= p.tail.length ==>
              forall b :: 0 <= b < p.tail.length ==>
                StripVertex(out, 2 * b) == Left(Expected(p.tail, off, b))
                && StripVertex(out, 2 * b + 1) == Right(Expected(p.tail, off, b))
  {
    out, count := buf, 0;
    if p.tail.length == 1 {
      var undefined: Vec2 :| true;
      var writes;
      out, writes := WriteVertex(buf, [], 0, undefined, undefined);
      count := 2;
    } else if p.tail.length != 0 {
      var writes;
      out, writes := Polyline(p.tail, buf, off);
      count := p.tail.length * 2;
      forall b | 0 <= b < p.tail.length
        ensures StripVertex(out, 2 * b) == Left(Expected(p.tail, off, b))
        ensures StripVertex(out, 2 * b + 1) == Right(Expected(p.tail, off, b))
      {
        StripOfBlock(out, b);
      }
    }
  }
}
