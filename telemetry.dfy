/** The frame-rate reporter `sendNowFps` of assets/js/hooks/three_scene.js:
    a frame counter and the start of the current one-second window. Time is
    in milliseconds, as `performance.now()` gives it; here it is a parameter. */
module Telemetry {
  import opened Wrappers

  /** The length of a reporting window, in milliseconds. */
  const Window: real := 1000.0

  /** `frames` and `prevTime`, the two closure variables of the reporter. */
  datatype FpsState = FpsState(frames: nat, prevTime: real)

  /** `Math.round(x)`: the nearest integer, halves rounded up. */
  function MathRound(x: real): (r: int)
    ensures x - 0.5 < r as real <= x + 0.5
  {
    (x + 0.5).Floor
  }

  /** `Math.round(x * 100) / 100`: x to two decimal places. */
  function RoundTo2(x: real): (r: real)
    ensures -0.005 < r - x <= 0.005
    ensures (r * 100.0).Floor as real == r * 100.0
  {
    MathRound(x * 100.0) as real / 100.0
  }

  /** One call of `sendNowFps` at time `now`: the new state and what it pushes. */
  function FpsStep(s: FpsState, now: real): (r: (FpsState, Option<real>))
    ensures r.1.Some? <==> now >= s.prevTime + Window
    ensures r.1.Some? ==>
      && r.0 == FpsState(0, now)
      && var rate := (s.frames + 1) as real * 1000.0 / (now - s.prevTime);
         -0.005 < r.1.value - rate <= 0.005
    ensures r.1.Some? ==> (r.1.value * 100.0).Floor as real == r.1.value * 100.0
    ensures r.1.None? ==> r.0 == FpsState(s.frames + 1, s.prevTime)
  {
    var frames := s.frames + 1;
    if now >= s.prevTime + Window then
      (FpsState(0, now), Some(RoundTo2((frames as real * 1000.0) / (now - s.prevTime))))
    else
      (FpsState(frames, s.prevTime), None)
  }

  /** 120 frames (119 counted, this one the 120th) over exactly 2000 ms report 60. */
  lemma FpsExample(t: real)
    ensures FpsStep(FpsState(119, t), t + 2000.0) == (FpsState(0, t + 2000.0), Some(60.0))
  {
    var s, now := FpsState(119, t), t + 2000.0;
    assert ((s.frames + 1) as real * 1000.0) / (now - s.prevTime) == 60.0;
    assert (6000.0 + 0.5).Floor == 6000;
  }

  /** The times, among `times`, at which the reporter pushes a value. */
  function Emissions(s: FpsState, times: seq<real>): seq<real>
    decreases |times|
  {
    if times == [] then []
    else
      var next := FpsStep(s, times[0]);
      (if next.1.Some? then [times[0]] else []) + Emissions(next.0, times[1..])
  }

  /** Every report comes at least one window after the start of the window
      open at the first call. */
  lemma {:induction false} EmissionsAfterWindow(s: FpsState, times: seq<real>)
    ensures forall i :: 0 <= i < |Emissions(s, times)| ==> s.prevTime + Window <= Emissions(s, times)[i]
    decreases |times|
  {
    if times != [] {
      var next := FpsStep(s, times[0]);
      EmissionsAfterWindow(next.0, times[1..]);
      if next.1.Some? {
        assert next.0.prevTime == times[0] >= s.prevTime + Window;
      }
    }
  }

  /** At most one report per window: any two reports are at least one
      window apart, whatever the clock does between calls. */
  lemma {:induction false} EmissionsSpaced(s: FpsState, times: seq<real>)
    ensures forall i, j :: 0 <= i < j < |Emissions(s, times)| ==>
      Emissions(s, times)[i] + Window <= Emissions(s, times)[j]
    decreases |times|
  {
    if times != [] {
      var next := FpsStep(s, times[0]);
      var rest := Emissions(next.0, times[1..]);
      EmissionsSpaced(next.0, times[1..]);
      if next.1.Some? {
        EmissionsAfterWindow(next.0, times[1..]);
        var e := Emissions(s, times);
        assert e == [times[0]] + rest;
        forall i, j | 0 <= i < j < |e| ensures e[i] + Window <= e[j] {
          assert e[j] == rest[j - 1];
          if i > 0 {
            assert e[i] == rest[i - 1];
          }
        }
      } else {
        assert Emissions(s, times) == rest;
      }
    }
  }

  /** The reporter's closure state. */
  class FpsCounter {
    var frames: nat
    var prevTime: real

    /** The state at mount time: no frames yet, window opened at `now`. */
    constructor (now: real)
      ensures State() == FpsState(0, now)
    {
      frames := 0;
      prevTime := now;
    }

    function State(): FpsState
      reads this
    {
      FpsState(frames, prevTime)
    }

    /** `sendNowFps()`, called with the clock reading `now`; the result is the
        `updateFps` payload, if one is pushed. */
    method SendNowFps(now: real) returns (fps: Option<real>)
      modifies this
      ensures (State(), fps) == FpsStep(old(State()), now)
    {
      frames := frames + 1;
      if now >= prevTime + Window {
        var fpsFloat := (frames as real * 1000.0) / (now - prevTime);
        fps := Some(MathRound(fpsFloat * 100.0) as real / 100.0);
        frames := 0;
        prevTime := now;
      } else {
        fps := None;
      }
    }
  }
}
