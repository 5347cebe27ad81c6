/**
  A model of the flicker-free clock: a time value integrated frame by frame
  from wall-clock deltas scaled by a speed factor that may change at any time,
  with a pause that re-anchors the wall clock so that no time jump appears on
  resume.

  The frame callback keeps two persistent cells, the integrated time and the
  timestamp of the previous frame, both starting at 0; a previous timestamp of
  0 doubles as "no earlier frame to measure from". Timestamps and speeds are
  exact reals here.
*/
module FlickerFreeClock {

  /** One invocation of the frame callback: the frame's timestamp and the values
      of the speed and pause inputs read during that invocation. */
  datatype Frame = Frame(timestamp: real, speed: real, paused: bool)

  /** The two cells the clock owns. */
  datatype ClockState = ClockState(integratedTime: real, lastTimestamp: real)

  /** Both cells start at 0. */
  const Initial := ClockState(0.0, 0.0)

  // ---------------------------------------------------------------------------
  // The transition of one frame
  // ---------------------------------------------------------------------------

  /** The frame callback's effect on the two cells. A paused frame only moves
      the anchor; an unpaused frame seen with the 0 sentinel first moves the
      anchor to itself, so that its measured delta is 0; every other unpaused
      frame adds its delta scaled by that frame's own speed. */
  function Advance(s: ClockState, f: Frame): (r: ClockState)
    ensures r.lastTimestamp == f.timestamp
    ensures f.paused ==> r.integratedTime == s.integratedTime
    ensures !f.paused && s.lastTimestamp == 0.0 ==> r.integratedTime == s.integratedTime
    ensures !f.paused && s.lastTimestamp != 0.0 ==>
              r.integratedTime == s.integratedTime + (f.timestamp - s.lastTimestamp) * f.speed
  {
    if f.paused then
      ClockState(s.integratedTime, f.timestamp)
    else
      var anchor := if s.lastTimestamp == 0.0 then f.timestamp else s.lastTimestamp;
      var delta := f.timestamp - anchor;
      ClockState(s.integratedTime + delta * f.speed, f.timestamp)
  }

  /** The state after the callback has run on each of `frames`, in order, from `s`. */
  function Run(s: ClockState, frames: seq<Frame>): ClockState
    decreases |frames|
  {
    if frames == [] then s else Run(Advance(s, frames[0]), frames[1..])
  }

  // ---------------------------------------------------------------------------
  // The reference: integrated time as a sum of per-frame contributions
  // ---------------------------------------------------------------------------

  /** The timestamp the frame at index i is measured from: that of the frame
      just before it, paused or not, or the initial 0 for the first frame. */
  function PreviousTimestamp(frames: seq<Frame>, i: nat): real
    requires i < |frames|
  {
    if i == 0 then 0.0 else frames[i - 1].timestamp
  }

  /** The wall-clock time credited to the frame at index i: the distance from
      the previous timestamp, or nothing when there is none to measure from. */
  function Delta(frames: seq<Frame>, i: nat): real
    requires i < |frames|
  {
    var prev := PreviousTimestamp(frames, i);
    if prev == 0.0 then 0.0 else frames[i].timestamp - prev
  }

  /** What the frame at index i adds: its delta times its own speed, nothing
      when it is paused. */
  function Contribution(frames: seq<Frame>, i: nat): real
    requires i < |frames|
  {
    if frames[i].paused then 0.0 else Delta(frames, i) * frames[i].speed
  }

  /** The sum of the contributions of all frames. */
  function TotalTime(frames: seq<Frame>): real
    decreases |frames|
  {
    if frames == [] then 0.0
    else TotalTime(frames[..|frames| - 1]) + Contribution(frames, |frames| - 1)
  }

  /** The timestamp of the last frame, or the initial 0. */
  function LastTimestamp(frames: seq<Frame>): real
  {
    if frames == [] then 0.0 else frames[|frames| - 1].timestamp
  }

  /** The state the reference assigns to a frame history. */
  function Expected(frames: seq<Frame>): ClockState
  {
    ClockState(TotalTime(frames), LastTimestamp(frames))
  }

  // ---------------------------------------------------------------------------
  // Iterating the transition agrees with the reference
  // ---------------------------------------------------------------------------

  /** Running two batches of frames is running their concatenation. */
  lemma {:induction false} RunAppend(s: ClockState, a: seq<Frame>, b: seq<Frame>)
    ensures Run(s, a + b) == Run(Run(s, a), b)
    decreases |a|
  {
    if a == [] {
      assert a + b == b;
    } else {
      assert (a + b)[0] == a[0];
      assert (a + b)[1..] == a[1..] + b;
      RunAppend(Advance(s, a[0]), a[1..], b);
    }
  }

  /** One more frame moves the reference state exactly as the transition does. */
  lemma AdvanceExtendsExpected(history: seq<Frame>, f: Frame)
    ensures Advance(Expected(history), f) == Expected(history + [f])
  {
    var g := history + [f];
    assert g[..|g| - 1] == history;
    assert g[|g| - 1] == f;
    assert PreviousTimestamp(g, |history|) == LastTimestamp(history);
  }

  /** Flicker-freedom: after any sequence of frames, whatever the speeds and
      pauses, the integrated time is the sum of each frame's delta times that
      frame's speed, and the anchor is the last frame's timestamp. */
  lemma {:induction false} RunMatchesTotal(frames: seq<Frame>)
    ensures Run(Initial, frames) == Expected(frames)
    decreases |frames|
  {
    if frames != [] {
      var history, f := frames[..|frames| - 1], frames[|frames| - 1];
      assert frames == history + [f];
      RunMatchesTotal(history);
      RunAppend(Initial, history, [f]);
      assert Run(Run(Initial, history), [f]) == Advance(Run(Initial, history), f);
      AdvanceExtendsExpected(history, f);
    }
  }

  // ---------------------------------------------------------------------------
  // A speed change only changes the rate, never the time already accumulated
  // ---------------------------------------------------------------------------

  /** Frame j with speed v instead of its own. */
  function WithSpeed(frames: seq<Frame>, j: nat, v: real): (g: seq<Frame>)
    requires j < |frames|
    ensures |g| == |frames| && g[j].speed == v
    ensures forall i :: 0 <= i < |g| ==> g[i].timestamp == frames[i].timestamp && g[i].paused == frames[i].paused
    ensures forall i :: 0 <= i < |g| && i != j ==> g[i] == frames[i]
  {
    frames[j := frames[j].(speed := v)]
  }

  /** How much giving frame j the speed v changes that frame's contribution. */
  function SpeedChangeTerm(frames: seq<Frame>, j: nat, v: real): real
    requires j < |frames|
  {
    if frames[j].paused then 0.0 else Delta(frames, j) * (v - frames[j].speed)
  }

  /** Giving a frame other than the last another speed leaves the last frame's
      contribution alone and is the same change on the prefix. */
  lemma WithSpeedBeforeLast(frames: seq<Frame>, j: nat, v: real)
    requires j < |frames| - 1
    ensures var n := |frames|;
            WithSpeed(frames, j, v)[..n - 1] == WithSpeed(frames[..n - 1], j, v) &&
            Contribution(WithSpeed(frames, j, v), n - 1) == Contribution(frames, n - 1) &&
            SpeedChangeTerm(frames[..n - 1], j, v) == SpeedChangeTerm(frames, j, v)
  {
    var n := |frames|;
    var g := WithSpeed(frames, j, v);
    assert g[n - 2].timestamp == frames[n - 2].timestamp;
    assert Delta(frames[..n - 1], j) == Delta(frames, j) && frames[..n - 1][j] == frames[j];
  }

  /** Giving the last frame another speed changes only its own contribution. */
  lemma WithSpeedAtLast(frames: seq<Frame>, v: real)
    requires |frames| > 0
    ensures var n := |frames|;
            WithSpeed(frames, n - 1, v)[..n - 1] == frames[..n - 1] &&
            Contribution(WithSpeed(frames, n - 1, v), n - 1) ==
              Contribution(frames, n - 1) + SpeedChangeTerm(frames, n - 1, v)
  {
    var n := |frames|;
    var g := WithSpeed(frames, n - 1, v);
    var d, u := Delta(frames, n - 1), frames[n - 1].speed;
    assert Delta(g, n - 1) == d;
    assert d * v == d * u + d * (v - u);
  }

  /** Giving frame j another speed changes the total by that frame's own term
      and nothing else: no earlier or later contribution is rescaled. */
  lemma {:induction false} SpeedChangeIsLocal(frames: seq<Frame>, j: nat, v: real)
    requires j < |frames|
    ensures TotalTime(WithSpeed(frames, j, v)) == TotalTime(frames) + SpeedChangeTerm(frames, j, v)
    decreases |frames|
  {
    var n := |frames|;
    var g := WithSpeed(frames, j, v);
    assert TotalTime(g) == TotalTime(g[..n - 1]) + Contribution(g, n - 1);
    assert TotalTime(frames) == TotalTime(frames[..n - 1]) + Contribution(frames, n - 1);
    if j == n - 1 {
      WithSpeedAtLast(frames, v);
    } else {
      WithSpeedBeforeLast(frames, j, v);
      SpeedChangeIsLocal(frames[..n - 1], j, v);
    }
  }

  /** The same on the clock itself: after any frames, giving frame j another
      speed changes the integrated time by that frame's own term only, where a
      clock computing speed times timestamp would rescale all of it. */
  lemma RunSpeedChangeIsLocal(frames: seq<Frame>, j: nat, v: real)
    requires j < |frames|
    ensures Run(Initial, WithSpeed(frames, j, v)).integratedTime ==
              Run(Initial, frames).integratedTime + SpeedChangeTerm(frames, j, v)
  {
    RunMatchesTotal(frames);
    RunMatchesTotal(WithSpeed(frames, j, v));
    SpeedChangeIsLocal(frames, j, v);
  }

  // ---------------------------------------------------------------------------
  // Pause and resume
  // ---------------------------------------------------------------------------

  /** A run of paused frames leaves the integrated time alone and anchors the
      clock at the last of them. */
  lemma {:induction false} PausesKeepTime(s: ClockState, pauses: seq<Frame>)
    requires |pauses| > 0
    requires forall i :: 0 <= i < |pauses| ==> pauses[i].paused
    ensures Run(s, pauses) == ClockState(s.integratedTime, pauses[|pauses| - 1].timestamp)
    decreases |pauses|
  {
    if |pauses| > 1 {
      PausesKeepTime(Advance(s, pauses[0]), pauses[1..]);
    }
  }

  /** Resume after a pause: the first unpaused frame is measured from the last
      paused frame's timestamp, so the wall-clock time spent paused, however
      long, adds nothing. */
  lemma ResumeAfterPause(before: seq<Frame>, pauses: seq<Frame>, f: Frame)
    requires |pauses| > 0
    requires forall i :: 0 <= i < |pauses| ==> pauses[i].paused
    requires !f.paused
    ensures var anchor := pauses[|pauses| - 1].timestamp;
            Run(Initial, before + pauses + [f]).integratedTime ==
              Run(Initial, before).integratedTime +
              (if anchor == 0.0 then 0.0 else (f.timestamp - anchor) * f.speed)
  {
    RunAppend(Initial, before + pauses, [f]);
    RunAppend(Initial, before, pauses);
    PausesKeepTime(Run(Initial, before), pauses);
  }

  // ---------------------------------------------------------------------------
  // Monotonicity, and only under its hypotheses
  // ---------------------------------------------------------------------------

  ghost predicate NonDecreasingTimestamps(frames: seq<Frame>)
  {
    forall i, j :: 0 <= i < j < |frames| ==> frames[i].timestamp <= frames[j].timestamp
  }

  ghost predicate NonNegativeSpeeds(frames: seq<Frame>)
  {
    forall i :: 0 <= i < |frames| ==> frames[i].speed >= 0.0
  }

  /** With timestamps that never go back and speeds that are never negative,
      no frame takes time away. */
  lemma ContributionNonNegative(frames: seq<Frame>, i: nat)
    requires i < |frames|
    requires NonDecreasingTimestamps(frames) && NonNegativeSpeeds(frames)
    ensures Contribution(frames, i) >= 0.0
  {
    var d, v := Delta(frames, i), frames[i].speed;
    assert d >= 0.0 && v >= 0.0;
    assert d * v >= 0.0;
  }

  /** Under the same hypotheses, the total over a prefix never exceeds the
      total over the whole sequence. */
  lemma {:induction false} TotalTimeMonotone(frames: seq<Frame>, k: nat)
    requires k <= |frames|
    requires NonDecreasingTimestamps(frames) && NonNegativeSpeeds(frames)
    ensures TotalTime(frames[..k]) <= TotalTime(frames)
    decreases |frames|
  {
    var n := |frames|;
    if k < n {
      var prefix := frames[..n - 1];
      assert prefix[..k] == frames[..k];
      assert NonDecreasingTimestamps(prefix) && NonNegativeSpeeds(prefix);
      TotalTimeMonotone(prefix, k);
      ContributionNonNegative(frames, n - 1);
    } else {
      assert frames[..k] == frames;
    }
  }

  /** The integrated time never decreases from one frame to a later one while
      timestamps never go back and speeds are never negative. */
  lemma IntegratedTimeNonDecreasing(frames: seq<Frame>, k: nat)
    requires k <= |frames|
    requires NonDecreasingTimestamps(frames) && NonNegativeSpeeds(frames)
    ensures Run(Initial, frames[..k]).integratedTime <= Run(Initial, frames).integratedTime
  {
    RunMatchesTotal(frames[..k]);
    RunMatchesTotal(frames);
    TotalTimeMonotone(frames, k);
  }

  /** Without those hypotheses the integrated time can go down: nothing clamps
      a timestamp that goes back ... */
  lemma BackwardTimestampDecreasesTime()
    ensures var frames := [Frame(10.0, 1.0, false), Frame(20.0, 1.0, false), Frame(15.0, 1.0, false)];
            Run(Initial, frames[..2]).integratedTime == 10.0 &&
            Run(Initial, frames).integratedTime == 5.0
  {
    var frames := [Frame(10.0, 1.0, false), Frame(20.0, 1.0, false), Frame(15.0, 1.0, false)];
    RunMatchesTotal(frames[..2]);
    RunMatchesTotal(frames);
    assert frames[..2][..1] == frames[..1];
    assert frames[..1][..0] == [];
  }

  /** ... or a negative speed. */
  lemma NegativeSpeedDecreasesTime()
    ensures var frames := [Frame(10.0, 1.0, false), Frame(20.0, -1.0, false)];
            Run(Initial, frames[..1]).integratedTime == 0.0 &&
            Run(Initial, frames).integratedTime == -10.0
  {
    var frames := [Frame(10.0, 1.0, false), Frame(20.0, -1.0, false)];
    RunMatchesTotal(frames[..1]);
    RunMatchesTotal(frames);
    assert frames[..1][..0] == [];
  }

  // ---------------------------------------------------------------------------
  // The clock as the two mutable cells the frame callback updates in place
  // ---------------------------------------------------------------------------

  class Clock {
    var integratedTime: real
    var lastTimestamp: real
    /** The frames the callback has been invoked on so far. */
    ghost var frames: seq<Frame>

    /** The cells hold what the reference assigns to the frames seen so far. */
    ghost predicate Valid()
      reads this
    {
      integratedTime == TotalTime(frames) && lastTimestamp == LastTimestamp(frames)
    }

    function State(): ClockState
      reads this
    {
      ClockState(integratedTime, lastTimestamp)
    }

    constructor ()
      ensures Valid() && frames == []
      ensures State() == Initial
    {
      integratedTime := 0.0;
      lastTimestamp := 0.0;
      frames := [];
    }

    /** The body of the frame callback. */
    method Step(timestamp: real, speed: real, paused: bool)
      requires Valid()
      modifies this
      ensures Valid() && frames == old(frames) + [Frame(timestamp, speed, paused)]
      ensures State() == Advance(old(State()), Frame(timestamp, speed, paused))
    {
      AdvanceExtendsExpected(frames, Frame(timestamp, speed, paused));
      frames := frames + [Frame(timestamp, speed, paused)];
      if paused {
        lastTimestamp := timestamp;
        return;
      }
      if lastTimestamp == 0.0 {
        lastTimestamp := timestamp;
      }
      var delta := timestamp - lastTimestamp;
      integratedTime := integratedTime + delta * speed;
      lastTimestamp := timestamp;
    }
  }
}
