/** Adaptive frame throttle: which interval applies, and which frames of a camera are accepted. */
module Throttle {
  import opened Common
  import opened FusionScoring

  const HYSTERESIS := 300.0

  datatype Intervals = Intervals(slow: real, fast: real)

  const DEFAULTS := Intervals(120.0, 30.0)
  const SLACK := 5.0

  /** One call of the frame handler: camera, alert of its location, monotonic and wall clock in seconds. */
  datatype Call = Call(camera: int, alert: Option<AlertName>, mono: real, wall: real)

  predicate Elevated(alert: Option<AlertName>) { alert == Some(Warning) || alert == Some(Critical) }

  /** The two dictionaries the throttle keeps. */
  datatype State = State(elevatedUntil: map<int, real>, lastProcessed: map<int, real>)

  const INITIAL := State(map[], map[])

  function IsFast(s: State, c: Call): bool {
    Elevated(c.alert) || c.mono < if c.camera in s.elevatedUntil then s.elevatedUntil[c.camera] else 0.0
  }

  function Interval(s: State, c: Call, iv: Intervals): real { if IsFast(s, c) then iv.fast else iv.slow }

  function Accepts(s: State, c: Call, iv: Intervals): bool {
    c.camera in s.lastProcessed ==> c.wall - s.lastProcessed[c.camera] >= Interval(s, c, iv) - SLACK
  }

  function Step(s: State, c: Call, iv: Intervals): State {
    State(
      if Elevated(c.alert) then s.elevatedUntil[c.camera := c.mono + HYSTERESIS] else s.elevatedUntil,
      if Accepts(s, c, iv) then s.lastProcessed[c.camera := c.wall] else s.lastProcessed)
  }

  // ---------------------------------------------------------------- runs

  ghost function Run(calls: seq<Call>, iv: Intervals): State {
    if calls == [] then INITIAL else Step(Run(calls[..|calls| - 1], iv), calls[|calls| - 1], iv)
  }

  ghost predicate FastAt(calls: seq<Call>, n: nat, iv: Intervals)
    requires n < |calls|
  {
    IsFast(Run(calls[..n], iv), calls[n])
  }

  ghost predicate AcceptedAt(calls: seq<Call>, n: nat, iv: Intervals)
    requires n < |calls|
  {
    Accepts(Run(calls[..n], iv), calls[n], iv)
  }

  /** `time.monotonic()` starts at zero or later and never goes back. */
  ghost predicate MonotonicClock(calls: seq<Call>) {
    && (forall i :: 0 <= i < |calls| ==> calls[i].mono >= 0.0)
    && (forall i, j :: 0 <= i <= j < |calls| ==> calls[i].mono <= calls[j].mono)
  }

  lemma RunOfPrefix(calls: seq<Call>, n: nat, iv: Intervals)
    requires n < |calls|
    ensures Run(calls[..n + 1], iv) == Step(Run(calls[..n], iv), calls[n], iv)
  {
    assert calls[..n + 1][..n] == calls[..n];
  }

  /** Some elevated call of the camera among the first `n`. */
  ghost predicate ElevatedCall(calls: seq<Call>, n: nat, camera: int, i: int) {
    0 <= i < n <= |calls| && calls[i].camera == camera && Elevated(calls[i].alert)
  }

  /** The deadline is that of the last elevated call, which with a monotonic clock is the latest one. */
  lemma {:induction false} DeadlineIsLatest(calls: seq<Call>, n: nat, camera: int, iv: Intervals)
    requires n <= |calls| && MonotonicClock(calls)
    ensures var until := Run(calls[..n], iv).elevatedUntil;
            && (camera in until ==>
                 exists i :: ElevatedCall(calls, n, camera, i) && until[camera] == calls[i].mono + HYSTERESIS)
            && (forall i :: ElevatedCall(calls, n, camera, i) ==>
                 camera in until && until[camera] >= calls[i].mono + HYSTERESIS)
  {
    if n > 0 {
      RunOfPrefix(calls, n - 1, iv);
      DeadlineIsLatest(calls, n - 1, camera, iv);
      var before := Run(calls[..n - 1], iv).elevatedUntil;
      var until := Run(calls[..n], iv).elevatedUntil;
      if calls[n - 1].camera == camera && Elevated(calls[n - 1].alert) {
        assert ElevatedCall(calls, n, camera, n - 1);
      } else {
        assert camera in until <==> camera in before;
        if camera in until {
          var i :| ElevatedCall(calls, n - 1, camera, i) && before[camera] == calls[i].mono + HYSTERESIS;
          assert ElevatedCall(calls, n, camera, i);
        }
      }
      forall i | ElevatedCall(calls, n, camera, i)
        ensures camera in until && until[camera] >= calls[i].mono + HYSTERESIS
      {
        assert i == n - 1 || ElevatedCall(calls, n - 1, camera, i);
      }
    }
  }

  /** The fast interval applies iff this call or one of the camera's calls less than 300 s earlier saw an elevated alert. */
  lemma FastRefinesHistory(calls: seq<Call>, n: nat, iv: Intervals)
    requires n < |calls| && MonotonicClock(calls)
    ensures FastAt(calls, n, iv) <==>
            exists i :: ElevatedCall(calls, n + 1, calls[n].camera, i) && calls[n].mono - calls[i].mono < HYSTERESIS
  {
    var camera := calls[n].camera;
    DeadlineIsLatest(calls, n, camera, iv);
    var until := Run(calls[..n], iv).elevatedUntil;
    if FastAt(calls, n, iv) {
      if Elevated(calls[n].alert) {
        assert ElevatedCall(calls, n + 1, camera, n);
      } else {
        var i :| ElevatedCall(calls, n, camera, i) && until[camera] == calls[i].mono + HYSTERESIS;
        assert ElevatedCall(calls, n + 1, camera, i);
      }
    }
    forall i | ElevatedCall(calls, n + 1, camera, i) && calls[n].mono - calls[i].mono < HYSTERESIS
      ensures FastAt(calls, n, iv)
    {
      assert i == n || ElevatedCall(calls, n, camera, i);
    }
  }

  /** This call or one of the camera's calls less than 300 s earlier saw an elevated alert. */
  ghost predicate RecentlyElevated(calls: seq<Call>, n: nat)
    requires n < |calls|
  {
    exists i :: ElevatedCall(calls, n + 1, calls[n].camera, i) && calls[n].mono - calls[i].mono < HYSTERESIS
  }

  /** The interval the throttle applies is the fast one exactly for such calls, and the slow one otherwise. */
  lemma IntervalRefinesHistory(calls: seq<Call>, n: nat, iv: Intervals)
    requires n < |calls| && MonotonicClock(calls)
    ensures Interval(Run(calls[..n], iv), calls[n], iv) == if RecentlyElevated(calls, n) then iv.fast else iv.slow
  {
    FastRefinesHistory(calls, n, iv);
  }

  /** No frame of the camera among calls `lo .. hi - 1` is accepted. */
  ghost predicate NoneAccepted(calls: seq<Call>, lo: nat, hi: nat, camera: int, iv: Intervals)
    requires hi <= |calls|
  {
    forall m: nat :: lo <= m < hi && calls[m].camera == camera ==> !AcceptedAt(calls, m, iv)
  }

  lemma {:induction false} LastAcceptedWall(calls: seq<Call>, i: nat, n: nat, iv: Intervals)
    requires i < n <= |calls| && AcceptedAt(calls, i, iv) && NoneAccepted(calls, i + 1, n, calls[i].camera, iv)
    ensures var last := Run(calls[..n], iv).lastProcessed;
            calls[i].camera in last && last[calls[i].camera] == calls[i].wall
    decreases n
  {
    hide Accepts;
    RunOfPrefix(calls, n - 1, iv);
    if i < n - 1 {
      assert calls[n - 1].camera == calls[i].camera ==> !AcceptedAt(calls, n - 1, iv);
      LastAcceptedWall(calls, i, n - 1, iv);
    }
  }

  /**
   The throttle refines the history: after the camera's last accepted frame the next is accepted exactly if it comes
   the interval less the slack later, fast or slow as the alerts of the last 300 s ask.
   */
  lemma AcceptanceRefinesHistory(calls: seq<Call>, i: nat, n: nat, iv: Intervals)
    requires i < n < |calls| && MonotonicClock(calls) && calls[i].camera == calls[n].camera
    requires AcceptedAt(calls, i, iv) && NoneAccepted(calls, i + 1, n, calls[i].camera, iv)
    ensures AcceptedAt(calls, n, iv) <==>
              calls[n].wall - calls[i].wall >= (if RecentlyElevated(calls, n) then iv.fast else iv.slow) - SLACK
  {
    LastAcceptedWall(calls, i, n, iv);
    IntervalRefinesHistory(calls, n, iv);
  }

  /** A camera's first frame is always accepted. */
  lemma FirstFrameAccepted(calls: seq<Call>, n: nat, iv: Intervals)
    requires n < |calls| && NoneAccepted(calls, 0, n, calls[n].camera, iv)
    ensures AcceptedAt(calls, n, iv)
  {
    LastProcessedSource(calls, n, calls[n].camera, iv);
  }

  /** Accepted frames of a camera among calls `lo .. hi - 1`. */
  ghost function AcceptedCount(calls: seq<Call>, camera: int, lo: nat, hi: nat, iv: Intervals): nat
    requires lo <= hi <= |calls|
    decreases hi
  {
    if lo == hi then 0
    else AcceptedCount(calls, camera, lo, hi - 1, iv)
         + if calls[hi - 1].camera == camera && AcceptedAt(calls, hi - 1, iv) then 1 else 0
  }

  function MinGap(iv: Intervals): real { Min(iv.slow, iv.fast) - SLACK }

  function Times(n: nat, gap: real): real { n as real * gap }

  lemma TimesSucc(n: nat, gap: real)
    ensures Times(0, gap) == 0.0 && Times(n + 1, gap) == Times(n, gap) + gap
  {
  }

  /** Whichever interval applies, acceptance takes the minimal gap. */
  lemma AcceptedAfterGap(s: State, c: Call, iv: Intervals)
    requires Accepts(s, c, iv) && c.camera in s.lastProcessed
    ensures c.wall >= s.lastProcessed[c.camera] + MinGap(iv)
  {
  }

  /** The remembered wall clock has moved on by a gap per frame accepted since `i`. */
  ghost predicate Paced(calls: seq<Call>, i: nat, n: nat, iv: Intervals)
    requires i < n <= |calls|
  {
    var last, camera := Run(calls[..n], iv).lastProcessed, calls[i].camera;
    var count := AcceptedCount(calls, camera, i + 1, n, iv);
    && camera in last
    && last[camera] - calls[i].wall >= Times(count, MinGap(iv))
    && (count == 0 ==> last[camera] == calls[i].wall)
  }

  lemma {:induction false} LastProcessedPaced(calls: seq<Call>, i: nat, n: nat, iv: Intervals)
    requires i < n <= |calls| && AcceptedAt(calls, i, iv)
    ensures Paced(calls, i, n, iv)
    decreases n
  {
    RunOfPrefix(calls, n - 1, iv);
    TimesSucc(0, MinGap(iv));
    if n - 1 > i {
      LastProcessedPaced(calls, i, n - 1, iv);
      PacedStep(calls, i, n - 1, iv);
    }
  }

  lemma PacedStep(calls: seq<Call>, i: nat, n: nat, iv: Intervals)
    requires i < n < |calls| && Paced(calls, i, n, iv)
    ensures Paced(calls, i, n + 1, iv)
  {
    var s, c := Run(calls[..n], iv), calls[n];
    var count := AcceptedCount(calls, calls[i].camera, i + 1, n, iv);
    assert Run(calls[..n + 1], iv) == Step(s, c, iv) by { RunOfPrefix(calls, n, iv); }
    if c.camera == calls[i].camera && AcceptedAt(calls, n, iv) {
      assert AcceptedCount(calls, calls[i].camera, i + 1, n + 1, iv) == count + 1;
      AcceptedAfterGap(s, c, iv);
      TimesSucc(count, MinGap(iv));
    }
  }

  /**
   The k-th accepted frame after an accepted one comes at least k minimal gaps later on the wall clock.
   The clock itself may jump in any direction.
   */
  lemma AcceptedFramesSpaced(calls: seq<Call>, i: nat, j: nat, iv: Intervals)
    requires i < j < |calls| && calls[i].camera == calls[j].camera
    requires AcceptedAt(calls, i, iv) && AcceptedAt(calls, j, iv)
    ensures var count := AcceptedCount(calls, calls[i].camera, i + 1, j + 1, iv);
            count >= 1 && calls[j].wall - calls[i].wall >= Times(count, MinGap(iv))
  {
    LastProcessedPaced(calls, i, j + 1, iv);
    assert Run(calls[..j + 1], iv) == Step(Run(calls[..j], iv), calls[j], iv) by { RunOfPrefix(calls, j, iv); }
    assert Run(calls[..j + 1], iv).lastProcessed[calls[j].camera] == calls[j].wall;
  }

  /** Under the defaults a stretch of T seconds between accepted frames holds at most floor(T / 25) + 1 of them. */
  lemma AcceptedFramesBounded(calls: seq<Call>, i: nat, j: nat)
    requires i < j < |calls| && calls[i].camera == calls[j].camera
    requires AcceptedAt(calls, i, DEFAULTS) && AcceptedAt(calls, j, DEFAULTS)
    ensures calls[j].wall - calls[i].wall >= 25.0
    ensures 1 + AcceptedCount(calls, calls[i].camera, i + 1, j + 1, DEFAULTS)
         <= ((calls[j].wall - calls[i].wall) / 25.0).Floor + 1
  {
    AcceptedFramesSpaced(calls, i, j, DEFAULTS);
    var count := AcceptedCount(calls, calls[i].camera, i + 1, j + 1, DEFAULTS);
    assert Times(count, MinGap(DEFAULTS)) == count as real * 25.0;
  }

  /** After 300 s without elevation, consecutive accepted frames are at least the slow interval less the slack apart. */
  lemma RelaxedFramesSpaced(calls: seq<Call>, i: nat, j: nat, iv: Intervals)
    requires MonotonicClock(calls)
    requires i < j < |calls| && calls[i].camera == calls[j].camera
    requires AcceptedAt(calls, i, iv) && AcceptedAt(calls, j, iv)
    requires AcceptedCount(calls, calls[i].camera, i + 1, j, iv) == 0
    requires forall m :: ElevatedCall(calls, j + 1, calls[j].camera, m) ==> calls[j].mono - calls[m].mono >= HYSTERESIS
    ensures calls[j].wall - calls[i].wall >= iv.slow - SLACK
  {
    FastRefinesHistory(calls, j, iv);
    LastProcessedPaced(calls, i, j, iv);
  }

  /** A camera's first frame is accepted, and so is any frame that comes a full interval less the slack after the last one. */
  lemma LateFramesAccepted(calls: seq<Call>, j: nat, iv: Intervals)
    requires j < |calls|
    requires forall i: nat :: i < j && calls[i].camera == calls[j].camera && AcceptedAt(calls, i, iv) ==>
               calls[j].wall - calls[i].wall >= if iv.slow >= iv.fast then iv.slow - SLACK else iv.fast - SLACK
    ensures AcceptedAt(calls, j, iv)
  {
    LastProcessedSource(calls, j, calls[j].camera, iv);
  }

  lemma {:induction false} LastProcessedSource(calls: seq<Call>, n: nat, camera: int, iv: Intervals)
    requires n <= |calls|
    ensures var last := Run(calls[..n], iv).lastProcessed;
            camera in last ==>
              exists i: nat :: i < n && calls[i].camera == camera && AcceptedAt(calls, i, iv) && last[camera] == calls[i].wall
  {
    if n > 0 {
      RunOfPrefix(calls, n - 1, iv);
      LastProcessedSource(calls, n - 1, camera, iv);
    }
  }
}
