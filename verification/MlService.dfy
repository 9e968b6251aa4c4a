/** The stateful part of the camera service: its three dictionaries and the methods that update them. */
module MlService {
  import opened Common
  import opened Coverage
  import opened Confidence
  import Throttle

  class MLService {
    var lastProcessed: map<int, real>
    var windows: Windows
    var elevatedUntil: map<int, real>

    constructor ()
      ensures ThrottleState() == Throttle.INITIAL && windows == map[]
    {
      lastProcessed, windows, elevatedUntil := map[], map[], map[];
    }

    function ThrottleState(): Throttle.State
      reads this
    {
      Throttle.State(elevatedUntil, lastProcessed)
    }

    /** `_capture_interval_seconds`: also called for frames that end up rejected. */
    method CaptureIntervalSeconds(c: Throttle.Call, iv: Throttle.Intervals) returns (seconds: real)
      modifies this`elevatedUntil
      ensures seconds == old(Throttle.Interval(ThrottleState(), c, iv))
      ensures elevatedUntil == old(Throttle.Step(ThrottleState(), c, iv)).elevatedUntil
    {
      if Throttle.Elevated(c.alert) {
        elevatedUntil := elevatedUntil[c.camera := c.mono + Throttle.HYSTERESIS];
        return iv.fast;
      }
      var until := if c.camera in elevatedUntil then elevatedUntil[c.camera] else 0.0;
      if c.mono < until {
        return iv.fast;
      }
      return iv.slow;
    }

    /** The throttle at the head of `process_frame_bytes`. */
    method AdmitFrame(c: Throttle.Call, iv: Throttle.Intervals) returns (accepted: bool)
      modifies this`elevatedUntil, this`lastProcessed
      ensures accepted == old(Throttle.Accepts(ThrottleState(), c, iv))
      ensures ThrottleState() == old(Throttle.Step(ThrottleState(), c, iv))
    {
      var interval := CaptureIntervalSeconds(c, iv);
      if c.camera in lastProcessed {
        var elapsed := c.wall - lastProcessed[c.camera];
        if elapsed < interval - Throttle.SLACK {
          return false;
        }
      }
      lastProcessed := lastProcessed[c.camera := c.wall];
      return true;
    }

    /** `_compute_confidence`: push the raw status, then grade the window. */
    method ComputeConfidence(camera: int, raw: Status, percentage: real, st: Settings) returns (g: Grade)
      modifies this`windows
      ensures windows == old(PushReading(windows, camera, st.K(), raw))
      ensures camera in windows && windows[camera].maxlen == st.K()
      ensures var items := windows[camera].items;
              g == Grade(TierOf(items, st), ScoreOf(items, percentage, st), st.K(), Flagged(items))
    {
      hide Weighted, Fraction, LastN, Flagged, ScoreOf;
      var k := st.K();
      var buf: Window;
      if camera !in windows {
        buf := Window(k, []);
      } else {
        buf := windows[camera];
        if buf.maxlen != k {
          buf := Window(k, LastN(buf.items, k));
        }
      }
      buf := Window(k, LastN(buf.items + [raw], k));
      assert buf == Pushed(Lookup(windows, camera), k, raw);
      windows := windows[camera := buf];

      var flagged := Flagged(buf.items);
      var fraction := Fraction(buf.items, st);
      var windowFull := |buf.items| >= k;
      var tier: Tier;
      if windowFull && fraction >= st.confirmed {
        tier := Confirmed;
      } else if windowFull && fraction >= st.likely {
        tier := Likely;
      } else if flagged >= 1 {
        tier := Possible;
      } else {
        tier := ClearTier;
      }
      g := Grade(tier, ScoreOf(buf.items, percentage, st), k, flagged);
    }
  }
}
