/**
 From camera frame to obstruction note. Frames of any number of cameras are accepted by the throttle, graded when
 their inference returns, and delivered to the fusion state; the three stages of different frames, of one camera
 too, interleave in any order with each other and with level, weather and notify steps.
 */
module Pipeline {
  import opened Common
  import opened Coverage
  import opened Confidence
  import opened FusionScoring
  import opened AlertState
  import Throttle
  import AlertRuns
  import MlService

  datatype Config = Config(settings: Settings, intervals: Throttle.Intervals, recommend: RecommendSettings)

  /** A graded status on its way to the fusion state: the camera's `n`-th reading. */
  datatype Produced = Produced(camera: int, n: nat, status: Status, tier: Tier)

  /** `accepted` holds the wall-clock second of each camera's accepted frames, `history` the readings as graded. */
  datatype System = System(
    throttle: Throttle.State, accepted: map<int, seq<real>>, windows: Windows, history: seq<Reading>,
    pending: seq<Produced>, fusion: State, source: Option<Produced>)

  datatype Event =
    | Frame(call: Throttle.Call)
    | Graded(camera: int, frame: nat, raw: Status)
    | Deliver(index: nat, th: Thresholds, env: Env)
    | Other(update: Update, th: Thresholds, env: Env)

  function Taken(y: System, camera: int): seq<real> {
    if camera in y.accepted then y.accepted[camera] else []
  }

  /** The camera's frame is accepted and its inference has not returned. */
  ghost predicate UnderWay(y: System, camera: int, frame: nat) {
    frame < |Taken(y, camera)| && forall r :: r in y.history && r.camera == camera ==> r.frame != frame
  }

  ghost function OnFrame(y: System, call: Throttle.Call, cfg: Config): System {
    var throttle := Throttle.Step(y.throttle, call, cfg.intervals);
    if Throttle.Accepts(y.throttle, call, cfg.intervals)
    then y.(throttle := throttle, accepted := y.accepted[call.camera := Taken(y, call.camera) + [call.wall]])
    else y.(throttle := throttle)
  }

  ghost function OnGraded(y: System, camera: int, frame: nat, raw: Status, cfg: Config): System {
    if !UnderWay(y, camera, frame) then y
    else
      var k := cfg.settings.K();
      var windows := PushReading(y.windows, camera, k, raw);
      var history := y.history + [Reading(camera, raw, k, frame)];
      var tier := TierOf(windows[camera].items, cfg.settings);
      var p := Produced(camera, |Of(history, camera)|, StatusFromTier(tier), tier);
      y.(windows := windows, history := history, pending := y.pending + [p])
  }

  /** Only the frame handler produces statuses with a confidence. */
  predicate FromCamera(u: Update) { u.Camera? && u.b.tier.Some? }

  ghost function Advance(y: System, e: Event, cfg: Config): System {
    match e
    case Frame(call) => OnFrame(y, call, cfg)
    case Graded(camera, frame, raw) => OnGraded(y, camera, frame, raw, cfg)
    case Deliver(index, th, env) =>
      if index >= |y.pending| then y
      else
        var p := y.pending[index];
        var update := Camera(Blockage(p.status, Some(p.tier)));
        y.(fusion := AlertRuns.Step(y.fusion, AlertRuns.Event(update, th, env), cfg.recommend), source := Some(p))
    case Other(update, th, env) =>
      if FromCamera(update) then y
      else y.(fusion := AlertRuns.Step(y.fusion, AlertRuns.Event(update, th, env), cfg.recommend))
  }

  /** The first state: nothing graded yet; a status loaded from the database carries no confidence. */
  ghost function Start(fusion: State): System
    requires !HasTier(fusion)
  {
    System(Throttle.INITIAL, map[], map[], [], [], fusion, None)
  }

  ghost function Run(fusion: State, evs: seq<Event>, cfg: Config): System
    requires !HasTier(fusion)
  {
    if evs == [] then Start(fusion) else Advance(Run(fusion, evs[..|evs| - 1], cfg), evs[|evs| - 1], cfg)
  }

  // ---------------------------------------------------------------- invariant

  /** `p` is what the camera's first `n` readings grade to. */
  ghost predicate Sound(p: Produced, history: seq<Reading>, st: Settings) {
    var own := Of(history, p.camera);
    && 1 <= p.n <= |own|
    && p.tier == TierOf(LastN(Statuses(own[..p.n]), st.K()), st)
    && p.status == StatusFromTier(p.tier)
  }

  ghost predicate Spaced(times: seq<real>, gap: real) {
    forall i :: 0 <= i < |times| - 1 ==> times[i + 1] - times[i] >= gap
  }

  /** Accepted frames are spaced, and the last one is the throttle's. */
  ghost predicate FramesInvariant(y: System, camera: int, cfg: Config) {
    var taken := Taken(y, camera);
    && Spaced(taken, Throttle.MinGap(cfg.intervals))
    && (camera in y.throttle.lastProcessed <==> taken != [])
    && (taken != [] ==> y.throttle.lastProcessed[camera] == taken[|taken| - 1])
  }

  function FramesOf(own: seq<Reading>): seq<nat> { seq(|own|, i requires 0 <= i < |own| => own[i].frame) }

  /** Each graded reading is one of the accepted frames, and no two are the same. */
  ghost predicate ReadingsInvariant(y: System, camera: int) {
    var frames := FramesOf(Of(y.history, camera));
    Distinct(frames) && forall f :: f in frames ==> f < |Taken(y, camera)|
  }

  ghost predicate WindowInvariant(y: System, cfg: Config) {
    && (forall i :: 0 <= i < |y.history| ==> y.history[i].k == cfg.settings.K())
    && y.windows == RunWindows(y.history)
  }

  ghost predicate FusionInvariant(y: System, cfg: Config) {
    && (forall p :: p in y.pending ==> Sound(p, y.history, cfg.settings))
    && (HasTier(y.fusion) ==>
          y.source.Some? && Sound(y.source.value, y.history, cfg.settings)
          && TierIn(y.fusion).Rank() <= y.source.value.tier.Rank())
  }

  ghost predicate Invariant(y: System, camera: int, cfg: Config) {
    WindowInvariant(y, cfg) && FusionInvariant(y, cfg) && FramesInvariant(y, camera, cfg) && ReadingsInvariant(y, camera)
  }

  lemma OfExtends(history: seq<Reading>, r: Reading, camera: int)
    ensures Of(history + [r], camera) == Of(history, camera) + if r.camera == camera then [r] else []
  {
    assert (history + [r])[..|history|] == history;
  }

  lemma SoundPersists(p: Produced, history: seq<Reading>, r: Reading, st: Settings)
    requires Sound(p, history, st)
    ensures Sound(p, history + [r], st)
  {
    hide TierOf, LastN;
    OfExtends(history, r, p.camera);
    assert Of(history + [r], p.camera)[..p.n] == Of(history, p.camera)[..p.n];
  }

  lemma FrameKeepsFrames(y: System, call: Throttle.Call, cfg: Config, camera: int)
    requires FramesInvariant(y, camera, cfg)
    ensures FramesInvariant(OnFrame(y, call, cfg), camera, cfg)
  {
    if Throttle.Accepts(y.throttle, call, cfg.intervals) && call.camera == camera && camera in y.throttle.lastProcessed {
      Throttle.AcceptedAfterGap(y.throttle, call, cfg.intervals);
    }
  }

  lemma FrameKeepsReadings(y: System, call: Throttle.Call, cfg: Config, camera: int)
    requires ReadingsInvariant(y, camera)
    ensures ReadingsInvariant(OnFrame(y, call, cfg), camera)
  {
    hide Throttle.Step, Throttle.Accepts, Of;
    assert |Taken(y, camera)| <= |Taken(OnFrame(y, call, cfg), camera)|;
  }

  lemma GradingKeepsReadings(y: System, camera: int, frame: nat, raw: Status, cfg: Config, other: int)
    requires ReadingsInvariant(y, other)
    ensures ReadingsInvariant(OnGraded(y, camera, frame, raw, cfg), other)
  {
    hide TierOf, Pushed, Of, RunWindows;
    if UnderWay(y, camera, frame) {
      OfExtends(y.history, Reading(camera, raw, cfg.settings.K(), frame), other);
      if camera == other {
        OfKeeps(y.history, camera);
        var own := Of(y.history, camera);
        assert forall i :: 0 <= i < |own| ==> own[i].frame != frame;
        AddFrame(own, Reading(camera, raw, cfg.settings.K(), frame));
      } else {
        assert Of(y.history, other) + [] == Of(y.history, other);
      }
    }
  }

  lemma AddFrame(own: seq<Reading>, r: Reading)
    requires Distinct(FramesOf(own)) && forall i :: 0 <= i < |own| ==> own[i].frame != r.frame
    ensures FramesOf(own + [r]) == FramesOf(own) + [r.frame] && Distinct(FramesOf(own + [r]))
  {
  }

  lemma GradingKeepsWindows(y: System, camera: int, frame: nat, raw: Status, cfg: Config)
    requires WindowInvariant(y, cfg)
    ensures WindowInvariant(OnGraded(y, camera, frame, raw, cfg), cfg)
  {
    hide TierOf, Pushed, Of;
    var next := OnGraded(y, camera, frame, raw, cfg);
    if UnderWay(y, camera, frame) {
      assert next.history[..|y.history|] == y.history;
    }
  }

  /** What a grading adds to the pending list is sound: the window holds the last K statuses. */
  lemma ProducedIsSound(y: System, camera: int, frame: nat, raw: Status, cfg: Config)
    requires WindowInvariant(y, cfg) && UnderWay(y, camera, frame)
    ensures var next := OnGraded(y, camera, frame, raw, cfg);
            |next.pending| == |y.pending| + 1 && Sound(next.pending[|y.pending|], next.history, cfg.settings)
  {
    var next := OnGraded(y, camera, frame, raw, cfg);
    GradingKeepsWindows(y, camera, frame, raw, cfg);
    OfExtends(y.history, Reading(camera, raw, cfg.settings.K(), frame), camera);
    WindowIsLastK(next.history, camera, cfg.settings.K());
    hide TierOf, Pushed, LastN, Of, RunWindows, UnderWay;
    var own := Of(next.history, camera);
    assert own[..|own|] == own;
  }

  lemma GradingKeepsFusion(y: System, camera: int, frame: nat, raw: Status, cfg: Config)
    requires WindowInvariant(y, cfg) && FusionInvariant(y, cfg)
    ensures FusionInvariant(OnGraded(y, camera, frame, raw, cfg), cfg)
  {
    hide TierOf, Pushed, LastN, Of, RunWindows, Sound, WindowInvariant, UnderWay;
    var next := OnGraded(y, camera, frame, raw, cfg);
    if UnderWay(y, camera, frame) {
      var r := Reading(camera, raw, cfg.settings.K(), frame);
      ProducedIsSound(y, camera, frame, raw, cfg);
      forall p | p in next.pending ensures Sound(p, next.history, cfg.settings) {
        if p in y.pending {
          SoundPersists(p, y.history, r, cfg.settings);
        }
      }
      if HasTier(y.fusion) {
        SoundPersists(y.source.value, y.history, r, cfg.settings);
      }
    }
  }

  lemma NotifyKeepsFusion(y: System, e: Event, cfg: Config)
    requires !e.Frame? && !e.Graded? && FusionInvariant(y, cfg)
    ensures FusionInvariant(Advance(y, e, cfg), cfg)
  {
    hide Sound, FusionScoring.Fusion, AlertState.Notified;
    match e
    case Deliver(index, th, env) =>
      if index < |y.pending| {
        var p := y.pending[index];
        assert p in y.pending;
        AlertRuns.TierStep(y.fusion, AlertRuns.Event(Camera(Blockage(p.status, Some(p.tier))), th, env), cfg.recommend);
      }
    case Other(update, th, env) =>
      AlertRuns.TierStep(y.fusion, AlertRuns.Event(update, th, env), cfg.recommend);
  }

  lemma {:induction false} InvariantHolds(fusion: State, evs: seq<Event>, cfg: Config, camera: int)
    requires !HasTier(fusion)
    ensures Invariant(Run(fusion, evs, cfg), camera, cfg)
  {
    if evs != [] {
      hide Invariant, Advance;
      InvariantHolds(fusion, evs[..|evs| - 1], cfg, camera);
      InvariantStep(Run(fusion, evs[..|evs| - 1], cfg), evs[|evs| - 1], cfg, camera);
    }
  }

  lemma InvariantStep(y: System, e: Event, cfg: Config, camera: int)
    requires Invariant(y, camera, cfg)
    ensures Invariant(Advance(y, e, cfg), camera, cfg)
  {
    hide TierOf, Pushed, AlertRuns.Step, RunWindows, Sound, Of, Spaced, Throttle.Step, Throttle.Accepts, UnderWay;
    match e
    case Frame(call) =>
      FrameKeepsFrames(y, call, cfg, camera);
      FrameKeepsReadings(y, call, cfg, camera);
    case Graded(c, frame, raw) =>
      GradingKeepsWindows(y, c, frame, raw, cfg);
      GradingKeepsFusion(y, c, frame, raw, cfg);
      GradingKeepsReadings(y, c, frame, raw, cfg, camera);
    case Deliver(_, _, _) => NotifyKeepsFusion(y, e, cfg);
    case Other(_, _, _) => NotifyKeepsFusion(y, e, cfg);
  }

  // ---------------------------------------------------------------- sustained evidence

  /**
   The frames, all accepted, are pairwise different, and two of them are as many acceptances apart as there are
   other frames in the list, with a minimal gap of wall-clock time for each acceptance.
   */
  ghost predicate SpreadOut(frames: seq<nat>, taken: seq<real>, gap: real) {
    && Distinct(frames)
    && (forall f :: f in frames ==> f < |taken|)
    && exists a, b :: a in frames && b in frames && FarApart(a, b, |frames|, taken, gap)
  }

  ghost predicate FarApart(a: nat, b: nat, count: nat, taken: seq<real>, gap: real) {
    a <= b < |taken| && b - a >= count - 1 && taken[b] - taken[a] >= Throttle.Times(b - a, gap)
  }

  /**
   K readings of one camera, graded in a row, whose weighted sum reaches the limit; they come from K different
   accepted frames, and so span K - 1 minimal gaps at least.
   */
  ghost predicate Evidence(y: System, camera: int, n: nat, cfg: Config) {
    var own, k := Of(y.history, camera), cfg.settings.K();
    && k <= n <= |own|
    && Weighted(Statuses(own[n - k..n]), cfg.settings.partialWeight)
         >= Min(cfg.settings.likely, cfg.settings.confirmed) * k as real
    && SpreadOut(FramesOf(own[n - k..n]), Taken(y, camera), Throttle.MinGap(cfg.intervals))
  }

  lemma {:induction false} SpacedSpan(times: seq<real>, gap: real, i: nat, count: nat)
    requires Spaced(times, gap) && i + count < |times|
    ensures times[i + count] - times[i] >= Throttle.Times(count, gap)
    decreases count
  {
    Throttle.TimesSucc(if count == 0 then 0 else count - 1, gap);
    if count > 0 {
      SpacedSpan(times, gap, i, count - 1);
    }
  }

  lemma {:induction false} Extremes(frames: seq<nat>) returns (a: nat, b: nat)
    requires frames != []
    ensures a in frames && b in frames && forall f :: f in frames ==> a <= f <= b
  {
    if |frames| == 1 {
      a, b := frames[0], frames[0];
    } else {
      var n := |frames| - 1;
      a, b := Extremes(frames[..n]);
      a := if frames[n] < a then frames[n] else a;
      b := if frames[n] > b then frames[n] else b;
      assert forall f :: f in frames ==> f in frames[..n] || f == frames[n];
    }
  }

  lemma {:induction false} BoundedSetSize(s: set<nat>, a: nat, b: nat)
    requires a <= b && forall f :: f in s ==> a <= f < b
    ensures |s| <= b - a
    decreases b - a
  {
    if a == b {
      assert s == {};
    } else {
      BoundedSetSize(s - {b - 1}, a, b - 1);
      assert s <= (s - {b - 1}) + {b - 1};
    }
  }

  /** Different accepted frames are spread out. */
  lemma DistinctSpreadOut(frames: seq<nat>, taken: seq<real>, gap: real)
    requires frames != [] && Distinct(frames) && (forall f :: f in frames ==> f < |taken|) && Spaced(taken, gap)
    ensures SpreadOut(frames, taken, gap)
  {
    var a, b := Extremes(frames);
    DistinctSize(frames);
    BoundedSetSize(Elements(frames), a, b + 1);
    SpacedSpan(taken, gap, a, b - a);
    assert FarApart(a, b, |frames|, taken, gap);
  }

  lemma SliceDistinct(frames: seq<nat>, lo: nat, hi: nat)
    requires lo <= hi <= |frames| && Distinct(frames)
    ensures Distinct(frames[lo..hi]) && forall f :: f in frames[lo..hi] ==> f in frames
  {
  }

  lemma SoundIsEvidence(p: Produced, y: System, cfg: Config)
    requires Sound(p, y.history, cfg.settings) && p.tier.Rank() >= 2
    requires FramesInvariant(y, p.camera, cfg) && ReadingsInvariant(y, p.camera)
    ensures Evidence(y, p.camera, p.n, cfg)
  {
    hide Of, TierOf, Weighted, LastN, Statuses, SpreadOut, FramesInvariant, ReadingsInvariant, FramesOf;
    var own, k := Of(y.history, p.camera), cfg.settings.K();
    AlertingTierMeansEvidence(LastN(Statuses(own[..p.n]), k), cfg.settings);
    StatusesTail(own, p.n, k);
    ReadingsSpreadOut(y, p.camera, p.n - k, p.n, cfg);
  }

  /** Any readings of a camera graded in a row are spread out. */
  lemma ReadingsSpreadOut(y: System, camera: int, lo: nat, hi: nat, cfg: Config)
    requires FramesInvariant(y, camera, cfg) && ReadingsInvariant(y, camera) && lo < hi <= |Of(y.history, camera)|
    ensures SpreadOut(FramesOf(Of(y.history, camera)[lo..hi]), Taken(y, camera), Throttle.MinGap(cfg.intervals))
  {
    hide Of, Spaced, SpreadOut;
    var own := Of(y.history, camera);
    SliceDistinct(FramesOf(own), lo, hi);
    assert FramesOf(own[lo..hi]) == FramesOf(own)[lo..hi];
    DistinctSpreadOut(FramesOf(own[lo..hi]), Taken(y, camera), Throttle.MinGap(cfg.intervals));
  }

  lemma StatusesTail(own: seq<Reading>, n: nat, k: nat)
    requires n <= |own|
    ensures |LastN(Statuses(own[..n]), k)| == if n <= k then n else k
    ensures n >= k ==> LastN(Statuses(own[..n]), k) == Statuses(own[n - k..n])
  {
  }

  /**
   Whatever happens before, when an obstruction note is wanted and a confidence is present, the camera whose
   reading is in force had K readings graded in a row that together reach the limit, of K different accepted
   frames over at least K - 1 minimal gaps of wall-clock time.
   */
  lemma SustainedEvidence(fusion: State, evs: seq<Event>, cfg: Config)
    requires !HasTier(fusion)
    requires var y := Run(fusion, evs, cfg); HasTier(y.fusion) && ShouldNotifyObstruction(y.fusion)
    ensures var y := Run(fusion, evs, cfg);
            y.source.Some? && Evidence(y, y.source.value.camera, y.source.value.n, cfg)
  {
    hide Run, Sound, WindowInvariant, FramesInvariant, ReadingsInvariant, Evidence, Of;
    var y := Run(fusion, evs, cfg);
    InvariantHolds(fusion, evs, cfg, 0);
    var p := y.source.value;
    InvariantHolds(fusion, evs, cfg, p.camera);
    SoundIsEvidence(p, y, cfg);
  }

  /**
   The same at the moment of sending: a note that a delivery step wants to send rests on the evidence of the
   reading it delivers, any other note on that of the reading in force.
   */
  lemma SentNoteHasEvidence(fusion: State, evs: seq<Event>, cfg: Config, e: Event)
    requires !HasTier(fusion) && !e.Frame? && !e.Graded?
    requires var y := Run(fusion, evs, cfg);
             var update := if e.Other? then e.update
                           else if e.index < |y.pending|
                           then Camera(Blockage(y.pending[e.index].status, Some(y.pending[e.index].tier))) else Refresh;
             var mid := Recalculated(y.fusion, update, e.th);
             && (e.Other? ==> !FromCamera(update))
             && HasTier(mid) && Wants(mid, BlockageNote)
    ensures var y := Run(fusion, evs, cfg);
            if e.Deliver? && e.index < |y.pending|
            then Evidence(y, y.pending[e.index].camera, y.pending[e.index].n, cfg)
            else y.source.Some? && Evidence(y, y.source.value.camera, y.source.value.n, cfg)
  {
    hide Run, Sound, WindowInvariant, FramesInvariant, ReadingsInvariant, Evidence, Of, FusionScoring.Fusion;
    var y := Run(fusion, evs, cfg);
    InvariantHolds(fusion, evs, cfg, 0);
    var p := if e.Deliver? && e.index < |y.pending| then y.pending[e.index] else y.source.value;
    assert e.Deliver? && e.index < |y.pending| ==> p in y.pending;
    InvariantHolds(fusion, evs, cfg, p.camera);
    SoundIsEvidence(p, y, cfg);
  }

  // ---------------------------------------------------------------- when a note is wanted, exactly

  /** The update-and-notify step of the fusion state that an event brings, if any. */
  ghost function NotifyEvent(y: System, e: Event): Option<AlertRuns.Event> {
    match e
    case Deliver(index, th, env) =>
      if index >= |y.pending| then None
      else Some(AlertRuns.Event(Camera(Blockage(y.pending[index].status, Some(y.pending[index].tier))), th, env))
    case Other(update, th, env) => if FromCamera(update) then None else Some(AlertRuns.Event(update, th, env))
    case _ => None
  }

  ghost function NotifyAt(fusion: State, evs: seq<Event>, cfg: Config, m: nat): Option<AlertRuns.Event>
    requires !HasTier(fusion) && m < |evs|
  {
    NotifyEvent(Run(fusion, evs[..m], cfg), evs[m])
  }

  /** The recalculated state from which event `m` notifies. */
  ghost function MidAt(fusion: State, evs: seq<Event>, cfg: Config, m: nat): State
    requires !HasTier(fusion) && m < |evs| && NotifyAt(fusion, evs, cfg, m).Some?
  {
    var a := NotifyAt(fusion, evs, cfg, m).value;
    Recalculated(Run(fusion, evs[..m], cfg).fusion, a.update, a.th)
  }

  ghost predicate FlagsBlindAt(fusion: State, evs: seq<Event>, cfg: Config, m: nat)
    requires !HasTier(fusion) && m < |evs|
  {
    NotifyAt(fusion, evs, cfg, m).Some? && BlindCamera in MidAt(fusion, evs, cfg, m).fusion.anomalies
  }

  ghost predicate NewStatusAt(fusion: State, evs: seq<Event>, cfg: Config, m: nat)
    requires !HasTier(fusion) && m < |evs|
  {
    NotifyAt(fusion, evs, cfg, m).Some? && NotifyAt(fusion, evs, cfg, m).value.update.Camera?
  }

  /** The camera's first `n` readings end in K whose blocked and partial ones together reach the lower limit. */
  ghost predicate Reaches(y: System, camera: int, n: nat, cfg: Config) {
    var own, k := Of(y.history, camera), cfg.settings.K();
    && k <= n <= |own|
    && CountedSum(Statuses(own[n - k..n]), cfg.settings.partialWeight)
         >= Min(cfg.settings.likely, cfg.settings.confirmed) * k as real
  }

  lemma SoundReaches(p: Produced, y: System, cfg: Config)
    requires Sound(p, y.history, cfg.settings)
    ensures (p.tier == Likely || p.tier == Confirmed) <==> Reaches(y, p.camera, p.n, cfg)
  {
    hide Of, TierOf, Weighted, LastN, Statuses, CountedSum;
    var own, k := Of(y.history, p.camera), cfg.settings.K();
    var items := LastN(Statuses(own[..p.n]), k);
    AlertingTierMeansEvidence(items, cfg.settings);
    StatusesTail(own, p.n, k);
    SumIsCounted(items, cfg.settings.partialWeight);
  }

  lemma NotifyStep(fusion: State, evs: seq<Event>, cfg: Config, m: nat)
    requires !HasTier(fusion) && m < |evs|
    ensures var before, after, a := Run(fusion, evs[..m], cfg).fusion, Run(fusion, evs[..m + 1], cfg).fusion, NotifyAt(fusion, evs, cfg, m);
            after == if a.Some? then AlertRuns.Step(before, a.value, cfg.recommend) else before
  {
    hide OnFrame, OnGraded, AlertRuns.Step;
    assert evs[..m + 1][..m] == evs[..m];
    OnlyNotifiesChangeFusion(Run(fusion, evs[..m], cfg), evs[m], cfg);
    hide Advance;
  }

  lemma OnlyNotifiesChangeFusion(y: System, e: Event, cfg: Config)
    ensures Advance(y, e, cfg).fusion ==
              match NotifyEvent(y, e) case None => y.fusion case Some(a) => AlertRuns.Step(y.fusion, a, cfg.recommend)
  {
    hide TierOf, Pushed, AlertRuns.Step, Of, Throttle.Step, Throttle.Accepts;
  }

  /** No step from `d` on, up to but without `n`, flags a blind camera. */
  ghost predicate NoBlind(fusion: State, evs: seq<Event>, cfg: Config, d: nat, n: nat)
    requires !HasTier(fusion) && n <= |evs|
  {
    forall m: nat :: d <= m < n ==> !FlagsBlindAt(fusion, evs, cfg, m)
  }

  ghost predicate NoNewStatus(fusion: State, evs: seq<Event>, cfg: Config, d: nat, n: nat)
    requires !HasTier(fusion) && n <= |evs|
  {
    forall m: nat :: d < m < n ==> !NewStatusAt(fusion, evs, cfg, m)
  }

  ghost predicate Delivers(fusion: State, evs: seq<Event>, cfg: Config, d: nat)
    requires !HasTier(fusion) && d < |evs|
  {
    evs[d].Deliver? && evs[d].index < |Run(fusion, evs[..d], cfg).pending|
  }

  ghost function DeliveredBy(fusion: State, evs: seq<Event>, cfg: Config, d: nat): Produced
    requires !HasTier(fusion) && d < |evs| && Delivers(fusion, evs, cfg, d)
  {
    Run(fusion, evs[..d], cfg).pending[evs[d].index]
  }

  ghost predicate Alerting(s: State) { HasTier(s) && (TierIn(s) == Likely || TierIn(s) == Confirmed) }

  /** The tier from which event `n`, the delivery itself or a later step without a new status, notifies. */
  lemma {:induction false} TierSince(fusion: State, evs: seq<Event>, cfg: Config, d: nat, n: nat)
    requires !HasTier(fusion) && d < n <= |evs| && Delivers(fusion, evs, cfg, d) && NoNewStatus(fusion, evs, cfg, d, n)
    ensures var y, p := Run(fusion, evs[..n], cfg).fusion, DeliveredBy(fusion, evs, cfg, d);
            HasTier(y) && (Alerting(y) <==> (p.tier == Likely || p.tier == Confirmed) && NoBlind(fusion, evs, cfg, d, n))
    decreases n
  {
    hide Run, Advance, AlertRuns.Step, AlertState.Recalculated, FlagsBlindAt, NewStatusAt;
    if n > d + 1 {
      TierSince(fusion, evs, cfg, d, n - 1);
    }
    TierAt(fusion, evs, cfg, d, n - 1);
    assert NoBlind(fusion, evs, cfg, d, n) <==> NoBlind(fusion, evs, cfg, d, n - 1) && !FlagsBlindAt(fusion, evs, cfg, n - 1);
  }

  /** One step of the above, and what it wants. */
  lemma TierAt(fusion: State, evs: seq<Event>, cfg: Config, d: nat, m: nat)
    requires !HasTier(fusion) && d <= m < |evs| && Delivers(fusion, evs, cfg, d)
    requires d < m ==> !NewStatusAt(fusion, evs, cfg, m) && HasTier(Run(fusion, evs[..m], cfg).fusion)
    ensures var before, after := Run(fusion, evs[..m], cfg).fusion, Run(fusion, evs[..m + 1], cfg).fusion;
            var p := DeliveredBy(fusion, evs, cfg, d);
            var alerting := if m == d then p.tier == Likely || p.tier == Confirmed else Alerting(before);
            && HasTier(after) && (Alerting(after) <==> alerting && !FlagsBlindAt(fusion, evs, cfg, m))
            && (NotifyAt(fusion, evs, cfg, m).Some? ==>
                 (Wants(MidAt(fusion, evs, cfg, m), BlockageNote) <==> alerting && !FlagsBlindAt(fusion, evs, cfg, m)))
  {
    hide Run, Advance, AlertRuns.Step, AlertState.Wants;
    NotifyStep(fusion, evs, cfg, m);
    var before, a := Run(fusion, evs[..m], cfg).fusion, NotifyAt(fusion, evs, cfg, m);
    if a.Some? {
      AlertRuns.ObstructionStep(before, a.value, cfg.recommend);
      AlertRuns.TierStep(before, a.value, cfg.recommend);
      hide FusionScoring.Fusion;
    }
  }

  /**
   When an obstruction note is wanted, exactly: from the delivery of a camera's n-th reading until the next status, each
   step wants one if and only if that camera's last K readings up to the n-th reach the lower limit and no step since
   the delivery, itself included, has flagged a blind camera.
   */
  lemma ObstructionNoteExact(fusion: State, evs: seq<Event>, cfg: Config, d: nat, j: nat)
    requires !HasTier(fusion) && d <= j < |evs| && Delivers(fusion, evs, cfg, d)
    requires NoNewStatus(fusion, evs, cfg, d, j + 1) && NotifyAt(fusion, evs, cfg, j).Some?
    ensures var p := DeliveredBy(fusion, evs, cfg, d);
            Wants(MidAt(fusion, evs, cfg, j), BlockageNote) <==>
              Reaches(Run(fusion, evs[..d], cfg), p.camera, p.n, cfg) && NoBlind(fusion, evs, cfg, d, j + 1)
  {
    hide Run, Sound, WindowInvariant, FramesInvariant, ReadingsInvariant, Reaches, AlertState.Wants, NewStatusAt, FlagsBlindAt, MidAt, NotifyAt;
    var p := DeliveredBy(fusion, evs, cfg, d);
    InvariantHolds(fusion, evs[..d], cfg, p.camera);
    assert p in Run(fusion, evs[..d], cfg).pending;
    SoundReaches(p, Run(fusion, evs[..d], cfg), cfg);
    if d < j {
      TierSince(fusion, evs, cfg, d, j);
    }
    TierAt(fusion, evs, cfg, d, j);
    assert NoBlind(fusion, evs, cfg, d, j + 1) <==> NoBlind(fusion, evs, cfg, d, j) && !FlagsBlindAt(fusion, evs, cfg, j);
  }

  ghost predicate PendingMatches(y: System) {
    && |y.pending| == |y.history|
    && forall i :: 0 <= i < |y.pending| ==>
         y.pending[i].camera == y.history[i].camera && y.pending[i].n == |Of(y.history[..i + 1], y.history[i].camera)|
  }

  lemma PendingStep(y: System, e: Event, cfg: Config)
    requires PendingMatches(y)
    ensures PendingMatches(Advance(y, e, cfg))
  {
    hide TierOf, Pushed, AlertRuns.Step, Of, Throttle.Step, Throttle.Accepts, UnderWay;
    var next := Advance(y, e, cfg);
    if e.Graded? && UnderWay(y, e.camera, e.frame) {
      var n := |y.history|;
      assert next.history[..n + 1] == next.history;
      forall i | 0 <= i < n
        ensures next.pending[i].camera == next.history[i].camera
             && next.pending[i].n == |Of(next.history[..i + 1], next.history[i].camera)|
      {
        assert next.history[..i + 1] == y.history[..i + 1];
      }
    }
  }

  /** Each grading produces one status: the i-th is that of the i-th reading, numbered within its camera. */
  lemma {:induction false} PendingIsHistory(fusion: State, evs: seq<Event>, cfg: Config)
    requires !HasTier(fusion)
    ensures PendingMatches(Run(fusion, evs, cfg))
  {
    hide PendingMatches, Advance;
    if evs == [] {
      StartMatches(fusion);
    } else {
      PendingIsHistory(fusion, evs[..|evs| - 1], cfg);
      PendingStep(Run(fusion, evs[..|evs| - 1], cfg), evs[|evs| - 1], cfg);
    }
  }

  lemma StartMatches(fusion: State)
    requires !HasTier(fusion)
    ensures PendingMatches(Start(fusion))
  {
  }

  const DEFAULT_CONFIG := Config(Confidence.DEFAULTS, Throttle.DEFAULTS, RECOMMEND_DEFAULTS)

  /**
   Five readings of one camera graded in a row, at least three of them flagged and one blocked, of five different
   frames accepted over 100 s or more.
   */
  ghost predicate FiveReadings(y: System, camera: int, n: nat) {
    var own, taken := Of(y.history, camera), Taken(y, camera);
    && 5 <= n <= |own|
    && Flagged(Statuses(own[n - 5..n])) >= 3 && Blocked in Statuses(own[n - 5..n])
    && var frames := FramesOf(own[n - 5..n]);
       && Distinct(frames)
       && exists a, b :: a in frames && b in frames && a <= b < |taken| && taken[b] - taken[a] >= 100.0
  }

  /** With the shipped settings: the camera in force gave five readings over at least 100 s, three of them flagged and one blocked. */
  lemma DefaultSustainedEvidence(fusion: State, evs: seq<Event>)
    requires !HasTier(fusion)
    requires var y := Run(fusion, evs, DEFAULT_CONFIG); HasTier(y.fusion) && ShouldNotifyObstruction(y.fusion)
    ensures var y := Run(fusion, evs, DEFAULT_CONFIG);
            y.source.Some? && FiveReadings(y, y.source.value.camera, y.source.value.n)
  {
    hide Run;
    SustainedEvidence(fusion, evs, DEFAULT_CONFIG);
    var y := Run(fusion, evs, DEFAULT_CONFIG);
    EvidenceIsFiveReadings(y, y.source.value.camera, y.source.value.n);
  }

  lemma EvidenceIsFiveReadings(y: System, camera: int, n: nat)
    requires Evidence(y, camera, n, DEFAULT_CONFIG)
    ensures FiveReadings(y, camera, n)
  {
    hide Of, Weighted, Flagged;
    var frames := FramesOf(Of(y.history, camera)[n - 5..n]);
    var items := Statuses(Of(y.history, camera)[n - 5..n]);
    AlertingTierMeansEvidence(items, Confidence.DEFAULTS);
    DefaultEvidence(items);
    var a, b :| a in frames && b in frames && FarApart(a, b, |frames|, Taken(y, camera), Throttle.MinGap(Throttle.DEFAULTS));
    assert Taken(y, camera)[b] - Taken(y, camera)[a] >= 100.0;
  }

  // ---------------------------------------------------------------- overtaking frames

  /** The camera's readings are its first accepted frames, in the order of acceptance. */
  ghost predicate InOrder(y: System, camera: int) {
    var own := Of(y.history, camera);
    forall i :: 0 <= i < |own| ==> own[i].frame == i
  }

  /** The event grades no frame of the camera but the one after those graded so far. */
  ghost predicate Overtakes(y: System, e: Event, camera: int) {
    e.Graded? && e.camera == camera && UnderWay(y, camera, e.frame) && e.frame != |Of(y.history, camera)|
  }

  lemma OrderStep(y: System, e: Event, cfg: Config, camera: int)
    ensures InOrder(Advance(y, e, cfg), camera) <==> InOrder(y, camera) && !Overtakes(y, e, camera)
  {
    hide TierOf, Pushed, AlertRuns.Step, RunWindows, Of, Throttle.Step, Throttle.Accepts;
    if e.Graded? && UnderWay(y, e.camera, e.frame) {
      var r, own := Reading(e.camera, e.raw, cfg.settings.K(), e.frame), Of(y.history, camera);
      OfExtends(y.history, r, camera);
      if e.camera == camera {
        assert forall i :: 0 <= i < |own| ==> (own + [r])[i] == own[i];
        assert (own + [r])[|own|] == r;
      } else {
        assert own + [] == own;
      }
    }
  }

  lemma StartInOrder(fusion: State, camera: int)
    requires !HasTier(fusion)
    ensures InOrder(Start(fusion), camera)
  {
  }

  ghost predicate OvertakesAt(fusion: State, evs: seq<Event>, cfg: Config, m: nat, camera: int)
    requires !HasTier(fusion) && m < |evs|
  {
    Overtakes(Run(fusion, evs[..m], cfg), evs[m], camera)
  }

  lemma OvertakesInPrefix(fusion: State, evs: seq<Event>, cfg: Config, n: nat, m: nat, camera: int)
    requires !HasTier(fusion) && m < n <= |evs|
    ensures OvertakesAt(fusion, evs[..n], cfg, m, camera) <==> OvertakesAt(fusion, evs, cfg, m, camera)
  {
    assert evs[..n][..m] == evs[..m];
  }

  /** Grading keeps the order of acceptance exactly if no frame's inference returns before that of an earlier one. */
  lemma {:induction false} InOrderExactly(fusion: State, evs: seq<Event>, cfg: Config, camera: int)
    requires !HasTier(fusion)
    ensures InOrder(Run(fusion, evs, cfg), camera) <==>
              forall m: nat :: m < |evs| ==> !OvertakesAt(fusion, evs, cfg, m, camera)
  {
    hide Advance, InOrder, OvertakesAt;
    if evs == [] {
      StartInOrder(fusion, camera);
    } else {
      var n := |evs| - 1;
      InOrderExactly(fusion, evs[..n], cfg, camera);
      LastStepOrder(fusion, evs, cfg, camera);
      forall m: nat | m < n
        ensures OvertakesAt(fusion, evs[..n], cfg, m, camera) <==> OvertakesAt(fusion, evs, cfg, m, camera)
      {
        OvertakesInPrefix(fusion, evs, cfg, n, m, camera);
      }
    }
  }

  lemma LastStepOrder(fusion: State, evs: seq<Event>, cfg: Config, camera: int)
    requires !HasTier(fusion) && evs != []
    ensures InOrder(Run(fusion, evs, cfg), camera) <==>
              InOrder(Run(fusion, evs[..|evs| - 1], cfg), camera) && !OvertakesAt(fusion, evs, cfg, |evs| - 1, camera)
  {
    hide Advance, InOrder, Overtakes;
    OrderStep(Run(fusion, evs[..|evs| - 1], cfg), evs[|evs| - 1], cfg, camera);
  }

  /** `k` frames accepted in a row from `f` on are graded, and their weighted sum reaches the limit. */
  ghost predicate RowReaches(y: System, camera: int, f: nat, cfg: Config) {
    exists row: seq<Status> ::
      && |row| == cfg.settings.K() && (forall i: nat :: i < |row| ==> GradedAs(y, camera, f + i, row[i]))
      && Weighted(row, cfg.settings.partialWeight) >= Min(cfg.settings.likely, cfg.settings.confirmed) * |row| as real
  }

  ghost predicate GradedAs(y: System, camera: int, frame: nat, s: Status) {
    exists r :: r in y.history && r.camera == camera && r.frame == frame && r.status == s
  }

  /** As long as no frame of the camera overtakes another, the evidence is K frames accepted in a row. */
  lemma InOrderEvidence(fusion: State, evs: seq<Event>, cfg: Config)
    requires !HasTier(fusion)
    requires var y := Run(fusion, evs, cfg); HasTier(y.fusion) && ShouldNotifyObstruction(y.fusion)
    ensures var y, k := Run(fusion, evs, cfg), cfg.settings.K();
            && y.source.Some?
            && var camera, n := y.source.value.camera, y.source.value.n;
               InOrder(y, camera) ==>
                 && k <= n <= |Taken(y, camera)| && RowReaches(y, camera, n - k, cfg)
                 && Taken(y, camera)[n - 1] - Taken(y, camera)[n - k] >= Throttle.Times(k - 1, Throttle.MinGap(cfg.intervals))
  {
    hide Run, Sound, WindowInvariant, Weighted, Of, Throttle.Times, RowReaches;
    SustainedEvidence(fusion, evs, cfg);
    var y, k := Run(fusion, evs, cfg), cfg.settings.K();
    var camera, n := y.source.value.camera, y.source.value.n;
    InvariantHolds(fusion, evs, cfg, camera);
    if InOrder(y, camera) {
      var own, taken := Of(y.history, camera), Taken(y, camera);
      assert FramesOf(own)[n - 1] in FramesOf(own);
      SpacedSpan(taken, Throttle.MinGap(cfg.intervals), n - k, k - 1);
      InOrderRow(y, camera, n, cfg);
    }
  }

  lemma InOrderRow(y: System, camera: int, n: nat, cfg: Config)
    requires Evidence(y, camera, n, cfg) && InOrder(y, camera)
    ensures n >= cfg.settings.K() && RowReaches(y, camera, n - cfg.settings.K(), cfg)
  {
    hide Weighted, Of, SpreadOut;
    var own, k := Of(y.history, camera), cfg.settings.K();
    var row := Statuses(own[n - k..n]);
    OfKeeps(y.history, camera);
    forall i: nat | i < |row| ensures GradedAs(y, camera, n - k + i, row[i]) {
      assert own[n - k + i] in y.history;
    }
  }

  // A run in which a frame overtakes: six frames 25 s apart under a warning, the third graded last.

  function SixFrames(n: nat): seq<Event> {
    seq(n, i requires 0 <= i < n => Frame(Throttle.Call(0, Some(Warning), 25.0 * i as real, 25.0 * i as real)))
  }

  const GRADED_LATE := [
    Graded(0, 0, Partial), Graded(0, 1, Partial), Graded(0, 3, Blocked), Graded(0, 4, Partial), Graded(0, 5, Partial),
    Graded(0, 2, Clear)]

  const LATE_HISTORY := [
    Reading(0, Partial, 5, 0), Reading(0, Partial, 5, 1), Reading(0, Blocked, 5, 3), Reading(0, Partial, 5, 4),
    Reading(0, Partial, 5, 5), Reading(0, Clear, 5, 2)]

  lemma RunAppend(fusion: State, evs: seq<Event>, e: Event, cfg: Config)
    requires !HasTier(fusion)
    ensures Run(fusion, evs + [e], cfg) == Advance(Run(fusion, evs, cfg), e, cfg)
  {
    assert (evs + [e])[..|evs|] == evs;
  }

  lemma {:induction false} FramesAccepted(n: nat)
    ensures var y := Run(INITIAL, SixFrames(n), DEFAULT_CONFIG);
            && |Taken(y, 0)| == n && y.history == [] && y.pending == []
            && (0 in y.throttle.lastProcessed <==> n > 0)
            && (n > 0 ==> y.throttle.lastProcessed[0] == 25.0 * (n - 1) as real)
  {
    if n > 0 {
      FramesAccepted(n - 1);
      assert SixFrames(n) == SixFrames(n - 1) + [SixFrames(n)[n - 1]];
      RunAppend(INITIAL, SixFrames(n - 1), SixFrames(n)[n - 1], DEFAULT_CONFIG);
    }
  }

  lemma GradeStep(y: System, frame: nat, raw: Status)
    requires UnderWay(y, 0, frame) && forall r :: r in y.history ==> r.camera == 0
    ensures var next := Advance(y, Graded(0, frame, raw), DEFAULT_CONFIG);
            && next.accepted == y.accepted && next.history == y.history + [Reading(0, raw, 5, frame)]
            && |next.pending| == |y.pending| + 1 && next.pending[..|y.pending|] == y.pending
            && next.pending[|y.pending|].camera == 0 && next.pending[|y.pending|].n == |y.history| + 1
  {
    hide TierOf, Pushed, Of, UnderWay;
    OfOneCamera(y.history + [Reading(0, raw, 5, frame)]);
  }

  lemma {:induction false} LateGradings(n: nat)
    requires n <= 6
    ensures var y := Run(INITIAL, SixFrames(6) + GRADED_LATE[..n], DEFAULT_CONFIG);
            && |Taken(y, 0)| == 6 && y.history == LATE_HISTORY[..n] && |y.pending| == n
            && forall i :: 0 <= i < n ==> y.pending[i].camera == 0 && y.pending[i].n == i + 1
  {
    if n == 0 {
      FramesAccepted(6);
      assert SixFrames(6) + GRADED_LATE[..0] == SixFrames(6);
    } else {
      LateGradings(n - 1);
      LateGrading(n - 1);
    }
  }

  lemma LateGrading(n: nat)
    requires n < 6
    requires var y := Run(INITIAL, SixFrames(6) + GRADED_LATE[..n], DEFAULT_CONFIG);
             && |Taken(y, 0)| == 6 && y.history == LATE_HISTORY[..n] && |y.pending| == n
             && forall i :: 0 <= i < n ==> y.pending[i].camera == 0 && y.pending[i].n == i + 1
    ensures var y := Run(INITIAL, SixFrames(6) + GRADED_LATE[..n + 1], DEFAULT_CONFIG);
            && |Taken(y, 0)| == 6 && y.history == LATE_HISTORY[..n + 1] && |y.pending| == n + 1
            && forall i :: 0 <= i < n + 1 ==> y.pending[i].camera == 0 && y.pending[i].n == i + 1
  {
    hide Run, Advance;
    var before, e := SixFrames(6) + GRADED_LATE[..n], GRADED_LATE[n];
    var y := Run(INITIAL, before, DEFAULT_CONFIG);
    assert SixFrames(6) + GRADED_LATE[..n + 1] == before + [e];
    RunAppend(INITIAL, before, e, DEFAULT_CONFIG);
    LateUnderWay(y, n);
    GradeStep(y, e.frame, e.raw);
    assert LATE_HISTORY[..n + 1] == LATE_HISTORY[..n] + [LATE_HISTORY[n]];
    var next := Advance(y, e, DEFAULT_CONFIG);
    forall i | 0 <= i < n + 1 ensures next.pending[i].camera == 0 && next.pending[i].n == i + 1 {
      if i < n {
        assert next.pending[..n][i] == y.pending[i];
      }
    }
  }

  lemma LateUnderWay(y: System, n: nat)
    requires n < 6 && |Taken(y, 0)| == 6 && y.history == LATE_HISTORY[..n]
    ensures GRADED_LATE[n].Graded? && GRADED_LATE[n].camera == 0 && UnderWay(y, 0, GRADED_LATE[n].frame)
    ensures LATE_HISTORY[n] == Reading(0, GRADED_LATE[n].raw, 5, GRADED_LATE[n].frame)
    ensures forall r :: r in y.history ==> r.camera == 0
  {
    forall r | r in y.history ensures r.camera == 0 && r.frame != GRADED_LATE[n].frame {
      var i :| 0 <= i < n && LATE_HISTORY[i] == r;
    }
  }

  lemma {:induction false} OfOneCamera(history: seq<Reading>)
    requires forall r :: r in history ==> r.camera == 0
    ensures Of(history, 0) == history
  {
    if history != [] {
      OfOneCamera(history[..|history| - 1]);
      assert history[|history| - 1] in history;
    }
  }

  /**
   Without the order the evidence need not be frames accepted in a row: here a status with an alerting tier is on its
   way to the fusion state, although no five frames accepted in a row reach the limit.
   */
  lemma OvertakenEvidence()
    ensures var y := Run(INITIAL, SixFrames(6) + GRADED_LATE, DEFAULT_CONFIG);
            && (exists p :: p in y.pending && p.tier.Rank() >= 2 && p.status == Blocked)
            && forall f: nat :: !RowReaches(y, 0, f, DEFAULT_CONFIG)
  {
    var evs := SixFrames(6) + GRADED_LATE;
    var y := Run(INITIAL, evs, DEFAULT_CONFIG);
    LateGradings(6);
    assert GRADED_LATE[..6] == GRADED_LATE && LATE_HISTORY[..6] == LATE_HISTORY;
    InvariantHolds(INITIAL, evs, DEFAULT_CONFIG, 0);
    hide Run;
    LateTier(y.pending[4], y.history);
    assert y.pending[4] in y.pending;
    forall f: nat ensures !RowReaches(y, 0, f, DEFAULT_CONFIG) {
      LateRows(y, f);
    }
  }

  lemma LateTier(p: Produced, history: seq<Reading>)
    requires history == LATE_HISTORY && p.camera == 0 && p.n == 5 && Sound(p, history, Confidence.DEFAULTS)
    ensures p.tier.Rank() >= 2 && p.status == Blocked
  {
    hide Of, Statuses, Weighted, TierOf;
    OfOneCamera(history);
    LateItems();
    LateSum(Partial, Partial, Blocked, Partial, Partial);
    AlertingTierMeansEvidence([Partial, Partial, Blocked, Partial, Partial], Confidence.DEFAULTS);
  }

  lemma LateItems()
    ensures Statuses(LATE_HISTORY[..5]) == [Partial, Partial, Blocked, Partial, Partial]
  {
    var own := LATE_HISTORY[..5];
    assert own == [LATE_HISTORY[0], LATE_HISTORY[1], LATE_HISTORY[2], LATE_HISTORY[3], LATE_HISTORY[4]];
  }

  lemma LateSum(a: Status, b: Status, c: Status, d: Status, e: Status)
    ensures Weighted([a, b, c, d, e], 0.5) == Weight(a, 0.5) + Weight(b, 0.5) + Weight(c, 0.5) + Weight(d, 0.5) + Weight(e, 0.5)
  {
    assert Weighted([], 0.5) == 0.0;
    hide Weighted, Weight;
    WeightedAppend([], a, 0.5);
    assert [] + [a] == [a];
    WeightedAppend([a], b, 0.5);
    assert [a] + [b] == [a, b];
    WeightedAppend([a, b], c, 0.5);
    assert [a, b] + [c] == [a, b, c];
    WeightedAppend([a, b, c], d, 0.5);
    assert [a, b, c] + [d] == [a, b, c, d];
    WeightedAppend([a, b, c, d], e, 0.5);
    assert [a, b, c, d] + [e] == [a, b, c, d, e];
  }

  lemma LateStatus(y: System, frame: nat, s: Status)
    requires y.history == LATE_HISTORY && GradedAs(y, 0, frame, s)
    ensures frame < 6 && Weight(s, 0.5) == if frame == 2 then 0.0 else if frame == 3 then 1.0 else 0.5
  {
    var r :| r in LATE_HISTORY && r.frame == frame && r.status == s;
    var i :| 0 <= i < 6 && LATE_HISTORY[i] == r;
  }

  lemma LateRowSum(y: System, f: nat, row: seq<Status>)
    requires y.history == LATE_HISTORY && |row| == 5 && forall i: nat :: i < |row| ==> GradedAs(y, 0, f + i, row[i])
    ensures Weighted(row, 0.5) == 2.5
  {
    hide GradedAs, Weighted, Weight;
    LateSum(row[0], row[1], row[2], row[3], row[4]);
    assert row == [row[0], row[1], row[2], row[3], row[4]];
    LateStatus(y, f, row[0]);
    LateStatus(y, f + 1, row[1]);
    LateStatus(y, f + 2, row[2]);
    LateStatus(y, f + 3, row[3]);
    LateStatus(y, f + 4, row[4]);
  }

  lemma LateRows(y: System, f: nat)
    requires y.history == LATE_HISTORY
    ensures !RowReaches(y, 0, f, DEFAULT_CONFIG)
  {
    hide GradedAs, Weighted;
    forall row: seq<Status> | |row| == 5 && forall i: nat :: i < |row| ==> GradedAs(y, 0, f + i, row[i])
      ensures Weighted(row, 0.5) < Min(Confidence.DEFAULTS.likely, Confidence.DEFAULTS.confirmed) * |row| as real
    {
      LateRowSum(y, f, row);
    }
  }

  // ---------------------------------------------------------------- the frame handler

  /** The objects hold what the system state says. */
  ghost predicate Holds(y: System, ml: MlService.MLService, fs: FusionAnalysisState)
    reads ml, fs, fs.Objects(fs.blockage)
  {
    ml.ThrottleState() == y.throttle && ml.windows == y.windows && fs.View() == y.fusion
  }

  /** A frame and, if it is accepted, its grading and the delivery of what that produced. */
  ghost function Handled(y: System, call: Throttle.Call, raw: Status, th: Thresholds, env: Env, cfg: Config): System {
    var framed := Advance(y, Frame(call), cfg);
    if !Throttle.Accepts(y.throttle, call, cfg.intervals) then framed
    else
      var graded := Advance(framed, Graded(call.camera, |Taken(y, call.camera)|, raw), cfg);
      Advance(graded, Deliver(|y.pending|, th, env), cfg)
  }

  lemma NewFrameUnderWay(y: System, call: Throttle.Call, cfg: Config)
    requires ReadingsInvariant(y, call.camera) && Throttle.Accepts(y.throttle, call, cfg.intervals)
    ensures UnderWay(OnFrame(y, call, cfg), call.camera, |Taken(y, call.camera)|)
  {
    hide Throttle.Step, Throttle.Accepts;
    var own := Of(y.history, call.camera);
    forall r | r in y.history && r.camera == call.camera ensures r.frame < |Taken(y, call.camera)| {
      OfAll(y.history, r);
      var i :| 0 <= i < |own| && own[i] == r;
      assert FramesOf(own)[i] in FramesOf(own);
    }
  }

  lemma {:induction false} OfAll(history: seq<Reading>, r: Reading)
    requires r in history
    ensures r in Of(history, r.camera)
  {
    var n := |history| - 1;
    if r != history[n] {
      OfAll(history[..n], r);
    }
  }

  lemma HandledFields(y: System, call: Throttle.Call, raw: Status, th: Thresholds, env: Env, cfg: Config)
    requires ReadingsInvariant(y, call.camera)
    ensures var next := Handled(y, call, raw, th, env, cfg);
            && next.throttle == Throttle.Step(y.throttle, call, cfg.intervals)
            && (!Throttle.Accepts(y.throttle, call, cfg.intervals) ==> next.windows == y.windows && next.fusion == y.fusion)
            && (Throttle.Accepts(y.throttle, call, cfg.intervals) ==>
                 && next.windows == PushReading(y.windows, call.camera, cfg.settings.K(), raw)
                 && var tier := TierOf(next.windows[call.camera].items, cfg.settings);
                    var update := Camera(Blockage(StatusFromTier(tier), Some(tier)));
                    next.fusion == AlertRuns.Step(y.fusion, AlertRuns.Event(update, th, env), cfg.recommend))
  {
    hide TierOf, Pushed, Throttle.Step, Throttle.Accepts, AlertRuns.Step, Of, UnderWay, ReadingsInvariant;
    if Throttle.Accepts(y.throttle, call, cfg.intervals) {
      NewFrameUnderWay(y, call, cfg);
    }
  }

  /**
   After a step that delivers a freshly graded status, status and tier still fit together exactly if the step
   flags no blind camera.
   */
  lemma DowngradeShows(s: State, tier: Tier, th: Thresholds, env: Env, rs: RecommendSettings)
    ensures var next := AlertRuns.Step(s, AlertRuns.Event(Camera(Blockage(StatusFromTier(tier), Some(tier))), th, env), rs);
            && HasTier(next) && next.blockage.value.status == StatusFromTier(tier)
            && (StatusFromTier(tier) == StatusFromTier(TierIn(next)) <==> BlindCamera !in next.fusion.anomalies)
  {
    var mid := Recalculated(s, Camera(Blockage(StatusFromTier(tier), Some(tier))), th);
    AnomaliesExact(InputsOf(mid));
  }

  /**
   `process_frame_bytes` for one location, with the inference result given and no other event in between: the
   objects go from one system state to the next. The response, the fusion state and the engine share one confidence object, so what the handler
   returns shows the tier after the downgrade beside the status from before it: the two disagree exactly when the
   step flags a blind camera.
   */
  method ProcessFrame(ml: MlService.MLService, fs: FusionAnalysisState, camera: int, mono: real, wall: real,
                      raw: Status, percentage: real, cfg: Config, th: Thresholds, env: Env, ghost y: System)
    returns (response: Option<BlockageRef>)
    requires Holds(y, ml, fs) && ReadingsInvariant(y, camera)
    modifies ml, fs
    ensures var call := Throttle.Call(camera, Some(old(fs.fusion.alert)), mono, wall);
            && Holds(Handled(y, call, raw, th, env, cfg), ml, fs)
            && (response.Some? <==> Throttle.Accepts(y.throttle, call, cfg.intervals))
    ensures response.Some? ==>
              && fs.blockage == response && response.value.confidence != null
              && camera in ml.windows
              && response.value.status == StatusFromTier(TierOf(ml.windows[camera].items, cfg.settings))
              && HasTier(fs.View()) && response.value.confidence.tier == TierIn(fs.View())
    ensures response.Some? ==>
              (response.value.status == StatusFromTier(response.value.confidence.tier)
               <==> BlindCamera !in fs.fusion.anomalies)
  {
    hide TierOf, Pushed, Throttle.Step, Throttle.Accepts, AlertState.Notified, AlertState.Recalculated, Advance;
    var call := Throttle.Call(camera, Some(fs.fusion.alert), mono, wall);
    HandledFields(y, call, raw, th, env, cfg);
    var accepted := ml.AdmitFrame(call, cfg.intervals);
    if !accepted {
      return None;
    }
    var graded := ml.ComputeConfidence(camera, raw, percentage, cfg.settings);
    var confidence := new ObstructionConfidence(graded.tier);
    var b := BlockageRef(StatusFromTier(graded.tier), confidence);
    DowngradeShows(fs.View(), graded.tier, th, env, cfg.recommend);
    var _ := fs.CalculateVisualStatusScore(Some(b), th, env, cfg.recommend);
    return Some(b);
  }
}
