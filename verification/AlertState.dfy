/**
 The per-location alert state: fusion inputs, cooldown timers, the sticky blind-camera downgrade and the
 evacuation recommendation. One event is one update followed by one notify step; steps do not overlap.
 */
module AlertState {
  import opened Common
  import opened Coverage
  import opened Confidence
  import opened FusionScoring

  const WARNING_COOLDOWN := 1800.0
  const CRITICAL_COOLDOWN := 1800.0
  const BLOCKAGE_COOLDOWN := 14400.0

  /** What became of a template send: delivered, nothing to send or nobody to send to, or an exception. */
  datatype Outcome = Sent | NotSent | Raised

  datatype Kind = WarningNote | CriticalNote | BlockageNote

  /** The clock readings and outcomes one notify step gets from outside. */
  datatype Env = Env(alertAt: real, alertSend: Outcome, blockageAt: real, blockageSend: Outcome,
                     recommendAt: real, emitOk: bool)

  datatype RecommendSettings = RecommendSettings(minScore: int, cooldown: real)

  const RECOMMEND_DEFAULTS := RecommendSettings(RECOMMEND_MIN_SCORE, 900.0)

  /** `tier` is absent for a status loaded from the database at start-up. */
  datatype Blockage = Blockage(status: Status, tier: Option<Tier>)

  datatype State = State(
    blockage: Option<Blockage>, water: Option<Water>, weather: Option<Weather>, fusion: FusionData,
    lastWarning: real, lastCritical: real, lastBlockage: real, lastRecommendation: real, active: bool)

  const INITIAL :=
    State(None, None, None, FusionData(Normal, 0, []), 0.0, 0.0, 0.0, 0.0, false)

  datatype Update = Camera(b: Blockage) | Level(w: Water) | Rain(r: Weather) | Refresh

  /** Which notifications a step sends out. */
  datatype Effects = Effects(warning: bool, critical: bool, blockage: bool, recommended: bool)

  // ---------------------------------------------------------------- one step

  function InputsOf(s: State): Inputs {
    Inputs(if s.blockage.Some? then Some(s.blockage.value.status) else None, s.water, s.weather)
  }

  function Applied(s: State, u: Update): State {
    match u
    case Camera(b) => s.(blockage := Some(b))
    case Level(w) => s.(water := Some(w))
    case Rain(r) => s.(weather := Some(r))
    case Refresh => s
  }

  function Recalculated(s: State, u: Update, th: Thresholds): State {
    var t := Applied(s, u);
    t.(fusion := Fusion(InputsOf(t), th))
  }

  predicate HasTier(s: State) { s.blockage.Some? && s.blockage.value.tier.Some? }

  function TierIn(s: State): Tier requires HasTier(s) { s.blockage.value.tier.value }

  /** `_apply_blind_camera_downgrade`. */
  function Downgraded(s: State): State {
    if HasTier(s) && BlindCamera in s.fusion.anomalies && TierIn(s).Rank() >= 2
    then s.(blockage := Some(s.blockage.value.(tier := Some(Possible))))
    else s
  }

  predicate ShouldNotifyObstruction(s: State) {
    if HasTier(s) then TierIn(s).Rank() >= 2 else s.blockage.Some? && s.blockage.value.status == Blocked
  }

  function Cooldown(k: Kind): real {
    match k case WarningNote => WARNING_COOLDOWN case CriticalNote => CRITICAL_COOLDOWN case BlockageNote => BLOCKAGE_COOLDOWN
  }

  function Last(s: State, k: Kind): real {
    match k case WarningNote => s.lastWarning case CriticalNote => s.lastCritical case BlockageNote => s.lastBlockage
  }

  function At(env: Env, k: Kind): real { if k.BlockageNote? then env.blockageAt else env.alertAt }

  function SendOf(env: Env, k: Kind): Outcome { if k.BlockageNote? then env.blockageSend else env.alertSend }

  /** Whether a step that starts from the recalculated state `s` wants to send a note of this kind. */
  predicate Wants(s: State, k: Kind) {
    match k
    case WarningNote => s.fusion.alert == Warning
    case CriticalNote => s.fusion.alert == Critical
    case BlockageNote => ShouldNotifyObstruction(Downgraded(s))
  }

  predicate Sends(s: State, env: Env, k: Kind) {
    Wants(s, k) && At(env, k) - Last(s, k) >= Cooldown(k) && SendOf(env, k) == Sent
  }

  predicate Recommends(s: State, env: Env, rs: RecommendSettings) {
    && s.fusion.score >= rs.minScore
    && (s.active ==> env.recommendAt - s.lastRecommendation >= rs.cooldown)
    && env.emitOk
  }

  function AlertNotified(s: State, env: Env): State {
    s.(lastWarning := if Sends(s, env, WarningNote) then env.alertAt else s.lastWarning,
       lastCritical := if Sends(s, env, CriticalNote) then env.alertAt else s.lastCritical)
  }

  function ObstructionNotified(s: State, env: Env): State {
    Downgraded(s).(lastBlockage := if Sends(s, env, BlockageNote) then env.blockageAt else s.lastBlockage)
  }

  function RecommendationChecked(s: State, env: Env, rs: RecommendSettings): State {
    var rec := Recommends(s, env, rs);
    s.(lastRecommendation := if rec then env.recommendAt else s.lastRecommendation,
       active := if s.fusion.score < rs.minScore then false else s.active || rec)
  }

  /** `_broadcast_and_notify`. */
  function Notified(s: State, env: Env, rs: RecommendSettings): State {
    RecommendationChecked(ObstructionNotified(AlertNotified(s, env), env), env, rs)
  }

  function EffectsOf(s: State, env: Env, rs: RecommendSettings): Effects {
    Effects(Sends(s, env, WarningNote), Sends(s, env, CriticalNote), Sends(s, env, BlockageNote), Recommends(s, env, rs))
  }

  // ---------------------------------------------------------------- the object

  /** Shared by reference: the camera service, its response and the fusion state all hold the same one. */
  class ObstructionConfidence {
    var tier: Tier

    constructor (tier: Tier)
      ensures this.tier == tier
    {
      this.tier := tier;
    }
  }

  datatype BlockageRef = BlockageRef(status: Status, confidence: ObstructionConfidence?)

  class FusionAnalysisState {
    var blockage: Option<BlockageRef>
    var water: Option<Water>
    var weather: Option<Weather>
    var fusion: FusionData
    var lastWarning: real
    var lastCritical: real
    var lastBlockage: real
    var lastRecommendation: real
    var active: bool

    constructor ()
      ensures View() == INITIAL
    {
      blockage, water, weather := None, None, None;
      fusion := FusionData(Normal, 0, []);
      lastWarning, lastCritical, lastBlockage, lastRecommendation := 0.0, 0.0, 0.0, 0.0;
      active := false;
    }

    static function Objects(b: Option<BlockageRef>): set<ObstructionConfidence> {
      if b.Some? && b.value.confidence != null then {b.value.confidence} else {}
    }

    static function ViewOf(b: BlockageRef): Blockage
      reads Objects(Some(b))
    {
      Blockage(b.status, if b.confidence == null then None else Some(b.confidence.tier))
    }

    function View(): State
      reads this, Objects(blockage)
    {
      State(if blockage.Some? then Some(ViewOf(blockage.value)) else None, water, weather, fusion,
            lastWarning, lastCritical, lastBlockage, lastRecommendation, active)
    }

    method CalculateVisualStatusScore(b: Option<BlockageRef>, th: Thresholds, env: Env, rs: RecommendSettings)
      returns (fx: Effects)
      modifies this, if b.Some? then Objects(b) else Objects(blockage)
      ensures var u := if b.Some? then Camera(old(ViewOf(b.value))) else Refresh;
              var mid := Recalculated(old(View()), u, th);
              View() == Notified(mid, env, rs) && fx == EffectsOf(mid, env, rs)
      ensures blockage == if b.Some? then b else old(blockage)
    {
      if b.Some? {
        blockage := b;
      }
      RecalculateFusionData(th);
      fx := BroadcastAndNotify(env, rs);
    }

    method CalculateWaterLevelScore(w: Option<Water>, th: Thresholds, env: Env, rs: RecommendSettings)
      returns (fx: Effects)
      modifies this, Objects(blockage)
      ensures var u := if w.Some? then Level(w.value) else Refresh;
              var mid := Recalculated(old(View()), u, th);
              View() == Notified(mid, env, rs) && fx == EffectsOf(mid, env, rs)
    {
      if w.Some? {
        water := w;
      }
      RecalculateFusionData(th);
      fx := BroadcastAndNotify(env, rs);
    }

    method CalculateWeatherScore(r: Option<Weather>, th: Thresholds, env: Env, rs: RecommendSettings)
      returns (fx: Effects)
      modifies this, Objects(blockage)
      ensures var u := if r.Some? then Rain(r.value) else Refresh;
              var mid := Recalculated(old(View()), u, th);
              View() == Notified(mid, env, rs) && fx == EffectsOf(mid, env, rs)
    {
      if r.Some? {
        weather := r;
      }
      RecalculateFusionData(th);
      fx := BroadcastAndNotify(env, rs);
    }

    method RecalculateFusionData(th: Thresholds)
      modifies this`fusion
      ensures View() == Recalculated(old(View()), Refresh, th)
    {
      fusion := FusionScoring.CalculateFusionData(InputsOf(View()), th);
    }

    method BroadcastAndNotify(env: Env, rs: RecommendSettings) returns (fx: Effects)
      modifies this, Objects(blockage)
      ensures View() == Notified(old(View()), env, rs) && fx == old(EffectsOf(View(), env, rs))
      ensures blockage == old(blockage)
    {
      var warned, critical := NotifyAlertLevel(env);
      var blocked := NotifyObstruction(env);
      var recommended := MaybeEmitEvacuationRecommendation(env, rs);
      fx := Effects(warned, critical, blocked, recommended);
    }

    method NotifyAlertLevel(env: Env) returns (warned: bool, critical: bool)
      modifies this`lastWarning, this`lastCritical, this`lastBlockage
      ensures View() == AlertNotified(old(View()), env)
      ensures warned == old(Sends(View(), env, WarningNote)) && critical == old(Sends(View(), env, CriticalNote))
    {
      warned, critical := false, false;
      if fusion.alert == Critical {
        critical := AutoNotify(CriticalNote, env.alertAt, env.alertSend);
      } else if fusion.alert == Warning {
        warned := AutoNotify(WarningNote, env.alertAt, env.alertSend);
      }
    }

    method NotifyObstruction(env: Env) returns (blocked: bool)
      modifies this`lastWarning, this`lastCritical, this`lastBlockage, Objects(blockage)
      ensures View() == ObstructionNotified(old(View()), env) && blocked == old(Sends(View(), env, BlockageNote))
    {
      blocked := false;
      ApplyBlindCameraDowngrade();
      if ShouldNotifyObstruction(View()) {
        blocked := AutoNotify(BlockageNote, env.blockageAt, env.blockageSend);
      }
    }

    /** The three `_auto_notify_*` methods differ only in their timer and cooldown. */
    method AutoNotify(k: Kind, now: real, send: Outcome) returns (sent: bool)
      modifies this`lastWarning, this`lastCritical, this`lastBlockage
      ensures sent == (now - Last(old(View()), k) >= Cooldown(k) && send == Sent)
      ensures lastWarning == if sent && k == WarningNote then now else old(lastWarning)
      ensures lastCritical == if sent && k == CriticalNote then now else old(lastCritical)
      ensures lastBlockage == if sent && k == BlockageNote then now else old(lastBlockage)
    {
      if now - Last(View(), k) < Cooldown(k) {
        return false;
      }
      if send != Sent {
        return false;
      }
      match k {
        case WarningNote => lastWarning := now;
        case CriticalNote => lastCritical := now;
        case BlockageNote => lastBlockage := now;
      }
      return true;
    }

    method ApplyBlindCameraDowngrade()
      modifies Objects(blockage)
      ensures View() == Downgraded(old(View()))
    {
      if blockage.None? || blockage.value.confidence == null {
        return;
      }
      var confidence := blockage.value.confidence;
      if BlindCamera in fusion.anomalies && confidence.tier.Rank() >= 2 {
        confidence.tier := Possible;
      }
    }

    method MaybeEmitEvacuationRecommendation(env: Env, rs: RecommendSettings) returns (emitted: bool)
      modifies this`lastRecommendation, this`active
      ensures View() == RecommendationChecked(old(View()), env, rs) && emitted == old(Recommends(View(), env, rs))
    {
      if fusion.score < rs.minScore {
        active := false;
        return false;
      }
      if active && env.recommendAt - lastRecommendation < rs.cooldown {
        return false;
      }
      if !env.emitOk {
        return false;
      }
      lastRecommendation := env.recommendAt;
      active := true;
      return true;
    }
  }
}
