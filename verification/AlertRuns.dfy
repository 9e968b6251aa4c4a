/** What holds over every run of non-overlapping update-and-notify steps of one location. */
module AlertRuns {
  import opened Common
  import opened Coverage
  import opened Confidence
  import opened FusionScoring
  import opened AlertState

  datatype Event = Event(update: Update, th: Thresholds, env: Env)

  function Step(s: State, e: Event, rs: RecommendSettings): State {
    Notified(Recalculated(s, e.update, e.th), e.env, rs)
  }

  /** The state after the first `n` events. */
  ghost function After(s0: State, evs: seq<Event>, n: nat, rs: RecommendSettings): State
    requires n <= |evs|
  {
    if n == 0 then s0 else Step(After(s0, evs, n - 1, rs), evs[n - 1], rs)
  }

  /** The recalculated state from which event `i` notifies. */
  ghost function Mid(s0: State, evs: seq<Event>, i: nat, rs: RecommendSettings): State
    requires i < |evs|
  {
    Recalculated(After(s0, evs, i, rs), evs[i].update, evs[i].th)
  }

  ghost predicate SendsAt(s0: State, evs: seq<Event>, i: nat, rs: RecommendSettings, k: Kind)
    requires i < |evs|
  {
    Sends(Mid(s0, evs, i, rs), evs[i].env, k)
  }

  ghost predicate RecommendsAt(s0: State, evs: seq<Event>, i: nat, rs: RecommendSettings)
    requires i < |evs|
  {
    Recommends(Mid(s0, evs, i, rs), evs[i].env, rs)
  }

  // ---------------------------------------------------------------- cooldowns

  /** A timer moves only on a delivered send, to that send's time, and then by a cooldown at least. */
  lemma TimerStep(s: State, e: Event, rs: RecommendSettings, k: Kind)
    ensures var mid := Recalculated(s, e.update, e.th);
            && Last(Step(s, e, rs), k) == (if Sends(mid, e.env, k) then At(e.env, k) else Last(s, k))
            && (Sends(mid, e.env, k) ==> At(e.env, k) >= Last(s, k) + Cooldown(k) && SendOf(e.env, k) == Sent)
  {
    hide FusionScoring.Fusion;
  }

  lemma {:induction false} TimerNeverGoesBack(s0: State, evs: seq<Event>, i: nat, j: nat, rs: RecommendSettings, k: Kind)
    requires i <= j <= |evs|
    ensures Last(After(s0, evs, i, rs), k) <= Last(After(s0, evs, j, rs), k)
    decreases j
  {
    hide FusionScoring.Fusion, AlertState.Notified, AlertState.Recalculated, AlertState.Sends;
    if i < j {
      TimerNeverGoesBack(s0, evs, i, j - 1, rs, k);
      TimerStep(After(s0, evs, j - 1, rs), evs[j - 1], rs, k);
    }
  }

  /** Two delivered notes of the same kind are at least that kind's cooldown apart, whatever the clock does in between. */
  lemma SendsSpaced(s0: State, evs: seq<Event>, i: nat, j: nat, rs: RecommendSettings, k: Kind)
    requires i < j < |evs| && SendsAt(s0, evs, i, rs, k) && SendsAt(s0, evs, j, rs, k)
    ensures At(evs[j].env, k) - At(evs[i].env, k) >= Cooldown(k)
  {
    hide FusionScoring.Fusion, AlertState.Notified, AlertState.Recalculated, AlertState.Sends;
    TimerStep(After(s0, evs, i, rs), evs[i], rs, k);
    TimerNeverGoesBack(s0, evs, i + 1, j, rs, k);
    TimerStep(After(s0, evs, j, rs), evs[j], rs, k);
  }

  /** In numbers: four hours between two obstruction notes, half an hour between two warnings or two critical notes. */
  lemma NotesApart(s0: State, evs: seq<Event>, i: nat, j: nat, rs: RecommendSettings)
    requires i < j < |evs|
    ensures SendsAt(s0, evs, i, rs, BlockageNote) && SendsAt(s0, evs, j, rs, BlockageNote) ==>
              evs[j].env.blockageAt - evs[i].env.blockageAt >= 4.0 * 3600.0
    ensures SendsAt(s0, evs, i, rs, WarningNote) && SendsAt(s0, evs, j, rs, WarningNote) ==>
              evs[j].env.alertAt - evs[i].env.alertAt >= 0.5 * 3600.0
    ensures SendsAt(s0, evs, i, rs, CriticalNote) && SendsAt(s0, evs, j, rs, CriticalNote) ==>
              evs[j].env.alertAt - evs[i].env.alertAt >= 0.5 * 3600.0
  {
    hide SendsAt;
    forall k: Kind | SendsAt(s0, evs, i, rs, k) && SendsAt(s0, evs, j, rs, k)
      ensures At(evs[j].env, k) - At(evs[i].env, k) >= Cooldown(k)
    {
      SendsSpaced(s0, evs, i, j, rs, k);
    }
  }

  /** A send that fails or raises leaves the timer where it was. */
  lemma FailedSendKeepsTimer(s0: State, evs: seq<Event>, i: nat, rs: RecommendSettings, k: Kind)
    requires i < |evs| && SendOf(evs[i].env, k) != Sent
    ensures Last(After(s0, evs, i + 1, rs), k) == Last(After(s0, evs, i, rs), k)
  {
    hide FusionScoring.Fusion, AlertState.Notified, AlertState.Recalculated, AlertState.Sends;
    TimerStep(After(s0, evs, i, rs), evs[i], rs, k);
  }

  /** The timers start at zero, so nothing is sent while the monotonic clock is below the cooldown. */
  lemma NothingSentEarly(evs: seq<Event>, i: nat, rs: RecommendSettings, k: Kind)
    requires i < |evs| && SendsAt(INITIAL, evs, i, rs, k)
    ensures At(evs[i].env, k) >= Cooldown(k)
  {
    hide FusionScoring.Fusion, AlertState.Notified, AlertState.Recalculated, AlertState.Sends;
    TimerNeverGoesBack(INITIAL, evs, 0, i, rs, k);
    TimerStep(After(INITIAL, evs, i, rs), evs[i], rs, k);
  }

  /** At time `t` a cooldown has passed since the clock's zero and since every delivered note of this kind before `n`. */
  ghost predicate Waited(evs: seq<Event>, n: nat, rs: RecommendSettings, k: Kind, t: real)
    requires n <= |evs|
  {
    t >= Cooldown(k) && forall i :: 0 <= i < n && SendsAt(INITIAL, evs, i, rs, k) ==> t - At(evs[i].env, k) >= Cooldown(k)
  }

  lemma {:induction false} TimerIsHistory(evs: seq<Event>, n: nat, rs: RecommendSettings, k: Kind, t: real)
    requires n <= |evs|
    ensures t - Last(After(INITIAL, evs, n, rs), k) >= Cooldown(k) <==> Waited(evs, n, rs, k, t)
  {
    hide FusionScoring.Fusion, AlertState.Notified, AlertState.Recalculated, AlertState.Sends;
    if n > 0 {
      TimerIsHistory(evs, n - 1, rs, k, t);
      TimerStep(After(INITIAL, evs, n - 1, rs), evs[n - 1], rs, k);
    }
  }

  /**
   The timers refine the history: from the initial state a note goes out exactly when it is wanted, the send is
   delivered, and a cooldown has passed since the clock's zero and since every earlier note of its kind.
   */
  lemma SendRefinesHistory(evs: seq<Event>, j: nat, rs: RecommendSettings, k: Kind)
    requires j < |evs|
    ensures SendsAt(INITIAL, evs, j, rs, k) <==>
              && Wants(Mid(INITIAL, evs, j, rs), k) && SendOf(evs[j].env, k) == Sent
              && At(evs[j].env, k) >= Cooldown(k)
              && forall i :: 0 <= i < j && SendsAt(INITIAL, evs, i, rs, k) ==>
                   At(evs[j].env, k) - At(evs[i].env, k) >= Cooldown(k)
  {
    hide FusionScoring.Fusion, AlertState.Notified, AlertState.Wants;
    TimerIsHistory(evs, j, rs, k, At(evs[j].env, k));
  }

  // ---------------------------------------------------------------- what a step scores

  ghost function NewestStatus(evs: seq<Event>, n: nat): Option<Status>
    requires n <= |evs|
  {
    if n == 0 then None
    else if evs[n - 1].update.Camera? then Some(evs[n - 1].update.b.status) else NewestStatus(evs, n - 1)
  }

  ghost function NewestLevel(evs: seq<Event>, n: nat): Option<Water>
    requires n <= |evs|
  {
    if n == 0 then None else if evs[n - 1].update.Level? then Some(evs[n - 1].update.w) else NewestLevel(evs, n - 1)
  }

  ghost function NewestRain(evs: seq<Event>, n: nat): Option<Weather>
    requires n <= |evs|
  {
    if n == 0 then None else if evs[n - 1].update.Rain? then Some(evs[n - 1].update.r) else NewestRain(evs, n - 1)
  }

  ghost function NewestInputs(evs: seq<Event>, n: nat): Inputs
    requires n <= |evs|
  {
    Inputs(NewestStatus(evs, n), NewestLevel(evs, n), NewestRain(evs, n))
  }

  lemma InputsStep(s: State, e: Event, rs: RecommendSettings)
    ensures var mid, next := Recalculated(s, e.update, e.th), Step(s, e, rs);
            && InputsOf(next) == InputsOf(mid) && mid.fusion == Fusion(InputsOf(mid), e.th)
            && InputsOf(mid) == match e.update
                                case Camera(b) => InputsOf(s).(blockage := Some(b.status))
                                case Level(w) => InputsOf(s).(water := Some(w))
                                case Rain(r) => InputsOf(s).(weather := Some(r))
                                case Refresh => InputsOf(s)
  {
    hide FusionScoring.Fusion;
  }

  lemma {:induction false} InputsAreNewest(evs: seq<Event>, n: nat, rs: RecommendSettings)
    requires n <= |evs|
    ensures InputsOf(After(INITIAL, evs, n, rs)) == NewestInputs(evs, n)
  {
    hide Step;
    if n > 0 {
      InputsAreNewest(evs, n - 1, rs);
      InputsStep(After(INITIAL, evs, n - 1, rs), evs[n - 1], rs);
    }
  }

  /** Whatever was sent, downgraded or recommended before, a step scores the newest reading of each source. */
  lemma StepScoresNewest(evs: seq<Event>, i: nat, rs: RecommendSettings)
    requires i < |evs|
    ensures Mid(INITIAL, evs, i, rs).fusion == Fusion(NewestInputs(evs, i + 1), evs[i].th)
    ensures InputsOf(Mid(INITIAL, evs, i, rs)) == NewestInputs(evs, i + 1)
  {
    hide Step, AlertState.Recalculated, FusionScoring.Fusion;
    InputsAreNewest(evs, i, rs);
    InputsStep(After(INITIAL, evs, i, rs), evs[i], rs);
  }

  lemma {:induction false} AnySource(evs: seq<Event>, n: nat)
    requires n <= |evs|
    ensures AllUnavailable(NewestInputs(evs, n)) <==> forall m :: 0 <= m < n ==> evs[m].update.Refresh?
  {
    if n > 0 {
      AnySource(evs, n - 1);
    }
  }

  /**
   A warning is wanted exactly while the newest readings score inside the second tier, a critical note exactly while
   they score in the third and not in the second, and neither before the first reading of any source.
   */
  lemma NotesByTier(evs: seq<Event>, i: nat, rs: RecommendSettings)
    requires i < |evs|
    ensures var mid, th, score := Mid(INITIAL, evs, i, rs), evs[i].th, Score(NewestInputs(evs, i + 1));
            var second := th.tier2Min <= score <= th.tier2Max;
            var some := exists m :: 0 <= m <= i && !evs[m].update.Refresh?;
            && mid.fusion.score == score
            && (Wants(mid, WarningNote) <==> some && second)
            && (Wants(mid, CriticalNote) <==> some && score >= th.tier3Min && !second)
  {
    StepScoresNewest(evs, i, rs);
    AnySource(evs, i + 1);
    hide Mid, NewestInputs, FusionScoring.Score;
    AlertByTier(NewestInputs(evs, i + 1), evs[i].th);
  }

  // ---------------------------------------------------------------- recommendations

  lemma RecommendationStep(s: State, e: Event, rs: RecommendSettings)
    ensures var mid, next := Recalculated(s, e.update, e.th), Step(s, e, rs);
            && (mid.fusion.score < rs.minScore ==> !next.active && next.lastRecommendation == s.lastRecommendation)
            && (mid.fusion.score >= rs.minScore ==>
                 if Recommends(mid, e.env, rs)
                 then next.active && next.lastRecommendation == e.env.recommendAt
                      && (s.active ==> e.env.recommendAt >= s.lastRecommendation + rs.cooldown)
                 else next.active == s.active && next.lastRecommendation == s.lastRecommendation)
  {
    hide FusionScoring.Fusion;
  }

  lemma RecommendationGuard(s: State, e: Event, rs: RecommendSettings)
    ensures var mid := Recalculated(s, e.update, e.th);
            Recommends(mid, e.env, rs) <==>
              && mid.fusion.score >= rs.minScore && e.env.emitOk
              && (s.active ==> e.env.recommendAt - s.lastRecommendation >= rs.cooldown)
  {
    hide FusionScoring.Fusion;
  }

  ghost predicate LowBetween(s0: State, evs: seq<Event>, i: nat, j: nat, rs: RecommendSettings)
    requires j <= |evs|
  {
    exists m: nat :: i < m < j && Mid(s0, evs, m, rs).fusion.score < rs.minScore
  }

  lemma {:induction false} StaysActive(s0: State, evs: seq<Event>, i: nat, j: nat, rs: RecommendSettings)
    requires i < j <= |evs| && rs.cooldown >= 0.0
    requires RecommendsAt(s0, evs, i, rs) && !LowBetween(s0, evs, i, j, rs)
    ensures After(s0, evs, j, rs).active && After(s0, evs, j, rs).lastRecommendation >= evs[i].env.recommendAt
    decreases j
  {
    hide FusionScoring.Fusion, AlertState.Notified, AlertState.Recalculated;
    RecommendationStep(After(s0, evs, j - 1, rs), evs[j - 1], rs);
    if i < j - 1 {
      assert Mid(s0, evs, j - 1, rs).fusion.score >= rs.minScore;
      StaysActive(s0, evs, i, j - 1, rs);
    }
  }

  /** Two recommendations are a cooldown apart unless the score fell below the limit in between. */
  lemma RecommendationsSpaced(s0: State, evs: seq<Event>, i: nat, j: nat, rs: RecommendSettings)
    requires i < j < |evs| && rs.cooldown >= 0.0
    requires RecommendsAt(s0, evs, i, rs) && RecommendsAt(s0, evs, j, rs)
    ensures evs[j].env.recommendAt - evs[i].env.recommendAt >= rs.cooldown || LowBetween(s0, evs, i, j, rs)
  {
    hide FusionScoring.Fusion, AlertState.Notified, AlertState.Recalculated;
    if !LowBetween(s0, evs, i, j, rs) {
      StaysActive(s0, evs, i, j, rs);
      RecommendationStep(After(s0, evs, j, rs), evs[j], rs);
    }
  }

  ghost predicate NoneBetween(s0: State, evs: seq<Event>, i: int, j: nat, rs: RecommendSettings)
    requires j <= |evs|
  {
    forall m: nat :: i < m < j ==> !RecommendsAt(s0, evs, m, rs)
  }

  /** As long as none follows, the last recommendation's time stays, and it stays active until a low score. */
  lemma {:induction false} ActiveUntilLow(s0: State, evs: seq<Event>, i: nat, j: nat, rs: RecommendSettings)
    requires i < j <= |evs| && RecommendsAt(s0, evs, i, rs) && NoneBetween(s0, evs, i, j, rs)
    ensures After(s0, evs, j, rs).lastRecommendation == evs[i].env.recommendAt
    ensures After(s0, evs, j, rs).active <==> !LowBetween(s0, evs, i, j, rs)
    decreases j
  {
    hide FusionScoring.Fusion, AlertState.Notified, AlertState.Recalculated, AlertState.Recommends;
    var last := evs[j - 1];
    RecommendationStep(After(s0, evs, j - 1, rs), last, rs);
    RecommendationGuard(After(s0, evs, j - 1, rs), last, rs);
    if i < j - 1 {
      assert !RecommendsAt(s0, evs, j - 1, rs);
      ActiveUntilLow(s0, evs, i, j - 1, rs);
      LowUpTo(s0, evs, i, j - 1, rs);
    }
  }

  lemma LowUpTo(s0: State, evs: seq<Event>, i: nat, j: nat, rs: RecommendSettings)
    requires i < j < |evs|
    ensures LowBetween(s0, evs, i, j + 1, rs) <==>
              LowBetween(s0, evs, i, j, rs) || Mid(s0, evs, j, rs).fusion.score < rs.minScore
  {
    hide Mid;
  }

  /**
   The next recommendation after the one at `i`, exactly: the score reaches the limit, the send works, and a
   cooldown has passed or some step in between scored below the limit.
   */
  lemma RecommendationExact(s0: State, evs: seq<Event>, i: nat, j: nat, rs: RecommendSettings)
    requires i < j < |evs| && RecommendsAt(s0, evs, i, rs) && NoneBetween(s0, evs, i, j, rs)
    ensures RecommendsAt(s0, evs, j, rs) <==>
              && Mid(s0, evs, j, rs).fusion.score >= rs.minScore && evs[j].env.emitOk
              && (LowBetween(s0, evs, i, j, rs) || evs[j].env.recommendAt - evs[i].env.recommendAt >= rs.cooldown)
  {
    hide FusionScoring.Fusion, AlertState.Notified, AlertState.Recalculated, AlertState.Recommends, LowBetween;
    ActiveUntilLow(s0, evs, i, j, rs);
    RecommendationGuard(After(s0, evs, j, rs), evs[j], rs);
  }

  lemma {:induction false} InactiveUntilFirst(s0: State, evs: seq<Event>, j: nat, rs: RecommendSettings)
    requires j <= |evs| && !s0.active && NoneBetween(s0, evs, -1, j, rs)
    ensures !After(s0, evs, j, rs).active
  {
    hide FusionScoring.Fusion, AlertState.Notified, AlertState.Recalculated, AlertState.Recommends;
    if j > 0 {
      InactiveUntilFirst(s0, evs, j - 1, rs);
      assert !RecommendsAt(s0, evs, j - 1, rs);
      RecommendationStep(After(s0, evs, j - 1, rs), evs[j - 1], rs);
    }
  }

  /** The first recommendation waits for nothing but the score and the send. */
  lemma FirstRecommendation(s0: State, evs: seq<Event>, j: nat, rs: RecommendSettings)
    requires j < |evs| && !s0.active && NoneBetween(s0, evs, -1, j, rs)
    ensures RecommendsAt(s0, evs, j, rs) <==> Mid(s0, evs, j, rs).fusion.score >= rs.minScore && evs[j].env.emitOk
  {
    hide FusionScoring.Fusion, AlertState.Notified, AlertState.Recalculated, AlertState.Recommends;
    InactiveUntilFirst(s0, evs, j, rs);
    RecommendationGuard(After(s0, evs, j, rs), evs[j], rs);
  }

  /** In every run one low score re-arms the recommendation: the next one does not wait for the cooldown. */
  lemma DipRearmsRecommendation(s0: State, evs: seq<Event>, i: nat, j: nat, rs: RecommendSettings)
    requires i < j < |evs| && RecommendsAt(s0, evs, i, rs) && NoneBetween(s0, evs, i, j, rs)
    requires LowBetween(s0, evs, i, j, rs)
    ensures RecommendsAt(s0, evs, j, rs) <==> Mid(s0, evs, j, rs).fusion.score >= rs.minScore && evs[j].env.emitOk
  {
    hide FusionScoring.Fusion, AlertState.Notified, AlertState.Recalculated, AlertState.Recommends, LowBetween;
    RecommendationExact(s0, evs, i, j, rs);
  }

  /** Such a run: high, low, high at one and the same clock reading recommends twice. */
  lemma DipExample(t: real)
    ensures var rs := RECOMMEND_DEFAULTS;
            var env := Env(t, NotSent, t, NotSent, t, true);
            var s0 := INITIAL.(blockage := Some(Blockage(Blocked, None)), weather := Some(Weather(8.0)));
            var high := Event(Level(Water(95.0, 1.0, Stable)), SEEDED, env);
            var low := Event(Level(Water(10.0, 1.0, Stable)), SEEDED, env);
            RecommendsAt(s0, [high, low, high], 0, rs) && RecommendsAt(s0, [high, low, high], 2, rs)
  {
    var rs := RECOMMEND_DEFAULTS;
    var env := Env(t, NotSent, t, NotSent, t, true);
    var s0 := INITIAL.(blockage := Some(Blockage(Blocked, None)), weather := Some(Weather(8.0)));
    var high := Event(Level(Water(95.0, 1.0, Stable)), SEEDED, env);
    var low := Event(Level(Water(10.0, 1.0, Stable)), SEEDED, env);
    var evs := [high, low, high];
    assert Mid(s0, evs, 0, rs).fusion.score == 95;
    RecommendationStep(s0, low, rs);
    assert After(s0, evs, 1, rs) == Step(s0, high, rs);
    var s1 := After(s0, evs, 1, rs);
    assert Recalculated(s1, low.update, SEEDED).fusion.score == 30;
    RecommendationStep(s1, low, rs);
    assert After(s0, evs, 2, rs) == Step(s1, low, rs);
    var s2 := After(s0, evs, 2, rs);
    assert !s2.active;
    assert Recalculated(s2, high.update, SEEDED).fusion.score == 95;
  }

  /**
   While the third tier and the recommendation score start above 50, no step that flags an anomaly is Critical,
   sends a critical note or recommends evacuation.
   */
  lemma AnomalyBlocksEvacuation(s0: State, evs: seq<Event>, i: nat, rs: RecommendSettings)
    requires i < |evs| && evs[i].th.tier3Min > 50 && rs.minScore > 50
    requires Mid(s0, evs, i, rs).fusion.anomalies != []
    ensures Mid(s0, evs, i, rs).fusion.alert != Critical
    ensures !SendsAt(s0, evs, i, rs, CriticalNote)
    ensures !RecommendsAt(s0, evs, i, rs)
    ensures !After(s0, evs, i + 1, rs).active
  {
    hide FusionScoring.Fusion;
    var s := Applied(After(s0, evs, i, rs), evs[i].update);
    AnomalousNotCritical(InputsOf(s), evs[i].th);
    RecommendationStep(After(s0, evs, i, rs), evs[i], rs);
  }

  /** Event `m` is the last level event before `n`. */
  ghost predicate LastLevel(evs: seq<Event>, n: nat, m: nat) {
    m < n <= |evs| && evs[m].update.Level? && forall j :: m < j < n ==> !evs[j].update.Level?
  }

  lemma WaterStep(s: State, e: Event, rs: RecommendSettings)
    ensures Step(s, e, rs).water == if e.update.Level? then Some(e.update.w) else s.water
  {
    hide FusionScoring.Fusion;
  }

  lemma {:induction false} WaterInForce(evs: seq<Event>, n: nat, rs: RecommendSettings)
    requires n <= |evs|
    ensures var water := After(INITIAL, evs, n, rs).water;
            water.Some? ==> exists m: nat :: LastLevel(evs, n, m) && water == Some(evs[m].update.w)
  {
    hide Step;
    if n > 0 {
      WaterInForce(evs, n - 1, rs);
      WaterStep(After(INITIAL, evs, n - 1, rs), evs[n - 1], rs);
      if evs[n - 1].update.Level? {
        assert LastLevel(evs, n, n - 1);
      } else if After(INITIAL, evs, n - 1, rs).water.Some? {
        var m: nat :| LastLevel(evs, n - 1, m) && After(INITIAL, evs, n - 1, rs).water == Some(evs[m].update.w);
        assert LastLevel(evs, n, m);
      }
    }
  }

  /**
   Every recommendation rests on the level event last before it or in its own step: with a recommendation score
   above 50 there is one, and with one above 60 it showed at least half the critical level and no breaker tripped.
   */
  lemma RecommendationRestsOnLevel(evs: seq<Event>, i: nat, rs: RecommendSettings)
    requires i < |evs| && rs.minScore > 50 && RecommendsAt(INITIAL, evs, i, rs)
    ensures exists m: nat :: LastLevel(evs, i + 1, m) && Mid(INITIAL, evs, i, rs).water == Some(evs[m].update.w)
    ensures rs.minScore > 60 ==>
              WaterAtLeast(InputsOf(Mid(INITIAL, evs, i, rs)), 50.0) && Unbroken(InputsOf(Mid(INITIAL, evs, i, rs)))
  {
    hide Step, AlertState.Notified, FusionScoring.Score;
    var mid := Mid(INITIAL, evs, i, rs);
    RecommendationGuard(After(INITIAL, evs, i, rs), evs[i], rs);
    ScoreOfInputs(After(INITIAL, evs, i, rs), evs[i]);
    MissingSourcesCap(InputsOf(mid));
    HighScoreNeedsLevel(rs.minScore);
    WaterInForce(evs, i + 1, rs);
    WaterStep(After(INITIAL, evs, i, rs), evs[i], rs);
  }

  lemma ScoreOfInputs(s: State, e: Event)
    ensures var mid := Recalculated(s, e.update, e.th);
            mid.fusion.score == Score(InputsOf(mid)) && mid.water == if e.update.Level? then Some(e.update.w) else s.water
  {
  }

  // ---------------------------------------------------------------- blind camera

  /** In a step that flags a blind camera an obstruction note is wanted exactly when the status carries no confidence. */
  lemma BlindStepWants(s: State, e: Event)
    requires BlindCamera in Recalculated(s, e.update, e.th).fusion.anomalies
    ensures Wants(Recalculated(s, e.update, e.th), BlockageNote) <==> !HasTier(Recalculated(s, e.update, e.th))
  {
    AnomaliesExact(InputsOf(Applied(s, e.update)));
  }

  /**
   A status loaded at start-up carries no confidence, so its note is wanted although the camera is suspect, and
   goes out if the send is delivered.
   */
  lemma HydratedStatusEscapesSuppression()
    ensures exists s: State, e: Event ::
              && s.blockage == Some(Blockage(Blocked, None))
              && BlindCamera in Recalculated(s, e.update, e.th).fusion.anomalies
              && Wants(Recalculated(s, e.update, e.th), BlockageNote)
              && Sends(Recalculated(s, e.update, e.th), e.env, BlockageNote)
  {
    var s := INITIAL.(blockage := Some(Blockage(Blocked, None)), water := Some(Water(10.0, 1.0, Stable)));
    var e := Event(Rain(Weather(9.0)), SEEDED, Env(20000.0, NotSent, 20000.0, Sent, 20000.0, true));
    var mid := Recalculated(s, e.update, e.th);
    assert Suspects(InputsOf(mid), BlindCamera);
    AnomaliesExact(InputsOf(mid));
    assert Sends(mid, e.env, BlockageNote);
  }

  ghost predicate CameraSilent(evs: seq<Event>, i: nat, j: nat)
    requires j <= |evs|
  {
    forall m :: i <= m < j ==> !evs[m].update.Camera?
  }

  function StatusIn(s: State): Option<Status> { InputsOf(s).blockage }

  lemma TierStep(s: State, e: Event, rs: RecommendSettings)
    ensures var mid, next := Recalculated(s, e.update, e.th), Step(s, e, rs);
            && (HasTier(mid) <==> HasTier(next))
            && (HasTier(mid) ==> TierIn(next).Rank() <= TierIn(mid).Rank())
            && (HasTier(mid) && BlindCamera in mid.fusion.anomalies ==> TierIn(next).Rank() <= 1 && !Wants(mid, BlockageNote))
            && (HasTier(mid) && TierIn(mid).Rank() <= 1 ==> !Wants(mid, BlockageNote))
            && (!e.update.Camera? ==> mid.blockage == s.blockage)
            && StatusIn(next) == StatusIn(mid)
  {
    hide FusionScoring.Fusion;
  }

  /**
   When an obstruction note is wanted: a confidence must be likely or confirmed and no blind camera flagged; without
   one the status alone decides. What the step leaves of the tier follows the same flag.
   */
  lemma ObstructionStep(s: State, e: Event, rs: RecommendSettings)
    ensures var mid, next := Recalculated(s, e.update, e.th), Step(s, e, rs);
            var alerting := HasTier(mid) && (TierIn(mid) == Likely || TierIn(mid) == Confirmed);
            && (Wants(mid, BlockageNote) <==>
                 if HasTier(mid) then alerting && BlindCamera !in mid.fusion.anomalies else StatusIn(mid) == Some(Blocked))
            && (HasTier(mid) ==>
                 HasTier(next)
                 && TierIn(next) == if alerting && BlindCamera in mid.fusion.anomalies then Possible else TierIn(mid))
  {
    hide FusionScoring.Fusion;
  }

  lemma {:induction false} StatusStays(s0: State, evs: seq<Event>, i: nat, j: nat, rs: RecommendSettings)
    requires i <= j <= |evs| && CameraSilent(evs, i, j)
    ensures StatusIn(After(s0, evs, j, rs)) == StatusIn(After(s0, evs, i, rs))
    decreases j
  {
    hide FusionScoring.Fusion, AlertState.Notified, AlertState.Recalculated;
    if i < j {
      StatusStays(s0, evs, i, j - 1, rs);
      TierStep(After(s0, evs, j - 1, rs), evs[j - 1], rs);
    }
  }

  /** Without a new camera status the tier can only fall. */
  lemma {:induction false} TierOnlyFalls(s0: State, evs: seq<Event>, i: nat, j: nat, rs: RecommendSettings)
    requires i <= j <= |evs| && CameraSilent(evs, i, j) && HasTier(After(s0, evs, i, rs))
    ensures HasTier(After(s0, evs, j, rs))
    ensures TierIn(After(s0, evs, j, rs)).Rank() <= TierIn(After(s0, evs, i, rs)).Rank()
    decreases j
  {
    hide FusionScoring.Fusion, AlertState.Notified, AlertState.Recalculated;
    if i < j {
      TierOnlyFalls(s0, evs, i, j - 1, rs);
      TierStep(After(s0, evs, j - 1, rs), evs[j - 1], rs);
    }
  }

  /** Once a blind camera is flagged, no obstruction note is wanted until the camera delivers a new status. */
  lemma DowngradeSticks(s0: State, evs: seq<Event>, i: nat, j: nat, rs: RecommendSettings)
    requires i <= j < |evs| && CameraSilent(evs, i + 1, j + 1)
    requires HasTier(Mid(s0, evs, i, rs)) && BlindCamera in Mid(s0, evs, i, rs).fusion.anomalies
    ensures HasTier(After(s0, evs, j + 1, rs)) && TierIn(After(s0, evs, j + 1, rs)).Rank() <= 1
    ensures !Wants(Mid(s0, evs, j, rs), BlockageNote) && !SendsAt(s0, evs, j, rs, BlockageNote)
  {
    hide FusionScoring.Fusion, AlertState.Notified, AlertState.Recalculated, AlertState.Wants;
    TierStep(After(s0, evs, i, rs), evs[i], rs);
    TierOnlyFalls(s0, evs, i + 1, j + 1, rs);
    if j > i {
      TierOnlyFalls(s0, evs, i + 1, j, rs);
      TierStep(After(s0, evs, j, rs), evs[j], rs);
    }
    assert !Wants(Mid(s0, evs, j, rs), BlockageNote);
  }

  /** The score of a recalculated state whose status is blocked. */
  lemma BlockedScore(s: State, e: Event)
    ensures var mid := Recalculated(s, e.update, e.th);
            && (BlindCamera in mid.fusion.anomalies ==> StatusIn(mid) == Some(Blocked))
            && (StatusIn(mid) == Some(Blocked) ==>
                 mid.fusion.score == WaterPart(InputsOf(mid)) + WeatherPart(InputsOf(mid))
                                     + if BlindCamera in mid.fusion.anomalies then 0 else 30)
  {
    AnomaliesExact(InputsOf(Applied(s, e.update)));
  }

  /**
   The downgrade lasts for the tier but not for the score: until the camera delivers again, each later step
   counts the obstruction's full 30 points exactly if it flags no blind camera itself, while the tier stays at
   most possible and no obstruction note goes out.
   */
  lemma DowngradedStatusCountsAgain(s0: State, evs: seq<Event>, i: nat, j: nat, rs: RecommendSettings)
    requires i < j < |evs| && CameraSilent(evs, i + 1, j + 1)
    requires HasTier(Mid(s0, evs, i, rs)) && BlindCamera in Mid(s0, evs, i, rs).fusion.anomalies
    ensures var mid := Mid(s0, evs, j, rs);
            && StatusIn(mid) == Some(Blocked) && HasTier(mid) && TierIn(mid).Rank() <= 1
            && !SendsAt(s0, evs, j, rs, BlockageNote)
            && mid.fusion.score == WaterPart(InputsOf(mid)) + WeatherPart(InputsOf(mid))
                                   + if BlindCamera in mid.fusion.anomalies then 0 else 30
  {
    hide FusionScoring.Fusion, AlertState.Notified, AlertState.Recalculated, FusionScoring.WaterPart, FusionScoring.WeatherPart;
    BlockedScore(After(s0, evs, i, rs), evs[i]);
    TierStep(After(s0, evs, i, rs), evs[i], rs);
    StatusStays(s0, evs, i + 1, j, rs);
    TierOnlyFalls(s0, evs, i + 1, j, rs);
    TierStep(After(s0, evs, j, rs), evs[j], rs);
    BlockedScore(After(s0, evs, j, rs), evs[j]);
    DowngradeSticks(s0, evs, i, j, rs);
  }

  /** So lighter rain can raise the alert: heavy rain leaves it normal, and the same status then turns it to warning. */
  lemma LighterRainRaisesAlert(env: Env)
    ensures var s0 := INITIAL.(blockage := Some(Blockage(Blocked, Some(Confirmed))), water := Some(Water(10.0, 1.0, Stable)));
            var evs := [Event(Rain(Weather(8.0)), SEEDED, env), Event(Rain(Weather(5.0)), SEEDED, env)];
            var first, second := Mid(s0, evs, 0, RECOMMEND_DEFAULTS), Mid(s0, evs, 1, RECOMMEND_DEFAULTS);
            && BlindCamera in first.fusion.anomalies && first.fusion.alert == Normal
            && second.blockage == Some(Blockage(Blocked, Some(Possible))) && second.fusion.alert == Warning
  {
    var s0 := INITIAL.(blockage := Some(Blockage(Blocked, Some(Confirmed))), water := Some(Water(10.0, 1.0, Stable)));
    var e := Event(Rain(Weather(8.0)), SEEDED, env);
    var evs := [e, Event(Rain(Weather(5.0)), SEEDED, env)];
    assert After(s0, evs, 0, RECOMMEND_DEFAULTS) == s0;
    AnomaliesExact(InputsOf(Applied(s0, e.update)));
    assert After(s0, evs, 1, RECOMMEND_DEFAULTS) == Step(s0, e, RECOMMEND_DEFAULTS);
  }
}
