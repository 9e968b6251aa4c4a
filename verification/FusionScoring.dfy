/** The fused risk score: anomaly detection, circuit breakers, score and alert level. */
module FusionScoring {
  import opened Common
  import opened Coverage

  datatype AlertName = Normal | Warning | Critical | Unavailable {
    function Rank(): nat {
      match this case Warning => 1 case Critical => 2 case _ => 0
    }
  }

  datatype Anomaly = ObstructedSensor | BlindCamera | StaleSensor | GhostFlood

  datatype Trend = Rising | Falling | Stable

  datatype Water = Water(criticalPct: real, changeRate: real, trend: Trend)

  datatype Weather = Weather(precipitation: real)

  datatype Inputs = Inputs(blockage: Option<Status>, water: Option<Water>, weather: Option<Weather>)

  datatype Thresholds = Thresholds(tier2Min: int, tier2Max: int, tier3Min: int)

  datatype FusionData = FusionData(alert: AlertName, score: int, anomalies: seq<Anomaly>)

  const SEEDED := Thresholds(45, 75, 76)
  const RECOMMEND_MIN_SCORE := 70

  // ---------------------------------------------------------------- shared scoring tiers

  function WaterScore(criticalPct: real): int {
    if criticalPct < 50.0 then 10 else if criticalPct < 75.0 then 20 else if criticalPct < 90.0 then 30 else 45
  }

  function BlockageScore(s: Status): int {
    match s case Blocked => 30 case Partial => 20 case Clear => 0
  }

  function WeatherScore(precipitation: real): int {
    if precipitation >= 7.5 then 20 else if precipitation >= 2.55 then 15 else if precipitation >= 1.0 then 8 else 0
  }

  // ---------------------------------------------------------------- specification

  predicate WaterAtLeast(i: Inputs, pct: real) { i.water.Some? && i.water.value.criticalPct >= pct }

  predicate WaterBelow(i: Inputs, pct: real) { i.water.Some? && i.water.value.criticalPct < pct }

  predicate WeatherClear(i: Inputs) { i.weather.Some? && i.weather.value.precipitation < 1.0 }

  predicate WeatherHeavy(i: Inputs) { i.weather.Some? && i.weather.value.precipitation >= 7.5 }

  predicate RisingFast(i: Inputs) { i.water.Some? && i.water.value.changeRate >= 2.0 }

  predicate DeadFlat(i: Inputs) { i.water.Some? && i.water.value.changeRate == 0.0 }

  predicate Suspects(i: Inputs, a: Anomaly) {
    match a
    case ObstructedSensor => WaterAtLeast(i, 90.0) && i.blockage == Some(Clear) && WeatherClear(i)
    case BlindCamera => i.blockage == Some(Blocked) && WaterBelow(i, 50.0) && WeatherHeavy(i)
    case StaleSensor => DeadFlat(i) && WeatherHeavy(i)
    case GhostFlood => RisingFast(i) && i.blockage == Some(Clear) && WeatherClear(i)
  }

  predicate AllUnavailable(i: Inputs) { i.blockage.None? && i.water.None? && i.weather.None? }

  ghost predicate Anomalous(i: Inputs) { exists a :: Suspects(i, a) }

  function BlockagePart(i: Inputs): int {
    if i.blockage.None? || Suspects(i, BlindCamera) then 0 else BlockageScore(i.blockage.value)
  }

  function WaterPart(i: Inputs): int {
    if i.water.None? || Suspects(i, ObstructedSensor) || Suspects(i, StaleSensor) then 0
    else WaterScore(i.water.value.criticalPct) + if i.water.value.trend == Rising then 5 else 0
  }

  function WeatherPart(i: Inputs): int {
    if i.weather.None? then 0 else WeatherScore(i.weather.value.precipitation)
  }

  function Score(i: Inputs): int { BlockagePart(i) + WaterPart(i) + WeatherPart(i) }

  function AlertOf(score: int, th: Thresholds): AlertName {
    if th.tier2Min <= score <= th.tier2Max then Warning
    else if th.tier3Min <= score then Critical
    else Normal
  }

  /** The anomalies in the order the engine tests for them. */
  function AnomaliesOf(i: Inputs): seq<Anomaly> {
    (if Suspects(i, ObstructedSensor) then [ObstructedSensor] else [])
    + (if Suspects(i, BlindCamera) then [BlindCamera] else [])
    + (if Suspects(i, StaleSensor) then [StaleSensor] else [])
    + (if Suspects(i, GhostFlood) then [GhostFlood] else [])
  }

  function Fusion(i: Inputs, th: Thresholds): FusionData {
    FusionData(if AllUnavailable(i) then Unavailable else AlertOf(Score(i), th), Score(i), AnomaliesOf(i))
  }

  lemma AnomaliesExact(i: Inputs)
    ensures Distinct(AnomaliesOf(i))
    ensures forall a :: a in AnomaliesOf(i) <==> Suspects(i, a)
    ensures AnomaliesOf(i) != [] <==> Anomalous(i)
  {
    var s := AnomaliesOf(i);
    assert ObstructedSensor in s <==> Suspects(i, ObstructedSensor);
    assert BlindCamera in s <==> Suspects(i, BlindCamera);
    assert StaleSensor in s <==> Suspects(i, StaleSensor);
    assert GhostFlood in s <==> Suspects(i, GhostFlood);
    if s != [] {
      assert s[0] in s;
    }
  }

  /** The anomaly engine. */
  method DetectAnomalies(i: Inputs) returns (anomalies: seq<Anomaly>)
    ensures anomalies == AnomaliesOf(i)
  {
    anomalies := [];
    if WaterAtLeast(i, 90.0) && i.blockage == Some(Clear) && WeatherClear(i) {
      anomalies := anomalies + [ObstructedSensor];
    }
    if i.blockage == Some(Blocked) && WaterBelow(i, 50.0) && WeatherHeavy(i) {
      anomalies := anomalies + [BlindCamera];
    }
    if DeadFlat(i) && WeatherHeavy(i) {
      anomalies := anomalies + [StaleSensor];
    }
    if RisingFast(i) && i.blockage == Some(Clear) && WeatherClear(i) {
      anomalies := anomalies + [GhostFlood];
    }
  }

  method CalculateFusionData(i: Inputs, th: Thresholds) returns (d: FusionData)
    ensures d == Fusion(i, th)
  {
    if AllUnavailable(i) {
      return FusionData(Unavailable, 0, []);
    }
    var score := 0;
    var anomalies := DetectAnomalies(i);
    AnomaliesExact(i);
    if i.blockage.Some? {
      if i.blockage.value == Blocked && BlindCamera in anomalies {
        // the camera is not believed
      } else {
        score := score + BlockageScore(i.blockage.value);
      }
    }
    if i.water.Some? {
      if ObstructedSensor in anomalies || StaleSensor in anomalies {
        // the level sensor is not believed
      } else {
        score := score + WaterScore(i.water.value.criticalPct);
        if i.water.value.trend == Rising {
          score := score + 5;
        }
      }
    }
    if i.weather.Some? {
      score := score + WeatherScore(i.weather.value.precipitation);
    }
    var alertName := Normal;
    if th.tier2Min <= score <= th.tier2Max {
      alertName := Warning;
    } else if th.tier3Min <= score {
      alertName := Critical;
    }
    d := FusionData(alertName, score, anomalies);
  }

  // ---------------------------------------------------------------- properties of the score

  function Points(reached: bool, points: int): int { if reached then points else 0 }

  /**
   The score as a sum over the limits reached: each adds its points, and a breaker takes out its whole source. A
   suspected blind camera takes out the camera, an obstructed or stale sensor the level.
   */
  lemma ScoreAddsLimits(i: Inputs)
    ensures Score(i) ==
              Points(!Suspects(i, BlindCamera),
                     Points(i.blockage == Some(Partial) || i.blockage == Some(Blocked), 20)
                     + Points(i.blockage == Some(Blocked), 10))
              + Points(!Suspects(i, ObstructedSensor) && !Suspects(i, StaleSensor),
                       Points(i.water.Some?, 10) + Points(WaterAtLeast(i, 50.0), 10) + Points(WaterAtLeast(i, 75.0), 10)
                       + Points(WaterAtLeast(i, 90.0), 15) + Points(i.water.Some? && i.water.value.trend == Rising, 5))
              + Points(i.weather.Some? && i.weather.value.precipitation >= 1.0, 8)
              + Points(i.weather.Some? && i.weather.value.precipitation >= 2.55, 7)
              + Points(i.weather.Some? && i.weather.value.precipitation >= 7.5, 5)
  {
  }

  /**
   What makes each anomaly, in the plain numbers of the sources. Those of a clear sky exclude those of heavy rain, and
   nothing is suspected without a level and a rain reading.
   */
  lemma AnomalySigns(i: Inputs)
    ensures i.water.None? || i.weather.None? ==> !Anomalous(i)
    ensures i.water.Some? && i.weather.Some? ==>
              var w, rain := i.water.value, i.weather.value.precipitation;
              && (Suspects(i, ObstructedSensor) <==> i.blockage == Some(Clear) && rain < 1.0 && w.criticalPct >= 90.0)
              && (Suspects(i, GhostFlood) <==> i.blockage == Some(Clear) && rain < 1.0 && w.changeRate >= 2.0)
              && (Suspects(i, BlindCamera) <==> i.blockage == Some(Blocked) && rain >= 7.5 && w.criticalPct < 50.0)
              && (Suspects(i, StaleSensor) <==> rain >= 7.5 && w.changeRate == 0.0)
    ensures (Suspects(i, ObstructedSensor) || Suspects(i, GhostFlood)) ==> !Suspects(i, BlindCamera) && !Suspects(i, StaleSensor)
  {
  }

  lemma ScoreInRange(i: Inputs)
    ensures 0 <= Score(i) <= 100
    ensures Score(i) == 100 <==>
              i.blockage == Some(Blocked) && WaterAtLeast(i, 90.0) && i.water.value.trend == Rising
              && WeatherHeavy(i) && !DeadFlat(i)
  {
  }

  /** A rising level or heavier rain raises its part of the score exactly when it crosses a tier limit. */
  lemma PartsRiseAtLimits(a: real, b: real)
    requires a <= b
    ensures WaterScore(a) <= WaterScore(b) && WeatherScore(a) <= WeatherScore(b)
    ensures WaterScore(a) < WaterScore(b) <==> a < 50.0 <= b || a < 75.0 <= b || a < 90.0 <= b
    ensures WeatherScore(a) < WeatherScore(b) <==> a < 1.0 <= b || a < 2.55 <= b || a < 7.5 <= b
    ensures WaterScore(a) < WaterScore(b) ==> WaterScore(b) - WaterScore(a) >= 10
  {
  }

  /** Each anomaly caps the score: a believed-dead sensor at 50, the others at 35, a blocked level sensor at 0. */
  lemma AnomalyCaps(i: Inputs)
    ensures Anomalous(i) ==> Score(i) <= 50
    ensures Suspects(i, BlindCamera) || Suspects(i, GhostFlood) ==> Score(i) <= 35
    ensures Suspects(i, ObstructedSensor) ==> Score(i) == 0
    ensures Suspects(i, GhostFlood) && WaterAtLeast(i, 90.0) ==> Suspects(i, ObstructedSensor)
  {
    if Anomalous(i) {
      var a :| Suspects(i, a);
      match a
      case ObstructedSensor =>
      case BlindCamera =>
      case StaleSensor =>
      case GhostFlood =>
    }
  }

  const STALE_EXAMPLE := Inputs(Some(Blocked), Some(Water(60.0, 0.0, Stable)), Some(Weather(8.0)))

  /** Suspect data can never reach a score limit, for exactly the limits above 50. */
  lemma AnomalousBelowLimit(limit: int)
    ensures (forall i: Inputs | Anomalous(i) :: Score(i) < limit) <==> limit > 50
  {
    forall i: Inputs | Anomalous(i) ensures Score(i) <= 50 {
      AnomalyCaps(i);
    }
    assert Suspects(STALE_EXAMPLE, StaleSensor) && Score(STALE_EXAMPLE) == 50;
    assert Anomalous(STALE_EXAMPLE);
  }

  /** Suspect data is not Critical as long as the third tier starts above 50. */
  lemma AnomalousNotCritical(i: Inputs, th: Thresholds)
    requires Fusion(i, th).anomalies != [] && th.tier3Min > 50
    ensures Fusion(i, th).alert != Critical && Fusion(i, th).score <= 50
  {
    AnomaliesExact(i);
    AnomalyCaps(i);
  }

  /** Without a level reading the score stays at 50; without the camera it reaches the recommendation score only as 70. */
  lemma MissingSourcesCap(i: Inputs)
    ensures i.water.None? ==> Score(i) <= 50
    ensures i.blockage.None? ==> Score(i) <= RECOMMEND_MIN_SCORE
    ensures i.weather.None? ==> Score(i) <= 80
  {
  }

  const HIGH_WITHOUT_LEVEL := Inputs(Some(Blocked), Some(Water(49.0, 1.0, Rising)), Some(Weather(5.0)))

  /** A high score rests on an unbroken reading of half the critical level or more, for exactly the limits above 60. */
  lemma HighScoreNeedsLevel(limit: int)
    ensures (forall i: Inputs | Score(i) >= limit :: WaterAtLeast(i, 50.0) && Unbroken(i)) <==> limit > 60
  {
    assert Score(HIGH_WITHOUT_LEVEL) == 60 && !WaterAtLeast(HIGH_WITHOUT_LEVEL, 50.0);
    if limit > 60 {
      forall i: Inputs | Score(i) >= limit ensures WaterAtLeast(i, 50.0) && Unbroken(i) {
        LowLevelCap(i);
      }
    }
  }

  lemma LowLevelCap(i: Inputs)
    ensures !WaterAtLeast(i, 50.0) || !Unbroken(i) ==> Score(i) <= 60
  {
    if !Unbroken(i) {
      assert Anomalous(i) by {
        assert Suspects(i, ObstructedSensor) || Suspects(i, BlindCamera) || Suspects(i, StaleSensor);
      }
      AnomalyCaps(i);
    }
  }

  /** Pointwise less alarming inputs; a missing source is below everything. */
  predicate LessAlarming(lo: Inputs, hi: Inputs) {
    && (lo.blockage.Some? ==> hi.blockage.Some? && lo.blockage.value.Rank() <= hi.blockage.value.Rank())
    && (lo.water.Some? ==>
          hi.water.Some?
          && lo.water.value.criticalPct <= hi.water.value.criticalPct
          && (lo.water.value.trend == Rising ==> hi.water.value.trend == Rising))
    && (lo.weather.Some? ==> hi.weather.Some? && lo.weather.value.precipitation <= hi.weather.value.precipitation)
  }

  /** No breaker takes a part out of the score; a ghost flood alone takes none. */
  predicate Unbroken(i: Inputs) {
    !Suspects(i, ObstructedSensor) && !Suspects(i, BlindCamera) && !Suspects(i, StaleSensor)
  }

  lemma UnbrokenDominates(lo: Inputs, hi: Inputs)
    requires LessAlarming(lo, hi) && Unbroken(hi)
    ensures Score(lo) <= Score(hi)
  {
    if lo.water.Some? {
      PartsRiseAtLimits(lo.water.value.criticalPct, hi.water.value.criticalPct);
    }
    if lo.weather.Some? {
      PartsRiseAtLimits(lo.weather.value.precipitation, hi.weather.value.precipitation);
    }
    assert BlockagePart(lo) <= BlockagePart(hi);
    assert WaterPart(lo) <= WaterPart(hi);
    assert WeatherPart(lo) <= WeatherPart(hi);
  }

  /** For inputs that trip a breaker: less alarming ones that score higher. */
  function ScoresHigher(hi: Inputs): (lo: Inputs)
    requires !Unbroken(hi)
    ensures LessAlarming(lo, hi) && Score(lo) > Score(hi)
  {
    if Suspects(hi, ObstructedSensor) then hi.(water := Some(hi.water.value.(criticalPct := 89.0)))
    else if Suspects(hi, BlindCamera) then hi.(blockage := Some(Partial))
    else hi.(water := Some(hi.water.value.(changeRate := 1.0)))
  }

  /**
   The inputs that no less alarming ones outscore are exactly those that trip no breaker. Since GHOST_FLOOD
   breaks nothing, a lone ghost flood is one of them.
   */
  lemma ScoreMonotone(hi: Inputs)
    ensures (forall lo | LessAlarming(lo, hi) :: Score(lo) <= Score(hi)) <==> Unbroken(hi)
  {
    if Unbroken(hi) {
      forall lo | LessAlarming(lo, hi) ensures Score(lo) <= Score(hi) {
        UnbrokenDominates(lo, hi);
      }
    } else {
      var lo := ScoresHigher(hi);
      assert LessAlarming(lo, hi);
    }
  }

  /** One such pair: with the level at 90 % instead of 89 % the sensor counts as obstructed, and 35 points become 0. */
  lemma BreakerDropsScore()
    ensures var lo := Inputs(Some(Clear), Some(Water(89.0, 1.0, Rising)), Some(Weather(0.0)));
            var hi := Inputs(Some(Clear), Some(Water(90.0, 1.0, Rising)), Some(Weather(0.0)));
            LessAlarming(lo, hi) && Score(lo) == 35 && Score(hi) == 0
  {
  }

  /** The alert is unavailable exactly without any source, and otherwise follows the score through the tiers. */
  lemma AlertByTier(i: Inputs, th: Thresholds)
    ensures var data, some := Fusion(i, th), i.blockage.Some? || i.water.Some? || i.weather.Some?;
            && (data.alert == Unavailable <==> !some)
            && (data.alert == Warning <==> some && th.tier2Min <= data.score <= th.tier2Max)
            && (data.alert == Critical <==>
                 some && data.score >= th.tier3Min && !(th.tier2Min <= data.score <= th.tier2Max))
  {
  }

  /** Alert levels rise with the score for exactly these thresholds. */
  lemma AlertMonotone(th: Thresholds)
    ensures (forall s: int, t: int | s <= t :: AlertOf(s, th).Rank() <= AlertOf(t, th).Rank())
       <==> th.tier2Min > th.tier2Max || th.tier2Min <= th.tier3Min <= th.tier2Max + 1
  {
    if th.tier2Min <= th.tier2Max {
      if th.tier3Min < th.tier2Min {
        assert AlertOf(th.tier2Min - 1, th).Rank() > AlertOf(th.tier2Min, th).Rank();
      }
      if th.tier3Min > th.tier2Max + 1 {
        assert AlertOf(th.tier2Max, th).Rank() > AlertOf(th.tier2Max + 1, th).Rank();
      }
    }
  }
}
