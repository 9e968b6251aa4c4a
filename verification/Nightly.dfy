/** The nightly summary: nearest readings in time, and the extremes of the day's risk scores. */
module Nightly {
  import opened Common
  import opened Coverage
  import opened FusionScoring

  datatype SensorRow = SensorRow(at: int, levelCm: real)

  datatype ModelRow = ModelRow(at: int, status: Status)

  datatype WeatherRow = WeatherRow(at: int, precipitation: real)

  datatype Day = Day(sensors: seq<SensorRow>, models: seq<ModelRow>, weathers: seq<WeatherRow>)

  /** `DivisionByZero` when the critical level is zero and there is a sensor reading to divide. */
  datatype Summary = Empty | DivisionByZero | Extremes(minScore: int, maxScore: int, minAt: int, maxAt: int)

  function Distance(a: int, b: int): nat { if a >= b then a - b else b - a }

  function ModelTimes(ms: seq<ModelRow>): seq<int> { seq(|ms|, i requires 0 <= i < |ms| => ms[i].at) }

  function WeatherTimes(ws: seq<WeatherRow>): seq<int> { seq(|ws|, i requires 0 <= i < |ws| => ws[i].at) }

  // ---------------------------------------------------------------- nearest reading

  /** The first of the nearest times strictly inside the gap; none iff no time is inside. */
  ghost predicate IsClosest(times: seq<int>, target: int, gap: int, r: Option<nat>) {
    match r
    case None => forall j :: 0 <= j < |times| ==> Distance(times[j], target) >= gap
    case Some(i) =>
      && i < |times| && Distance(times[i], target) < gap
      && (forall j :: 0 <= j < |times| ==> Distance(times[j], target) >= Distance(times[i], target))
      && (forall j :: 0 <= j < i ==> Distance(times[j], target) > Distance(times[i], target))
  }

  lemma ClosestUnique(times: seq<int>, target: int, gap: int, a: Option<nat>, b: Option<nat>)
    requires IsClosest(times, target, gap, a) && IsClosest(times, target, gap, b)
    ensures a == b
  {
    if a.Some? && b.Some? {
      assert Distance(times[a.value], target) == Distance(times[b.value], target);
    }
  }

  function Closest(times: seq<int>, target: int, gap: int): (r: Option<nat>)
    ensures IsClosest(times, target, gap, r)
  {
    if times == [] then None
    else
      var n := |times| - 1;
      var before := Closest(times[..n], target, gap);
      var limit := if before.Some? then Distance(times[before.value], target) else gap;
      if Distance(times[n], target) < limit then Some(n) else before
  }

  method FindClosest(times: seq<int>, target: int, gap: int) returns (closest: Option<nat>)
    ensures closest == Closest(times, target, gap)
  {
    if |times| == 0 {
      ClosestUnique(times, target, gap, None, Closest(times, target, gap));
      return None;
    }
    closest := None;
    var minDiff := gap;
    for i := 0 to |times|
      invariant IsClosest(times[..i], target, gap, closest)
      invariant minDiff == match closest case None => gap case Some(c) => Distance(times[c], target)
    {
      var diff := Distance(times[i], target);
      if diff < minDiff {
        minDiff, closest := diff, Some(i);
      }
    }
    assert times[..|times|] == times;
    ClosestUnique(times, target, gap, closest, Closest(times, target, gap));
  }

  // ---------------------------------------------------------------- scores of single rows

  /** `_find_and_calc_blockage_score`, for a gap in ticks. */
  function BlockageNear(d: Day, at: int, gap: int): int {
    var c := Closest(ModelTimes(d.models), at, gap);
    if c.Some? then BlockageScore(d.models[c.value].status) else 0
  }

  function WeatherNear(d: Day, at: int, gap: int): int {
    var c := Closest(WeatherTimes(d.weathers), at, gap);
    if c.Some? then WeatherScore(d.weathers[c.value].precipitation) else 0
  }

  /** How many rows drive the day: sensor rows if any, else model rows, else weather rows. */
  function DriverCount(d: Day): nat {
    if d.sensors != [] then |d.sensors| else if d.models != [] then |d.models| else |d.weathers|
  }

  function DriverTime(d: Day, i: nat): int
    requires i < DriverCount(d)
  {
    if d.sensors != [] then d.sensors[i].at else if d.models != [] then d.models[i].at else d.weathers[i].at
  }

  function DriverScore(d: Day, i: nat, critical: real, gap: int): int
    requires i < DriverCount(d) && (d.sensors != [] ==> critical != 0.0)
  {
    if d.sensors != [] then
      WaterScore(d.sensors[i].levelCm / critical * 100.0)
      + BlockageNear(d, d.sensors[i].at, gap) + WeatherNear(d, d.sensors[i].at, gap)
    else if d.models != [] then
      BlockageScore(d.models[i].status) + WeatherNear(d, d.models[i].at, gap)
    else WeatherScore(d.weathers[i].precipitation)
  }

  /** What a day's row would be scored as live: its own source and the nearest readings of the others. */
  function LiveRow(d: Day, i: nat, critical: real, gap: int, rate: real, trend: Trend): Inputs
    requires i < DriverCount(d) && (d.sensors != [] ==> critical != 0.0)
  {
    if d.sensors != [] then
      Inputs(NearStatus(d, d.sensors[i].at, gap),
             Some(Water(d.sensors[i].levelCm / critical * 100.0, rate, trend)),
             NearWeather(d, d.sensors[i].at, gap))
    else if d.models != [] then Inputs(Some(d.models[i].status), None, NearWeather(d, d.models[i].at, gap))
    else Inputs(None, None, Some(Weather(d.weathers[i].precipitation)))
  }

  function NearStatus(d: Day, at: int, gap: int): Option<Status> {
    match Closest(ModelTimes(d.models), at, gap) case None => None case Some(m) => Some(d.models[m].status)
  }

  function NearWeather(d: Day, at: int, gap: int): Option<Weather> {
    match Closest(WeatherTimes(d.weathers), at, gap)
    case None => None
    case Some(w) => Some(Weather(d.weathers[w].precipitation))
  }

  /**
   On every day, whichever source drives it: a row's nightly score is its live score with a level that does not rise,
   exactly if no breaker trips, and otherwise higher. Without level readings none can.
   */
  lemma NightlyIsLiveWithoutBreakers(d: Day, i: nat, critical: real, gap: int, rate: real, trend: Trend)
    requires i < DriverCount(d) && (d.sensors != [] ==> critical != 0.0)
    ensures var live := LiveRow(d, i, critical, gap, rate, trend);
            var full := DriverScore(d, i, critical, gap) + if d.sensors != [] && trend == Rising then 5 else 0;
            && Score(live) <= full
            && (Score(live) == full <==> Unbroken(live))
            && (d.sensors == [] ==> Unbroken(live))
  {
    if d.sensors != [] {
      LiveAgreesWithNightly(d, i, critical, gap, LiveRow(d, i, critical, gap, rate, trend));
    }
  }

  /** The rows that drive a day: all its level readings, or else all its camera rows, or else all its weather rows. */
  lemma DriverTimes(d: Day)
    ensures seq(DriverCount(d), i requires 0 <= i < DriverCount(d) => DriverTime(d, i)) ==
              if d.sensors != [] then seq(|d.sensors|, i requires 0 <= i < |d.sensors| => d.sensors[i].at)
              else if d.models != [] then ModelTimes(d.models) else WeatherTimes(d.weathers)
  {
  }

  // ---------------------------------------------------------------- extremes

  /** Bounds of the first n scores, each reported at its first occurrence. */
  ghost predicate IsExtremes(d: Day, n: nat, critical: real, gap: int, minScore: int, maxScore: int, minAt: int, maxAt: int)
    requires n <= DriverCount(d) && (d.sensors != [] ==> critical != 0.0)
  {
    && (forall i: nat :: i < n ==> minScore <= DriverScore(d, i, critical, gap) <= maxScore)
    && (exists i: nat :: i < n && FirstWith(d, i, critical, gap, minScore) && minAt == DriverTime(d, i))
    && (exists i: nat :: i < n && FirstWith(d, i, critical, gap, maxScore) && maxAt == DriverTime(d, i))
  }

  ghost predicate FirstWith(d: Day, i: nat, critical: real, gap: int, score: int)
    requires i < DriverCount(d) && (d.sensors != [] ==> critical != 0.0)
  {
    DriverScore(d, i, critical, gap) == score && forall j: nat :: j < i ==> DriverScore(d, j, critical, gap) != score
  }

  method ScoreRow(d: Day, i: nat, critical: real, gap: int) returns (score: int, at: int)
    requires i < DriverCount(d) && (d.sensors != [] ==> critical != 0.0)
    ensures score == DriverScore(d, i, critical, gap) && at == DriverTime(d, i)
  {
    if d.sensors != [] {
      at := d.sensors[i].at;
      score := WaterScore(d.sensors[i].levelCm / critical * 100.0);
      var m := FindClosest(ModelTimes(d.models), at, gap);
      if m.Some? {
        score := score + BlockageScore(d.models[m.value].status);
      }
    } else if d.models != [] {
      at := d.models[i].at;
      score := BlockageScore(d.models[i].status);
    } else {
      at := d.weathers[i].at;
      score := WeatherScore(d.weathers[i].precipitation);
      return;
    }
    var w := FindClosest(WeatherTimes(d.weathers), at, gap);
    if w.Some? {
      score := score + WeatherScore(d.weathers[w.value].precipitation);
    }
  }

  lemma ExtremesOfOne(d: Day, critical: real, gap: int)
    requires DriverCount(d) > 0 && (d.sensors != [] ==> critical != 0.0)
    ensures var s, t := DriverScore(d, 0, critical, gap), DriverTime(d, 0);
            IsExtremes(d, 1, critical, gap, s, s, t, t)
  {
    hide DriverScore, DriverTime;
    assert FirstWith(d, 0, critical, gap, DriverScore(d, 0, critical, gap));
  }

  lemma ExtremesOfOneMore(d: Day, n: nat, critical: real, gap: int, minScore: int, maxScore: int, minAt: int, maxAt: int)
    requires n < DriverCount(d) && (d.sensors != [] ==> critical != 0.0)
    requires IsExtremes(d, n, critical, gap, minScore, maxScore, minAt, maxAt)
    ensures var s, t := DriverScore(d, n, critical, gap), DriverTime(d, n);
            IsExtremes(d, n + 1, critical, gap,
                       if s < minScore then s else minScore, if s > maxScore then s else maxScore,
                       if s < minScore then t else minAt, if s > maxScore then t else maxAt)
  {
    hide DriverScore, DriverTime, DriverCount;
    var s := DriverScore(d, n, critical, gap);
    assert s < minScore || s > maxScore ==> FirstWith(d, n, critical, gap, s);
    var i: nat :| i < n && FirstWith(d, i, critical, gap, minScore) && minAt == DriverTime(d, i);
    var j: nat :| j < n && FirstWith(d, j, critical, gap, maxScore) && maxAt == DriverTime(d, j);
  }

  /** The three loops of the source differ only in how a row is scored. */
  method CalculateRiskScores(d: Day, critical: real, gap: int) returns (s: Summary)
    ensures s.Empty? <==> DriverCount(d) == 0
    ensures s.DivisionByZero? <==> d.sensors != [] && critical == 0.0
    ensures s.Extremes? ==> IsExtremes(d, DriverCount(d), critical, gap, s.minScore, s.maxScore, s.minAt, s.maxAt)
  {
    var n := DriverCount(d);
    if n == 0 {
      return Empty;
    }
    if d.sensors != [] && critical == 0.0 {
      return DivisionByZero;
    }
    var score, at := ScoreRow(d, 0, critical, gap);
    var minScore, maxScore, minAt, maxAt := score, score, at, at;
    ExtremesOfOne(d, critical, gap);
    hide DriverScore, DriverTime, IsExtremes;
    for i := 1 to n
      invariant IsExtremes(d, i, critical, gap, minScore, maxScore, minAt, maxAt)
    {
      score, at := ScoreRow(d, i, critical, gap);
      ExtremesOfOneMore(d, i, critical, gap, minScore, maxScore, minAt, maxAt);
      if score < minScore {
        minScore, minAt := score, at;
      }
      if score > maxScore {
        maxScore, maxAt := score, at;
      }
    }
    s := Extremes(minScore, maxScore, minAt, maxAt);
  }

  /** The four reported values are determined by the day. */
  lemma ExtremesUnique(d: Day, n: nat, critical: real, gap: int, a: Summary, b: Summary)
    requires n <= DriverCount(d) && (d.sensors != [] ==> critical != 0.0) && a.Extremes? && b.Extremes?
    requires IsExtremes(d, n, critical, gap, a.minScore, a.maxScore, a.minAt, a.maxAt)
    requires IsExtremes(d, n, critical, gap, b.minScore, b.maxScore, b.minAt, b.maxAt)
    ensures a == b
  {
    hide DriverScore, DriverTime;
    var i: nat :| i < n && FirstWith(d, i, critical, gap, a.minScore) && a.minAt == DriverTime(d, i);
    var j: nat :| j < n && FirstWith(d, j, critical, gap, b.minScore) && b.minAt == DriverTime(d, j);
    assert i == j;
    var k: nat :| k < n && FirstWith(d, k, critical, gap, a.maxScore) && a.maxAt == DriverTime(d, k);
    var l: nat :| l < n && FirstWith(d, l, critical, gap, b.maxScore) && b.maxAt == DriverTime(d, l);
    assert k == l;
  }

  lemma ScoresInRange(d: Day, i: nat, critical: real, gap: int)
    requires i < DriverCount(d) && (d.sensors != [] ==> critical != 0.0)
    ensures 0 <= DriverScore(d, i, critical, gap) <= 95
    ensures d.sensors != [] ==> DriverScore(d, i, critical, gap) >= 10
    ensures d.sensors == [] ==> DriverScore(d, i, critical, gap) <= 50
  {
  }

  /** Reported extremes lie between 0 and 95: at least 10 with level readings in the day, at most 50 without. */
  lemma ExtremesInRange(d: Day, n: nat, critical: real, gap: int, minScore: int, maxScore: int, minAt: int, maxAt: int)
    requires n <= DriverCount(d) && (d.sensors != [] ==> critical != 0.0)
    requires IsExtremes(d, n, critical, gap, minScore, maxScore, minAt, maxAt)
    ensures 0 <= minScore <= maxScore <= 95
    ensures if d.sensors != [] then minScore >= 10 else maxScore <= 50
  {
    hide DriverScore, DriverTime, DriverCount;
    var i: nat :| i < n && FirstWith(d, i, critical, gap, minScore) && minAt == DriverTime(d, i);
    var j: nat :| j < n && FirstWith(d, j, critical, gap, maxScore) && maxAt == DriverTime(d, j);
    ScoresInRange(d, i, critical, gap);
    ScoresInRange(d, j, critical, gap);
  }

  /**
   For the same level percentage and the same nearby readings the live score is the nightly one plus five when
   the water rises, exactly if no breaker trips; otherwise it is lower.
   */
  lemma LiveAgreesWithNightly(d: Day, i: nat, critical: real, gap: int, live: Inputs)
    requires i < |d.sensors| && critical != 0.0
    requires live.water.Some? && live.water.value.criticalPct == d.sensors[i].levelCm / critical * 100.0
    requires live.blockage == match Closest(ModelTimes(d.models), d.sensors[i].at, gap)
                              case None => None case Some(m) => Some(d.models[m].status)
    requires live.weather == match Closest(WeatherTimes(d.weathers), d.sensors[i].at, gap)
                             case None => None case Some(w) => Some(Weather(d.weathers[w].precipitation))
    ensures var rising := if live.water.value.trend == Rising then 5 else 0;
            && Score(live) <= DriverScore(d, i, critical, gap) + rising
            && (Score(live) == DriverScore(d, i, critical, gap) + rising <==> Unbroken(live))
  {
    var full := BlockageNear(d, d.sensors[i].at, gap) + WaterScore(live.water.value.criticalPct)
                + WeatherNear(d, d.sensors[i].at, gap);
    assert full == DriverScore(d, i, critical, gap);
    assert Suspects(live, BlindCamera) ==> BlockageNear(d, d.sensors[i].at, gap) == 30;
  }
}
