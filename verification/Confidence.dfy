/** The rolling-window confidence engine: graded tiers over the last K raw statuses of a camera. */
module Confidence {
  import opened Common
  import opened Rounding
  import opened Coverage

  datatype Tier = ClearTier | Possible | Likely | Confirmed {
    function Rank(): nat {
      match this case ClearTier => 0 case Possible => 1 case Likely => 2 case Confirmed => 3
    }
  }

  datatype Settings = Settings(windowK: int, likely: real, confirmed: real, partialWeight: real) {
    /** `max(1, OBSTRUCTION_WINDOW_K)` */
    function K(): (k: nat) ensures k >= 1 && k >= windowK && (k == 1 || k == windowK) { if windowK < 1 then 1 else windowK }
  }

  const DEFAULTS := Settings(5, 0.6, 0.8, 0.5)

  /** A deque with its bound. */
  datatype Window = Window(maxlen: nat, items: seq<Status>)

  datatype Grade = Grade(tier: Tier, score: real, windowSize: nat, flagged: nat)

  /** Re-create the deque when the bound changed, then append with eviction on the left. */
  function Pushed(buf: Option<Window>, k: nat, s: Status): Window
    requires k >= 1
  {
    var kept := match buf case None => [] case Some(w) => if w.maxlen == k then w.items else LastN(w.items, k);
    Window(k, LastN(kept + [s], k))
  }

  function Weight(s: Status, partialWeight: real): real {
    match s case Blocked => 1.0 case Partial => partialWeight case Clear => 0.0
  }

  function Weighted(items: seq<Status>, partialWeight: real): real {
    if items == [] then 0.0
    else Weighted(items[..|items| - 1], partialWeight) + Weight(items[|items| - 1], partialWeight)
  }

  function Flagged(items: seq<Status>): nat {
    if items == [] then 0
    else Flagged(items[..|items| - 1]) + if items[|items| - 1] != Clear then 1 else 0
  }

  function Fraction(items: seq<Status>, st: Settings): real {
    Weighted(items, st.partialWeight) / st.K() as real
  }

  function TierOf(items: seq<Status>, st: Settings): Tier {
    var full := |items| >= st.K();
    if full && Fraction(items, st) >= st.confirmed then Confirmed
    else if full && Fraction(items, st) >= st.likely then Likely
    else if Flagged(items) >= 1 then Possible
    else ClearTier
  }

  function ShareOf(fraction: real, percentage: real): real { fraction * (percentage / 100.0) }

  function ScoreOf(items: seq<Status>, percentage: real, st: Settings): real {
    Round4(Min(1.0, ShareOf(Fraction(items, st), percentage)))
  }

  function StatusFromTier(t: Tier): Status {
    match t case Likely => Blocked case Confirmed => Blocked case Possible => Partial case ClearTier => Clear
  }

  // ---------------------------------------------------------------- the window refines the history

  /** One graded reading: its camera, raw status, the window bound in force, and which of the camera's accepted frames it is. */
  datatype Reading = Reading(camera: int, status: Status, k: nat, frame: nat)

  type Windows = map<int, Window>

  function Lookup(ws: Windows, camera: int): Option<Window> {
    if camera in ws then Some(ws[camera]) else None
  }

  function PushReading(ws: Windows, camera: int, k: nat, s: Status): Windows
    requires k >= 1
  {
    ws[camera := Pushed(Lookup(ws, camera), k, s)]
  }

  ghost predicate ValidHistory(h: seq<Reading>) { forall i :: 0 <= i < |h| ==> h[i].k >= 1 }

  ghost function RunWindows(h: seq<Reading>): Windows
    requires ValidHistory(h)
  {
    if h == [] then map[] else
      var r := h[|h| - 1];
      PushReading(RunWindows(h[..|h| - 1]), r.camera, r.k, r.status)
  }

  /** The readings of one camera, in order. */
  ghost function Of(h: seq<Reading>, camera: int): seq<Reading> {
    if h == [] then []
    else Of(h[..|h| - 1], camera) + if h[|h| - 1].camera == camera then [h[|h| - 1]] else []
  }

  function Statuses(rs: seq<Reading>): seq<Status> { seq(|rs|, i requires 0 <= i < |rs| => rs[i].status) }

  /** How many of a camera's own readings survive every bound seen so far. */
  ghost function Retained(rs: seq<Reading>): (n: nat)
    ensures n <= |rs|
  {
    if rs == [] then 0
    else
      var grown := Retained(rs[..|rs| - 1]) + 1;
      if grown <= rs[|rs| - 1].k then grown else rs[|rs| - 1].k
  }

  lemma LastNTwice<T>(s: seq<T>, n: nat, k: nat)
    ensures LastN(LastN(s, n), k) == LastN(s, if n <= k then n else k)
  {
  }

  lemma LastNPush<T>(s: seq<T>, n: nat, x: T)
    requires n <= |s|
    ensures LastN(s, n) + [x] == LastN(s + [x], n + 1)
  {
  }

  lemma PushedOnSuffix(rs: seq<Status>, n: nat, oldK: nat, k: nat, s: Status)
    requires k >= 1 && n <= |rs| && n <= oldK
    ensures Pushed(Some(Window(oldK, LastN(rs, n))), k, s)
         == Window(k, LastN(rs + [s], if n + 1 <= k then n + 1 else k))
  {
    var cut := if n <= k then n else k;
    LastNTwice(rs, n, k);
    assert (if oldK == k then LastN(rs, n) else LastN(LastN(rs, n), k)) == LastN(rs, cut);
    LastNPush(rs, cut, s);
    LastNTwice(rs + [s], cut + 1, k);
  }

  /** The window of a camera whose own readings so far are `own`. */
  ghost predicate WindowMatches(ws: Windows, camera: int, own: seq<Reading>) {
    && (camera in ws <==> own != [])
    && (own != [] ==>
          && ws[camera] == Window(own[|own| - 1].k, LastN(Statuses(own), Retained(own)))
          && Retained(own) <= own[|own| - 1].k)
  }

  lemma OwnPush(ws: Windows, own: seq<Reading>, r: Reading)
    requires r.k >= 1 && WindowMatches(ws, r.camera, own)
    ensures WindowMatches(PushReading(ws, r.camera, r.k, r.status), r.camera, own + [r])
  {
    assert (own + [r])[..|own|] == own;
    assert Statuses(own + [r]) == Statuses(own) + [r.status];
    if own == [] {
      assert Retained(own + [r]) == 1;
      assert LastN([] + [r.status], r.k) == [r.status];
      assert Statuses(own + [r]) == [r.status];
    } else {
      PushedOnSuffix(Statuses(own), Retained(own), own[|own| - 1].k, r.k, r.status);
    }
  }

  /**
   After any interleaving of cameras and any changes of K, a camera's window holds exactly the newest
   `Retained` of that camera's own statuses, and its bound is the one last used.
   */
  lemma {:induction false} WindowRefinesHistory(h: seq<Reading>, camera: int)
    requires ValidHistory(h)
    ensures WindowMatches(RunWindows(h), camera, Of(h, camera))
  {
    if h != [] {
      var prev, r := h[..|h| - 1], h[|h| - 1];
      WindowRefinesHistory(prev, camera);
      if r.camera == camera {
        OwnPush(RunWindows(prev), Of(prev, camera), r);
        assert Of(h, camera) == Of(prev, camera) + [r];
      } else {
        assert Of(h, camera) == Of(prev, camera);
      }
    }
  }

  lemma {:induction false} RetainedConstant(rs: seq<Reading>, k: nat)
    requires k >= 1 && forall i :: 0 <= i < |rs| ==> rs[i].k == k
    ensures Retained(rs) == if |rs| <= k then |rs| else k
  {
    if rs != [] {
      RetainedConstant(rs[..|rs| - 1], k);
    }
  }

  lemma {:induction false} OfKeeps(h: seq<Reading>, camera: int)
    ensures forall i :: 0 <= i < |Of(h, camera)| ==> Of(h, camera)[i] in h && Of(h, camera)[i].camera == camera
  {
    if h != [] {
      OfKeeps(h[..|h| - 1], camera);
    }
  }

  /** With a constant K the window is the last min(n, K) statuses of the camera. */
  lemma WindowIsLastK(h: seq<Reading>, camera: int, k: nat)
    requires k >= 1 && forall i :: 0 <= i < |h| ==> h[i].k == k
    ensures Of(h, camera) != [] ==>
              camera in RunWindows(h) && RunWindows(h)[camera] == Window(k, LastN(Statuses(Of(h, camera)), k))
  {
    WindowRefinesHistory(h, camera);
    OfKeeps(h, camera);
    RetainedConstant(Of(h, camera), k);
  }

  // ---------------------------------------------------------------- what a tier is evidence of

  lemma {:induction false} WeightedBounds(items: seq<Status>, p: real)
    requires 0.0 <= p <= 1.0
    ensures 0.0 <= Weighted(items, p) <= Flagged(items) as real
    ensures Flagged(items) <= |items|
  {
    if items != [] {
      WeightedBounds(items[..|items| - 1], p);
    }
  }

  lemma FractionCompare(items: seq<Status>, st: Settings, limit: real)
    ensures Fraction(items, st) >= limit <==> Weighted(items, st.partialWeight) >= limit * st.K() as real
  {
    hide Weighted;
    QuotientCompare(Weighted(items, st.partialWeight), st.K() as real, limit);
  }

  /** How often a status occurs in the window. */
  function Count(items: seq<Status>, s: Status): nat { multiset(items)[s] }

  lemma {:induction false} SumsAreCounts(items: seq<Status>, p: real)
    ensures Weighted(items, p) == Count(items, Blocked) as real + p * Count(items, Partial) as real
    ensures Flagged(items) == Count(items, Blocked) + Count(items, Partial)
  {
    hide Weighted, Count;
    if items == [] {
      NothingWeighs(p);
    } else {
      var n := |items| - 1;
      var rest, s := items[..n], items[n];
      assert items == rest + [s];
      SumsAreCounts(rest, p);
      WeightedAppend(rest, s, p);
      CountAppend(rest, s, Blocked);
      CountAppend(rest, s, Partial);
      OneMoreTimes(p, Count(rest, Partial));
    }
  }

  lemma NothingWeighs(p: real)
    ensures Weighted([], p) == 0.0 && Count([], Blocked) == 0 && Count([], Partial) == 0
  {
  }

  lemma CountAppend(items: seq<Status>, s: Status, t: Status)
    ensures Count(items + [s], t) == Count(items, t) + if s == t then 1 else 0
  {
  }

  lemma OneMoreTimes(p: real, n: nat)
    ensures p * (n + 1) as real == p * n as real + p && p * 0.0 == 0.0
  {
    assert (n + 1) as real == n as real + 1.0;
  }

  /**
   The tier from the counts alone: a full window is confirmed or likely by what blocked and partial readings weigh
   together against the limits, and otherwise one flagged reading makes it possible.
   */
  lemma TierFromCounts(items: seq<Status>, st: Settings)
    ensures var sum := CountedSum(items, st.partialWeight);
            var full, k := |items| >= st.K(), st.K() as real;
            && (TierOf(items, st) == Confirmed <==> full && sum >= st.confirmed * k)
            && (TierOf(items, st) == Likely <==> full && st.likely * k <= sum < st.confirmed * k)
            && (TierOf(items, st).Rank() <= 1 ==>
                 (TierOf(items, st) == Possible <==> Count(items, Blocked) + Count(items, Partial) >= 1)
                 && (StatusFromTier(TierOf(items, st)) == Partial <==> Count(items, Blocked) + Count(items, Partial) >= 1))
  {
    SumsAreCounts(items, st.partialWeight);
    SumIsCounted(items, st.partialWeight);
    hide Weighted, Flagged, Fraction, CountedSum, Count;
    FractionCompare(items, st, st.confirmed);
    FractionCompare(items, st, st.likely);
  }

  /** What blocked and partial readings weigh together. */
  function CountedSum(items: seq<Status>, p: real): real {
    Count(items, Blocked) as real + p * Count(items, Partial) as real
  }

  /** The weighted share of the window times the covered share. */
  function ExactScore(items: seq<Status>, percentage: real, st: Settings): real {
    CountedSum(items, st.partialWeight) / st.K() as real * (percentage / 100.0)
  }

  /** The score is that product, capped at one, in ten-thousandths. */
  lemma ScoreFromCounts(items: seq<Status>, percentage: real, st: Settings)
    ensures -0.00005 <= ScoreOf(items, percentage, st) - Min(1.0, ExactScore(items, percentage, st)) <= 0.00005
    ensures (10000.0 * ScoreOf(items, percentage, st)).Floor as real == 10000.0 * ScoreOf(items, percentage, st)
  {
    var x := Min(1.0, ExactScore(items, percentage, st));
    SumIsCounted(items, st.partialWeight);
    ScoreIsRounded(items, percentage, st);
    Round4Near(x);
    hide ScoreOf, ExactScore, Round4;
  }

  lemma SumIsCounted(items: seq<Status>, p: real)
    ensures Weighted(items, p) == CountedSum(items, p)
  {
    SumsAreCounts(items, p);
  }

  lemma ScoreIsRounded(items: seq<Status>, percentage: real, st: Settings)
    requires Weighted(items, st.partialWeight) == CountedSum(items, st.partialWeight)
    ensures ScoreOf(items, percentage, st) == Round4(Min(1.0, ExactScore(items, percentage, st)))
  {
    hide Round4, Min, Weighted, CountedSum;
    var share := Fraction(items, st);
    assert share == CountedSum(items, st.partialWeight) / st.K() as real;
    hide Fraction;
    assert ExactScore(items, percentage, st) == ShareOf(share, percentage);
    hide ExactScore, ShareOf;
  }

  /** A tier past `Possible` means a full window whose weighted sum reaches the lower of the two limits. */
  lemma AlertingTierMeansEvidence(items: seq<Status>, st: Settings)
    ensures TierOf(items, st).Rank() >= 2 <==>
            |items| >= st.K() && Weighted(items, st.partialWeight) >= Min(st.likely, st.confirmed) * st.K() as real
    ensures StatusFromTier(TierOf(items, st)) == Blocked <==> TierOf(items, st).Rank() >= 2
  {
    FractionCompare(items, st, Min(st.likely, st.confirmed));
  }

  lemma {:induction false} FlaggedIffNotClear(items: seq<Status>)
    ensures Flagged(items) == 0 <==> forall i :: 0 <= i < |items| ==> items[i] == Clear
  {
    if items != [] {
      FlaggedIffNotClear(items[..|items| - 1]);
    }
  }

  /** Before the window is full nothing passes `Possible`, and a single flagged reading is enough to reach it. */
  lemma ColdStart(items: seq<Status>, st: Settings)
    requires |items| < st.K()
    ensures TierOf(items, st) == if forall i :: 0 <= i < |items| ==> items[i] == Clear then ClearTier else Possible
    ensures StatusFromTier(TierOf(items, st)) != Blocked
  {
    FlaggedIffNotClear(items);
  }

  /** With the shipped settings: at least three of the last five readings are flagged, one of them blocked. */
  lemma DefaultEvidence(items: seq<Status>)
    requires |items| <= 5 && TierOf(items, DEFAULTS).Rank() >= 2
    ensures |items| == 5 && Flagged(items) >= 3 && Blocked in items
  {
    AlertingTierMeansEvidence(items, DEFAULTS);
    WeightedBounds(items, 0.5);
    if Blocked !in items {
      PartialWeightOnly(items, 0.5);
    }
  }

  lemma {:induction false} PartialWeightOnly(items: seq<Status>, p: real)
    requires Blocked !in items && 0.0 <= p
    ensures Weighted(items, p) <= p * |items| as real
  {
    if items != [] {
      var n := |items| - 1;
      assert Blocked !in items[..n];
      PartialWeightOnly(items[..n], p);
      assert items[n] in items;
      assert p * (n + 1) as real == p * n as real + p;
    }
  }

  lemma {:induction false} AllPartial(n: nat, p: real)
    ensures var items := seq(n, i => Partial);
            Weighted(items, p) == p * n as real && Flagged(items) == n
  {
    var items := seq(n, i => Partial);
    if n > 0 {
      AllPartial(n - 1, p);
      assert items[..n - 1] == seq(n - 1, i => Partial);
      assert p * n as real == p * (n - 1) as real + p;
    }
  }

  lemma TierOfPartials(items: seq<Status>, st: Settings)
    requires |items| <= st.K() && Blocked !in items
    requires 0.0 <= st.partialWeight < st.likely && st.partialWeight < st.confirmed
    ensures TierOf(items, st).Rank() <= 1
  {
    var k := st.K() as real;
    PartialWeightOnly(items, st.partialWeight);
    if |items| == st.K() {
      DivideMonotone(Weighted(items, st.partialWeight), st.partialWeight * k, k);
      DivideBack(st.partialWeight, k);
      assert Fraction(items, st) <= st.partialWeight;
    }
  }

  lemma FullOfPartials(st: Settings)
    ensures var items := seq(st.K(), i => Partial);
            TierOf(items, st).Rank() <= 1 ==> st.partialWeight < st.likely && st.partialWeight < st.confirmed
  {
    AllPartial(st.K(), st.partialWeight);
    DivideBack(st.partialWeight, st.K() as real);
  }

  /** Partial readings alone never pass `Possible`, for exactly the settings whose partial weight is below both limits. */
  lemma PartialsNeverAlert(st: Settings)
    requires 0.0 <= st.partialWeight
    ensures (forall items: seq<Status> | |items| <= st.K() && Blocked !in items :: TierOf(items, st).Rank() <= 1)
       <==> st.partialWeight < st.likely && st.partialWeight < st.confirmed
  {
    if st.partialWeight < st.likely && st.partialWeight < st.confirmed {
      forall items: seq<Status> | |items| <= st.K() && Blocked !in items ensures TierOf(items, st).Rank() <= 1 {
        TierOfPartials(items, st);
      }
    } else {
      FullOfPartials(st);
      var items := seq(st.K(), i => Partial);
      assert |items| <= st.K() && Blocked !in items && TierOf(items, st).Rank() > 1;
    }
  }

  ghost predicate Pointwise(a: seq<Status>, b: seq<Status>) {
    |a| == |b| && forall i :: 0 <= i < |a| ==> a[i].Rank() <= b[i].Rank()
  }

  lemma {:induction false} WeightedMonotone(a: seq<Status>, b: seq<Status>, p: real)
    requires Pointwise(a, b) && 0.0 <= p <= 1.0
    ensures Weighted(a, p) <= Weighted(b, p) && Flagged(a) <= Flagged(b)
  {
    if a != [] {
      var n := |a| - 1;
      WeightedMonotone(a[..n], b[..n], p);
      assert a[n].Rank() <= b[n].Rank();
    }
  }

  /** A pointwise worse window never has a lower tier, nor a better fusion status. */
  lemma TierMonotone(a: seq<Status>, b: seq<Status>, st: Settings)
    requires Pointwise(a, b) && 0.0 <= st.partialWeight <= 1.0
    ensures TierOf(a, st).Rank() <= TierOf(b, st).Rank()
    ensures StatusFromTier(TierOf(a, st)).Rank() <= StatusFromTier(TierOf(b, st)).Rank()
  {
    WeightedMonotone(a, b, st.partialWeight);
    DivideMonotone(Weighted(a, st.partialWeight), Weighted(b, st.partialWeight), st.K() as real);
  }

  lemma {:induction false} WeightedFirst(items: seq<Status>, p: real)
    requires |items| > 0
    ensures Weighted(items, p) == Weight(items[0], p) + Weighted(items[1..], p)
  {
    var n := |items| - 1;
    if n > 0 {
      WeightedFirst(items[..n], p);
      assert items[..n][1..] == items[1..][..n - 1];
    }
  }

  lemma WeightedAppend(items: seq<Status>, s: Status, p: real)
    ensures Weighted(items + [s], p) == Weighted(items, p) + Weight(s, p)
  {
    assert (items + [s])[..|items|] == items;
  }

  /** One reading moves the weighted sum of a full window by at most one. */
  lemma OneReadingMovesByOne(items: seq<Status>, s: Status, p: real)
    requires |items| > 0 && 0.0 <= p <= 1.0
    ensures var next := items[1..] + [s];
            Weighted(items, p) - 1.0 <= Weighted(next, p) <= Weighted(items, p) + 1.0
  {
    WeightedFirst(items, p);
    WeightedAppend(items[1..], s, p);
  }

  lemma FractionMovesByOneReading(items: seq<Status>, s: Status, st: Settings)
    requires |items| > 0 && 0.0 <= st.partialWeight <= 1.0
    ensures var next := items[1..] + [s];
            Fraction(items, st) - 1.0 / st.K() as real <= Fraction(next, st) <= Fraction(items, st) + 1.0 / st.K() as real
  {
    hide Weighted;
    OneReadingMovesByOne(items, s, st.partialWeight);
    var w, v, k := Weighted(items, st.partialWeight), Weighted(items[1..] + [s], st.partialWeight), st.K() as real;
    DivideMonotone(w - 1.0, v, k);
    DivideMonotone(v, w + 1.0, k);
    assert (w - 1.0) / k == w / k - 1.0 / k && (w + 1.0) / k == w / k + 1.0 / k;
  }

  /**
   Once the window is full, a single reading never takes `Confirmed` below `Likely` nor anything below `Likely`
   to `Confirmed`, whenever the two limits are at least one reading apart.
   */
  lemma NoTierJump(items: seq<Status>, s: Status, st: Settings)
    requires |items| == st.K() && 0.0 <= st.partialWeight <= 1.0
    requires st.confirmed - st.likely >= 1.0 / st.K() as real
    ensures var next := items[1..] + [s];
            && Pushed(Some(Window(st.K(), items)), st.K(), s) == Window(st.K(), next)
            && (TierOf(items, st) == Confirmed ==> TierOf(next, st).Rank() >= 2)
            && (TierOf(items, st).Rank() <= 1 ==> TierOf(next, st) != Confirmed)
  {
    assert Pushed(Some(Window(st.K(), items)), st.K(), s) == Window(st.K(), items[1..] + [s]);
    hide Pushed, LastN, Weighted, Fraction, Flagged;
    FractionMovesByOneReading(items, s, st);
  }

  lemma DefaultsNoTierJump(items: seq<Status>, s: Status)
    requires |items| == 5
    ensures TierOf(items, DEFAULTS) == Confirmed ==> TierOf(items[1..] + [s], DEFAULTS).Rank() >= 2
    ensures TierOf(items, DEFAULTS).Rank() <= 1 ==> TierOf(items[1..] + [s], DEFAULTS) != Confirmed
  {
    NoTierJump(items, s, DEFAULTS);
  }

  /** The score stays in [0, 1]. */
  lemma ScoreInUnit(items: seq<Status>, percentage: real, st: Settings)
    requires 0.0 <= st.partialWeight <= 1.0 && 0.0 <= percentage
    ensures 0.0 <= ScoreOf(items, percentage, st) <= 1.0
  {
    assert Fraction(items, st) >= 0.0 by {
      WeightedBounds(items, st.partialWeight);
      DivideMonotone(0.0, Weighted(items, st.partialWeight), st.K() as real);
    }
    hide Fraction, Round4;
    CappedProductInUnit(Fraction(items, st), percentage / 100.0);
  }

  lemma CappedProductInUnit(a: real, b: real)
    requires 0.0 <= a && 0.0 <= b
    ensures 0.0 <= Round4(Min(1.0, a * b)) <= 1.0
  {
    assert a * b >= 0.0;
    hide Round4;
    Round4InUnit(Min(1.0, a * b));
  }

  lemma Round4InUnit(x: real)
    requires 0.0 <= x <= 1.0
    ensures 0.0 <= Round4(x) <= 1.0
  {
    RoundMonotone(0.0, 10000.0 * x);
    RoundMonotone(10000.0 * x, 10000.0);
  }
}
