/** Trend charts: bucketing readings into fixed intervals, and thinning a long series. */
module Trend {
  import opened Common
  import opened Rounding

  /** Times are integer ticks; the interval is given in the same ticks. */
  datatype Reading = Reading(ts: int, level: real)

  function BucketOf(ts: int, interval: int): int
    requires interval > 0
  {
    ts - ts % interval
  }

  /** The levels of one bucket, in the order of the readings. */
  function InBucket(items: seq<Reading>, bucket: int, interval: int): seq<real>
    requires interval > 0
  {
    if items == [] then []
    else
      var last := items[|items| - 1];
      var before := InBucket(items[..|items| - 1], bucket, interval);
      if BucketOf(last.ts, interval) == bucket then before + [last.level] else before
  }

  function Sum(xs: seq<real>): real {
    if xs == [] then 0.0 else Sum(xs[..|xs| - 1]) + xs[|xs| - 1]
  }

  function Average(xs: seq<real>): real
    requires xs != []
  {
    Sum(xs) / |xs| as real
  }

  function LevelOf(xs: seq<real>): real { if xs == [] then 0.0 else Round2(Average(xs)) }

  function Offset(n: nat, interval: int): int { n * interval }

  lemma OffsetSucc(n: nat, interval: int)
    ensures Offset(0, interval) == 0 && Offset(n + 1, interval) == Offset(n, interval) + interval
  {
  }

  /** How many buckets the second loop visits. */
  function Visits(start: int, end: int, interval: int): nat
    requires interval > 0
  {
    var first := BucketOf(start, interval);
    if end < first then 0 else (end - first) / interval + 1
  }

  function Label(start: int, j: nat, interval: int): int
    requires interval > 0
  {
    BucketOf(start, interval) + Offset(j, interval)
  }

  lemma VisitsReach(start: int, end: int, interval: int, n: nat)
    requires interval > 0
    ensures Label(start, n, interval) <= end <==> n < Visits(start, end, interval)
  {
    var first := BucketOf(start, interval);
    var q := (end - first) / interval;
    assert end - first == q * interval + (end - first) % interval;
    if n <= q {
      MultiplesMonotone(n, q, interval);
    } else {
      MultiplesMonotone(q + 1, n, interval);
      assert (q + 1) * interval == q * interval + interval;
      if q < 0 {
        MultiplesMonotone(0, n, interval);
      }
    }
  }

  lemma MultiplesMonotone(a: int, b: int, interval: int)
    requires a <= b && interval > 0
    ensures a * interval <= b * interval
  {
    assert (b - a) * interval >= 0;
  }

  lemma MultiplesStrict(a: int, b: int, interval: int)
    requires interval > 0
    ensures a < b ==> a * interval + interval <= b * interval
  {
    if a < b {
      MultiplesMonotone(a + 1, b, interval);
    }
  }

  // ---------------------------------------------------------------- the two loops

  method ProcessTrendData(items: seq<Reading>, interval: int, start: int, end: int)
    returns (labels: seq<int>, levels: seq<real>)
    requires interval > 0
    ensures |labels| == |levels| == Visits(start, end, interval)
    ensures forall j :: 0 <= j < |labels| ==>
              labels[j] == Label(start, j, interval) && levels[j] == LevelOf(InBucket(items, labels[j], interval))
  {
    var grouped := Group(items, interval);
    var bucket := start - start % interval;
    labels, levels := [], [];
    OffsetSucc(0, interval);
    VisitsReach(start, end, interval, 0);
    while bucket <= end
      invariant |labels| == |levels| <= Visits(start, end, interval)
      invariant bucket == Label(start, |labels|, interval)
      invariant bucket <= end <==> |labels| < Visits(start, end, interval)
      invariant forall j :: 0 <= j < |labels| ==>
                  labels[j] == Label(start, j, interval) && levels[j] == LevelOf(InBucket(items, labels[j], interval))
      decreases Visits(start, end, interval) - |labels|
    {
      hide Visits, Label, Average, Round2;
      if bucket in grouped {
        levels := levels + [Round2(Average(grouped[bucket]))];
      } else {
        levels := levels + [0.0];
      }
      labels := labels + [bucket];
      LabelSucc(start, |labels| - 1, interval);
      VisitsReach(start, end, interval, |labels|);
      bucket := bucket + interval;
    }
  }

  lemma LabelSucc(start: int, n: nat, interval: int)
    requires interval > 0
    ensures Label(start, n + 1, interval) == Label(start, n, interval) + interval
  {
    OffsetSucc(n, interval);
  }

  method Group(items: seq<Reading>, interval: int) returns (grouped: map<int, seq<real>>)
    requires interval > 0
    ensures forall b :: b in grouped <==> InBucket(items, b, interval) != []
    ensures forall b :: b in grouped ==> grouped[b] == InBucket(items, b, interval)
  {
    grouped := map[];
    for i := 0 to |items|
      invariant forall b :: b in grouped <==> InBucket(items[..i], b, interval) != []
      invariant forall b :: b in grouped ==> grouped[b] == InBucket(items[..i], b, interval)
    {
      var ts := items[i].ts;
      var bucket := ts - ts % interval;
      assert items[..i + 1][..i] == items[..i];
      if bucket !in grouped {
        grouped := grouped[bucket := []];
      }
      grouped := grouped[bucket := grouped[bucket] + [items[i].level]];
    }
    assert items[..|items|] == items;
  }

  // ---------------------------------------------------------------- conservation

  /** The levels of the readings with lo <= ts < hi. */
  ghost function Within(items: seq<Reading>, lo: int, hi: int): seq<real> {
    if items == [] then []
    else
      var last := items[|items| - 1];
      var before := Within(items[..|items| - 1], lo, hi);
      if lo <= last.ts < hi then before + [last.level] else before
  }

  lemma SumAppend(xs: seq<real>, x: real)
    ensures Sum(xs + [x]) == Sum(xs) + x
  {
    assert (xs + [x])[..|xs|] == xs;
  }

  /** Readings split at a boundary: nothing is lost or counted twice. */
  lemma {:induction false} WithinSplits(items: seq<Reading>, lo: int, mid: int, hi: int)
    requires lo <= mid <= hi
    ensures |Within(items, lo, hi)| == |Within(items, lo, mid)| + |Within(items, mid, hi)|
    ensures Sum(Within(items, lo, hi)) == Sum(Within(items, lo, mid)) + Sum(Within(items, mid, hi))
  {
    hide Sum;
    if items == [] {
      SumEmpty();
    } else {
      var rest, last := items[..|items| - 1], items[|items| - 1];
      WithinSplits(rest, lo, mid, hi);
      SumAppend(Within(rest, lo, hi), last.level);
      SumAppend(Within(rest, lo, mid), last.level);
      SumAppend(Within(rest, mid, hi), last.level);
    }
  }

  lemma SumEmpty()
    ensures Sum([]) == 0.0
  {
  }

  /** A bucket is the half-open interval that starts at it. */
  lemma {:induction false} BucketIsInterval(items: seq<Reading>, bucket: int, interval: int)
    requires interval > 0 && bucket % interval == 0
    ensures InBucket(items, bucket, interval) == Within(items, bucket, bucket + interval)
  {
    if items != [] {
      BucketIsInterval(items[..|items| - 1], bucket, interval);
      BucketBounds(items[|items| - 1].ts, bucket, interval);
    }
  }

  lemma BucketBounds(ts: int, bucket: int, interval: int)
    requires interval > 0 && bucket % interval == 0
    ensures BucketOf(ts, interval) == bucket <==> bucket <= ts < bucket + interval
  {
    var q, p := ts / interval, bucket / interval;
    assert ts == q * interval + ts % interval && bucket == p * interval;
    MultiplesStrict(q, p, interval);
    MultiplesStrict(p, q, interval);
  }

  ghost function CountIn(items: seq<Reading>, start: int, n: nat, interval: int): nat
    requires interval > 0
  {
    if n == 0 then 0 else CountIn(items, start, n - 1, interval) + |InBucket(items, Label(start, n - 1, interval), interval)|
  }

  ghost function SumIn(items: seq<Reading>, start: int, n: nat, interval: int): real
    requires interval > 0
  {
    if n == 0 then 0.0 else SumIn(items, start, n - 1, interval) + Sum(InBucket(items, Label(start, n - 1, interval), interval))
  }

  lemma LabelAligned(start: int, n: nat, interval: int)
    requires interval > 0
    ensures Label(start, n, interval) % interval == 0 && Label(start, n, interval) >= BucketOf(start, interval)
  {
    var q := start / interval;
    assert start == q * interval + start % interval;
    assert Label(start, n, interval) == q * interval + n * interval == (q + n) * interval;
    MultipleAligned(q + n, interval);
    MultiplesMonotone(0, n, interval);
  }

  lemma MultipleAligned(k: int, interval: int)
    requires interval > 0
    ensures (k * interval) % interval == 0
  {
    var r := (k * interval) % interval;
    var q := (k * interval) / interval;
    assert k * interval == q * interval + r;
    assert (k - q) * interval == r;
    MultiplesStrict(0, k - q, interval);
    MultiplesStrict(k - q, 0, interval);
  }

  /** The first n buckets hold exactly the readings of the interval they span: counts and sums agree. */
  lemma {:induction false} BucketsConserve(items: seq<Reading>, start: int, n: nat, interval: int)
    requires interval > 0
    ensures BucketOf(start, interval) <= Label(start, n, interval)
    ensures CountIn(items, start, n, interval) == |Within(items, BucketOf(start, interval), Label(start, n, interval))|
    ensures SumIn(items, start, n, interval) == Sum(Within(items, BucketOf(start, interval), Label(start, n, interval)))
  {
    hide Label, BucketOf, Sum, Offset;
    if n == 0 {
      LabelZero(start, interval);
      WithinEmpty(items, BucketOf(start, interval));
    } else {
      var first, before := BucketOf(start, interval), Label(start, n - 1, interval);
      BucketsConserve(items, start, n - 1, interval);
      LabelSucc(start, n - 1, interval);
      LabelAligned(start, n - 1, interval);
      BucketIsInterval(items, before, interval);
      WithinSplits(items, first, before, before + interval);
    }
  }

  lemma LabelZero(start: int, interval: int)
    requires interval > 0
    ensures Label(start, 0, interval) == BucketOf(start, interval)
  {
    OffsetSucc(0, interval);
  }

  lemma {:induction false} WithinEmpty(items: seq<Reading>, lo: int)
    ensures Within(items, lo, lo) == [] && Sum([]) == 0.0
  {
    if items != [] {
      WithinEmpty(items[..|items| - 1], lo);
    }
  }

  /**
   Over the whole chart every reading from the start to the end is counted once; what else is counted lies in
   the first bucket before the start or in the last one after the end.
   */
  lemma ChartConserves(items: seq<Reading>, interval: int, start: int, end: int)
    requires interval > 0 && start <= end
    ensures var n := Visits(start, end, interval);
            && n >= 1 && Label(start, 0, interval) <= start && end < Label(start, n, interval) <= end + interval
            && start < Label(start, 1, interval)
            && CountIn(items, start, n, interval) == |Within(items, Label(start, 0, interval), Label(start, n, interval))|
            && SumIn(items, start, n, interval) == Sum(Within(items, Label(start, 0, interval), Label(start, n, interval)))
  {
    hide Label, Sum, Within, Visits, Offset;
    var n := Visits(start, end, interval);
    LabelZero(start, interval);
    LabelSucc(start, 0, interval);
    VisitsReach(start, end, interval, 0);
    VisitsReach(start, end, interval, n);
    VisitsReach(start, end, interval, n - 1);
    LabelSucc(start, n - 1, interval);
    BucketsConserve(items, start, n, interval);
  }

  /** What an average and its count stand for together. */
  function Recovered(xs: seq<real>): real { if xs == [] then 0.0 else Average(xs) * |xs| as real }

  lemma AverageTimesCount(xs: seq<real>)
    ensures Recovered(xs) == Sum(xs)
  {
    if xs != [] {
      var n := |xs| as real;
      assert Sum(xs) / n * n == Sum(xs);
    }
  }

  /** The same for the level the chart shows. */
  function Shown(xs: seq<real>): real { LevelOf(xs) * |xs| as real }

  /** A bucket's rounded level stands for its readings up to half a hundredth each. */
  lemma LevelTimesCount(xs: seq<real>)
    ensures -0.005 * |xs| as real <= Shown(xs) - Sum(xs) <= 0.005 * |xs| as real
  {
    AverageTimesCount(xs);
    if xs != [] {
      hide Sum, Average;
      var n, d := |xs| as real, LevelOf(xs) - Average(xs);
      Round2Near(Average(xs));
      hide LevelOf;
      assert Shown(xs) - Sum(xs) == d * n;
      SignOfProduct(0.005 - d, n);
      SignOfProduct(d + 0.005, n);
      assert (0.005 - d) * n == 0.005 * n - d * n;
      assert (d + 0.005) * n == d * n + 0.005 * n;
    }
  }

  ghost function ShownIn(items: seq<Reading>, start: int, n: nat, interval: int): real
    requires interval > 0
  {
    if n == 0 then 0.0
    else ShownIn(items, start, n - 1, interval) + Shown(InBucket(items, Label(start, n - 1, interval), interval))
  }

  ghost function AveragesIn(items: seq<Reading>, start: int, n: nat, interval: int): real
    requires interval > 0
  {
    if n == 0 then 0.0
    else AveragesIn(items, start, n - 1, interval) + Recovered(InBucket(items, Label(start, n - 1, interval), interval))
  }

  lemma {:induction false} ShownNearSum(items: seq<Reading>, start: int, n: nat, interval: int)
    requires interval > 0
    ensures var e := 0.005 * CountIn(items, start, n, interval) as real;
            -e <= ShownIn(items, start, n, interval) - SumIn(items, start, n, interval) <= e
  {
    hide Label, Shown, Sum, InBucket;
    if n > 0 {
      ShownNearSum(items, start, n - 1, interval);
      LevelTimesCount(InBucket(items, Label(start, n - 1, interval), interval));
    }
  }

  lemma {:induction false} AveragesAreSums(items: seq<Reading>, start: int, n: nat, interval: int)
    requires interval > 0
    ensures AveragesIn(items, start, n, interval) == SumIn(items, start, n, interval)
  {
    hide Label, Recovered, Sum, InBucket;
    if n > 0 {
      AveragesAreSums(items, start, n - 1, interval);
      AverageTimesCount(InBucket(items, Label(start, n - 1, interval), interval));
    }
  }

  /**
   The chart's averages weighted by their counts give back the total of the readings it spans: exactly before
   rounding, and within half a hundredth per reading for the levels shown.
   */
  lemma AveragesConserve(items: seq<Reading>, interval: int, start: int, end: int)
    requires interval > 0 && start <= end
    ensures var n := Visits(start, end, interval);
            var within := Within(items, Label(start, 0, interval), Label(start, n, interval));
            && AveragesIn(items, start, n, interval) == Sum(within)
            && -0.005 * |within| as real <= ShownIn(items, start, n, interval) - Sum(within) <= 0.005 * |within| as real
  {
    hide Label, Visits, Within, Sum, CountIn, SumIn, ShownIn, AveragesIn;
    ChartConserves(items, interval, start, end);
    AveragesAreSums(items, start, Visits(start, end, interval), interval);
    ShownNearSum(items, start, Visits(start, end, interval), interval);
  }

  /** Each reading in range falls into exactly one visited bucket. */
  lemma OneBucketPerReading(ts: int, interval: int, start: int, end: int)
    requires interval > 0 && start <= ts <= end
    ensures exists j: nat :: j < Visits(start, end, interval) && BucketOf(ts, interval) == Label(start, j, interval)
    ensures forall i: nat, j: nat :: Label(start, i, interval) == Label(start, j, interval) ==> i == j
  {
    var q, p := ts / interval, start / interval;
    assert ts == q * interval + ts % interval && start == p * interval + start % interval;
    MultiplesStrict(q, p, interval);
    var j: nat := q - p;
    assert q * interval == p * interval + j * interval;
    assert BucketOf(ts, interval) == Label(start, j, interval);
    VisitsReach(start, end, interval, j);
    forall i: nat, k: nat | Label(start, i, interval) == Label(start, k, interval) ensures i == k {
      MultiplesStrict(i, k, interval);
      MultiplesStrict(k, i, interval);
    }
  }

  // ---------------------------------------------------------------- downsampling

  /** `int(i * step)` with `step = n / max`, in exact arithmetic. */
  function SampleIndex(i: nat, n: nat, max: nat): int
    requires max > 0
  {
    (i as real * (n as real / max as real)).Floor
  }

  datatype Sampled<T> = Rows(rows: seq<T>) | DivisionByZero

  method Downsample<T>(rows: seq<T>, max: int) returns (r: Sampled<T>)
    ensures |rows| <= max ==> r == Rows(rows)
    ensures |rows| > max && max == 0 ==> r.DivisionByZero?
    ensures |rows| > max && max != 0 ==>
              r.Rows? && |r.rows| == (if max < 0 then 0 else max) && |r.rows| <= |rows|
              && forall i :: 0 <= i < |r.rows| ==>
                   0 <= SampleIndex(i, |rows|, max) < |rows| && r.rows[i] == rows[SampleIndex(i, |rows|, max)]
  {
    if |rows| <= max {
      return Rows(rows);
    }
    if max == 0 {
      return DivisionByZero;
    }
    if max < 0 {
      return Rows([]);
    }
    SamplesInRange(|rows|, max);
    r := Rows(seq(max, i requires 0 <= i < max => rows[SampleIndex(i, |rows|, max)]));
  }

  lemma SampleIsDivision(i: nat, n: nat, max: nat)
    requires max > 0
    ensures SampleIndex(i, n, max) == i * n / max
  {
    var x := i as real * (n as real / max as real);
    assert x * max as real == (i * n) as real by {
      assert (n as real / max as real) * max as real == n as real;
      assert (i * n) as real == i as real * n as real;
    }
    var q, m := i * n / max, (i * n) % max;
    assert i * n == q * max + m;
    FloorOfQuotient(x, q, m, max);
  }

  lemma FloorOfQuotient(x: real, q: int, m: int, max: nat)
    requires max > 0 && 0 <= m < max && x * max as real == (q * max + m) as real
    ensures x.Floor == q
  {
    var d := max as real;
    assert (x - q as real) * d == m as real;
    SignOfProduct(x - q as real, d);
    SignOfProduct(1.0 - (x - q as real), d);
    assert (1.0 - (x - q as real)) * d == d - m as real;
  }

  /** The i-th sample is the row at the i-th share of the series, rounded down. */
  lemma SampleAtShare(i: nat, n: nat, max: nat)
    requires max > 0
    ensures SampleIndex(i, n, max) * max <= i * n < (SampleIndex(i, n, max) + 1) * max
  {
    SampleIsDivision(i, n, max);
    var q, m := i * n / max, (i * n) % max;
    assert i * n == q * max + m;
    assert (q + 1) * max == q * max + max;
  }

  /** Two neighbouring samples are n / max apart, rounded down or up. */
  lemma SampleGap(i: nat, n: nat, max: nat)
    requires max > 0
    ensures n / max <= SampleIndex(i + 1, n, max) - SampleIndex(i, n, max) <= n / max + 1
  {
    SampleIsDivision(i, n, max);
    SampleIsDivision(i + 1, n, max);
    var a, b := i * n, n;
    assert (i + 1) * n == a + b;
    var qa, ra, qb, rb, q, r := a / max, a % max, b / max, b % max, (a + b) / max, (a + b) % max;
    assert a == qa * max + ra && b == qb * max + rb && a + b == q * max + r;
    assert (q - qa - qb) * max == ra + rb - r;
    MultiplesStrict(q - qa - qb, 0, max);
    MultiplesStrict(1, q - qa - qb, max);
  }

  /** The samples of a longer series are distinct rows in order, from the first row on, evenly spread. */
  lemma {:induction false} SamplesIncrease(i: nat, j: nat, n: nat, max: nat)
    requires 0 < max < n && i <= j
    ensures SampleIndex(j, n, max) - SampleIndex(i, n, max) >= j - i
    ensures SampleIndex(0, n, max) == 0
    decreases j
  {
    SampleIsDivision(0, n, max);
    if i < j {
      SamplesIncrease(i, j - 1, n, max);
      SampleGap(j - 1, n, max);
      assert n / max >= 1;
    }
  }

  lemma SamplesInRange(n: nat, max: nat)
    requires 0 < max < n
    ensures forall i: nat :: i < max ==> 0 <= SampleIndex(i, n, max) < n
  {
    forall i: nat | i < max ensures 0 <= SampleIndex(i, n, max) < n {
      SamplesIncrease(0, i, n, max);
      SamplesIncrease(i, max, n, max);
      SampleIsDivision(max, n, max);
      assert max * n / max == n by {
        var q, m := max * n / max, (max * n) % max;
        assert max * n == q * max + m;
        assert (n - q) * max == m;
        MultiplesStrict(0, n - q, max);
        MultiplesStrict(n - q, 0, max);
      }
    }
  }
}
