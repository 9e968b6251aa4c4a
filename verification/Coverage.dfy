/** The share of the frame's width that detection boxes cover, and the status it stands for. */
module Coverage {
  import opened Common
  import opened Rounding
  import opened Detection

  const CLEAR_MAX := 20.0
  const PARTIAL_MAX := 60.0

  datatype Status = Clear | Partial | Blocked {
    function Rank(): nat {
      match this case Clear => 0 case Partial => 1 case Blocked => 2
    }
  }

  /** A half-open range of pixel columns. */
  datatype Span = Span(lo: int, hi: int)

  /** Python's `int` on a float: towards zero. */
  function Trunc(x: real): int {
    if x >= 0.0 then x.Floor else -(-x).Floor
  }

  function IntMax(a: int, b: int): int { if a >= b then a else b }

  function IntMin(a: int, b: int): int { if a <= b then a else b }

  // ---------------------------------------------------------------- specification

  /** A pixel column is covered by a box that has height there. */
  predicate Covers(d: Detected, c: int) {
    Trunc(d.box.x1) <= c < Trunc(d.box.x2) && d.box.y2 > d.box.y1
  }

  function Columns(ds: seq<Detected>, w: nat): set<int> {
    set c | 0 <= c < w && Shaded(ds, c)
  }

  predicate Shaded(ds: seq<Detected>, c: int) { exists d :: d in ds && Covers(d, c) }

  /** The covered share in percent, rounded to hundredths. */
  function Pct(ds: seq<Detected>, w: nat): real {
    if w == 0 then 0.0 else Round2(100.0 * |Columns(ds, w)| as real / w as real)
  }

  function StatusFromPct(pct: real): Status {
    if pct < CLEAR_MAX then Clear else if pct < PARTIAL_MAX then Partial else Blocked
  }

  // ---------------------------------------------------------------- the sweep

  ghost function Range(lo: int, hi: int): (r: set<int>)
    requires lo <= hi
    ensures forall c :: c in r <==> lo <= c < hi
    ensures |r| == hi - lo
    decreases hi - lo
  {
    if lo == hi then {} else Range(lo, hi - 1) + {hi - 1}
  }

  ghost predicate Covered(spans: seq<Span>, c: int) { exists s :: s in spans && s.lo <= c < s.hi }

  function SumWidths(spans: seq<Span>): int {
    if spans == [] then 0 else SumWidths(spans[..|spans| - 1]) + spans[|spans| - 1].hi - spans[|spans| - 1].lo
  }

  /** Tuple order on (lo, hi). */
  predicate Before(a: Span, b: Span) { a.lo < b.lo || (a.lo == b.lo && a.hi <= b.hi) }

  ghost predicate Ordered(spans: seq<Span>) {
    forall i, j :: 0 <= i < j < |spans| ==> Before(spans[i], spans[j])
  }

  function Insert(s: Span, spans: seq<Span>): seq<Span> {
    if spans == [] || Before(s, spans[0]) then [s] + spans else [spans[0]] + Insert(s, spans[1..])
  }

  /** `spans.sort()`. */
  function Sorted(spans: seq<Span>): seq<Span> {
    if spans == [] then [] else Insert(spans[0], Sorted(spans[1..]))
  }

  lemma {:induction false} InsertMembers(s: Span, spans: seq<Span>)
    ensures multiset(Insert(s, spans)) == multiset(spans) + multiset{s}
    ensures forall x :: x in Insert(s, spans) <==> x == s || x in spans
  {
    if !(spans == [] || Before(s, spans[0])) {
      InsertMembers(s, spans[1..]);
      assert spans == [spans[0]] + spans[1..];
    }
  }

  lemma {:induction false} InsertOrdered(s: Span, spans: seq<Span>)
    requires Ordered(spans)
    ensures Ordered(Insert(s, spans))
  {
    if spans == [] || Before(s, spans[0]) {
    } else {
      var rest := Insert(s, spans[1..]);
      InsertOrdered(s, spans[1..]);
      InsertMembers(s, spans[1..]);
      forall j | 0 <= j < |rest| ensures Before(spans[0], rest[j]) {
        assert rest[j] in rest;
      }
    }
  }

  /** The library sort is pinned down: an ordered arrangement of the same spans, duplicates included. */
  lemma {:induction false} SortedIsOrderedArrangement(spans: seq<Span>)
    ensures Ordered(Sorted(spans)) && multiset(Sorted(spans)) == multiset(spans)
    ensures forall x :: x in Sorted(spans) <==> x in spans
  {
    if spans != [] {
      SortedIsOrderedArrangement(spans[1..]);
      InsertOrdered(spans[0], Sorted(spans[1..]));
      InsertMembers(spans[0], Sorted(spans[1..]));
      assert spans == [spans[0]] + spans[1..];
    }
  }

  /** Non-empty spans with a gap between each and the next. */
  ghost predicate Separated(spans: seq<Span>) {
    && (forall i :: 0 <= i < |spans| ==> spans[i].lo < spans[i].hi)
    && (forall i, j :: 0 <= i < j < |spans| ==> spans[i].hi < spans[j].lo)
  }

  /** Separated spans add up to the number of columns they cover. */
  lemma {:induction false} SeparatedMeasure(spans: seq<Span>, columns: set<int>)
    requires Separated(spans)
    requires forall c :: c in columns <==> Covered(spans, c)
    ensures SumWidths(spans) == |columns|
  {
    if spans == [] {
      assert columns == {} by { forall c ensures c !in columns { assert !Covered(spans, c); } }
    } else {
      hide Covered;
      var n := |spans| - 1;
      assert Separated(spans[..n]) && spans[n].lo < spans[n].hi;
      hide Separated;
      var last := Range(spans[n].lo, spans[n].hi);
      forall c ensures c in columns - last <==> Covered(spans[..n], c) {
        LastSpanApart(spans, c);
      }
      SeparatedMeasure(spans[..n], columns - last);
      forall c | c in last ensures c in columns {
        LastSpanCovered(spans, c);
      }
      SplitSize(columns, last);
    }
  }

  lemma SplitSize(a: set<int>, b: set<int>)
    requires b <= a
    ensures |a| == |a - b| + |b|
  {
    assert a == (a - b) + b;
  }

  lemma LastSpanCovered(spans: seq<Span>, c: int)
    requires |spans| > 0 && spans[|spans| - 1].lo <= c < spans[|spans| - 1].hi
    ensures Covered(spans, c)
  {
    assert spans[|spans| - 1] in spans;
  }

  lemma LastSpanApart(spans: seq<Span>, c: int)
    requires Separated(spans) && |spans| > 0
    ensures var n := |spans| - 1;
            Covered(spans[..n], c) <==> Covered(spans, c) && !(spans[n].lo <= c < spans[n].hi)
  {
    var n := |spans| - 1;
    if Covered(spans, c) && !(spans[n].lo <= c < spans[n].hi) {
      var i :| 0 <= i < |spans| && spans[i].lo <= c < spans[i].hi;
      assert spans[..n][i] == spans[i];
      assert spans[i] in spans[..n];
    }
    if Covered(spans[..n], c) {
      var i :| 0 <= i < n && spans[..n][i].lo <= c < spans[..n][i].hi;
      assert spans[i] in spans;
    }
  }

  /** The first loop: clip each box to the frame and keep what is not empty. */
  method CollectSpans(detections: seq<Detected>, w: nat) returns (spans: seq<Span>)
    ensures forall s :: s in spans ==> 0 <= s.lo < s.hi <= w
    ensures forall c :: Covered(spans, c) <==> c in Columns(detections, w)
  {
    spans := [];
    for i := 0 to |detections|
      invariant forall s :: s in spans ==> 0 <= s.lo < s.hi <= w
      invariant forall c :: Covered(spans, c) <==> c in Columns(detections[..i], w)
    {
      var d := detections[i];
      var s := Span(IntMax(0, Trunc(d.box.x1)), IntMin(w, Trunc(d.box.x2)));
      ghost var was := spans;
      if s.hi > s.lo && d.box.y2 > d.box.y1 {
        spans := spans + [s];
      }
      ColumnsOfOneMore(detections, w, i);
      forall c ensures Covered(spans, c) <==> Covered(was, c) || (0 <= c < w && Covers(d, c)) {
        if Covered(was, c) {
          var x :| x in was && x.lo <= c < x.hi;
          assert x in spans;
        }
        if 0 <= c < w && Covers(d, c) {
          assert s in spans;
        }
      }
    }
    assert detections[..|detections|] == detections;
  }

  lemma ColumnsOfOneMore(ds: seq<Detected>, w: nat, i: nat)
    requires i < |ds|
    ensures forall c :: c in Columns(ds[..i + 1], w) <==> c in Columns(ds[..i], w) || (0 <= c < w && Covers(ds[i], c))
  {
    assert ds[..i + 1] == ds[..i] + [ds[i]];
  }

  /** The second loop: extend the last merged span in place, or start a new one after a gap. */
  method MergeSpans(sorted: seq<Span>) returns (merged: seq<Span>)
    requires Ordered(sorted) && forall s :: s in sorted ==> s.lo < s.hi
    ensures Separated(merged)
    ensures forall c :: Covered(merged, c) <==> Covered(sorted, c)
  {
    merged := [];
    for i := 0 to |sorted|
      invariant i == 0 ==> merged == []
      invariant i > 0 ==> |merged| > 0 && merged[|merged| - 1].lo <= sorted[i - 1].lo
      invariant Separated(merged)
      invariant forall c :: Covered(merged, c) <==> Covered(sorted[..i], c)
    {
      hide Covered, Separated;
      var s := sorted[i];
      var n := |merged|;
      ghost var was := merged;
      assert s in sorted && (i > 0 ==> Before(sorted[i - 1], s));
      if n == 0 || s.lo > merged[n - 1].hi {
        merged := merged + [s];
      } else {
        merged := merged[n - 1 := Span(merged[n - 1].lo, IntMax(merged[n - 1].hi, s.hi))];
      }
      StaysSeparated(was, s, merged);
      MergeStep(was, s, merged);
      CoveredByOneMore(sorted, i);
    }
    assert sorted[..|sorted|] == sorted;
  }

  lemma CoveredByOneMore(spans: seq<Span>, i: nat)
    requires i < |spans|
    ensures forall c :: Covered(spans[..i + 1], c) <==> Covered(spans[..i], c) || spans[i].lo <= c < spans[i].hi
  {
    assert spans[..i + 1] == spans[..i] + [spans[i]];
  }

  lemma StaysSeparated(was: seq<Span>, s: Span, merged: seq<Span>)
    requires Separated(was) && s.lo < s.hi
    requires
      || ((|was| == 0 || was[|was| - 1].hi < s.lo) && merged == was + [s])
      || (|was| > 0 && merged == was[|was| - 1 := Span(was[|was| - 1].lo, IntMax(was[|was| - 1].hi, s.hi))])
    ensures Separated(merged)
  {
  }

  /** Appending or extending by a span adds exactly that span's columns. */
  lemma MergeStep(was: seq<Span>, s: Span, merged: seq<Span>)
    requires
      || merged == was + [s]
      || (|was| > 0 && was[|was| - 1].lo <= s.lo <= was[|was| - 1].hi
          && merged == was[|was| - 1 := Span(was[|was| - 1].lo, IntMax(was[|was| - 1].hi, s.hi))])
    ensures forall c :: Covered(merged, c) <==> Covered(was, c) || s.lo <= c < s.hi
  {
    forall c ensures Covered(merged, c) <==> Covered(was, c) || s.lo <= c < s.hi {
      var n := |was| - 1;
      if Covered(was, c) {
        var i :| 0 <= i < |was| && was[i].lo <= c < was[i].hi;
        assert merged[i] in merged && merged[i].lo <= c < merged[i].hi;
      } else if s.lo <= c < s.hi {
        var last := merged[|merged| - 1];
        assert last in merged && last.lo <= c < last.hi;
      }
    }
  }

  method ComputeCoveragePct(detections: seq<Detected>, w: nat) returns (pct: real)
    ensures pct == Pct(detections, w)
  {
    if |detections| == 0 {
      assert Columns(detections, w) == {};
      return 0.0;
    }
    var spans := CollectSpans(detections, w);
    if |spans| == 0 {
      assert Columns(detections, w) == {} by {
        forall c ensures c !in Columns(detections, w) { assert !Covered(spans, c); }
      }
      return 0.0;
    }
    assert spans[0] in spans;
    SortedIsOrderedArrangement(spans);
    var merged := MergeSpans(Sorted(spans));
    forall c ensures Covered(merged, c) <==> c in Columns(detections, w) {
      CoveredSame(spans, Sorted(spans), c);
    }
    SeparatedMeasure(merged, Columns(detections, w));
    var blockedWidth := SumWidths(merged);
    pct := Round2(100.0 * blockedWidth as real / w as real);
  }

  /**
   `_run_inference` once the image is decoded: `rows` is the network's output, absent when anything on the way
   to it raised. A failed inference counts as a clear frame.
   */
  method RunInference(rows: Option<seq<Raw>>, f: Frame, sorted: seq<nat>) returns (pct: real, status: Status)
    requires f.Valid() && f.Scale() > 0.0
    requires rows.Some? ==> ArgsortDescending(sorted, Scores(Candidates(rows.value, f)))
    ensures rows.None? ==> pct == 0.0 && status == Clear
    ensures rows.Some? ==>
              var all := Candidates(rows.value, f);
              var keep := Suppressed(Boxes(all), sorted, IOU_THRESHOLD);
              && (forall i :: 0 <= i < |keep| ==> keep[i] < |all|)
              && pct == Pct(Pick(all, keep), f.w)
    ensures status == StatusFromPct(pct)
  {
    if rows.None? {
      return 0.0, Clear;
    }
    var detections := Postprocess(rows.value, f, sorted);
    pct := ComputeCoveragePct(detections, f.w);
    status := StatusFromPct(pct);
  }

  lemma CoveredSame(a: seq<Span>, b: seq<Span>, c: int)
    requires forall s :: s in a <==> s in b
    ensures Covered(a, c) <==> Covered(b, c)
  {
  }

  // ---------------------------------------------------------------- what the percentage means

  lemma ColumnsBounded(ds: seq<Detected>, w: nat)
    ensures |Columns(ds, w)| <= w
  {
    assert Columns(ds, w) <= Range(0, w);
    SubsetSize(Columns(ds, w), Range(0, w));
  }

  lemma SubsetSize(a: set<int>, b: set<int>)
    requires a <= b
    ensures |a| <= |b|
  {
    SplitSize(b, a);
  }

  /** Columns of a set of boxes: only the set matters, and unions of boxes give unions of columns. */
  lemma ColumnsOfUnion(a: seq<Detected>, b: seq<Detected>, c: seq<Detected>, w: nat)
    requires Elements(c) == Elements(a) + Elements(b)
    ensures Columns(c, w) == Columns(a, w) + Columns(b, w)
  {
    forall x ensures Shaded(c, x) <==> Shaded(a, x) || Shaded(b, x) {
      if Shaded(c, x) {
        var d :| d in c && Covers(d, x);
        assert d in Elements(c);
      }
      if Shaded(a, x) || Shaded(b, x) {
        var d :| (d in a || d in b) && Covers(d, x);
        assert d in Elements(a) + Elements(b);
        assert d in Elements(c);
      }
    }
  }

  lemma PctOfColumns(a: seq<Detected>, b: seq<Detected>, w: nat)
    requires Columns(a, w) <= Columns(b, w)
    ensures Pct(a, w) <= Pct(b, w)
    ensures StatusFromPct(Pct(a, w)).Rank() <= StatusFromPct(Pct(b, w)).Rank()
  {
    SubsetSize(Columns(a, w), Columns(b, w));
    if w > 0 {
      var x, y := 100.0 * |Columns(a, w)| as real, 100.0 * |Columns(b, w)| as real;
      DivideMonotone(x, y, w as real);
      Round2Monotone(x / w as real, y / w as real);
    }
  }

  lemma PctInRange(ds: seq<Detected>, w: nat)
    ensures 0.0 <= Pct(ds, w) <= 100.0
  {
    ColumnsBounded(ds, w);
    if w > 0 {
      var x := 100.0 * |Columns(ds, w)| as real;
      DivideMonotone(0.0, x, w as real);
      DivideMonotone(x, 100.0 * w as real, w as real);
      DivideBack(100.0, w as real);
      Round2Monotone(0.0, x / w as real);
      Round2Monotone(x / w as real, 100.0);
    }
  }

  /** Order and repetition of boxes do not matter. */
  lemma CoverageOfTheSet(a: seq<Detected>, b: seq<Detected>, w: nat)
    requires Elements(a) == Elements(b)
    ensures Pct(a, w) == Pct(b, w)
  {
    ColumnsOfUnion(a, [], b, w);
    ColumnsOfUnion(a, [], a, w);
  }

  /** More boxes never lower the percentage or the status. */
  lemma CoverageMonotone(a: seq<Detected>, b: seq<Detected>, w: nat)
    requires Elements(a) <= Elements(b)
    ensures Pct(a, w) <= Pct(b, w)
    ensures StatusFromPct(Pct(a, w)).Rank() <= StatusFromPct(Pct(b, w)).Rank()
  {
    ColumnsOfUnion(a, b, b, w);
    PctOfColumns(a, b, w);
  }

  /** Two groups of boxes never cover more columns together than the sum of what they cover apart. */
  lemma CoverageSubadditive(a: seq<Detected>, b: seq<Detected>, w: nat)
    ensures |Columns(a + b, w)| <= |Columns(a, w)| + |Columns(b, w)|
    ensures |Columns(a + b, w)| == |Columns(a, w)| + |Columns(b, w)| <==> Columns(a, w) !! Columns(b, w)
  {
    ColumnsOfUnion(a, b, a + b, w);
    var x, y := Columns(a, w), Columns(b, w);
    assert x + y == x + (y - x);
    assert y == (y - x) + (x * y);
  }

  /** Suppression can only lower the percentage, and with it the status. */
  lemma SuppressionLowersCoverage(all: seq<Detected>, sorted: seq<nat>, w: nat)
    requires ArgsortDescending(sorted, Scores(all))
    ensures var keep := Suppressed(Boxes(all), sorted, IOU_THRESHOLD);
            && (forall i :: 0 <= i < |keep| ==> keep[i] < |all|)
            && Pct(Pick(all, keep), w) <= Pct(all, w)
            && StatusFromPct(Pct(Pick(all, keep), w)).Rank() <= StatusFromPct(Pct(all, w)).Rank()
  {
    SuppressedInRange(all, sorted);
    var keep := Suppressed(Boxes(all), sorted, IOU_THRESHOLD);
    CoverageMonotone(Pick(all, keep), all, w);
  }

  /** A column counts as covered if the box has height and reaches from before the column's end to that end at least. */
  lemma CoversMeans(d: Detected, c: nat)
    ensures Covers(d, c) <==> d.box.y1 < d.box.y2 && d.box.x1 < (c + 1) as real <= d.box.x2
  {
  }

  /** The percentage is the covered share of the columns to within half a hundredth, in whole hundredths. */
  lemma PctNearShare(ds: seq<Detected>, w: nat)
    requires w > 0
    ensures -0.005 <= Pct(ds, w) - 100.0 * |Columns(ds, w)| as real / w as real <= 0.005
    ensures (100.0 * Pct(ds, w)).Floor as real == 100.0 * Pct(ds, w)
    ensures forall c :: c in Columns(ds, w) <==>
              0 <= c < w && exists d :: d in ds && d.box.y1 < d.box.y2 && d.box.x1 < (c + 1) as real <= d.box.x2
  {
    Round2Near(100.0 * |Columns(ds, w)| as real / w as real);
    forall c | 0 <= c < w
      ensures Shaded(ds, c) <==> exists d :: d in ds && d.box.y1 < d.box.y2 && d.box.x1 < (c + 1) as real <= d.box.x2
    {
      forall d: Detected ensures Covers(d, c) <==> d.box.y1 < d.box.y2 && d.box.x1 < (c + 1) as real <= d.box.x2 {
        CoversMeans(d, c);
      }
    }
  }

  /**
   Rounding moves the two limits: a frame counts as blocked from 59.995 % of its columns on,
   and as at least partial from 19.995 % on.
   */
  lemma StatusLimits(ds: seq<Detected>, w: nat)
    requires w > 0
    ensures StatusFromPct(Pct(ds, w)) == Blocked <==> 20000 * |Columns(ds, w)| >= 11999 * w
    ensures StatusFromPct(Pct(ds, w)) != Clear <==> 20000 * |Columns(ds, w)| >= 3999 * w
  {
    hide Columns;
    var n := |Columns(ds, w)| as real;
    var x := 100.0 * n / w as real;
    assert x * w as real == 100.0 * n;
    RoundReaches(100.0 * x, 6000);
    RoundReaches(100.0 * x, 2000);
    ScaledLimit(x, n, w as real, 59.995);
    ScaledLimit(x, n, w as real, 19.995);
  }

  lemma ScaledLimit(x: real, n: real, w: real, limit: real)
    requires w > 0.0 && x * w == 100.0 * n
    ensures x >= limit <==> 100.0 * n >= limit * w
  {
    if x >= limit {
      assert (x - limit) * w >= 0.0;
    } else {
      assert (limit - x) * w > 0.0;
    }
  }

  /** The columns that a detection at canvas box `b` covers after mapping and clipping. */
  predicate CoversFromCanvas(f: Frame, b: Box, score: real, c: int)
    requires f.w > 0 && f.h > 0 && f.Scale() != 0.0
  {
    Covers(Detected(f.Clipped(f.FromCanvas(b)), score), c)
  }

  /** The box lies wholly on grey pixels, beside the resized image. */
  predicate InPadding(f: Frame, b: Box)
    requires f.w > 0 && f.h > 0
  {
    || b.x2 <= f.Left() as real
    || b.x1 >= (f.Left() + f.NewW()) as real
    || b.y2 <= f.Top() as real
    || b.y1 >= (f.Top() + f.NewH()) as real
  }

  lemma FlatCoversNothing(d: Detected, c: int)
    requires d.box.x1 == d.box.x2 || d.box.y1 == d.box.y2
    ensures !Covers(d, c)
  {
  }

  /** Where the unrounded scale ends a side. */
  function FarEdge(pad: int, size: nat, s: real): real { pad as real + size as real * s }

  lemma OutsideAxis(lo: real, hi: real, pad: int, s: real, size: nat)
    requires lo <= hi && s > 0.0
    ensures hi <= pad as real || lo >= FarEdge(pad, size, s) ==>
              Clip(OffAxis(lo, pad, s), size) == Clip(OffAxis(hi, pad, s), size)
  {
    var p := pad as real;
    DivideMonotone(lo - p, hi - p, s);
    if hi <= p {
      DivideMonotone(hi - p, 0.0, s);
    }
    if lo >= FarEdge(pad, size, s) {
      DivideMonotone(size as real * s, lo - p, s);
      DivideBack(size as real, s);
    }
  }

  /** Beyond where the unrounded scale puts the image a box covers nothing. */
  lemma BeyondImageCoversNothing(f: Frame, b: Box, score: real, c: int)
    requires f.Valid() && b.WellOrdered() && f.Scale() > 0.0
    requires
      || b.x2 <= f.Left() as real || b.x1 >= FarEdge(f.Left(), f.w, f.Scale())
      || b.y2 <= f.Top() as real || b.y1 >= FarEdge(f.Top(), f.h, f.Scale())
    ensures !CoversFromCanvas(f, b, score, c)
  {
    hide Frame.Scale, Frame.Left, Frame.Top, FarEdge, Covers, Clip, OffAxis;
    OutsideAxis(b.x1, b.x2, f.Left(), f.Scale(), f.w);
    OutsideAxis(b.y1, b.y2, f.Top(), f.Scale(), f.h);
    FlatCoversNothing(Detected(f.Clipped(f.FromCanvas(b)), score), c);
  }

  /** The edges of the resized side on the canvas; they fall short of the far edge unless the side stays whole. */
  lemma EdgesMapBack(size: nat, pad: int, s: real)
    requires size > 0 && s > 0.0
    ensures Clip(OffAxis(pad as real, pad, s), size) == 0.0
    ensures Clip(OffAxis(FarEdge(pad, size, s), pad, s), size) == size as real
    ensures pad as real <= (pad + Shrunk(size, s)) as real <= FarEdge(pad, size, s)
    ensures Whole(size, s) <==> (pad + Shrunk(size, s)) as real == FarEdge(pad, size, s)
    ensures !Whole(size, s) ==> Clip(OffAxis((pad + Shrunk(size, s)) as real, pad, s), size) < size as real
  {
    DivideBack(size as real, s);
    var n := Shrunk(size, s);
    var x := n as real / s;
    assert x * s == n as real;
    assert size as real * s >= 0.0;
    SignOfProduct(size as real - x, s);
    assert (size as real - x) * s == size as real * s - n as real;
  }

  /** A box on the grey pixels next to the image that covers the last column. */
  lemma PaddingThatCovers(f: Frame, score: real) returns (b: Box, c: int)
    requires f.Valid() && !f.ExactFit() && f.Scale() > 0.0
    ensures b.WellOrdered() && InPadding(f, b) && CoversFromCanvas(f, b, score, c)
  {
    var s := f.Scale();
    hide Frame.Scale, Frame.Left, Frame.Top, Clip, OffAxis, FarEdge, Shrunk, Whole;
    EdgesMapBack(f.w, f.Left(), s);
    EdgesMapBack(f.h, f.Top(), s);
    c := f.w - 1;
    if !Whole(f.w, s) {
      b := Box((f.Left() + f.NewW()) as real, f.Top() as real, FarEdge(f.Left(), f.w, s), FarEdge(f.Top(), f.h, s));
      ClipNonnegative(OffAxis(b.x1, f.Left(), s), f.w);
    } else {
      b := Box(f.Left() as real, (f.Top() + f.NewH()) as real, FarEdge(f.Left(), f.w, s), FarEdge(f.Top(), f.h, s));
    }
  }

  lemma ClipNonnegative(x: real, hi: nat)
    ensures Clip(x, hi) >= 0.0
  {
  }

  /** The boxes on grey pixels are those beyond the image if both sides stay whole. */
  lemma PaddingIsBeyond(f: Frame, b: Box)
    requires f.Valid() && f.ExactFit() && f.Scale() > 0.0 && InPadding(f, b)
    ensures
      || b.x2 <= f.Left() as real || b.x1 >= FarEdge(f.Left(), f.w, f.Scale())
      || b.y2 <= f.Top() as real || b.y1 >= FarEdge(f.Top(), f.h, f.Scale())
  {
    hide Frame.Scale, Frame.Left, Frame.Top, FarEdge, Shrunk, Whole, Clip, OffAxis;
    EdgesMapBack(f.w, f.Left(), f.Scale());
    EdgesMapBack(f.h, f.Top(), f.Scale());
  }

  /**
   Detections that lie wholly in the letterbox padding cover no column exactly if the scale leaves no fraction on
   either side: otherwise a strip of grey pixels less than one pixel wide is read back as image.
   */
  lemma PaddingCoversNothing(f: Frame)
    requires f.Valid()
    ensures f.Scale() > 0.0
    ensures (forall b: Box, score: real, c: int | b.WellOrdered() && InPadding(f, b) :: !CoversFromCanvas(f, b, score, c))
       <==> f.ExactFit()
  {
    ScaleFacts(f);
    hide Frame.Scale, Frame.Left, Frame.Top, Frame.ExactFit, CoversFromCanvas, InPadding, FarEdge;
    if f.ExactFit() {
      forall b: Box, score: real, c: int | b.WellOrdered() && InPadding(f, b) ensures !CoversFromCanvas(f, b, score, c) {
        PaddingIsBeyond(f, b);
        BeyondImageCoversNothing(f, b, score, c);
      }
    } else {
      var b, c := PaddingThatCovers(f, 1.0);
    }
  }
}
