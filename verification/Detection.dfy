/** Boxes, overlap, letterbox geometry and non-maximum suppression of the camera pipeline. */
module Detection {
  import opened Common
  import opened Greedy

  const CONF_THRESHOLD := 0.35
  const IOU_THRESHOLD := 0.5
  const EPSILON := 0.000000001

  datatype Box = Box(x1: real, y1: real, x2: real, y2: real) {
    predicate WellOrdered() { x1 <= x2 && y1 <= y2 }

    /** Both corners lie inside. */
    predicate Inside(w: real, h: real) {
      0.0 <= x1 <= w && 0.0 <= x2 <= w && 0.0 <= y1 <= h && 0.0 <= y2 <= h
    }

    function Area(): real { (x2 - x1) * (y2 - y1) }

    predicate Contains(x: real, y: real) { x1 <= x <= x2 && y1 <= y <= y2 }

    predicate InInterior(x: real, y: real) { x1 < x < x2 && y1 < y < y2 }
  }

  datatype Detected = Detected(box: Box, score: real)

  /** One row of the network's output: centre, size and confidence. */
  datatype Raw = Raw(cx: real, cy: real, width: real, height: real, conf: real)

  // ---------------------------------------------------------------- overlap

  function Intersection(a: Box, b: Box): real {
    Max(0.0, Min(a.x2, b.x2) - Max(a.x1, b.x1)) * Max(0.0, Min(a.y2, b.y2) - Max(a.y1, b.y1))
  }

  function Denominator(a: Box, b: Box): real { a.Area() + b.Area() - Intersection(a, b) + EPSILON }

  function IoU(a: Box, b: Box): real
    requires Denominator(a, b) != 0.0
  {
    Intersection(a, b) / Denominator(a, b)
  }

  /** `iou <= threshold` on floats: a zero denominator gives inf or nan, and the comparison is false. */
  predicate Passes(kept: Box, other: Box, threshold: real) {
    Denominator(kept, other) != 0.0 && IoU(kept, other) <= threshold
  }

  lemma PassesSymmetric(a: Box, b: Box, threshold: real)
    ensures Passes(a, b, threshold) <==> Passes(b, a, threshold)
  {
    assert Intersection(a, b) == Intersection(b, a);
    assert Denominator(a, b) == Denominator(b, a);
  }

  lemma ProductMonotone(a: real, b: real, c: real, d: real)
    requires 0.0 <= a <= c && 0.0 <= b <= d
    ensures 0.0 <= a * b <= c * d
  {
    assert a * b <= c * b by { assert (c - a) * b >= 0.0; }
    assert c * b <= c * d by { assert c * (d - b) >= 0.0; }
  }

  lemma IntersectionBounds(a: Box, b: Box)
    requires a.WellOrdered() && b.WellOrdered()
    ensures 0.0 <= Intersection(a, b) <= a.Area()
    ensures Intersection(a, b) <= b.Area()
  {
    var iw := Max(0.0, Min(a.x2, b.x2) - Max(a.x1, b.x1));
    var ih := Max(0.0, Min(a.y2, b.y2) - Max(a.y1, b.y1));
    ProductMonotone(iw, ih, a.x2 - a.x1, a.y2 - a.y1);
    ProductMonotone(iw, ih, b.x2 - b.x1, b.y2 - b.y1);
  }

  /** The guard term keeps the quotient defined and strictly below one for well-ordered boxes. */
  lemma IoUInUnit(a: Box, b: Box)
    requires a.WellOrdered() && b.WellOrdered()
    ensures Denominator(a, b) > 0.0 && 0.0 <= IoU(a, b) < 1.0
  {
    IntersectionBounds(a, b);
    QuotientInUnit(Intersection(a, b), Denominator(a, b));
  }

  lemma QuotientInUnit(n: real, d: real)
    requires 0.0 <= n < d
    ensures 0.0 <= n / d < 1.0
  {
  }

  ghost predicate SharePoint(a: Box, b: Box) { exists x: real, y: real :: a.Contains(x, y) && b.Contains(x, y) }

  /** No point lies strictly inside both boxes. */
  ghost predicate Apart(a: Box, b: Box) { forall x: real, y: real :: !(a.InInterior(x, y) && b.InInterior(x, y)) }

  /** The box `c` holds exactly the points of both. */
  ghost predicate IsCommonPart(c: Box, a: Box, b: Box) {
    c.WellOrdered() && forall x: real, y: real :: c.Contains(x, y) <==> a.Contains(x, y) && b.Contains(x, y)
  }

  /** No other box holds the same points. */
  lemma CommonPartUnique(c: Box, d: Box, a: Box, b: Box)
    requires IsCommonPart(c, a, b) && IsCommonPart(d, a, b)
    ensures c == d
  {
    assert c.Contains(c.x1, c.y1) && c.Contains(c.x2, c.y2);
    assert d.Contains(d.x1, d.y1) && d.Contains(d.x2, d.y2);
  }

  /**
   The overlap as a matter of points: two boxes that share one have a common part, which is a box, and its area
   against that of the union, plus the guard term, decides.
   */
  lemma OverlapOfPoints(a: Box, b: Box, threshold: real) returns (c: Box)
    requires a.WellOrdered() && b.WellOrdered() && SharePoint(a, b)
    ensures IsCommonPart(c, a, b)
    ensures var union := a.Area() + b.Area() - c.Area() + EPSILON;
            && union > 0.0 && Denominator(a, b) == union && IoU(a, b) == c.Area() / union
            && (Passes(a, b, threshold) <==> c.Area() <= threshold * union)
  {
    c := Box(Max(a.x1, b.x1), Max(a.y1, b.y1), Min(a.x2, b.x2), Min(a.y2, b.y2));
    CornersHoldCommonPoints(a, b, c);
    IoUInUnit(a, b);
    assert Denominator(a, b) == a.Area() + b.Area() - c.Area() + EPSILON;
    hide Intersection, Denominator, IsCommonPart, SharePoint, Box.Area;
    QuotientCompare(c.Area(), Denominator(a, b), threshold);
  }

  lemma CornersHoldCommonPoints(a: Box, b: Box, c: Box)
    requires a.WellOrdered() && b.WellOrdered() && SharePoint(a, b)
    requires c == Box(Max(a.x1, b.x1), Max(a.y1, b.y1), Min(a.x2, b.x2), Min(a.y2, b.y2))
    ensures IsCommonPart(c, a, b) && Intersection(a, b) == c.Area()
  {
    var x: real, y: real :| a.Contains(x, y) && b.Contains(x, y);
    assert c.x1 <= x <= c.x2 && c.y1 <= y <= c.y2;
  }

  /** Boxes that share no interior point never suppress each other. */
  lemma ApartNeverSuppress(a: Box, b: Box, threshold: real)
    requires a.WellOrdered() && b.WellOrdered() && Apart(a, b) && threshold >= 0.0
    ensures Passes(a, b, threshold)
  {
    IoUInUnit(a, b);
    var iw := Min(a.x2, b.x2) - Max(a.x1, b.x1);
    var ih := Min(a.y2, b.y2) - Max(a.y1, b.y1);
    if iw > 0.0 && ih > 0.0 {
      var x, y := Max(a.x1, b.x1) + iw / 2.0, Max(a.y1, b.y1) + ih / 2.0;
      assert a.InInterior(x, y) && b.InInterior(x, y);
    } else {
      assert Intersection(a, b) == 0.0;
      QuotientCompare(0.0, Denominator(a, b), threshold);
      assert threshold * Denominator(a, b) >= 0.0;
    }
  }

  /** A box suppresses an identical one exactly when its area is large against the guard term. */
  lemma SelfOverlap(a: Box, threshold: real)
    requires a.WellOrdered() && threshold < 1.0
    ensures !Passes(a, a, threshold) <==> a.Area() * (1.0 - threshold) > threshold * EPSILON
  {
    IoUInUnit(a, a);
    assert Intersection(a, a) == a.Area();
    var n, d := a.Area(), a.Area() + EPSILON;
    assert Denominator(a, a) == d;
    QuotientCompare(n, d, threshold);
    assert n - threshold * d == n * (1.0 - threshold) - threshold * EPSILON;
  }

  // ---------------------------------------------------------------- suppression

  function Overlap(boxes: seq<Box>, threshold: real): Relation {
    (i: nat, j: nat) => i < |boxes| && j < |boxes| ==> Passes(boxes[i], boxes[j], threshold)
  }

  /** What `argsort()[::-1]` returns: all indices, once each, by falling score; ties come in any order. */
  ghost predicate ArgsortDescending(order: seq<nat>, scores: seq<real>) {
    && Distinct(order)
    && (forall i: nat :: i in order <==> i < |scores|)
    && Descending(order, scores)
  }

  /** The greedy set: an index is kept iff no kept index before it overlaps it above the threshold. */
  ghost function Suppressed(boxes: seq<Box>, sorted: seq<nat>, threshold: real): seq<nat> {
    KeptList(Overlap(boxes, threshold), sorted, |sorted|)
  }

  /** The shrinking-order loop, on the order numpy's sort delivers. */
  method Nms(boxes: seq<Box>, sorted: seq<nat>, threshold: real) returns (keep: seq<nat>)
    requires forall i :: i in sorted ==> i < |boxes|
    ensures keep == Suppressed(boxes, sorted, threshold)
  {
    ghost var ok := Overlap(boxes, threshold);
    ScanIsKeptList(ok, sorted);
    var order := sorted;
    keep := [];
    while |order| > 0
      invariant Scan(ok, keep, order) == KeptList(ok, sorted, |sorted|)
      invariant forall k, x :: k in keep && x in order ==> ok(k, x)
      decreases |order|
    {
      var i := order[0];
      keep := keep + [i];
      assert Scan(ok, keep, order[1..]) == KeptList(ok, sorted, |sorted|);
      if |order| == 1 {
        break;
      }
      FilteringIsHarmless(ok, keep, i, order[1..]);
      order := Filtered(Overlap(boxes, threshold), i, order[1..]);
    }
  }

  /** The loop's result is the one set of indices with the greedy property, whichever order ties were put in. */
  lemma NmsIsTheGreedySet(boxes: seq<Box>, scores: seq<real>, sorted: seq<nat>, threshold: real, chosen: set<nat>)
    requires |scores| == |boxes| && ArgsortDescending(sorted, scores)
    ensures forall p :: 0 <= p < |sorted| ==> sorted[p] < |boxes|
    ensures chosen == Elements(Suppressed(boxes, sorted, threshold)) <==>
            && (forall i :: i in chosen ==> i < |boxes|)
            && (forall p: nat | p < |sorted| ::
                 sorted[p] in chosen <==>
                 forall q: nat | q < p && sorted[q] in chosen :: Passes(boxes[sorted[q]], boxes[sorted[p]], threshold))
  {
    var ok := Overlap(boxes, threshold);
    GreedyChoiceUnique(ok, sorted, chosen);
    assert forall p :: 0 <= p < |sorted| ==> sorted[p] in sorted;
    assert chosen <= Elements(sorted) <==> forall i :: i in chosen ==> i < |boxes|;
  }

  /** Kept indices are distinct and valid, and no two of them overlap above the threshold. */
  lemma NmsKeepsNoOverlap(boxes: seq<Box>, scores: seq<real>, sorted: seq<nat>, threshold: real)
    requires |scores| == |boxes| && ArgsortDescending(sorted, scores)
    ensures var keep := Suppressed(boxes, sorted, threshold);
            && Distinct(keep)
            && Descending(keep, scores)
            && (forall i, j :: 0 <= i < |keep| && 0 <= j < |keep| && i != j ==>
                 keep[i] < |boxes| && keep[j] < |boxes| && Passes(boxes[keep[i]], boxes[keep[j]], threshold))
  {
    var ok := Overlap(boxes, threshold);
    var keep := Suppressed(boxes, sorted, threshold);
    KeptListSound(ok, sorted, |sorted|);
    KeptListDescending(ok, sorted, |sorted|, scores);
    forall i, j | 0 <= i < |keep| && 0 <= j < |keep| && i != j
      ensures keep[i] < |boxes| && keep[j] < |boxes| && Passes(boxes[keep[i]], boxes[keep[j]], threshold)
    {
      if i < j {
        assert ok(keep[i], keep[j]);
      } else {
        assert ok(keep[j], keep[i]);
        PassesSymmetric(boxes[keep[j]], boxes[keep[i]], threshold);
      }
    }
  }

  /** Every box is either kept or overlaps a kept box of at least its own score. */
  lemma NmsDropsOnlyOverlapped(boxes: seq<Box>, scores: seq<real>, sorted: seq<nat>, threshold: real, i: nat)
    requires |scores| == |boxes| && ArgsortDescending(sorted, scores) && i < |boxes|
    ensures var keep := Suppressed(boxes, sorted, threshold);
            i in keep ||
            exists k :: k in keep && k < |boxes| && k != i && scores[k] >= scores[i] && !Passes(boxes[k], boxes[i], threshold)
  {
    var ok := Overlap(boxes, threshold);
    assert i in sorted;
    var p: nat :| p < |sorted| && sorted[p] == i;
    KeptListMembers(ok, sorted, |sorted|);
    if !Kept(ok, sorted, p) {
      var q := RejectedHasRejector(ok, sorted, p);
      assert sorted[q] in sorted && scores[sorted[q]] >= scores[sorted[p]];
    }
  }

  /** So a box is dropped only for a kept one that it really overlaps. */
  lemma DroppedBoxOverlapsKept(boxes: seq<Box>, scores: seq<real>, sorted: seq<nat>, threshold: real, i: nat)
    requires |scores| == |boxes| && ArgsortDescending(sorted, scores) && i < |boxes| && threshold >= 0.0
    requires forall j :: 0 <= j < |boxes| ==> boxes[j].WellOrdered()
    ensures var keep := Suppressed(boxes, sorted, threshold);
            i in keep || exists k :: k in keep && k < |boxes| && k != i && scores[k] >= scores[i] && !Apart(boxes[k], boxes[i])
  {
    NmsDropsOnlyOverlapped(boxes, scores, sorted, threshold, i);
    var keep := Suppressed(boxes, sorted, threshold);
    if i !in keep {
      var k :| k in keep && k < |boxes| && k != i && scores[k] >= scores[i] && !Passes(boxes[k], boxes[i], threshold);
      if Apart(boxes[k], boxes[i]) {
        ApartNeverSuppress(boxes[k], boxes[i], threshold);
      }
    }
  }

  function Pick<T>(items: seq<T>, indices: seq<nat>): seq<T>
    requires forall i :: 0 <= i < |indices| ==> indices[i] < |items|
  {
    seq(|indices|, i requires 0 <= i < |indices| => items[indices[i]])
  }

  /** Suppressing again, in any order, keeps every kept box. */
  lemma NmsIdempotent(boxes: seq<Box>, scores: seq<real>, sorted: seq<nat>, threshold: real, again: seq<nat>)
    requires |scores| == |boxes| && ArgsortDescending(sorted, scores)
    requires var keep := Suppressed(boxes, sorted, threshold);
             Distinct(again) && (forall i: nat :: i in again <==> i < |keep|)
    ensures var keep := Suppressed(boxes, sorted, threshold);
            && (forall i :: 0 <= i < |keep| ==> keep[i] < |boxes|)
            && Suppressed(Pick(boxes, keep), again, threshold) == again
  {
    NmsKeepsNoOverlap(boxes, scores, sorted, threshold);
    var keep := Suppressed(boxes, sorted, threshold);
    var kept := Pick(boxes, keep);
    var ok := Overlap(kept, threshold);
    forall p, q | 0 <= p < q < |again| ensures ok(again[p], again[q]) {
      assert again[p] in again && again[q] in again && again[p] != again[q];
    }
    CompatibleKeptWhole(ok, again, |again|);
    assert again[..|again|] == again;
  }

  // ---------------------------------------------------------------- letterbox

  /** Canvas and image sizes in pixels; PIL never delivers an empty image. */
  datatype Frame = Frame(wIn: nat, hIn: nat, w: nat, h: nat) {
    ghost predicate Valid() { wIn > 0 && hIn > 0 && w > 0 && h > 0 }

    function Scale(): real
      requires w > 0 && h > 0
    {
      Min(wIn as real / w as real, hIn as real / h as real)
    }

    function NewW(): int requires w > 0 && h > 0 { Shrunk(w, Scale()) }

    function NewH(): int requires w > 0 && h > 0 { Shrunk(h, Scale()) }

    function Left(): int requires w > 0 && h > 0 { (wIn - NewW()) / 2 }

    function Top(): int requires w > 0 && h > 0 { (hIn - NewH()) / 2 }

    /** Where the letterboxed canvas shows a box of the image, which was resized to whole pixels. */
    function ToCanvas(b: Box): Box
      requires w > 0 && h > 0
    {
      Box(OnAxis(b.x1, NewW(), w, Left()), OnAxis(b.y1, NewH(), h, Top()),
          OnAxis(b.x2, NewW(), w, Left()), OnAxis(b.y2, NewH(), h, Top()))
    }

    /** The resize to whole pixels loses nothing. */
    predicate ExactFit()
      requires w > 0 && h > 0
    {
      Whole(w, Scale()) && Whole(h, Scale())
    }

    /** The way back applied to the network's boxes, before clipping. */
    function FromCanvas(b: Box): Box
      requires w > 0 && h > 0 && Scale() != 0.0
    {
      Box(OffAxis(b.x1, Left(), Scale()), OffAxis(b.y1, Top(), Scale()),
          OffAxis(b.x2, Left(), Scale()), OffAxis(b.y2, Top(), Scale()))
    }

    function Clipped(b: Box): Box {
      Box(Clip(b.x1, w), Clip(b.y1, h), Clip(b.x2, w), Clip(b.y2, h))
    }
  }

  /** A scaled side in whole pixels; `int` and `Floor` agree on nonnegative numbers. */
  function Shrunk(size: nat, s: real): int { (size as real * s).Floor }

  predicate Whole(size: nat, s: real) { Shrunk(size, s) as real == size as real * s }

  /** Coordinate `x` of a side of `size` pixels shown on `n` of them from `pad` on. */
  function OnAxis(x: real, n: int, size: nat, pad: int): real
    requires size > 0
  {
    x * (n as real / size as real) + pad as real
  }

  /** The way back for one coordinate. */
  function OffAxis(y: real, pad: int, s: real): real
    requires s != 0.0
  {
    (y - pad as real) / s
  }

  function Clip(x: real, hi: nat): real { Min(Max(x, 0.0), hi as real) }

  lemma ScaleFacts(f: Frame)
    requires f.Valid()
    ensures f.Scale() > 0.0
    ensures f.w as real * f.Scale() <= f.wIn as real
    ensures f.h as real * f.Scale() <= f.hIn as real
    ensures f.w as real * f.Scale() == f.wIn as real || f.h as real * f.Scale() == f.hIn as real
  {
    var w, h, wIn, hIn := f.w as real, f.h as real, f.wIn as real, f.hIn as real;
    var a, b := wIn / w, hIn / h;
    assert a > 0.0 && b > 0.0 && w * a == wIn && h * b == hIn;
    if a <= b {
      assert h * (b - a) >= 0.0;
    } else {
      assert w * (a - b) >= 0.0;
    }
  }

  /** The resized image fits the canvas, touches it in one dimension, and lies in its middle up to one pixel. */
  lemma LetterboxFits(f: Frame)
    requires f.Valid()
    ensures 0 <= f.NewW() <= f.wIn && 0 <= f.NewH() <= f.hIn
    ensures f.NewW() == f.wIn || f.NewH() == f.hIn
    ensures 0 <= f.Left() && f.Left() + f.NewW() <= f.wIn
    ensures 0 <= f.Top() && f.Top() + f.NewH() <= f.hIn
    ensures 0 <= f.wIn - (f.Left() + f.NewW()) - f.Left() <= 1
    ensures 0 <= f.hIn - (f.Top() + f.NewH()) - f.Top() <= 1
  {
    ScaleFacts(f);
    assert f.w as real * f.Scale() >= 0.0 && f.h as real * f.Scale() >= 0.0;
  }

  /** The resize is asked for a positive size exactly when neither side is out of proportion. */
  lemma LetterboxPositive(f: Frame)
    requires f.Valid()
    ensures f.NewW() >= 1 && f.NewH() >= 1 <==> f.w * f.hIn >= f.h && f.h * f.wIn >= f.w
  {
    hide Min;
    SideReachesOne(f.w, f.wIn, f.w, f.hIn, f.h);
    SideReachesOne(f.h, f.hIn, f.h, f.wIn, f.w);
    MinCommutes(f.wIn as real / f.w as real, f.hIn as real / f.h as real);
  }

  lemma MinCommutes(a: real, b: real)
    ensures Min(a, b) == Min(b, a)
  {
  }

  /** A side `x` scaled by the smaller ratio still has a pixel iff the other ratio leaves it one. */
  lemma SideReachesOne(x: nat, n1: nat, d1: nat, n2: nat, d2: nat)
    requires x == d1 > 0 && d2 > 0 && n1 >= 1
    ensures (x as real * Min(n1 as real / d1 as real, n2 as real / d2 as real)).Floor >= 1 <==> x * n2 >= d2
  {
    ScaledReachesOne(x, n1, d1, n2, d2);
    TimesAtLeast(x, n1);
  }

  lemma TimesAtLeast(x: nat, n: nat)
    requires n >= 1
    ensures x * n >= x
  {
    assert x * n == x + x * (n - 1);
  }

  lemma ScaledReachesOne(x: nat, n1: nat, d1: nat, n2: nat, d2: nat)
    requires x > 0 && d1 > 0 && d2 > 0
    ensures x as real * Min(n1 as real / d1 as real, n2 as real / d2 as real) >= 1.0 <==> x * n1 >= d1 && x * n2 >= d2
  {
    RatioReachesOne(x, n1, d1);
    RatioReachesOne(x, n2, d2);
    var a, b := n1 as real / d1 as real, n2 as real / d2 as real;
    if a <= b {
      assert x as real * (b - a) >= 0.0;
    } else {
      assert x as real * (a - b) >= 0.0;
    }
  }

  lemma RatioReachesOne(x: nat, n: nat, d: nat)
    requires d > 0
    ensures x as real * (n as real / d as real) >= 1.0 <==> x * n >= d
  {
    var q := n as real / d as real;
    assert q * d as real == n as real;
    assert (x * n) as real == x as real * n as real;
    assert x as real * n as real == (x as real * q) * d as real;
    if x as real * q >= 1.0 {
      assert (x as real * q - 1.0) * d as real >= 0.0;
    } else {
      assert (1.0 - x as real * q) * d as real > 0.0;
    }
  }

  /** One coordinate shown on `n` pixels and read back with the unrounded scale. */
  lemma AxisBack(x: real, size: nat, pad: int, s: real)
    requires size > 0 && s > 0.0
    ensures var y := OffAxis(OnAxis(x, Shrunk(size, s), size, pad), pad, s);
            && (y == x <==> x == 0.0 || Whole(size, s))
            && (0.0 <= x <= size as real ==> FallsShort(y, x, s))
  {
    var n := Shrunk(size, s);
    var p, y := x / size as real, OffAxis(OnAxis(x, n, size, pad), pad, s);
    var d := size as real * s - n as real;
    assert p * size as real == x && x * (n as real / size as real) == p * n as real;
    assert y * s == p * n as real;
    assert x * s == p * (size as real * s);
    assert (x - y) * s == p * d;
    if d > 0.0 {
      SignOfProduct(p, d);
    } else {
      assert p * d == 0.0;
    }
    SignOfProduct(p, size as real);
    SignOfProduct(x - y, s);
    if 0.0 <= x <= size as real {
      DivideMonotone(x, size as real, size as real);
      PartOfFraction(p, d);
    }
  }

  lemma PartOfFraction(p: real, d: real)
    requires 0.0 <= p <= 1.0 && 0.0 <= d < 1.0
    ensures 0.0 <= p * d < 1.0
  {
    if d > 0.0 {
      Distributes(1.0, p, d);
      SignOfProduct(p, d);
      SignOfProduct(1.0 - p, d);
    }
  }

  /** Too small, by less than one canvas pixel. */
  ghost predicate FallsShort(y: real, x: real, s: real) { y <= x && (x - y) * s < 1.0 }

  ghost predicate BoxFallsShort(c: Box, b: Box, s: real) {
    FallsShort(c.x1, b.x1, s) && FallsShort(c.y1, b.y1, s) && FallsShort(c.x2, b.x2, s) && FallsShort(c.y2, b.y2, s)
  }

  /** What comes back of a box the network finds exactly where the canvas shows it. */
  function ReadBack(f: Frame, b: Box): Box
    requires f.w > 0 && f.h > 0 && f.Scale() != 0.0
  {
    f.FromCanvas(f.ToCanvas(b))
  }

  lemma BoxBack(f: Frame, b: Box)
    requires f.Valid()
    ensures f.Scale() > 0.0
    ensures f.ExactFit() ==> ReadBack(f, b) == b
    ensures ReadBack(f, b) == b && b.x2 != 0.0 && b.y2 != 0.0 ==> f.ExactFit()
    ensures b.Inside(f.w as real, f.h as real) ==> BoxFallsShort(ReadBack(f, b), b, f.Scale())
  {
    ScaleFacts(f);
    hide OnAxis, OffAxis, Shrunk, Whole, FallsShort, Frame.Scale, Frame.Left, Frame.Top;
    AxisBack(b.x1, f.w, f.Left(), f.Scale());
    AxisBack(b.x2, f.w, f.Left(), f.Scale());
    AxisBack(b.y1, f.h, f.Top(), f.Scale());
    AxisBack(b.y2, f.h, f.Top(), f.Scale());
  }

  /**
   The image is resized to whole pixels but read back with the unrounded scale: the round trip is the identity on
   the boxes of the image exactly if the scale leaves no fraction on either side. Otherwise each coordinate comes
   back too small, by less than one canvas pixel.
   */
  lemma LetterboxRoundTrip(f: Frame)
    requires f.Valid()
    ensures f.Scale() > 0.0
    ensures (forall b: Box | b.Inside(f.w as real, f.h as real) :: ReadBack(f, b) == b) <==> f.ExactFit()
    ensures forall b: Box | b.Inside(f.w as real, f.h as real) :: BoxFallsShort(ReadBack(f, b), b, f.Scale())
  {
    hide Frame.Scale, ReadBack, BoxFallsShort;
    BoxBack(f, Box(0.0, 0.0, f.w as real, f.h as real));
    forall b: Box | b.Inside(f.w as real, f.h as real)
      ensures f.ExactFit() ==> ReadBack(f, b) == b
      ensures BoxFallsShort(ReadBack(f, b), b, f.Scale())
    {
      BoxBack(f, b);
    }
  }

  /** In whole numbers: the side that does not fill the canvas must scale without a remainder. */
  lemma ExactFitDivides(f: Frame)
    requires f.Valid()
    ensures f.ExactFit() <==> if f.wIn * f.h <= f.hIn * f.w then (f.h * f.wIn) % f.w == 0 else (f.w * f.hIn) % f.h == 0
  {
    RatiosCompare(f.wIn, f.w, f.hIn, f.h);
    hide Whole;
    if f.wIn * f.h <= f.hIn * f.w {
      WholeByRatio(f.w, f.wIn, f.w);
      WholeByRatio(f.h, f.wIn, f.w);
      WholeMultiple(f.wIn, f.w);
    } else {
      WholeByRatio(f.w, f.hIn, f.h);
      WholeByRatio(f.h, f.hIn, f.h);
      WholeMultiple(f.hIn, f.h);
    }
  }

  lemma WholeMultiple(n: nat, d: nat)
    requires d > 0
    ensures (d * n) % d == 0
  {
    NoRemainder(n - d * n / d, (d * n) % d, d);
  }

  lemma NoRemainder(k: int, r: int, d: nat)
    requires k * d == r && 0 <= r < d
    ensures r == 0
  {
    if k >= 1 {
      TimesAtLeast(d, k);
    } else if k <= -1 {
      TimesAtLeast(d, -k);
    }
  }

  lemma RatiosCompare(n1: nat, d1: nat, n2: nat, d2: nat)
    requires d1 > 0 && d2 > 0
    ensures n1 as real / d1 as real <= n2 as real / d2 as real <==> n1 * d2 <= n2 * d1
  {
    var a, b := n1 as real / d1 as real, n2 as real / d2 as real;
    var x, y := d1 as real, d2 as real;
    assert a * x == n1 as real && b * y == n2 as real;
    assert (n1 * d2) as real == n1 as real * y && (n2 * d1) as real == n2 as real * x;
    assert (b - a) * (x * y) == n2 as real * x - n1 as real * y by {
      assert a * (x * y) == (a * x) * y;
      assert b * (x * y) == (b * y) * x;
    }
    assert x * y > 0.0;
    SignOfProduct(b - a, x * y);
  }

  /** A side scaled by a ratio is a whole number exactly if the division leaves no remainder. */
  lemma WholeByRatio(size: nat, n: nat, d: nat)
    requires d > 0
    ensures Whole(size, n as real / d as real) <==> (size * n) % d == 0
  {
    hide Whole;
    ProductOverDivisor(size, n, d);
    WholeQuotient(size, n as real / d as real, size * n, d);
  }

  lemma WholeQuotient(size: nat, s: real, m: nat, d: nat)
    requires d > 0 && size as real * s * d as real == m as real
    ensures Whole(size, s) <==> m % d == 0
  {
    DivisionInReals(m, d);
    FloorAndRest(size as real * s, m / d, (m % d) as real, d as real);
  }

  lemma DivisionInReals(m: nat, d: nat)
    requires d > 0
    ensures m as real == (m / d) as real * d as real + (m % d) as real
  {
    var q, r := m / d, m % d;
    assert m == q * d + r;
    assert (q * d) as real == q as real * d as real;
  }

  lemma FloorAndRest(v: real, q: int, r: real, d: real)
    requires 0.0 <= r < d && v * d == q as real * d + r
    ensures v.Floor as real == v <==> r == 0.0
  {
    Distributes(v, q as real, d);
    PartOfOne(v - q as real, r, d);
    FloorWithin(v, q);
  }

  lemma Distributes(a: real, b: real, d: real)
    ensures (a - b) * d == a * d - b * d
  {
  }

  lemma PartOfOne(e: real, r: real, d: real)
    requires e * d == r && 0.0 <= r < d
    ensures 0.0 <= e < 1.0 && (e == 0.0 <==> r == 0.0)
  {
    Distributes(1.0, e, d);
    SignOfProduct(e, d);
    SignOfProduct(1.0 - e, d);
  }

  lemma FloorWithin(v: real, q: int)
    requires 0.0 <= v - q as real < 1.0
    ensures v.Floor == q
  {
  }

  lemma ProductOverDivisor(size: nat, n: nat, d: nat)
    requires d > 0
    ensures size as real * (n as real / d as real) * d as real == (size * n) as real
  {
    var a := n as real / d as real;
    assert a * d as real == n as real;
    assert size as real * a * d as real == size as real * (a * d as real);
    assert (size * n) as real == size as real * n as real;
  }

  /** Clipping keeps a well-ordered box well-ordered, and is the identity exactly on the boxes inside the image. */
  lemma ClipFacts(f: Frame, b: Box)
    ensures f.Clipped(b).Inside(f.w as real, f.h as real)
    ensures b.WellOrdered() ==> f.Clipped(b).WellOrdered()
    ensures f.Clipped(b) == b <==> b.Inside(f.w as real, f.h as real)
  {
  }

  // ---------------------------------------------------------------- post-processing

  function CornerBox(r: Raw): Box {
    Box(r.cx - r.width / 2.0, r.cy - r.height / 2.0, r.cx + r.width / 2.0, r.cy + r.height / 2.0)
  }

  /** The rows that pass the confidence mask, mapped back to the image and clipped. */
  function Candidates(rows: seq<Raw>, f: Frame): seq<Detected>
    requires f.w > 0 && f.h > 0 && f.Scale() != 0.0
  {
    if rows == [] then []
    else
      (if rows[0].conf >= CONF_THRESHOLD
       then [Detected(f.Clipped(f.FromCanvas(CornerBox(rows[0]))), rows[0].conf)] else [])
      + Candidates(rows[1..], f)
  }

  function Boxes(ds: seq<Detected>): seq<Box> { seq(|ds|, i requires 0 <= i < |ds| => ds[i].box) }

  function Scores(ds: seq<Detected>): seq<real> { seq(|ds|, i requires 0 <= i < |ds| => ds[i].score) }

  /** `_postprocess`: `sorted` is the order numpy's sort finds for the masked rows. */
  method Postprocess(rows: seq<Raw>, f: Frame, sorted: seq<nat>) returns (detections: seq<Detected>)
    requires f.w > 0 && f.h > 0 && f.Scale() != 0.0
    requires ArgsortDescending(sorted, Scores(Candidates(rows, f)))
    ensures var all := Candidates(rows, f);
            var keep := Suppressed(Boxes(all), sorted, IOU_THRESHOLD);
            && (forall i :: 0 <= i < |keep| ==> keep[i] < |all|)
            && detections == Pick(all, keep)
  {
    var all := Candidates(rows, f);
    detections := KeepUnsuppressed(all, sorted);
  }

  lemma SuppressedInRange(all: seq<Detected>, sorted: seq<nat>)
    requires ArgsortDescending(sorted, Scores(all))
    ensures forall i :: 0 <= i < |sorted| ==> sorted[i] < |all|
    ensures var keep := Suppressed(Boxes(all), sorted, IOU_THRESHOLD);
            && (forall i :: 0 <= i < |keep| ==> keep[i] < |all|)
            && (|all| == 0 ==> keep == [])
  {
    KeptListDescending(Overlap(Boxes(all), IOU_THRESHOLD), sorted, |sorted|, Scores(all));
  }

  method KeepUnsuppressed(all: seq<Detected>, sorted: seq<nat>) returns (detections: seq<Detected>)
    requires ArgsortDescending(sorted, Scores(all))
    ensures var keep := Suppressed(Boxes(all), sorted, IOU_THRESHOLD);
            && (forall i :: 0 <= i < |keep| ==> keep[i] < |all|)
            && detections == Pick(all, keep)
  {
    SuppressedInRange(all, sorted);
    if |all| == 0 {
      return [];
    }
    var keep := Nms(Boxes(all), sorted, IOU_THRESHOLD);
    detections := Pick(all, keep);
  }

  /** Every masked and mapped row is confident and inside the image. */
  lemma {:induction false} CandidatesInside(rows: seq<Raw>, f: Frame)
    requires f.Valid() && f.Scale() > 0.0
    ensures forall d :: d in Candidates(rows, f) ==> d.score >= CONF_THRESHOLD && d.box.Inside(f.w as real, f.h as real)
  {
    if rows != [] {
      CandidatesInside(rows[1..], f);
      ClipFacts(f, f.FromCanvas(CornerBox(rows[0])));
    }
  }

  /** How many of the first `n` rows pass the confidence mask. */
  function Masked(rows: seq<Raw>, n: nat): nat
    requires n <= |rows|
  {
    if n == 0 then 0 else Masked(rows, n - 1) + if rows[n - 1].conf >= CONF_THRESHOLD then 1 else 0
  }

  /** The image box of a network row: centre and sides measured from the padding in units of the scale, then clipped. */
  ghost predicate IsImageBox(r: Raw, f: Frame, box: Box)
    requires f.w > 0 && f.h > 0
  {
    exists m: Box ::
      && box == f.Clipped(m)
      && (m.x1 + m.x2) / 2.0 * f.Scale() == r.cx - f.Left() as real && (m.x2 - m.x1) * f.Scale() == r.width
      && (m.y1 + m.y2) / 2.0 * f.Scale() == r.cy - f.Top() as real && (m.y2 - m.y1) * f.Scale() == r.height
  }

  lemma AxisCentre(c: real, size: real, pad: int, s: real)
    requires s != 0.0
    ensures var lo, hi := OffAxis(c - size / 2.0, pad, s), OffAxis(c + size / 2.0, pad, s);
            (lo + hi) / 2.0 * s == c - pad as real && (hi - lo) * s == size
  {
    var lo, hi := OffAxis(c - size / 2.0, pad, s), OffAxis(c + size / 2.0, pad, s);
    assert lo * s == c - size / 2.0 - pad as real;
    assert hi * s == c + size / 2.0 - pad as real;
    Distributes(hi, lo, s);
    assert (lo + hi) / 2.0 * s == (lo * s + hi * s) / 2.0;
  }

  lemma CornerBoxMaps(r: Raw, f: Frame)
    requires f.w > 0 && f.h > 0 && f.Scale() != 0.0
    ensures IsImageBox(r, f, f.Clipped(f.FromCanvas(CornerBox(r))))
  {
    hide Frame.Scale, Frame.Left, Frame.Top, Frame.Clipped, OffAxis;
    AxisCentre(r.cx, r.width, f.Left(), f.Scale());
    AxisCentre(r.cy, r.height, f.Top(), f.Scale());
    var m := f.FromCanvas(CornerBox(r));
    assert (m.x1 + m.x2) / 2.0 * f.Scale() == r.cx - f.Left() as real;
  }

  /** No row that passes the mask is lost, and each becomes its image box with its own confidence, in order. */
  lemma {:induction false} EveryMaskedRowIsCandidate(rows: seq<Raw>, f: Frame)
    requires f.w > 0 && f.h > 0 && f.Scale() != 0.0
    ensures |Candidates(rows, f)| == Masked(rows, |rows|)
    ensures forall i :: 0 <= i < |rows| && rows[i].conf >= CONF_THRESHOLD ==>
              Masked(rows, i) < |Candidates(rows, f)| && IsCandidate(rows[i], f, Candidates(rows, f)[Masked(rows, i)])
  {
    hide Frame.Scale, IsCandidate, CornerBox, Frame.Clipped, Frame.FromCanvas;
    if rows != [] {
      EveryMaskedRowIsCandidate(rows[1..], f);
      FirstCandidate(rows, f);
      MaskedTail(rows, |rows|);
      forall i | 0 <= i < |rows| && rows[i].conf >= CONF_THRESHOLD
        ensures Masked(rows, i) < |Candidates(rows, f)| && IsCandidate(rows[i], f, Candidates(rows, f)[Masked(rows, i)])
      {
        if i > 0 {
          LaterCandidate(rows, f, i);
        }
      }
    }
  }

  lemma LaterCandidate(rows: seq<Raw>, f: Frame, i: nat)
    requires f.w > 0 && f.h > 0 && f.Scale() != 0.0 && 0 < i < |rows|
    requires Masked(rows[1..], i - 1) < |Candidates(rows[1..], f)|
    ensures Masked(rows, i) < |Candidates(rows, f)|
    ensures rows[1..][i - 1] == rows[i]
    ensures Candidates(rows, f)[Masked(rows, i)] == Candidates(rows[1..], f)[Masked(rows[1..], i - 1)]
  {
    hide Frame.Scale, CornerBox, Frame.Clipped, Frame.FromCanvas;
    MaskedTail(rows, i);
  }

  lemma FirstCandidate(rows: seq<Raw>, f: Frame)
    requires f.w > 0 && f.h > 0 && f.Scale() != 0.0
    ensures rows != [] && rows[0].conf >= CONF_THRESHOLD ==> IsCandidate(rows[0], f, Candidates(rows, f)[0])
  {
    hide Frame.Scale, IsImageBox;
    if rows != [] && rows[0].conf >= CONF_THRESHOLD {
      CornerBoxMaps(rows[0], f);
    }
  }

  ghost predicate IsCandidate(r: Raw, f: Frame, d: Detected)
    requires f.w > 0 && f.h > 0
  {
    d.score == r.conf && IsImageBox(r, f, d.box)
  }

  lemma {:induction false} MaskedTail(rows: seq<Raw>, n: nat)
    requires 0 < n <= |rows|
    ensures Masked(rows, n) == (if rows[0].conf >= CONF_THRESHOLD then 1 else 0) + Masked(rows[1..], n - 1)
  {
    if n > 1 {
      MaskedTail(rows, n - 1);
    }
  }

  /** Rows of nonnegative size give well-ordered boxes. */
  lemma {:induction false} CandidatesOrdered(rows: seq<Raw>, f: Frame)
    requires f.Valid() && f.Scale() > 0.0
    requires forall i :: 0 <= i < |rows| ==> rows[i].width >= 0.0 && rows[i].height >= 0.0
    ensures forall d :: d in Candidates(rows, f) ==> d.box.WellOrdered()
  {
    if rows != [] {
      CandidatesOrdered(rows[1..], f);
      var b := CornerBox(rows[0]);
      DivideMonotone(b.x1 - f.Left() as real, b.x2 - f.Left() as real, f.Scale());
      DivideMonotone(b.y1 - f.Top() as real, b.y2 - f.Top() as real, f.Scale());
      ClipFacts(f, f.FromCanvas(b));
    }
  }
}
