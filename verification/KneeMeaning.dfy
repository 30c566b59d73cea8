/** What a knee detection means for the sweep: every part of it stated on the stages themselves,
    without normalization, running minima or scans. */
module KneeMeaning {
  import opened Numbers
  import opened Sequences
  import opened Ratios
  import opened Knee

  // ---------- the measured stages

  /** `c` lists, in order, the stages that have a throughput and a p95. */
  ghost predicate IsCurve(points: seq<SweepPoint>, c: Curve) {
    && Quotes(points, c)
    && (forall i, j :: 0 <= i < j < |c| ==> c[i].index < c[j].index)
    && Complete(points, c, 0)
  }

  ghost predicate Names(c: Curve, m: nat) { exists i :: 0 <= i < |c| && c[i].index == m }

  /** `c` names every stage from `k` on that has a throughput and a p95. */
  ghost predicate Complete(points: seq<SweepPoint>, c: Curve, k: nat) {
    forall m: nat :: k <= m < |points| && points[m].throughput.Some? && points[m].p95.Some? ==> Names(c, m)
  }

  ghost predicate Quotes(points: seq<SweepPoint>, c: Curve) {
    forall i :: 0 <= i < |c| ==>
      && c[i].index < |points|
      && points[c[i].index].throughput == Some(c[i].x) && points[c[i].index].p95 == Some(c[i].y)
  }

  lemma JoinNames(points: seq<SweepPoint>, a: Curve, b: Curve)
    requires Quotes(points, a) && Quotes(points, b)
    ensures Quotes(points, a + b) && forall m: nat :: Names(a, m) || Names(b, m) ==> Names(a + b, m)
  {
    forall m: nat | Names(a, m) || Names(b, m) ensures Names(a + b, m) {
      if Names(a, m) {
        var i :| 0 <= i < |a| && a[i].index == m;
        assert (a + b)[i].index == m;
      } else {
        var i :| 0 <= i < |b| && b[i].index == m;
        assert (a + b)[|a| + i].index == m;
      }
    }
  }

  lemma {:induction false} CurveFromListed(points: seq<SweepPoint>, k: nat)
    requires k <= |points|
    ensures Quotes(points, CurveFrom(points, k)) && Complete(points, CurveFrom(points, k), k)
    decreases |points| - k
  {
    if k < |points| {
      CurveFromListed(points, k + 1);
      hide Names, Quotes, Complete, Entry;
      EntryListed(points, k, CurveFrom(points, k + 1));
    }
  }

  lemma EntryListed(points: seq<SweepPoint>, k: nat, c: Curve)
    requires k < |points| && Quotes(points, c) && Complete(points, c, k + 1)
    ensures Quotes(points, Entry(points[k], k) + c) && Complete(points, Entry(points[k], k) + c, k)
  {
    EntryNames(points, k);
    hide Names, Quotes, Entry;
    JoinNames(points, Entry(points[k], k), c);
  }

  lemma EntryNames(points: seq<SweepPoint>, k: nat)
    requires k < |points|
    ensures Quotes(points, Entry(points[k], k))
    ensures points[k].throughput.Some? && points[k].p95.Some? ==> Names(Entry(points[k], k), k)
  {
    var e := Entry(points[k], k);
    if points[k].throughput.Some? && points[k].p95.Some? { assert e[0].index == k; }
  }

  lemma CurveOfIs(points: seq<SweepPoint>)
    ensures IsCurve(points, CurveOf(points))
  {
    hide CurveFrom;
    CurveFromListed(points, 0);
  }

  // ---------- saturation

  /** Throughput grew by less than half of what load grew, relative to the stage before; stages that
      serve all their requests at once do not count. */
  ghost predicate Stalls(axis: Axis, a: SweepPoint, b: SweepPoint) {
    && axis.Concurrency? && (a.load < a.n as real || b.load < b.n as real)
    && 0.0 < a.load < b.load && a.throughput.Some? && b.throughput.Some? && a.throughput.value > 0.0
    && 2.0 * (b.throughput.value - a.throughput.value) * a.load < (b.load - a.load) * a.throughput.value
  }

  /** Stage `k` stalls after the one before it, or its error rate is five points above an earlier one. */
  ghost predicate Overloaded(points: seq<SweepPoint>, axis: Axis, k: nat) {
    && 0 < k < |points|
    && (Stalls(axis, points[k - 1], points[k])
        || exists i :: 0 <= i < k && points[i].errorRate.Some? && points[k].errorRate.Some?
             && points[i].errorRate.value + 0.05 <= points[k].errorRate.value)
  }

  lemma CrossCompare(a: real, b: real, c: real, d: real)
    requires b > 0.0 && d > 0.0
    ensures a / b < c / d <==> a * d < c * b
    ensures a / b <= c / d <==> a * d <= c * b
  {
    var p, q := a / b, c / d;
    assert p * b == a && q * d == c;
    assert (q - p) * (b * d) == q * d * b - p * b * d;
    assert b * d > 0.0;
    if a * d < c * b { SignOfFactor(q - p, b * d); }
    if a * d == c * b { assert (q - p) * (b * d) == 0.0; }
    if a * d > c * b { SignOfFactor(p - q, b * d); assert (p - q) * (b * d) == p * b * d - q * d * b; }
    if p < q { Positive(q - p, b * d); }
    if q < p { Positive(p - q, b * d); assert (p - q) * (b * d) == p * b * d - q * d * b; }
  }

  lemma Positive(x: real, y: real)
    requires x > 0.0 && y > 0.0
    ensures x * y > 0.0
  {
  }

  lemma LowGainIsStall(axis: Axis, a: SweepPoint, b: SweepPoint)
    ensures LowGain(axis, a, b) <==> Stalls(axis, a, b)
  {
    if 0.0 < a.load < b.load && a.throughput.Some? && b.throughput.Some? && a.throughput.value > 0.0 {
      var gain, more := b.throughput.value - a.throughput.value, b.load - a.load;
      HalfOf(more, a.load);
      CrossCompare(gain, a.throughput.value, more / 2.0, a.load);
      assert gain * a.load < more / 2.0 * a.throughput.value <==> 2.0 * gain * a.load < more * a.throughput.value;
    }
  }

  lemma HalfOf(x: real, y: real)
    requires y > 0.0
    ensures 0.5 * (x / y) == x / 2.0 / y
  {
    var q := x / y;
    assert q * y == x;
    QuotientIs(x / 2.0, y, 0.5 * q);
  }

  lemma SaturatedIsOverloaded(points: seq<SweepPoint>, axis: Axis, k: nat)
    ensures Saturated(points, axis, k) <==> Overloaded(points, axis, k)
  {
    hide LowGain, Stalls;
    if 0 < k < |points| {
      LowGainIsStall(axis, points[k - 1], points[k]);
      forall i | 0 <= i < k
        ensures ErrorsRose(points[i], points[k]) <==>
          points[i].errorRate.Some? && points[k].errorRate.Some?
          && points[i].errorRate.value + 0.05 <= points[k].errorRate.value
      {
      }
    }
  }

  // ---------- the largest rise

  /** From `base` to `peak` p95 grows by the largest factor of any pair in order with a positive
      first value: `base` is the first least positive value up to `peak`, and `peak` is the first
      position where that factor is reached. */
  ghost predicate FirstLargestRise(c: Curve, base: nat, peak: nat) {
    && base <= peak < |c| && c[base].y > 0.0
    && (forall i, j :: 0 <= i <= j < |c| && c[i].y > 0.0 ==> c[j].y * c[base].y <= c[peak].y * c[i].y)
    && (forall i, j :: 0 <= i <= j < peak && c[i].y > 0.0 ==> c[j].y * c[base].y < c[peak].y * c[i].y)
    && (forall i :: 0 <= i <= peak && c[i].y > 0.0 ==> c[base].y <= c[i].y)
    && (forall i :: 0 <= i < base && c[i].y > 0.0 ==> c[base].y < c[i].y)
  }

  /** The scan keeps the first of equal minima and the first of equal rises. */
  ghost predicate ScanFirst(c: Curve, k: nat, s: RiseScan)
    requires ScanOk(c, k, s)
  {
    && (s.low.Some? ==> forall i :: 0 <= i < s.low.value && c[i].y > 0.0 ==> c[s.low.value].y < c[i].y)
    && (s.best.Some? ==>
          var b := s.best.value;
          && (forall i :: 0 <= i <= b.peak && c[i].y > 0.0 ==> c[b.base].y <= c[i].y)
          && (forall i :: 0 <= i < b.base && c[i].y > 0.0 ==> c[b.base].y < c[i].y)
          && (forall i: nat, j: nat, r :: j < b.peak && IsRise(c, i, j, r) ==> r < b.rise))
  }

  lemma ScanFirstStep(c: Curve, k: nat, s: RiseScan)
    requires k < |c| && ScanOk(c, k, s) && ScanFirst(c, k, s)
    ensures ScanOk(c, k + 1, RiseStep(c, k, s)) && ScanFirst(c, k + 1, RiseStep(c, k, s))
  {
    RiseStepOk(c, k, s);
    hide IsRise;
  }

  lemma {:induction false} RiseFromFirst(c: Curve, k: nat, s: RiseScan)
    requires ScanOk(c, k, s) && ScanFirst(c, k, s)
    ensures ScanOk(c, |c|, RiseFrom(c, k, s)) && ScanFirst(c, |c|, RiseFrom(c, k, s))
    decreases |c| - k
  {
    hide ScanOk, ScanFirst, RiseStep;
    LowInCurve(c, k, s);
    if k < |c| {
      ScanFirstStep(c, k, s);
      LowInCurve(c, k + 1, RiseStep(c, k, s));
      RiseFromFirst(c, k + 1, RiseStep(c, k, s));
    }
  }

  lemma LargestRiseIsFirst(c: Curve)
    ensures LargestRise(c).None? <==> forall i :: 0 <= i < |c| ==> c[i].y <= 0.0
    ensures LargestRise(c).Some? ==> IsFirstRise(c, LargestRise(c).value)
  {
    hide IsRise, IsFirstRise, LargestRise;
    LargestRiseIsLargest(c);
    if LargestRise(c).Some? {
      BestIsFirstFound(c);
      BestIsFirst(c, LargestRise(c).value);
    }
  }

  ghost predicate IsFirstRise(c: Curve, r: Rise) {
    FirstLargestRise(c, r.base, r.peak) && r.rise * c[r.base].y == c[r.peak].y - c[r.base].y
  }

  lemma BestIsFirstFound(c: Curve)
    requires LargestRise(c).Some?
    ensures var b := LargestRise(c).value;
      && b.base <= b.peak < |c|
      && (forall i :: 0 <= i <= b.peak && c[i].y > 0.0 ==> c[b.base].y <= c[i].y)
      && (forall i :: 0 <= i < b.base && c[i].y > 0.0 ==> c[b.base].y < c[i].y)
      && (forall i: nat, j: nat, r :: j < b.peak && IsRise(c, i, j, r) ==> r < b.rise)
  {
    hide RiseFrom;
    EmptyScan(c);
    RiseFromFirst(c, 0, RiseScan(None, None));
  }

  lemma EmptyScan(c: Curve)
    ensures ScanOk(c, 0, RiseScan(None, None)) && ScanFirst(c, 0, RiseScan(None, None))
  {
  }

  lemma BestIsFirst(c: Curve, r: Rise)
    requires IsRise(c, r.base, r.peak, r.rise)
    requires forall i: nat, j: nat, other :: IsRise(c, i, j, other) ==> other <= r.rise
    requires forall i: nat, j: nat, other :: j < r.peak && IsRise(c, i, j, other) ==> other < r.rise
    requires forall i :: 0 <= i <= r.peak && c[i].y > 0.0 ==> c[r.base].y <= c[i].y
    requires forall i :: 0 <= i < r.base && c[i].y > 0.0 ==> c[r.base].y < c[i].y
    ensures IsFirstRise(c, r)
  {
    RiseQuotient(c[r.peak].y, c[r.base].y);
    forall i: nat, j: nat | i <= j < |c| && c[i].y > 0.0
      ensures c[j].y * c[r.base].y <= c[r.peak].y * c[i].y
      ensures j < r.peak ==> c[j].y * c[r.base].y < c[r.peak].y * c[i].y
    {
      RiseCompared(c, i, j, r);
    }
  }

  lemma RiseQuotient(y: real, d: real)
    requires d > 0.0
    ensures (y / d - 1.0) * d == y - d
  {
    var q := y / d;
    assert q * d == y;
    assert (q - 1.0) * d == q * d - d;
  }

  lemma RiseCompared(c: Curve, i: nat, j: nat, r: Rise)
    requires i <= j < |c| && c[i].y > 0.0 && IsRise(c, r.base, r.peak, r.rise)
    requires forall i: nat, j: nat, other :: IsRise(c, i, j, other) ==> other <= r.rise
    requires forall i: nat, j: nat, other :: j < r.peak && IsRise(c, i, j, other) ==> other < r.rise
    ensures c[j].y * c[r.base].y <= c[r.peak].y * c[i].y
    ensures j < r.peak ==> c[j].y * c[r.base].y < c[r.peak].y * c[i].y
  {
    assert IsRise(c, i, j, c[j].y / c[i].y - 1.0);
    CrossCompare(c[j].y, c[i].y, c[r.peak].y, c[r.base].y);
  }

  // ---------- the bend

  ghost predicate XRange(c: Curve, lo: real, hi: real) {
    && (forall i :: 0 <= i < |c| ==> lo <= c[i].x <= hi)
    && (exists i :: 0 <= i < |c| && c[i].x == lo) && (exists i :: 0 <= i < |c| && c[i].x == hi)
  }

  ghost predicate YRange(c: Curve, lo: real, hi: real) {
    && (forall i :: 0 <= i < |c| ==> lo <= c[i].y <= hi)
    && (exists i :: 0 <= i < |c| && c[i].y == lo) && (exists i :: 0 <= i < |c| && c[i].y == hi)
  }

  /** Twice the area between an entry and the diagonal of the box `lo..hi`, in the box's own units. */
  function Off(p: CurvePoint, xlo: real, xhi: real, ylo: real, yhi: real): real {
    Abs((p.y - ylo) * (xhi - xlo) - (p.x - xlo) * (yhi - ylo))
  }

  /** Entry `k` is the interior entry farthest from the diagonal of the curve's box, the last one on
      ties; both sides of the box are longer than the tolerance. */
  ghost predicate BendsAt(c: Curve, k: nat) {
    exists xlo, xhi, ylo, yhi :: XRange(c, xlo, xhi) && YRange(c, ylo, yhi) && FarthestIn(c, k, xlo, xhi, ylo, yhi)
  }

  ghost predicate FarthestIn(c: Curve, k: nat, xlo: real, xhi: real, ylo: real, yhi: real) {
    && 0 < k < |c| - 1 && xhi - xlo > EPSILON && yhi - ylo > EPSILON
    && (forall i :: 0 < i < |c| - 1 ==> Off(c[i], xlo, xhi, ylo, yhi) <= Off(c[k], xlo, xhi, ylo, yhi))
    && (forall i :: k < i < |c| - 1 ==> Off(c[i], xlo, xhi, ylo, yhi) < Off(c[k], xlo, xhi, ylo, yhi))
  }

  /** Throughput or p95 does not vary. */
  ghost predicate IsFlat(c: Curve) {
    || (exists lo, hi :: XRange(c, lo, hi) && hi - lo <= EPSILON)
    || (exists lo, hi :: YRange(c, lo, hi) && hi - lo <= EPSILON)
  }

  lemma {:induction false} ExtremesAttained(vs: seq<real>)
    requires vs != []
    ensures forall i :: 0 <= i < |vs| ==> MinOf(vs) <= vs[i] <= MaxOf(vs)
    ensures MinOf(vs) in vs && MaxOf(vs) in vs
    decreases |vs|
  {
    if |vs| > 1 {
      ExtremesAttained(vs[1..]);
      assert forall i :: 0 < i < |vs| ==> vs[i] == vs[1..][i - 1];
    }
  }

  lemma XRangeIs(c: Curve, lo: real, hi: real)
    requires c != []
    ensures XRange(c, lo, hi) <==> lo == MinX(c) && hi == MaxX(c)
  {
    hide MinOf, MaxOf;
    var vs := Xs(c);
    ExtremesAttained(vs);
    var i :| 0 <= i < |vs| && vs[i] == MinX(c);
    var j :| 0 <= j < |vs| && vs[j] == MaxX(c);
    assert c[i].x == MinX(c) && c[j].x == MaxX(c);
    assert forall k :: 0 <= k < |c| ==> c[k].x == vs[k];
  }

  lemma YRangeIs(c: Curve, lo: real, hi: real)
    requires c != []
    ensures YRange(c, lo, hi) <==> lo == MinY(c) && hi == MaxY(c)
  {
    hide MinOf, MaxOf;
    var vs := Ys(c);
    ExtremesAttained(vs);
    var i :| 0 <= i < |vs| && vs[i] == MinY(c);
    var j :| 0 <= j < |vs| && vs[j] == MaxY(c);
    assert c[i].y == MinY(c) && c[j].y == MaxY(c);
    assert forall k :: 0 <= k < |c| ==> c[k].y == vs[k];
  }

  /** The normalized distance times the area of the box. */
  lemma GapIsOff(c: Curve, k: nat)
    requires k < |c| && !FlatX(c) && !FlatY(c)
    ensures Gap(c, k) * ((MaxX(c) - MinX(c)) * (MaxY(c) - MinY(c))) == Off(c[k], MinX(c), MaxX(c), MinY(c), MaxY(c))
  {
    hide MinX, MaxX, MinY, MaxY;
    ScaledDistance(c[k].y - MinY(c), MaxY(c) - MinY(c), c[k].x - MinX(c), MaxX(c) - MinX(c));
  }

  lemma ScaledDistance(y: real, h: real, x: real, w: real)
    requires h > 0.0 && w > 0.0
    ensures Abs(y / h - x / w) * (w * h) == Abs(y * w - x * h)
  {
    var p, q := y / h, x / w;
    assert p * h == y && q * w == x;
    assert (p - q) * (w * h) == p * h * w - q * w * h;
    assert w * h > 0.0;
    if p - q < 0.0 {
      Positive(q - p, w * h);
      assert (q - p) * (w * h) == q * w * h - p * h * w;
    } else if p - q > 0.0 {
      Positive(p - q, w * h);
    }
  }

  lemma GapsCompare(c: Curve, i: nat, k: nat)
    requires i < |c| && k < |c| && !FlatX(c) && !FlatY(c)
    ensures Gap(c, i) <= Gap(c, k)
      <==> Off(c[i], MinX(c), MaxX(c), MinY(c), MaxY(c)) <= Off(c[k], MinX(c), MaxX(c), MinY(c), MaxY(c))
  {
    hide Gap, Off, MinX, MaxX, MinY, MaxY;
    GapIsOff(c, i);
    GapIsOff(c, k);
    var area := (MaxX(c) - MinX(c)) * (MaxY(c) - MinY(c));
    Positive(MaxX(c) - MinX(c), MaxY(c) - MinY(c));
    SameOrder(Gap(c, i), Gap(c, k), area);
  }

  lemma SameOrder(p: real, q: real, area: real)
    requires area > 0.0
    ensures p <= q <==> p * area <= q * area
  {
    assert (q - p) * area == q * area - p * area;
    if p > q { Positive(p - q, area); }
    if p < q { Positive(q - p, area); }
  }

  /** Kneedle answers exactly when there is a bend, with the stage it is at. */
  lemma KneedleIsBend(c: Curve)
    ensures KneedlePoint(c).Some? <==> exists k :: BendsAt(c, k)
    ensures KneedlePoint(c).Some? ==> exists k :: 0 <= k < |c| && BendsAt(c, k) && KneedlePoint(c).value == c[k].index
    ensures forall k: nat :: BendsAt(c, k) ==> KneedlePoint(c) == Some(c[k].index)
  {
    hide Gap, Off, MinX, MaxX, MinY, MaxY, XRange, YRange;
    if c != [] {
      XRangeIs(c, MinX(c), MaxX(c));
      YRangeIs(c, MinY(c), MaxY(c));
    }
    if |c| >= 3 && !FlatX(c) && !FlatY(c) {
      var f := Farthest(c, |c| - 2);
      forall i | 0 < i < |c| - 1
        ensures Off(c[i], MinX(c), MaxX(c), MinY(c), MaxY(c)) <= Off(c[f], MinX(c), MaxX(c), MinY(c), MaxY(c))
        ensures i > f ==> Off(c[i], MinX(c), MaxX(c), MinY(c), MaxY(c)) < Off(c[f], MinX(c), MaxX(c), MinY(c), MaxY(c))
      {
        GapsCompare(c, i, f);
        GapsCompare(c, f, i);
      }
      assert FarthestIn(c, f, MinX(c), MaxX(c), MinY(c), MaxY(c));
      assert BendsAt(c, f);
    }
    forall k: nat | BendsAt(c, k) ensures KneedlePoint(c) == Some(c[k].index) { BendIsKneedle(c, k); }
  }

  lemma BendIsKneedle(c: Curve, k: nat)
    requires BendsAt(c, k)
    ensures k < |c| && KneedlePoint(c) == Some(c[k].index)
  {
    hide Gap, Off, MinX, MaxX, MinY, MaxY, XRange, YRange;
    var xlo, xhi, ylo, yhi :| XRange(c, xlo, xhi) && YRange(c, ylo, yhi) && FarthestIn(c, k, xlo, xhi, ylo, yhi);
    XRangeIs(c, xlo, xhi);
    YRangeIs(c, ylo, yhi);
    var f := Farthest(c, |c| - 2);
    GapsCompare(c, f, k);
    GapsCompare(c, k, f);
    OneFarthest(c, k, f);
  }

  lemma OneFarthest(c: Curve, k: nat, f: nat)
    requires |c| >= 3 && !FlatX(c) && !FlatY(c) && f == Farthest(c, |c| - 2) && 0 < k < |c| - 1
    requires Gap(c, f) <= Gap(c, k)
    requires k < f ==> Gap(c, f) < Gap(c, k)
    ensures k == f
  {
    hide Gap, FlatX, FlatY;
  }

  lemma FlatIs(c: Curve)
    requires c != []
    ensures IsFlat(c) <==> FlatX(c) || FlatY(c)
  {
    hide MinX, MaxX, MinY, MaxY, XRange, YRange;
    XRangeIs(c, MinX(c), MaxX(c));
    YRangeIs(c, MinY(c), MaxY(c));
    forall lo, hi ensures XRange(c, lo, hi) <==> lo == MinX(c) && hi == MaxX(c) { XRangeIs(c, lo, hi); }
    forall lo, hi ensures YRange(c, lo, hi) <==> lo == MinY(c) && hi == MaxY(c) { YRangeIs(c, lo, hi); }
  }

  // ---------- the detection

  /** p95 rises by at least a fifth, from `base` to `peak`. */
  ghost predicate Rises(c: Curve, base: nat, peak: nat) {
    FirstLargestRise(c, base, peak) && 6.0 * c[base].y <= 5.0 * c[peak].y
  }

  /** Stage `k` is where p95 bends: the bend of the stretch that rises or, if the peak follows the
      baseline at once, the baseline. */
  ghost predicate LatencyKnee(c: Curve, k: nat) {
    exists base: nat, peak: nat :: Rises(c, base, peak) && KneeOfStretch(c, base, peak, k)
  }

  ghost predicate NoBendIn(c: Curve) { forall j: nat :: !BendsAt(c, j) }

  ghost predicate KneeOfStretch(c: Curve, base: nat, peak: nat, k: nat)
    requires base <= peak < |c|
  {
    var stretch := c[base..peak + 1];
    || (exists j :: 0 <= j < |stretch| && BendsAt(stretch, j) && k == stretch[j].index)
    || (NoBendIn(stretch) && peak == base + 1 && k == c[base].index)
  }

  /** p95 rises over a stretch of several stages that has no bend. */
  ghost predicate RisesWithoutBend(c: Curve) {
    exists base: nat, peak: nat :: Rises(c, base, peak) && peak != base + 1 && NoBendIn(c[base..peak + 1])
  }

  ghost predicate FirstOverloaded(points: seq<SweepPoint>, axis: Axis, s: Option<nat>) {
    if s.None? then forall k :: !Overloaded(points, axis, k)
    else Overloaded(points, axis, s.value) && forall k :: 0 <= k < s.value ==> !Overloaded(points, axis, k)
  }

  ghost predicate ReportsRise(c: Curve, rise: Option<real>) {
    if rise.None? then forall i :: 0 <= i < |c| ==> c[i].y <= 0.0
    else exists base: nat, peak: nat ::
      FirstLargestRise(c, base, peak) && rise.value * c[base].y == c[peak].y - c[base].y
  }

  /** What a detection on the measured stages `c` says. */
  ghost predicate Says(points: seq<SweepPoint>, axis: Axis, c: Curve, d: Detection) {
    && d.points == |c|
    && if |c| < 5 then
         d == Detection(None, Some(InsufficientPoints), None, |c|, None, None)
       else
         && points != [] && FirstOverloaded(points, axis, d.saturatedIndex)
         && ReportsRise(c, d.p95Rise)
         && Answers(points, c, d)
  }

  /** The earlier of the bend and the stage before the first overloaded one, or why there is none. */
  ghost predicate Answers(points: seq<SweepPoint>, c: Curve, d: Detection)
    requires points != []
  {
    match d.how
    case Some(ByKneedle) =>
      && d.index.Some? && d.reason.None? && LatencyKnee(c, d.index.value)
      && (d.saturatedIndex.Some? ==> d.index.value < d.saturatedIndex.value)
    case Some(BySaturation) =>
      && d.reason.None? && d.saturatedIndex.Some? && d.saturatedIndex.value > 0
      && d.index == Some(d.saturatedIndex.value - 1)
      && forall k: nat :: LatencyKnee(c, k) ==> d.saturatedIndex.value <= k
    case None =>
      && d.index.None? && d.saturatedIndex.None? && (forall k: nat :: !LatencyKnee(c, k))
      && d.reason == Some(
           if points[0].p95.None? || points[|points| - 1].p95.None? then MissingLatency
           else if RisesWithoutBend(c) || IsFlat(c) then FlatCurve
           else NoBend)
  }

  /** There is only one first largest rise. */
  lemma OneRise(c: Curve, b: nat, p: nat, base: nat, peak: nat)
    requires FirstLargestRise(c, b, p) && FirstLargestRise(c, base, peak)
    ensures b == base && p == peak
  {
    NotBefore(c, b, p, base, peak);
    NotBefore(c, base, peak, b, p);
    BaseNotBefore(c, b, base, p);
    BaseNotBefore(c, base, b, p);
  }

  lemma BaseNotBefore(c: Curve, b: nat, base: nat, p: nat)
    requires FirstLargestRise(c, b, p) && FirstLargestRise(c, base, p)
    ensures b >= base
  {
  }

  lemma NotBefore(c: Curve, b: nat, p: nat, base: nat, peak: nat)
    requires FirstLargestRise(c, b, p) && FirstLargestRise(c, base, peak)
    ensures p >= peak
  {
    var reached, most := c[p].y * c[base].y, c[peak].y * c[b].y;
    assert most <= reached;
  }

  /** The latency candidate is the bend, and it is flat exactly when p95 rises without one. */
  lemma CandidateIs(c: Curve)
    ensures forall k: nat :: LatencyKnee(c, k) <==> BendOf(c).index == Some(k)
    ensures BendOf(c).flat <==> RisesWithoutBend(c)
  {
    hide FirstLargestRise, BendsAt, KneedlePoint, LargestRise;
    LargestRiseIsLargest(c);
    LargestRiseIsFirst(c);
    var rise := LargestRise(c);
    if rise.Some? {
      var r := rise.value;
      RiseBounds(c, r.base, r.peak);
      forall base: nat, peak: nat | FirstLargestRise(c, base, peak) ensures base == r.base && peak == r.peak {
        OneRise(c, r.base, r.peak, base, peak);
      }
      StretchCandidate(c, r);
    } else {
      forall base: nat, peak: nat ensures !FirstLargestRise(c, base, peak) { NoRise(c, base, peak); }
    }
  }

  lemma RiseBounds(c: Curve, base: nat, peak: nat)
    requires FirstLargestRise(c, base, peak)
    ensures base <= peak < |c|
  {
  }

  lemma NoRise(c: Curve, base: nat, peak: nat)
    requires forall i :: 0 <= i < |c| ==> c[i].y <= 0.0
    ensures !FirstLargestRise(c, base, peak)
  {
  }

  lemma StretchCandidate(c: Curve, r: Rise)
    requires FirstLargestRise(c, r.base, r.peak) && r.base <= r.peak < |c|
    requires forall base: nat, peak: nat :: FirstLargestRise(c, base, peak) ==> base == r.base && peak == r.peak
    ensures var m := KneedleCandidate(c, Some(r));
      && (forall k: nat :: LatencyKnee(c, k) <==> m.index == Some(k))
      && (m.flat <==> RisesWithoutBend(c))
  {
    hide FirstLargestRise, BendsAt, KneedlePoint;
    var s := c[r.base..r.peak + 1];
    KneedleIsBend(s);
    assert NoBendIn(s) <==> KneedlePoint(s).None?;
    assert Bends(c, r) <==> Rises(c, r.base, r.peak);
    forall k: nat ensures KneeOfStretch(c, r.base, r.peak, k) <==>
        if KneedlePoint(s).Some? then KneedlePoint(s).value == k
        else r.peak == r.base + 1 && k == c[r.base].index
    {
    }
  }

  /** Every detection is explained by the measured stages. */
  lemma DetectMeans(points: seq<SweepPoint>, axis: Axis)
    ensures IsCurve(points, CurveOf(points)) && Says(points, axis, CurveOf(points), Detect(points, axis))
  {
    hide BendOf, LargestRise, CurveFrom, FlatX, FlatY, LatencyKnee, RisesWithoutBend, IsFlat, FirstLargestRise,
      FirstOverloaded, IsCurve, Decide, Answers;
    CurveOfIs(points);
    CurveFits(points, 0);
    var c := CurveOf(points);
    if |c| >= MIN_POINTS {
      CandidateIs(c);
      FlatIs(c);
      SaturationIs(points, axis);
      LargestRiseIsFirst(c);
      var rise := LargestRise(c);
      var reported := if rise.Some? then Some(rise.value.rise) else None;
      DecideAnswers(points, c, reported, Saturation(points, axis, 0), BendOf(c));
    }
  }

  lemma SaturationIs(points: seq<SweepPoint>, axis: Axis)
    ensures FirstOverloaded(points, axis, Saturation(points, axis, 0))
    ensures Saturation(points, axis, 0).Some? ==> Saturation(points, axis, 0).value > 0
  {
    hide Overloaded, Saturated;
    var s := Saturation(points, axis, 0);
    forall k: nat ensures Saturated(points, axis, k) <==> Overloaded(points, axis, k) {
      SaturatedIsOverloaded(points, axis, k);
    }
    if s.Some? { OverloadedLater(points, axis, s.value); }
  }

  lemma OverloadedLater(points: seq<SweepPoint>, axis: Axis, k: nat)
    requires Overloaded(points, axis, k)
    ensures k > 0
  {
  }

  lemma DecideAnswers(
      points: seq<SweepPoint>, c: Curve, rise: Option<real>, saturated: Option<nat>, bend: Candidate)
    requires points != [] && c != [] && (saturated.Some? ==> saturated.value > 0)
    requires forall k: nat :: LatencyKnee(c, k) <==> bend.index == Some(k)
    requires bend.flat <==> RisesWithoutBend(c)
    requires IsFlat(c) <==> FlatX(c) || FlatY(c)
    ensures var d := Decide(points, c, rise, saturated, bend);
      Answers(points, c, d) && d.points == |c| && d.p95Rise == rise && d.saturatedIndex == saturated
  {
    hide LatencyKnee, RisesWithoutBend, IsFlat, FlatX, FlatY;
  }
}
