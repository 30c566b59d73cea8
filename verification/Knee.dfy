/** Knee detection on a load sweep (src/strategic.rs:935-1258). */
module Knee {
  import opened Numbers
  import opened Sequences
  import opened Ratios

  datatype Axis = Concurrency | Rate

  datatype SweepPoint = SweepPoint(
    load: real, n: nat, throughput: Option<real>, p95: Option<real>, errorRate: Option<real>)

  datatype Reason = InsufficientPoints | MissingLatency | FlatCurve | NoBend
  datatype Method = ByKneedle | BySaturation

  datatype Detection = Detection(
    index: Option<nat>, reason: Option<Reason>, how: Option<Method>,
    points: nat, p95Rise: Option<real>, saturatedIndex: Option<nat>)

  const MIN_POINTS: nat := 5
  const MIN_P95_RISE: real := 0.2
  const MIN_MARGINAL_GAIN: real := 0.5
  const MAX_ERROR_RATE_RISE: real := 0.05
  const EPSILON: real := 0.0000000000000002220446049250313

  /** A measured stage: its index, throughput and p95. */
  datatype CurvePoint = CurvePoint(index: nat, x: real, y: real)

  type Curve = seq<CurvePoint>

  // ---------- saturation

  predicate OneWave(a: SweepPoint, b: SweepPoint) { a.load >= a.n as real && b.load >= b.n as real }

  /** Throughput gained less than half of what load gained. */
  predicate LowGain(axis: Axis, a: SweepPoint, b: SweepPoint) {
    axis == Concurrency && !OneWave(a, b) && a.load > 0.0 && b.load > a.load
    && a.throughput.Some? && b.throughput.Some? && a.throughput.value > 0.0
    && (b.throughput.value - a.throughput.value) / a.throughput.value
       < MIN_MARGINAL_GAIN * ((b.load - a.load) / a.load)
  }

  predicate ErrorsRose(a: SweepPoint, b: SweepPoint) {
    a.errorRate.Some? && b.errorRate.Some? && b.errorRate.value - a.errorRate.value >= MAX_ERROR_RATE_RISE
  }

  /** The pairwise definition: low marginal gain over the stage before, or an error rate well above
      some earlier stage. */
  ghost predicate Saturated(points: seq<SweepPoint>, axis: Axis, k: nat) {
    0 < k < |points|
    && (LowGain(axis, points[k - 1], points[k]) || exists i :: 0 <= i < k && ErrorsRose(points[i], points[k]))
  }

  ghost predicate IsFloor(points: seq<SweepPoint>, k: nat, floor: Option<real>)
    requires k <= |points|
  {
    && (floor.Some? ==> exists i :: 0 <= i < k && points[i].errorRate == floor)
    && (forall i :: 0 <= i < k && points[i].errorRate.Some? ==> floor.Some? && floor.value <= points[i].errorRate.value)
  }

  lemma FloorStep(points: seq<SweepPoint>, k: nat, floor: Option<real>)
    requires 0 < k < |points| && IsFloor(points, k, floor) && points[k].errorRate.Some?
    ensures (floor.Some? && points[k].errorRate.value - floor.value >= MAX_ERROR_RATE_RISE)
            <==> (exists i :: 0 <= i < k && ErrorsRose(points[i], points[k]))
    ensures var rate := points[k].errorRate.value;
      IsFloor(points, k + 1, Some(if floor.Some? && floor.value <= rate then floor.value else rate))
  {
    var rate := points[k].errorRate.value;
    if floor.Some? {
      var i :| 0 <= i < k && points[i].errorRate == floor;
      if rate - floor.value >= MAX_ERROR_RATE_RISE { assert ErrorsRose(points[i], points[k]); }
    }
    var next := if floor.Some? && floor.value <= rate then floor.value else rate;
    assert points[k].errorRate == Some(rate);
    assert exists i :: 0 <= i < k + 1 && points[i].errorRate == Some(next);
  }

  /** One scan with a running minimum finds the first saturated stage of the pairwise definition. */
  method FirstSaturatedStage(points: seq<SweepPoint>, axis: Axis) returns (r: Option<nat>)
    ensures r.Some? ==> Saturated(points, axis, r.value) && forall j :: 0 <= j < r.value ==> !Saturated(points, axis, j)
    ensures r.None? ==> forall j :: !Saturated(points, axis, j)
  {
    hide LowGain, IsFloor;
    var floor := if points == [] then None else points[0].errorRate;
    if points != [] { FirstFloor(points); }
    var k := 1;
    while k < |points|
      invariant 1 <= k && (k <= |points| || points == [])
      invariant points != [] ==> IsFloor(points, k, floor)
      invariant forall j :: 0 <= j < k ==> !Saturated(points, axis, j)
    {
      if LowGain(axis, points[k - 1], points[k]) {
        return Some(k);
      }
      if points[k].errorRate.Some? {
        var rate := points[k].errorRate.value;
        FloorStep(points, k, floor);
        if floor.Some? && rate - floor.value >= MAX_ERROR_RATE_RISE {
          return Some(k);
        }
        floor := Some(if floor.Some? && floor.value <= rate then floor.value else rate);
      } else {
        NoRateKeepsFloor(points, k, floor);
        assert forall i :: 0 <= i < k ==> !ErrorsRose(points[i], points[k]);
      }
      k := k + 1;
    }
    return None;
  }

  lemma FirstFloor(points: seq<SweepPoint>)
    requires points != []
    ensures IsFloor(points, 1, points[0].errorRate)
  {
  }

  lemma NoRateKeepsFloor(points: seq<SweepPoint>, k: nat, floor: Option<real>)
    requires k < |points| && IsFloor(points, k, floor) && points[k].errorRate.None?
    ensures IsFloor(points, k + 1, floor)
  {
    if floor.Some? {
      var i :| 0 <= i < k && points[i].errorRate == floor;
      assert 0 <= i < k + 1;
    }
  }

  /** The least saturated stage, as a value. */
  ghost function Saturation(points: seq<SweepPoint>, axis: Axis, k: nat): (r: Option<nat>)
    requires k <= |points|
    ensures r.Some? ==> k <= r.value && Saturated(points, axis, r.value)
    ensures r.Some? ==> forall j :: k <= j < r.value ==> !Saturated(points, axis, j)
    ensures r.None? ==> forall j :: k <= j ==> !Saturated(points, axis, j)
    decreases |points| - k
  {
    if k == |points| then None else if Saturated(points, axis, k) then Some(k) else Saturation(points, axis, k + 1)
  }

  // ---------- the largest p95 rise

  datatype Rise = Rise(base: nat, peak: nat, rise: real)

  ghost predicate IsRise(curve: Curve, i: nat, j: nat, rise: real) {
    i <= j < |curve| && curve[i].y > 0.0 && rise == curve[j].y / curve[i].y - 1.0
  }

  /** The state of the scan before position `k`. */
  datatype RiseScan = RiseScan(low: Option<nat>, best: Option<Rise>)

  ghost predicate ScanOk(curve: Curve, k: nat, s: RiseScan) {
    && k <= |curve|
    && (s.low.Some? ==> s.low.value < k && curve[s.low.value].y > 0.0)
    && (forall i :: 0 <= i < k && curve[i].y > 0.0 ==> s.low.Some? && curve[s.low.value].y <= curve[i].y)
    && (s.best.Some? <==> s.low.Some?)
    && (s.best.Some? ==> s.best.value.peak < k && IsRise(curve, s.best.value.base, s.best.value.peak, s.best.value.rise)
                         && s.best.value.rise >= 0.0)
    && (forall i: nat, j: nat, r :: j < k && IsRise(curve, i, j, r) ==> s.best.Some? && r <= s.best.value.rise)
  }

  function RiseStep(curve: Curve, k: nat, s: RiseScan): RiseScan
    requires k < |curve| && (s.low.Some? ==> s.low.value < |curve|)
  {
    var low := if curve[k].y > 0.0 && (s.low.None? || curve[k].y < curve[s.low.value].y) then Some(k) else s.low;
    if low.None? || curve[low.value].y == 0.0 then RiseScan(low, s.best)
    else
      var rise := curve[k].y / curve[low.value].y - 1.0;
      RiseScan(low, if s.best.None? || rise > s.best.value.rise then Some(Rise(low.value, k, rise)) else s.best)
  }

  lemma RiseAtMost(curve: Curve, i: nat, k: nat, low: nat, r: real)
    requires low <= k < |curve| && 0.0 < curve[low].y && IsRise(curve, i, k, r) && curve[low].y <= curve[i].y
    ensures curve[k].y >= 0.0 ==> r <= curve[k].y / curve[low].y - 1.0
    ensures curve[k].y < 0.0 ==> r < 0.0
  {
    if curve[k].y >= 0.0 {
      SmallerDivisor(curve[k].y, curve[low].y, curve[i].y);
    } else {
      NegativeQuotient(curve[k].y, curve[i].y);
    }
  }

  lemma RiseStepOk(curve: Curve, k: nat, s: RiseScan)
    requires ScanOk(curve, k, s) && k < |curve|
    ensures ScanOk(curve, k + 1, RiseStep(curve, k, s))
  {
    var next := RiseStep(curve, k, s);
    if next.low.Some? {
      var low := next.low.value;
      if low == k { QuotientIs(curve[k].y, curve[k].y, 1.0); }
      forall i: nat, r | IsRise(curve, i, k, r) ensures r <= next.best.value.rise {
        RiseAtMost(curve, i, k, low, r);
      }
    }
  }

  function RiseFrom(curve: Curve, k: nat, s: RiseScan): RiseScan
    requires k <= |curve| && (s.low.Some? ==> s.low.value < |curve|)
    decreases |curve| - k
  {
    if k == |curve| then s else RiseFrom(curve, k + 1, RiseStep(curve, k, s))
  }

  function LargestRise(curve: Curve): Option<Rise> { RiseFrom(curve, 0, RiseScan(None, None)).best }

  lemma {:induction false} RiseFromOk(curve: Curve, k: nat, s: RiseScan)
    requires ScanOk(curve, k, s)
    ensures ScanOk(curve, |curve|, RiseFrom(curve, k, s))
    decreases |curve| - k
  {
    hide ScanOk, RiseStep;
    LowInCurve(curve, k, s);
    if k < |curve| {
      RiseStepOk(curve, k, s);
      LowInCurve(curve, k + 1, RiseStep(curve, k, s));
      RiseFromOk(curve, k + 1, RiseStep(curve, k, s));
    }
  }

  lemma LowInCurve(curve: Curve, k: nat, s: RiseScan)
    requires ScanOk(curve, k, s)
    ensures k <= |curve| && (s.low.Some? ==> s.low.value < |curve|)
  {
  }

  /** The single pass finds the largest rise over all ordered pairs with a positive baseline. */
  lemma LargestRiseIsLargest(curve: Curve)
    ensures LargestRise(curve).None? <==> forall i :: 0 <= i < |curve| ==> curve[i].y <= 0.0
    ensures LargestRise(curve).Some? ==>
              var r := LargestRise(curve).value;
              IsRise(curve, r.base, r.peak, r.rise) && r.rise >= 0.0
              && forall i: nat, j: nat, other :: IsRise(curve, i, j, other) ==> other <= r.rise
  {
    RiseFromOk(curve, 0, RiseScan(None, None));
  }

  method LargestP95Rise(curve: Curve) returns (best: Option<Rise>)
    ensures best == LargestRise(curve)
  {
    best := None;
    var low: Option<nat> := None;
    for k := 0 to |curve|
      invariant ScanOk(curve, k, RiseScan(low, best))
      invariant RiseFrom(curve, k, RiseScan(low, best)).best == LargestRise(curve)
    {
      RiseStepOk(curve, k, RiseScan(low, best));
      ghost var next := RiseStep(curve, k, RiseScan(low, best));
      if curve[k].y > 0.0 && (low.None? || curve[k].y < curve[low.value].y) {
        low := Some(k);
      }
      if low.Some? {
        var rise := curve[k].y / curve[low.value].y - 1.0;
        if best.None? || rise > best.value.rise {
          best := Some(Rise(low.value, k, rise));
        }
      }
      assert RiseScan(low, best) == next;
    }
  }

  // ---------- Kneedle

  function Xs(c: Curve): (r: seq<real>) ensures |r| == |c| { seq(|c|, i requires 0 <= i < |c| => c[i].x) }
  function Ys(c: Curve): (r: seq<real>) ensures |r| == |c| { seq(|c|, i requires 0 <= i < |c| => c[i].y) }

  function MinOf(vs: seq<real>): real requires vs != [] { if |vs| == 1 then vs[0] else MinReal(vs[0], MinOf(vs[1..])) }
  function MaxOf(vs: seq<real>): real requires vs != [] { if |vs| == 1 then vs[0] else MaxReal(vs[0], MaxOf(vs[1..])) }

  function MinX(c: Curve): real requires c != [] { MinOf(Xs(c)) }
  function MaxX(c: Curve): real requires c != [] { MaxOf(Xs(c)) }
  function MinY(c: Curve): real requires c != [] { MinOf(Ys(c)) }
  function MaxY(c: Curve): real requires c != [] { MaxOf(Ys(c)) }


  predicate FlatX(c: Curve) requires c != [] { MaxX(c) - MinX(c) <= EPSILON }
  predicate FlatY(c: Curve) requires c != [] { MaxY(c) - MinY(c) <= EPSILON }


  /** Distance from the diagonal after normalizing both axes. */
  function Gap(c: Curve, k: nat): real
    requires k < |c| && !FlatX(c) && !FlatY(c)
  {
    Abs((c[k].y - MinY(c)) / (MaxY(c) - MinY(c)) - (c[k].x - MinX(c)) / (MaxX(c) - MinX(c)))
  }

  /** The farthest of the entries `1..=k`, the last one on ties. */
  function Farthest(c: Curve, k: nat): (best: nat)
    requires 1 <= k < |c| && !FlatX(c) && !FlatY(c)
    ensures 1 <= best <= k
    ensures forall i :: 1 <= i <= k ==> Gap(c, i) <= Gap(c, best)
    ensures forall i :: best < i <= k ==> Gap(c, i) < Gap(c, best)
  {
    if k == 1 then 1
    else
      var best := Farthest(c, k - 1);
      if Gap(c, k) >= Gap(c, best) then k else best
  }

  function KneedlePoint(c: Curve): Option<nat> {
    if |c| < 3 || FlatX(c) || FlatY(c) then None else Some(c[Farthest(c, |c| - 2)].index)
  }

  // ---------- detection

  /** A stage without throughput or p95 is skipped. */
  function Entry(p: SweepPoint, k: nat): Curve {
    if p.throughput.Some? && p.p95.Some? then [CurvePoint(k, p.throughput.value, p.p95.value)] else []
  }

  function CurveFrom(points: seq<SweepPoint>, k: nat): (c: Curve)
    requires k <= |points|
    ensures forall i :: 0 <= i < |c| ==> k <= c[i].index < |points|
    ensures forall i, j :: 0 <= i < j < |c| ==> c[i].index < c[j].index
    decreases |points| - k
  {
    if k == |points| then []
    else Entry(points[k], k) + CurveFrom(points, k + 1)
  }

  function CurveOf(points: seq<SweepPoint>): Curve { CurveFrom(points, 0) }

  predicate Bends(c: Curve, r: Rise)
    requires r.base < |c| && r.peak < |c|
  {
    c[r.peak].y >= c[r.base].y * (1.0 + MIN_P95_RISE)
  }

  /** The latency candidate; `flat` says that p95 bends over flat throughput. */
  datatype Candidate = Candidate(index: Option<nat>, flat: bool)

  function KneedleCandidate(c: Curve, rise: Option<Rise>): Candidate
    requires rise.Some? ==> rise.value.base <= rise.value.peak < |c|
  {
    if rise.None? || !Bends(c, rise.value) then Candidate(None, false)
    else
      var r := rise.value;
      var k := KneedlePoint(c[r.base..r.peak + 1]);
      if k.Some? then Candidate(k, false)
      else if r.peak == r.base + 1 then Candidate(Some(c[r.base].index), false)
      else Candidate(None, true)
  }

  /** The latency candidate of a curve. */
  function BendOf(c: Curve): Candidate {
    LargestRiseIsLargest(c);
    KneedleCandidate(c, LargestRise(c))
  }

  ghost function Detect(points: seq<SweepPoint>, axis: Axis): Detection {
    var c := CurveOf(points);
    if |c| < MIN_POINTS then Detection(None, Some(InsufficientPoints), None, |c|, None, None)
    else
      var rise := LargestRise(c);
      Decide(points, c, if rise.Some? then Some(rise.value.rise) else None, Saturation(points, axis, 0), BendOf(c))
  }

  function Decide(
      points: seq<SweepPoint>, c: Curve, rise: Option<real>, saturated: Option<nat>, bend: Candidate): Detection
    requires points != [] && c != [] && (saturated.Some? ==> saturated.value > 0)
  {
    if bend.index.Some? && saturated.Some? && saturated.value - 1 < bend.index.value then
      Detection(Some(saturated.value - 1), None, Some(BySaturation), |c|, rise, saturated)
    else if bend.index.Some? then Detection(bend.index, None, Some(ByKneedle), |c|, rise, saturated)
    else if saturated.Some? then Detection(Some(saturated.value - 1), None, Some(BySaturation), |c|, rise, saturated)
    else
      var reason :=
        if points[0].p95.None? || points[|points| - 1].p95.None? then MissingLatency
        else if bend.flat || FlatX(c) || FlatY(c) then FlatCurve
        else NoBend;
      Detection(None, Some(reason), None, |c|, rise, saturated)
  }

  /** Candidates point at measured stages before the last one. */
  lemma KneedleInterior(c: Curve)
    requires forall i, j :: 0 <= i < j < |c| ==> c[i].index < c[j].index
    ensures KneedlePoint(c).Some? ==> |c| >= 3 && KneedlePoint(c).value < c[|c| - 1].index
  {
    hide FlatX, FlatY, Gap;
    if KneedlePoint(c).Some? {
      var f := Farthest(c, |c| - 2);
      assert c[f].index < c[|c| - 1].index;
    }
  }

  lemma CandidateBeforeLast(points: seq<SweepPoint>)
    ensures BendOf(CurveOf(points)).index.Some? ==> BendOf(CurveOf(points)).index.value + 1 < |points|
  {
    hide KneedlePoint, LargestRise, CurveFrom;
    var c := CurveOf(points);
    LargestRiseIsLargest(c);
    var rise := LargestRise(c);
    if rise.Some? && Bends(c, rise.value) {
      var r := rise.value;
      var slice := c[r.base..r.peak + 1];
      assert forall i :: 0 <= i < |slice| ==> slice[i] == c[r.base + i];
      KneedleInterior(slice);
      assert slice[|slice| - 1] == c[r.peak];
      assert r.base < r.peak ==> c[r.base].index < c[r.peak].index;
    }
  }

  /** What a detection always says: exactly one of index and reason, never the last stage, and the
      earlier of the two candidates. */
  lemma DetectIsSound(points: seq<SweepPoint>, axis: Axis)
    ensures var d := Detect(points, axis);
      && (d.index.Some? <==> d.reason.None?) && (d.index.Some? <==> d.how.Some?)
      && (d.index.Some? ==> d.index.value + 1 < |points|)
      && (d.index.Some? ==> |CurveOf(points)| >= MIN_POINTS)
      && (d.index.Some? && d.saturatedIndex.Some? ==> d.index.value <= d.saturatedIndex.value - 1)
      && (d.how == Some(BySaturation) ==> d.saturatedIndex.Some? && d.index == Some(d.saturatedIndex.value - 1))
      && (d.how == Some(ByKneedle) ==> d.index == BendOf(CurveOf(points)).index)
      && (d.index.Some? && BendOf(CurveOf(points)).index.Some? ==> d.index.value <= BendOf(CurveOf(points)).index.value)
      && (d.index.Some? <==> |CurveOf(points)| >= MIN_POINTS
                             && (BendOf(CurveOf(points)).index.Some? || Saturation(points, axis, 0).Some?))
  {
    hide BendOf, LargestRise, CurveFrom, FlatX, FlatY;
    CandidateBeforeLast(points);
    CurveFits(points, 0);
  }

  lemma {:induction false} CurveFits(points: seq<SweepPoint>, k: nat)
    requires k <= |points|
    ensures |CurveFrom(points, k)| <= |points| - k
    decreases |points| - k
  {
    if k < |points| { CurveFits(points, k + 1); }
  }

  method DetectKneeOnAxis(points: seq<SweepPoint>, axis: Axis) returns (d: Detection)
    ensures d == Detect(points, axis)
  {
    hide Saturated, RiseFrom, KneedlePoint, FlatX, FlatY;
    var c := CurveOf(points);
    if |c| < MIN_POINTS {
      return Detection(None, Some(InsufficientPoints), None, |c|, None, None);
    }
    CurveFits(points, 0);
    var saturated := FirstSaturatedStage(points, axis);
    SameLeast(points, axis, saturated);
    var rise := LargestP95Rise(c);
    LargestRiseIsLargest(c);
    var bend := KneedleCandidate(c, rise);
    assert bend == BendOf(c);
    d := Decide(points, c, if rise.Some? then Some(rise.value.rise) else None, saturated, bend);
  }

  lemma SameLeast(points: seq<SweepPoint>, axis: Axis, r: Option<nat>)
    requires r.Some? ==>
      Saturated(points, axis, r.value) && forall j :: 0 <= j < r.value ==> !Saturated(points, axis, j)
    requires r.None? ==> forall j :: !Saturated(points, axis, j)
    ensures r == Saturation(points, axis, 0) && (r.Some? ==> r.value > 0)
  {
    var s := Saturation(points, axis, 0);
  }

  // ---------- units do not matter

  function ScaledOption(v: Option<real>, k: real): Option<real> { if v.Some? then Some(Times(v.value, k)) else None }

  /** The sweep with throughput in other units by `a` and latency by `b`. */
  function ScaledPoints(points: seq<SweepPoint>, a: real, b: real): (r: seq<SweepPoint>)
    ensures |r| == |points|
    ensures forall i :: 0 <= i < |r| ==>
              r[i] == points[i].(throughput := ScaledOption(points[i].throughput, a),
                                 p95 := ScaledOption(points[i].p95, b))
  {
    seq(|points|, i requires 0 <= i < |points| =>
      points[i].(throughput := ScaledOption(points[i].throughput, a), p95 := ScaledOption(points[i].p95, b)))
  }

  function Scaled(c: Curve, a: real, b: real): (r: Curve)
    ensures |r| == |c|
    ensures forall i :: 0 <= i < |r| ==> r[i] == CurvePoint(c[i].index, Times(c[i].x, a), Times(c[i].y, b))
  {
    seq(|c|, i requires 0 <= i < |c| => CurvePoint(c[i].index, Times(c[i].x, a), Times(c[i].y, b)))
  }

  /** The absolute range tests give the same answers on every stretch of the curve. */
  ghost predicate RangesAgree(c: Curve, a: real, b: real) {
    forall i, j :: 0 <= i < j <= |c| ==>
      (FlatX(c[i..j]) <==> FlatX(Scaled(c, a, b)[i..j])) && (FlatY(c[i..j]) <==> FlatY(Scaled(c, a, b)[i..j]))
  }

  lemma ScaledAppend(c: Curve, d: Curve, a: real, b: real)
    ensures Scaled(c + d, a, b) == Scaled(c, a, b) + Scaled(d, a, b)
  {
    hide Times;
  }

  lemma EntryScales(p: SweepPoint, k: nat, a: real, b: real)
    ensures Entry(p.(throughput := ScaledOption(p.throughput, a), p95 := ScaledOption(p.p95, b)), k)
         == Scaled(Entry(p, k), a, b)
  {
    hide Times;
  }

  lemma CurveCons(points: seq<SweepPoint>, k: nat)
    requires k < |points|
    ensures CurveFrom(points, k) == Entry(points[k], k) + CurveFrom(points, k + 1)
  {
  }

  lemma {:induction false} CurveScales(points: seq<SweepPoint>, k: nat, a: real, b: real)
    requires k <= |points|
    ensures CurveFrom(ScaledPoints(points, a, b), k) == Scaled(CurveFrom(points, k), a, b)
    decreases |points| - k
  {
    if k == |points| {
    } else {
      hide CurveFrom, Entry, Scaled, Times, ScaledPoints, ScaledOption;
      CurveScales(points, k + 1, a, b);
      CurveCons(points, k);
      CurveCons(ScaledPoints(points, a, b), k);
      EntryScales(points[k], k, a, b);
      ScaledAppend(Entry(points[k], k), CurveFrom(points, k + 1), a, b);
    }
  }

  lemma LowGainScales(axis: Axis, p: SweepPoint, q: SweepPoint, a: real, b: real)
    requires a > 0.0
    ensures LowGain(axis, p, q)
       <==> LowGain(axis, p.(throughput := ScaledOption(p.throughput, a), p95 := ScaledOption(p.p95, b)),
                    q.(throughput := ScaledOption(q.throughput, a), p95 := ScaledOption(q.p95, b)))
  {
    hide Times;
    if p.throughput.Some? && q.throughput.Some? {
      var x, y := p.throughput.value, q.throughput.value;
      ScaleOrder(0.0, x, a);
      if x > 0.0 {
        TimesMinus(y, x, a);
        CancelScale(y - x, x, a);
      }
    }
  }

  lemma SaturatedScales(points: seq<SweepPoint>, axis: Axis, k: nat, a: real, b: real)
    requires a > 0.0
    ensures Saturated(ScaledPoints(points, a, b), axis, k) <==> Saturated(points, axis, k)
  {
    hide LowGain, Times;
    var scaled := ScaledPoints(points, a, b);
    if 0 < k < |points| {
      LowGainScales(axis, points[k - 1], points[k], a, b);
      assert forall i :: 0 <= i < k ==> (ErrorsRose(scaled[i], scaled[k]) <==> ErrorsRose(points[i], points[k]));
    }
  }

  lemma {:induction false} SaturationScales(points: seq<SweepPoint>, axis: Axis, k: nat, a: real, b: real)
    requires a > 0.0 && k <= |points|
    ensures Saturation(ScaledPoints(points, a, b), axis, k) == Saturation(points, axis, k)
    decreases |points| - k
  {
    hide Saturated;
    if k < |points| {
      SaturatedScales(points, axis, k, a, b);
      SaturationScales(points, axis, k + 1, a, b);
    }
  }

  lemma RiseStepScales(c: Curve, k: nat, s: RiseScan, a: real, b: real)
    requires b > 0.0 && ScanOk(c, k, s) && k < |c|
    ensures RiseStep(Scaled(c, a, b), k, s) == RiseStep(c, k, s)
  {
    hide ScanOk, Scaled, Times;
    LowPositive(c, k, s);
    var d := Scaled(c, a, b);
    ScaleOrder(0.0, c[k].y, b);
    if s.low.Some? { ScaleOrder(c[k].y, c[s.low.value].y, b); }
    var low := RiseStep(c, k, s).low;
    if low.Some? && c[low.value].y > 0.0 {
      ScaleOrder(0.0, c[low.value].y, b);
      CancelScale(c[k].y, c[low.value].y, b);
      assert d[k].y / d[low.value].y == c[k].y / c[low.value].y;
    }
  }

  lemma LowPositive(c: Curve, k: nat, s: RiseScan)
    requires ScanOk(c, k, s)
    ensures k <= |c| && (s.low.Some? ==> s.low.value < k && c[s.low.value].y > 0.0)
  {
  }

  lemma {:induction false} RiseScales(c: Curve, k: nat, s: RiseScan, a: real, b: real)
    requires b > 0.0 && ScanOk(c, k, s)
    ensures k <= |c| && (s.low.Some? ==> s.low.value < |c|)
    ensures RiseFrom(Scaled(c, a, b), k, s) == RiseFrom(c, k, s)
    decreases |c| - k
  {
    hide ScanOk, RiseStep, Scaled;
    LowPositive(c, k, s);
    if k < |c| {
      RiseStepScales(c, k, s, a, b);
      RiseStepOk(c, k, s);
      LowPositive(c, k + 1, RiseStep(c, k, s));
      RiseScales(c, k + 1, RiseStep(c, k, s), a, b);
    }
  }

  lemma {:induction false} RangeScales(vs: seq<real>, ws: seq<real>, k: real)
    requires vs != [] && |ws| == |vs| && k > 0.0 && forall i :: 0 <= i < |vs| ==> ws[i] == Times(vs[i], k)
    ensures MinOf(ws) == Times(MinOf(vs), k) && MaxOf(ws) == Times(MaxOf(vs), k)
    decreases |vs|
  {
    hide Times;
    if |vs| > 1 {
      RangeScales(vs[1..], ws[1..], k);
      ScaleOrder(vs[0], MinOf(vs[1..]), k);
      ScaleOrder(MaxOf(vs[1..]), vs[0], k);
    }
  }

  lemma ExtremesScale(c: Curve, a: real, b: real)
    requires c != [] && a > 0.0 && b > 0.0
    ensures var d := Scaled(c, a, b);
      && MinX(d) == Times(MinX(c), a) && MaxX(d) == Times(MaxX(c), a)
      && MinY(d) == Times(MinY(c), b) && MaxY(d) == Times(MaxY(c), b)
  {
    hide Times;
    var d := Scaled(c, a, b);
    RangeScales(Xs(c), Xs(d), a);
    RangeScales(Ys(c), Ys(d), b);
  }

  lemma NormalizedScales(v: real, lo: real, hi: real, k: real)
    requires k > 0.0 && hi != lo
    ensures Times(hi, k) != Times(lo, k)
    ensures (Times(v, k) - Times(lo, k)) / (Times(hi, k) - Times(lo, k)) == (v - lo) / (hi - lo)
  {
    hide Times;
    TimesMinus(v, lo, k);
    TimesMinus(hi, lo, k);
    CancelScale(v - lo, hi - lo, k);
  }

  lemma GapScales(c: Curve, i: nat, a: real, b: real)
    requires i < |c| && a > 0.0 && b > 0.0 && !FlatX(c) && !FlatY(c)
    requires !FlatX(Scaled(c, a, b)) && !FlatY(Scaled(c, a, b))
    ensures Gap(Scaled(c, a, b), i) == Gap(c, i)
  {
    hide MinX, MaxX, MinY, MaxY, Times;
    ExtremesScale(c, a, b);
    NormalizedScales(c[i].y, MinY(c), MaxY(c), b);
    NormalizedScales(c[i].x, MinX(c), MaxX(c), a);
  }

  lemma {:induction false} FarthestScales(c: Curve, k: nat, a: real, b: real)
    requires 1 <= k < |c| && a > 0.0 && b > 0.0 && !FlatX(c) && !FlatY(c)
    requires !FlatX(Scaled(c, a, b)) && !FlatY(Scaled(c, a, b))
    ensures Farthest(Scaled(c, a, b), k) == Farthest(c, k)
  {
    hide Gap, FlatX, FlatY, Scaled;
    if k > 1 {
      FarthestScales(c, k - 1, a, b);
      GapScales(c, k, a, b);
      GapScales(c, Farthest(c, k - 1), a, b);
    }
  }

  lemma KneedleScales(c: Curve, a: real, b: real)
    requires a > 0.0 && b > 0.0
    requires c != [] ==> (FlatX(c) <==> FlatX(Scaled(c, a, b))) && (FlatY(c) <==> FlatY(Scaled(c, a, b)))
    ensures KneedlePoint(Scaled(c, a, b)) == KneedlePoint(c)
  {
    hide FlatX, FlatY, Gap;
    if |c| >= 3 && !FlatX(c) && !FlatY(c) { FarthestScales(c, |c| - 2, a, b); }
  }

  lemma BendScales(c: Curve, a: real, b: real)
    requires a > 0.0 && b > 0.0 && RangesAgree(c, a, b)
    ensures BendOf(Scaled(c, a, b)) == BendOf(c) && LargestRise(Scaled(c, a, b)) == LargestRise(c)
  {
    hide KneedlePoint, FlatX, FlatY, RiseFrom, Times;
    var d := Scaled(c, a, b);
    RiseScales(c, 0, RiseScan(None, None), a, b);
    LargestRiseIsLargest(c);
    LargestRiseIsLargest(d);
    var rise := LargestRise(c);
    if rise.Some? {
      var r := rise.value;
      SwapFactors(c[r.base].y, b, 1.0 + MIN_P95_RISE);
      ScaleOrder(c[r.base].y * (1.0 + MIN_P95_RISE), c[r.peak].y, b);
      assert Bends(d, r) <==> Bends(c, r);
      var slice := c[r.base..r.peak + 1];
      assert d[r.base..r.peak + 1] == Scaled(slice, a, b);
      KneedleScales(slice, a, b);
    }
  }

  /** Rescaling throughput and p95 by positive factors leaves the whole verdict unchanged, as long
      as the absolute range tests agree. */
  lemma DetectIgnoresUnits(points: seq<SweepPoint>, axis: Axis, a: real, b: real)
    requires a > 0.0 && b > 0.0 && RangesAgree(CurveOf(points), a, b)
    ensures Detect(ScaledPoints(points, a, b), axis) == Detect(points, axis)
  {
    hide BendOf, LargestRise, CurveFrom, FlatX, FlatY, Times;
    var c := CurveOf(points);
    CurveScales(points, 0, a, b);
    BendScales(c, a, b);
    SaturationScales(points, axis, 0, a, b);
    if c != [] { assert c[0..|c|] == c && Scaled(c, a, b)[0..|c|] == Scaled(c, a, b); }
    CurveFits(points, 0);
  }
}
