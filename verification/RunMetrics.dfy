/** Request spans to segments (src/time_weighted.rs:92-156) and conservation over a stage
    (src/strategic.rs:385-480): Little's law, phase split and token totals. */
module RunMetrics {
  import opened Numbers
  import opened Sequences
  import opened SweepSpec
  import opened TimeWeighted

  datatype RequestSpan = RequestSpan(
    start: real, latency: real, prefillEnd: Option<real>, inputTokens: Option<nat>, outputTokens: Option<nat>)

  /** The segment vectors and row counts behind the six blocks. */
  datatype Blocks = Blocks(
    all: seq<Segment>, prefill: seq<Segment>, decode: seq<Segment>, tokens: seq<Segment>,
    prefillRate: seq<Segment>, decodeRate: seq<Segment>,
    split: nat, tokenRows: nat, prefillRows: nat, decodeRows: nat)

  datatype TimeWeightedMetrics = TimeWeightedMetrics(
    effectiveConcurrency: TimeWeightedStat, prefillConcurrency: TimeWeightedStat, decodeConcurrency: TimeWeightedStat,
    tokensInFlight: TimeWeightedStat, prefillThroughput: TimeWeightedStat, decodeThroughput: TimeWeightedStat)

  function Flat(start: real, end: real, level: real): Segment { Segment(start, end, level, 0.0) }

  /** Send to first generated token, clamped into the request. */
  function FirstToken(span: RequestSpan): Option<real> {
    match span.prefillEnd
    case None => None
    case Some(v) => Some(Clamp(v, 0.0, span.latency))
  }

  const NO_BLOCKS := Blocks([], [], [], [], [], [], 0, 0, 0, 0)

  function Join(x: Blocks, y: Blocks): Blocks {
    Blocks(x.all + y.all, x.prefill + y.prefill, x.decode + y.decode, x.tokens + y.tokens,
           x.prefillRate + y.prefillRate, x.decodeRate + y.decodeRate,
           x.split + y.split, x.tokenRows + y.tokenRows, x.prefillRows + y.prefillRows, x.decodeRows + y.decodeRows)
  }

  predicate GivesPrefillRate(span: RequestSpan, first: real) {
    span.inputTokens.Some? && span.inputTokens.value > 0 && first > 0.0
  }

  predicate GivesDecodeRate(span: RequestSpan, first: real) {
    span.outputTokens.Some? && span.outputTokens.value > 0 && span.latency - first > 0.0
  }

  function SplitBlocks(span: RequestSpan, start: real, first: real): Blocks {
    var split, end, decodeS := start + first, start + span.latency, span.latency - first;
    Blocks(
      [Flat(start, end, 1.0)], [Flat(start, split, 1.0)], [Flat(split, end, 1.0)],
      if span.inputTokens.Some? && span.outputTokens.Some? then
        [Flat(start, split, span.inputTokens.value as real),
         Segment(split, end, span.inputTokens.value as real,
                 if decodeS > 0.0 then span.outputTokens.value as real / decodeS else 0.0)]
      else [],
      if GivesPrefillRate(span, first) then [Flat(start, split, span.inputTokens.value as real / first)] else [],
      if GivesDecodeRate(span, first) then [Flat(split, end, span.outputTokens.value as real / decodeS)] else [],
      1,
      if span.inputTokens.Some? && span.outputTokens.Some? then 1 else 0,
      if GivesPrefillRate(span, first) then 1 else 0,
      if GivesDecodeRate(span, first) then 1 else 0)
  }

  function SpanBlocks(span: RequestSpan, windowStart: real): Blocks {
    if span.latency < 0.0 then NO_BLOCKS
    else
      var start := span.start - windowStart;
      match FirstToken(span)
      case None => NO_BLOCKS.(all := [Flat(start, start + span.latency, 1.0)])
      case Some(first) => SplitBlocks(span, start, first)
  }

  function AllBlocks(spans: seq<RequestSpan>, windowStart: real): Blocks {
    if spans == [] then NO_BLOCKS
    else Join(SpanBlocks(spans[0], windowStart), AllBlocks(spans[1..], windowStart))
  }

  lemma JoinLaws(x: Blocks, y: Blocks, z: Blocks)
    ensures Join(Join(x, y), z) == Join(x, Join(y, z))
    ensures Join(x, NO_BLOCKS) == x && Join(NO_BLOCKS, x) == x
  {
  }

  /** Every request contributes nonnegative, nondecreasing segments. */
  lemma SpanNonNegative(span: RequestSpan, windowStart: real)
    ensures var b := SpanBlocks(span, windowStart);
      NonNegative(b.all) && NonNegative(b.prefill) && NonNegative(b.decode)
      && NonNegative(b.tokens) && NonNegative(b.prefillRate) && NonNegative(b.decodeRate)
  {
    if span.latency >= 0.0 && FirstToken(span).Some? {
      var first := FirstToken(span).value;
      if GivesPrefillRate(span, first) { Quotient(span.inputTokens.value as real, first); }
      if span.outputTokens.Some? && span.latency - first > 0.0 {
        Quotient(span.outputTokens.value as real, span.latency - first);
      }
    }
  }

  lemma {:induction false} BlocksNonNegative(spans: seq<RequestSpan>, windowStart: real)
    ensures var b := AllBlocks(spans, windowStart);
      NonNegative(b.all) && NonNegative(b.prefill) && NonNegative(b.decode)
      && NonNegative(b.tokens) && NonNegative(b.prefillRate) && NonNegative(b.decodeRate)
  {
    hide SpanBlocks;
    if spans != [] {
      SpanNonNegative(spans[0], windowStart);
      BlocksNonNegative(spans[1..], windowStart);
    }
  }

  /** The six blocks over the window `[windowStart, windowStart + w]`. */
  method Compute(spans: seq<RequestSpan>, windowStart: real, w: real) returns (m: TimeWeightedMetrics)
    ensures AllMeasured(spans, windowStart, w, m)
  {
    hide SpanBlocks, Join, Measures, NonNegative, IsPeak;
    BlocksNonNegative(spans, windowStart);
    var b := NO_BLOCKS;
    JoinLaws(AllBlocks(spans, windowStart), NO_BLOCKS, NO_BLOCKS);
    assert spans[0..] == spans;
    for k := 0 to |spans|
      invariant Join(b, AllBlocks(spans[k..], windowStart)) == AllBlocks(spans, windowStart)
    {
      assert spans[k..][1..] == spans[k + 1..];
      JoinLaws(b, SpanBlocks(spans[k], windowStart), AllBlocks(spans[k + 1..], windowStart));
      b := Join(b, SpanBlocks(spans[k], windowStart));
    }
    assert spans[|spans|..] == [];
    JoinLaws(b, NO_BLOCKS, NO_BLOCKS);
    var all := Sweep(b.all, |b.all|, w);
    var prefill := Sweep(b.prefill, b.split, w);
    var decode := Sweep(b.decode, b.split, w);
    var tokens := Sweep(b.tokens, b.tokenRows, w);
    var prefillRate := Sweep(b.prefillRate, b.prefillRows, w);
    var decodeRate := Sweep(b.decodeRate, b.decodeRows, w);
    m := TimeWeightedMetrics(all, prefill, decode, tokens, prefillRate, decodeRate);
    MeasuredIsStat(b.all, |b.all|, w, all);
    MeasuredIsStat(b.prefill, b.split, w, prefill);
    MeasuredIsStat(b.decode, b.split, w, decode);
    MeasuredIsStat(b.tokens, b.tokenRows, w, tokens);
    MeasuredIsStat(b.prefillRate, b.prefillRows, w, prefillRate);
    MeasuredIsStat(b.decodeRate, b.decodeRows, w, decodeRate);
  }

  /** Nothing without rows or window; otherwise area, active time, least upper bound and ordered averages. */
  ghost predicate IsStat(segs: seq<Segment>, n: nat, w: real, stat: TimeWeightedStat) {
    && stat.n == n
    && (n == 0 || w <= 0.0 ==> stat == TimeWeightedStat(n, None, None, None, None))
    && (n > 0 && w > 0.0 ==>
          && Measures(segs, w, stat)
          && IsPeak(segs, w, stat.max.value)
          && 0.0 <= stat.avg.value
          && (stat.activeAvg.Some? ==> stat.avg.value <= stat.activeAvg.value <= stat.max.value))
  }

  ghost predicate AllMeasured(spans: seq<RequestSpan>, windowStart: real, w: real, m: TimeWeightedMetrics) {
    var b := AllBlocks(spans, windowStart);
    && IsStat(b.all, |b.all|, w, m.effectiveConcurrency)
    && IsStat(b.prefill, b.split, w, m.prefillConcurrency)
    && IsStat(b.decode, b.split, w, m.decodeConcurrency)
    && IsStat(b.tokens, b.tokenRows, w, m.tokensInFlight)
    && IsStat(b.prefillRate, b.prefillRows, w, m.prefillThroughput)
    && IsStat(b.decodeRate, b.decodeRows, w, m.decodeThroughput)
  }

  /** Request segments are never negative, so what the sweep promises for such segments holds. */
  lemma MeasuredIsStat(segs: seq<Segment>, n: nat, w: real, stat: TimeWeightedStat)
    requires NonNegative(segs) && stat.n == n
    requires n == 0 || w <= 0.0 ==> stat == TimeWeightedStat(n, None, None, None, None)
    requires n > 0 && w > 0.0 ==> Measures(segs, w, stat)
    ensures IsStat(segs, n, w, stat)
  {
    hide NonNegative, IsPeak, IsGrid, AreaOver, ActiveOver, TotalArea;
  }

  // ---------- conservation

  lemma {:induction false} AreaAppend(a: seq<Segment>, b: seq<Segment>, w: real)
    ensures TotalArea(a + b, w) == TotalArea(a, w) + TotalArea(b, w)
  {
    hide SegmentArea;
    if a == [] {
      assert a + b == b;
    } else {
      assert (a + b)[1..] == a[1..] + b;
      AreaAppend(a[1..], b, w);
    }
  }

  /** An unclipped flat segment has the area of its rectangle. */
  lemma FlatArea(start: real, end: real, level: real, w: real)
    requires 0.0 <= start <= end <= w
    ensures TotalArea([Flat(start, end, level)], w) == (end - start) * level
  {
    var s := Flat(start, end, level);
    assert [s][1..] == [];
    assert TotalArea([s], w) == SegmentArea(s, w) + TotalArea([], w);
    assert From(s) == start && Until(s, w) == end;
    FlatSegmentArea(s, w);
  }

  lemma FlatSegmentArea(s: Segment, w: real)
    requires s.slope == 0.0 && From(s) <= Until(s, w)
    ensures SegmentArea(s, w) == (Until(s, w) - From(s)) * s.level
  {
    var width := Until(s, w) - From(s);
    assert s.slope * (From(s) - s.start) == 0.0;
    assert s.slope * width == 0.0;
    assert (s.slope * width) * width / 2.0 == 0.0;
  }

  ghost predicate Inside(span: RequestSpan, windowStart: real, w: real) {
    span.latency >= 0.0 ==> (windowStart <= span.start && span.start + span.latency <= windowStart + w)
  }

  /** What the rows of a stage add up to. A row holds its input tokens for its whole latency and
      half its output tokens, on average, while they are generated. */
  datatype Totals = Totals(
    latency: real, prefillSeconds: real, decodeSeconds: real, tokenSeconds: real,
    prefillTokens: real, decodeTokens: real)

  const NO_TOTALS := Totals(0.0, 0.0, 0.0, 0.0, 0.0, 0.0)

  function TokenSeconds(span: RequestSpan, first: real): real {
    if span.inputTokens.Some? && span.outputTokens.Some? then
      span.latency * span.inputTokens.value as real + (span.latency - first) * (span.outputTokens.value as real / 2.0)
    else 0.0
  }

  function SpanTotals(span: RequestSpan): Totals {
    if span.latency < 0.0 then NO_TOTALS
    else match FirstToken(span)
      case None => NO_TOTALS.(latency := span.latency)
      case Some(first) =>
        Totals(span.latency, first, span.latency - first, TokenSeconds(span, first),
               if GivesPrefillRate(span, first) then span.inputTokens.value as real else 0.0,
               if GivesDecodeRate(span, first) then span.outputTokens.value as real else 0.0)
  }

  function AddTotals(x: Totals, y: Totals): Totals {
    Totals(x.latency + y.latency, x.prefillSeconds + y.prefillSeconds, x.decodeSeconds + y.decodeSeconds,
           x.tokenSeconds + y.tokenSeconds,
           x.prefillTokens + y.prefillTokens, x.decodeTokens + y.decodeTokens)
  }

  function AllTotals(spans: seq<RequestSpan>): Totals {
    if spans == [] then NO_TOTALS else AddTotals(SpanTotals(spans[0]), AllTotals(spans[1..]))
  }

  /** The integrals of the six blocks, as row totals. */
  ghost function BlockTotals(b: Blocks, w: real): Totals {
    Totals(TotalArea(b.all, w), TotalArea(b.prefill, w), TotalArea(b.decode, w), TotalArea(b.tokens, w),
           TotalArea(b.prefillRate, w), TotalArea(b.decodeRate, w))
  }

  lemma TimesQuotient(x: real, d: real)
    requires d > 0.0
    ensures d * (x / d) == x
  {
  }

  /** An unclipped sloped segment has the area of its trapezoid. */
  lemma SlopedArea(start: real, end: real, level: real, slope: real, w: real)
    requires 0.0 <= start <= end <= w
    ensures TotalArea([Segment(start, end, level, slope)], w)
         == (end - start) * level + slope * (end - start) * (end - start) / 2.0
  {
    var s := Segment(start, end, level, slope);
    assert [s][1..] == [];
    assert TotalArea([s], w) == SegmentArea(s, w) + TotalArea([], w);
    assert From(s) == start && Until(s, w) == end;
    assert slope * (From(s) - s.start) == 0.0;
    var width := end - start;
    if width == 0.0 {
      assert width * level == 0.0 && slope * width == 0.0 && slope * width * width == 0.0;
    }
  }

  /** Tokens of one split row: a flat prompt, then the prompt under a ramp of generated tokens. */
  lemma TokensArea(start: real, first: real, latency: real, isl: real, osl: real, w: real)
    requires 0.0 <= start && 0.0 <= first <= latency && start + latency <= w
    ensures var slope := if latency - first > 0.0 then osl / (latency - first) else 0.0;
      TotalArea([Flat(start, start + first, isl), Segment(start + first, start + latency, isl, slope)], w)
      == latency * isl + (latency - first) * (osl / 2.0)
  {
    hide TotalArea;
    var d := latency - first;
    var slope := if d > 0.0 then osl / d else 0.0;
    var a, b := Flat(start, start + first, isl), Segment(start + first, start + latency, isl, slope);
    assert [a, b] == [a] + [b];
    AreaAppend([a], [b], w);
    FlatArea(start, start + first, isl, w);
    SlopedArea(start + first, start + latency, isl, slope, w);
    assert (start + latency) - (start + first) == d && (start + first) - start == first;
    RampArea(d, osl);
    assert first * isl + d * isl == latency * isl;
  }

  lemma RampArea(d: real, osl: real)
    requires d >= 0.0
    ensures var slope := if d > 0.0 then osl / d else 0.0; slope * d * d / 2.0 == d * (osl / 2.0)
  {
    if d > 0.0 {
      TimesQuotient(osl, d);
      assert (osl / d) * d == osl;
    }
  }

  lemma SpanConserved(span: RequestSpan, windowStart: real, w: real)
    requires Inside(span, windowStart, w)
    ensures BlockTotals(SpanBlocks(span, windowStart), w) == SpanTotals(span)
  {
    hide TotalArea;
    EmptyTotal(w);
    if span.latency >= 0.0 {
      var start := span.start - windowStart;
      FlatArea(start, start + span.latency, 1.0, w);
      if FirstToken(span).Some? {
        var first := FirstToken(span).value;
        TokensConserved(span, start, first, w);
        RatesConserved(span, start, first, w);
        hide SplitBlocks, TokenSeconds, GivesPrefillRate, GivesDecodeRate;
        SplitAreas(span, start, first, w);
      }
    }
  }

  lemma SplitAreas(span: RequestSpan, start: real, first: real, w: real)
    requires 0.0 <= start && 0.0 <= first <= span.latency && start + span.latency <= w
    ensures var b := SplitBlocks(span, start, first);
      && TotalArea(b.all, w) == span.latency
      && TotalArea(b.prefill, w) == first && TotalArea(b.decode, w) == span.latency - first
  {
    hide TotalArea;
    FlatArea(start, start + span.latency, 1.0, w);
    FlatArea(start, start + first, 1.0, w);
    FlatArea(start + first, start + span.latency, 1.0, w);
  }

  lemma TokensConserved(span: RequestSpan, start: real, first: real, w: real)
    requires 0.0 <= start && 0.0 <= first <= span.latency && start + span.latency <= w
    ensures TotalArea(SplitBlocks(span, start, first).tokens, w) == TokenSeconds(span, first)
  {
    hide TotalArea;
    EmptyTotal(w);
    if span.inputTokens.Some? && span.outputTokens.Some? {
      TokensArea(start, first, span.latency, span.inputTokens.value as real, span.outputTokens.value as real, w);
    }
  }

  lemma RatesConserved(span: RequestSpan, start: real, first: real, w: real)
    requires 0.0 <= start && 0.0 <= first <= span.latency && start + span.latency <= w
    ensures TotalArea(SplitBlocks(span, start, first).prefillRate, w)
         == if GivesPrefillRate(span, first) then span.inputTokens.value as real else 0.0
    ensures TotalArea(SplitBlocks(span, start, first).decodeRate, w)
         == if GivesDecodeRate(span, first) then span.outputTokens.value as real else 0.0
  {
    hide TotalArea;
    EmptyTotal(w);
    if GivesPrefillRate(span, first) {
      FlatArea(start, start + first, span.inputTokens.value as real / first, w);
      TimesQuotient(span.inputTokens.value as real, first);
    }
    if GivesDecodeRate(span, first) {
      FlatArea(start + first, start + span.latency, span.outputTokens.value as real / (span.latency - first), w);
      TimesQuotient(span.outputTokens.value as real, span.latency - first);
    }
  }

  lemma EmptyTotal(w: real)
    ensures TotalArea([], w) == 0.0
  {
  }

  /** Nothing is lost: the integrals are the latencies and token counts of the rows. */
  lemma {:induction false} Conserved(spans: seq<RequestSpan>, windowStart: real, w: real)
    requires forall i :: 0 <= i < |spans| ==> Inside(spans[i], windowStart, w)
    ensures BlockTotals(AllBlocks(spans, windowStart), w) == AllTotals(spans)
  {
    hide SpanBlocks, SpanTotals, Inside, TotalArea;
    EmptyTotal(w);
    if spans != [] {
      SpanConserved(spans[0], windowStart, w);
      Conserved(spans[1..], windowStart, w);
      var x, y := SpanBlocks(spans[0], windowStart), AllBlocks(spans[1..], windowStart);
      AreaAppend(x.all, y.all, w);
      AreaAppend(x.prefill, y.prefill, w);
      AreaAppend(x.decode, y.decode, w);
      AreaAppend(x.tokens, y.tokens, w);
      AreaAppend(x.prefillRate, y.prefillRate, w);
      AreaAppend(x.decodeRate, y.decodeRate, w);
    }
  }

  // ---------- one stage (src/strategic.rs:391-480)

  datatype BenchRecord = BenchRecord(
    sentUnixNs: nat, sendOffset: Option<real>, serviceLatency: real, warmup: bool,
    prefillEnd: Option<real>, inputTokens: nat, outputTokens: nat)

  datatype SendClock = SendClock(monotonicOrigin: Option<real>, wallOrigin: nat)

  predicate AllHaveOffsets(measured: seq<BenchRecord>) {
    forall i :: 0 <= i < |measured| ==> measured[i].sendOffset.Some?
  }

  function MinWall(rows: seq<BenchRecord>): (m: nat)
    requires rows != []
    ensures forall i :: 0 <= i < |rows| ==> m <= rows[i].sentUnixNs
    ensures exists i :: 0 <= i < |rows| && m == rows[i].sentUnixNs
  {
    if |rows| == 1 then rows[0].sentUnixNs
    else
      var rest := MinWall(rows[1..]);
      assert forall i :: 1 <= i < |rows| ==> rows[i] == rows[1..][i - 1];
      if rows[0].sentUnixNs <= rest then rows[0].sentUnixNs else rest
  }

  function MinOffset(rows: seq<BenchRecord>): (m: real)
    requires rows != [] && AllHaveOffsets(rows)
    ensures forall i :: 0 <= i < |rows| ==> m <= rows[i].sendOffset.value
    ensures exists i :: 0 <= i < |rows| && m == rows[i].sendOffset.value
  {
    if |rows| == 1 then rows[0].sendOffset.value
    else
      var rest := MinOffset(rows[1..]);
      assert forall i :: 1 <= i < |rows| ==> rows[i] == rows[1..][i - 1];
      if rows[0].sendOffset.value <= rest then rows[0].sendOffset.value else rest
  }

  function NewClock(measured: seq<BenchRecord>): Option<SendClock> {
    if measured == [] then None
    else Some(SendClock(if AllHaveOffsets(measured) then Some(MinOffset(measured)) else None, MinWall(measured)))
  }

  function SendS(clock: SendClock, r: BenchRecord): real {
    if clock.monotonicOrigin.Some? && r.sendOffset.Some? then
      MaxReal(r.sendOffset.value - clock.monotonicOrigin.value, 0.0)
    else (if r.sentUnixNs >= clock.wallOrigin then r.sentUnixNs - clock.wallOrigin else 0) as real / 1000000000.0
  }

  /** Sends are never before the origin, and some row is sent exactly at it. */
  lemma ClockStartsAtZero(measured: seq<BenchRecord>)
    requires measured != []
    ensures forall r :: SendS(NewClock(measured).value, r) >= 0.0
    ensures exists i :: 0 <= i < |measured| && SendS(NewClock(measured).value, measured[i]) == 0.0
  {
    var clock := NewClock(measured).value;
    if clock.monotonicOrigin.Some? {
      var i :| 0 <= i < |measured| && MinOffset(measured) == measured[i].sendOffset.value;
      assert SendS(clock, measured[i]) == 0.0;
    } else {
      var i :| 0 <= i < |measured| && MinWall(measured) == measured[i].sentUnixNs;
      assert SendS(clock, measured[i]) == 0.0;
    }
  }

  function EndS(clock: SendClock, r: BenchRecord): real {
    SendS(clock, r) + MaxReal(r.serviceLatency, 0.0)
  }

  function MaxEnd(clock: SendClock, rows: seq<BenchRecord>): (m: real)
    requires rows != []
    ensures forall i :: 0 <= i < |rows| ==> EndS(clock, rows[i]) <= m
    ensures exists i :: 0 <= i < |rows| && EndS(clock, rows[i]) == m
  {
    if |rows| == 1 then EndS(clock, rows[0])
    else
      var rest := MaxEnd(clock, rows[1..]);
      assert forall i :: 1 <= i < |rows| ==> rows[i] == rows[1..][i - 1];
      if EndS(clock, rows[0]) >= rest then EndS(clock, rows[0]) else rest
  }

  function Measured(records: seq<BenchRecord>): (m: seq<BenchRecord>)
    ensures forall r :: r in m <==> r in records && !r.warmup
  {
    if records == [] then []
    else (if records[0].warmup then [] else [records[0]]) + Measured(records[1..])
  }

  function StageWindow(records: seq<BenchRecord>): Option<real> {
    var measured := Measured(records);
    if measured == [] then None else Some(MaxReal(MaxEnd(NewClock(measured).value, measured), 0.0))
  }

  function SpanOf(clock: SendClock, r: BenchRecord, generatesOutput: bool): RequestSpan {
    SpanFrom(SendS(clock, r), r, generatesOutput)
  }

  function SpanFrom(sent: real, r: BenchRecord, generatesOutput: bool): RequestSpan {
    var hasTokens := r.inputTokens > 0 || r.outputTokens > 0;
    RequestSpan(sent, r.serviceLatency, r.prefillEnd,
                if hasTokens then Some(r.inputTokens) else None,
                if hasTokens && generatesOutput then Some(r.outputTokens) else None)
  }

  function SpansOf(clock: SendClock, rows: seq<BenchRecord>, generatesOutput: bool): seq<RequestSpan> {
    seq(|rows|, i requires 0 <= i < |rows| => SpanOf(clock, rows[i], generatesOutput))
  }

  lemma {:induction false} MeasuredIdentity(measured: seq<BenchRecord>)
    requires forall i :: 0 <= i < |measured| ==> !measured[i].warmup
    ensures Measured(measured) == measured
  {
    if measured != [] { MeasuredIdentity(measured[1..]); }
  }

  /** No success is clipped by its stage window. */
  lemma SuccessInside(measured: seq<BenchRecord>, r: BenchRecord, generatesOutput: bool)
    requires r in measured && forall i :: 0 <= i < |measured| ==> !measured[i].warmup
    ensures StageWindow(measured).Some?
    ensures Inside(SpanOf(NewClock(measured).value, r, generatesOutput), 0.0, StageWindow(measured).value)
  {
    MeasuredIdentity(measured);
    ClockStartsAtZero(measured);
    var i :| 0 <= i < |measured| && measured[i] == r;
    assert EndS(NewClock(measured).value, measured[i]) <= MaxEnd(NewClock(measured).value, measured);
  }

  method StageTimeWeighted(measured: seq<BenchRecord>, successes: seq<BenchRecord>, generatesOutput: bool)
    returns (m: Option<TimeWeightedMetrics>)
    requires forall i :: 0 <= i < |measured| ==> !measured[i].warmup
    requires forall i :: 0 <= i < |successes| ==> successes[i] in measured
    ensures measured == [] <==> m.None?
    ensures m.Some? ==>
      var spans := SpansOf(NewClock(measured).value, successes, generatesOutput);
      var window := if spans == [] then 0.0 else StageWindow(measured).value;
      AllMeasured(spans, 0.0, window, m.value) && Balanced(spans, window, m.value)
  {
    hide AllMeasured, Balanced;
    var clock := NewClock(measured);
    if clock.None? {
      return None;
    }
    var spans := SpansOf(clock.value, successes, generatesOutput);
    var window := if spans == [] then 0.0 else StageWindow(measured).value;
    forall i | 0 <= i < |spans| ensures Inside(spans[i], 0.0, window) {
      SuccessInside(measured, successes[i], generatesOutput);
    }
    var metrics := Compute(spans, 0.0, window);
    StageBalanced(spans, window, metrics);
    return Some(metrics);
  }

  predicate Timed(span: RequestSpan) { span.latency >= 0.0 }

  predicate Splits(span: RequestSpan) { Timed(span) && span.prefillEnd.Some? }

  predicate TokenCounted(span: RequestSpan) {
    Splits(span) && span.inputTokens.Some? && span.outputTokens.Some?
  }

  predicate PrefillRated(span: RequestSpan) { Splits(span) && GivesPrefillRate(span, FirstToken(span).value) }

  predicate DecodeRated(span: RequestSpan) { Splits(span) && GivesDecodeRate(span, FirstToken(span).value) }

  /** Which rows a block counts. */
  lemma {:induction false} BlockRows(spans: seq<RequestSpan>)
    ensures var b := AllBlocks(spans, 0.0);
      && (|b.all| > 0 <==> exists i :: 0 <= i < |spans| && Timed(spans[i]))
      && (b.split > 0 <==> exists i :: 0 <= i < |spans| && Splits(spans[i]))
      && (b.tokenRows > 0 <==> exists i :: 0 <= i < |spans| && TokenCounted(spans[i]))
      && (b.prefillRows > 0 <==> exists i :: 0 <= i < |spans| && PrefillRated(spans[i]))
      && (b.decodeRows > 0 <==> exists i :: 0 <= i < |spans| && DecodeRated(spans[i]))
  {
    hide Timed, Splits, TokenCounted, PrefillRated, DecodeRated, SpanBlocks;
    if spans != [] {
      SpanRows(spans[0]);
      BlockRows(spans[1..]);
      assert forall i :: 0 <= i < |spans| - 1 ==> spans[1..][i] == spans[i + 1];
      assert forall i :: 0 < i < |spans| ==> spans[i] == spans[1..][i - 1];
    }
  }

  lemma SpanRows(span: RequestSpan)
    ensures var b := SpanBlocks(span, 0.0);
      && (|b.all| > 0 <==> Timed(span))
      && (b.split > 0 <==> Splits(span))
      && (b.tokenRows > 0 <==> TokenCounted(span))
      && (b.prefillRows > 0 <==> PrefillRated(span))
      && (b.decodeRows > 0 <==> DecodeRated(span))
  {
  }

  /** Little's law, the phase split and the token totals, block by block. */
  ghost predicate Balanced(spans: seq<RequestSpan>, w: real, m: TimeWeightedMetrics) {
    var t := AllTotals(spans);
    && (m.effectiveConcurrency.avg.Some? <==> w > 0.0 && exists i :: 0 <= i < |spans| && Timed(spans[i]))
    && (m.prefillConcurrency.avg.Some? <==> w > 0.0 && exists i :: 0 <= i < |spans| && Splits(spans[i]))
    && (m.tokensInFlight.avg.Some? <==> w > 0.0 && exists i :: 0 <= i < |spans| && TokenCounted(spans[i]))
    && (m.prefillThroughput.avg.Some? <==> w > 0.0 && exists i :: 0 <= i < |spans| && PrefillRated(spans[i]))
    && (m.decodeThroughput.avg.Some? <==> w > 0.0 && exists i :: 0 <= i < |spans| && DecodeRated(spans[i]))
    && (m.effectiveConcurrency.avg.Some? ==> m.effectiveConcurrency.avg.value * w == t.latency)
    && (m.prefillConcurrency.avg.Some? <==> m.decodeConcurrency.avg.Some?)
    && (m.prefillConcurrency.avg.Some? ==> m.prefillConcurrency.avg.value * w == t.prefillSeconds)
    && (m.decodeConcurrency.avg.Some? ==> m.decodeConcurrency.avg.value * w == t.decodeSeconds)
    && (m.tokensInFlight.avg.Some? ==> m.tokensInFlight.avg.value * w == t.tokenSeconds)
    && (m.prefillThroughput.avg.Some? ==> m.prefillThroughput.avg.value * w == t.prefillTokens)
    && (m.decodeThroughput.avg.Some? ==> m.decodeThroughput.avg.value * w == t.decodeTokens)
  }

  lemma StatArea(segs: seq<Segment>, n: nat, w: real, stat: TimeWeightedStat)
    requires IsStat(segs, n, w, stat)
    ensures stat.avg.Some? <==> n > 0 && w > 0.0
    ensures stat.avg.Some? ==> stat.avg.value * w == TotalArea(segs, w)
  {
    hide TotalArea, AreaOver, ActiveOver, IsGrid, IsPeak, NonNegative;
  }

  lemma StageBalanced(spans: seq<RequestSpan>, w: real, m: TimeWeightedMetrics)
    requires forall i :: 0 <= i < |spans| ==> Inside(spans[i], 0.0, w)
    requires AllMeasured(spans, 0.0, w, m)
    ensures Balanced(spans, w, m)
  {
    hide AllBlocks, TotalArea, IsStat, Inside, AllTotals, Timed, Splits, TokenCounted, PrefillRated, DecodeRated;
    BlockRows(spans);
    Conserved(spans, 0.0, w);
    var b := AllBlocks(spans, 0.0);
    StatArea(b.all, |b.all|, w, m.effectiveConcurrency);
    StatArea(b.prefill, b.split, w, m.prefillConcurrency);
    StatArea(b.decode, b.split, w, m.decodeConcurrency);
    StatArea(b.tokens, b.tokenRows, w, m.tokensInFlight);
    StatArea(b.prefillRate, b.prefillRows, w, m.prefillThroughput);
    StatArea(b.decodeRate, b.decodeRows, w, m.decodeThroughput);
  }
}
