/** What the time-weighted blocks of a stage mean for its records: each block measures a plain sum
    over the successes, at every moment, and its integral is a plain total
    (src/strategic.rs:385-480, src/time_weighted.rs:92-156). */
module StageMeaning {
  import opened Numbers
  import opened Sequences
  import opened SweepSpec
  import opened TimeWeighted
  import opened RunMetrics

  // ---------- when records were sent, and the window

  ghost predicate OffsetsEverywhere(measured: seq<BenchRecord>) {
    forall i :: 0 <= i < |measured| ==> measured[i].sendOffset.Some?
  }

  ghost predicate LeastOffset(measured: seq<BenchRecord>, o: real) {
    && (exists i :: 0 <= i < |measured| && measured[i].sendOffset == Some(o))
    && (forall i :: 0 <= i < |measured| && measured[i].sendOffset.Some? ==> o <= measured[i].sendOffset.value)
  }

  ghost predicate LeastWall(measured: seq<BenchRecord>, ns: nat) {
    && (exists i :: 0 <= i < |measured| && measured[i].sentUnixNs == ns)
    && (forall i :: 0 <= i < |measured| ==> ns <= measured[i].sentUnixNs)
  }

  /** `r` was sent `t` seconds after the first measured send, by the monotonic offsets if every
      measured record has one, by wall-clock nanoseconds otherwise. */
  ghost predicate SentAt(measured: seq<BenchRecord>, r: BenchRecord, t: real) {
    if OffsetsEverywhere(measured) then
      r.sendOffset.Some? && exists o :: LeastOffset(measured, o) && t == r.sendOffset.value - o
    else exists ns :: LeastWall(measured, ns) && t * 1000000000.0 == (r.sentUnixNs - ns) as real
  }

  lemma SendsAre(measured: seq<BenchRecord>, r: BenchRecord)
    requires r in measured
    ensures NewClock(measured).Some? && SentAt(measured, r, SendS(NewClock(measured).value, r))
  {
    var k :| 0 <= k < |measured| && measured[k] == r;
    if OffsetsEverywhere(measured) {
      assert AllHaveOffsets(measured);
      var o := MinOffset(measured);
      var i :| 0 <= i < |measured| && o == measured[i].sendOffset.value;
      assert measured[i].sendOffset == Some(o);
      assert LeastOffset(measured, o);
    } else {
      assert !AllHaveOffsets(measured);
      assert LeastWall(measured, MinWall(measured));
      Seconds(r.sentUnixNs - MinWall(measured));
    }
  }

  lemma Seconds(ns: int)
    ensures ns as real / 1000000000.0 * 1000000000.0 == ns as real
  {
  }

  ghost predicate EndsAt(measured: seq<BenchRecord>, r: BenchRecord, t: real) {
    exists s :: SentAt(measured, r, s) && t == s + MaxReal(r.serviceLatency, 0.0)
  }

  /** The window ends when the last measured record does. */
  ghost predicate IsWindow(measured: seq<BenchRecord>, w: real) {
    && (exists i :: 0 <= i < |measured| && EndsAt(measured, measured[i], w))
    && (forall i :: 0 <= i < |measured| ==> EndsBy(measured, measured[i], w))
  }

  ghost predicate EndsBy(measured: seq<BenchRecord>, r: BenchRecord, w: real) {
    exists t :: EndsAt(measured, r, t) && t <= w
  }

  lemma WindowIs(measured: seq<BenchRecord>)
    requires measured != [] && forall i :: 0 <= i < |measured| ==> !measured[i].warmup
    ensures StageWindow(measured).Some? && IsWindow(measured, StageWindow(measured).value)
  {
    hide SentAt, SendS, IsWindow, EndsAt;
    MeasuredIdentity(measured);
    ClockStartsAtZero(measured);
    var clock := NewClock(measured).value;
    forall i | 0 <= i < |measured|
      ensures EndsAt(measured, measured[i], EndS(clock, measured[i])) && 0.0 <= EndS(clock, measured[i])
    {
      RecordEnds(measured, measured[i]);
    }
    LastEnds(measured, clock);
  }

  lemma RecordEnds(measured: seq<BenchRecord>, r: BenchRecord)
    requires r in measured && NewClock(measured).Some?
    ensures EndsAt(measured, r, EndS(NewClock(measured).value, r)) && 0.0 <= EndS(NewClock(measured).value, r)
  {
    hide SentAt, SendS, NewClock;
    assert measured != [];
    ClockStartsAtZero(measured);
    SendsAre(measured, r);
  }

  lemma LastEnds(measured: seq<BenchRecord>, clock: SendClock)
    requires measured != []
    requires forall i :: 0 <= i < |measured| ==>
      EndsAt(measured, measured[i], EndS(clock, measured[i])) && 0.0 <= EndS(clock, measured[i])
    ensures MaxEnd(clock, measured) >= 0.0 && IsWindow(measured, MaxEnd(clock, measured))
  {
    hide EndsAt, EndS;
    var end := MaxEnd(clock, measured);
    forall i | 0 <= i < |measured| ensures EndsBy(measured, measured[i], end) {
      assert EndsAt(measured, measured[i], EndS(clock, measured[i]));
    }
    var k :| 0 <= k < |measured| && EndS(clock, measured[k]) == end;
    assert EndsAt(measured, measured[k], EndS(clock, measured[k]));
  }

  // ---------- one row

  /** A success and when it was sent. */
  datatype Row = Row(sent: real, record: BenchRecord)

  predicate Counts(r: Row) { r.record.serviceLatency >= 0.0 }

  predicate HasPhases(r: Row) { Counts(r) && r.record.prefillEnd.Some? }

  /** Length of the prefill phase, kept within the request. */
  function Prefill(r: Row): real
    requires HasPhases(r)
  {
    MinReal(MaxReal(r.record.prefillEnd.value, 0.0), r.record.serviceLatency)
  }

  function Decode(r: Row): real
    requires HasPhases(r)
  {
    r.record.serviceLatency - Prefill(r)
  }

  predicate ReportsTokens(r: Row) { r.record.inputTokens > 0 || r.record.outputTokens > 0 }

  predicate During(start: real, length: real, t: real) { start <= t < start + length }

  predicate InPrefill(r: Row, t: real) { HasPhases(r) && During(r.sent, Prefill(r), t) }

  predicate InDecode(r: Row, t: real) { HasPhases(r) && During(r.sent + Prefill(r), Decode(r), t) }

  // ---------- what each block adds up, row by row

  function One(holds: bool): real { if holds then 1.0 else 0.0 }

  function InFlight(t: real): Row -> real { (r: Row) => One(Counts(r) && During(r.sent, r.record.serviceLatency, t)) }

  function Prefilling(t: real): Row -> real { (r: Row) => One(InPrefill(r, t)) }

  function Decoding(t: real): Row -> real { (r: Row) => One(InDecode(r, t)) }

  /** Prompt tokens while the request runs, and generated tokens as they accumulate. */
  function TokensHeld(output: bool, t: real): Row -> real {
    (r: Row) =>
      if !output || !HasPhases(r) || !ReportsTokens(r) then 0.0
      else if InPrefill(r, t) then r.record.inputTokens as real
      else if InDecode(r, t) then
        r.record.inputTokens as real + r.record.outputTokens as real / Decode(r) * (t - (r.sent + Prefill(r)))
      else 0.0
  }

  function PrefillSpeed(t: real): Row -> real {
    (r: Row) => if InPrefill(r, t) then r.record.inputTokens as real / Prefill(r) else 0.0
  }

  function DecodeSpeed(output: bool, t: real): Row -> real {
    (r: Row) => if output && InDecode(r, t) then r.record.outputTokens as real / Decode(r) else 0.0
  }

  function Latency(): Row -> real { (r: Row) => if Counts(r) then r.record.serviceLatency else 0.0 }

  function PrefillTime(): Row -> real { (r: Row) => if HasPhases(r) then Prefill(r) else 0.0 }

  function DecodeTime(): Row -> real { (r: Row) => if HasPhases(r) then Decode(r) else 0.0 }

  function TokenTime(output: bool): Row -> real {
    (r: Row) =>
      if output && HasPhases(r) then
        r.record.serviceLatency * r.record.inputTokens as real + Decode(r) * (r.record.outputTokens as real / 2.0)
      else 0.0
  }

  function PromptTokens(): Row -> real {
    (r: Row) => if HasPhases(r) && Prefill(r) > 0.0 then r.record.inputTokens as real else 0.0
  }

  function OutputTokens(output: bool): Row -> real {
    (r: Row) => if output && HasPhases(r) && Decode(r) > 0.0 then r.record.outputTokens as real else 0.0
  }

  function Total(rows: seq<Row>, f: Row -> real): real {
    if rows == [] then 0.0 else f(rows[0]) + Total(rows[1..], f)
  }

  // ---------- the blocks are those sums

  lemma {:induction false} ValueAppend(a: seq<Segment>, b: seq<Segment>, w: real, t: real)
    ensures Value(a + b, w, t) == Value(a, w, t) + Value(b, w, t)
  {
    hide Contribution;
    if a == [] {
      assert a + b == b;
    } else {
      assert (a + b)[1..] == a[1..] + b;
      ValueAppend(a[1..], b, w, t);
    }
  }

  lemma OneValue(s: Segment, w: real, t: real)
    ensures Value([], w, t) == 0.0
    ensures Value([s], w, t) == Contribution(s, w, t)
  {
    hide Contribution;
    assert [s][1..] == [];
  }

  /** An unclipped segment contributes its line while it lasts. */
  lemma Unclipped(start: real, end: real, level: real, slope: real, w: real, t: real)
    requires 0.0 <= start && end <= w
    ensures Value([Segment(start, end, level, slope)], w, t)
         == if start <= t < end then level + slope * (t - start) else 0.0
  {
    OneValue(Segment(start, end, level, slope), w, t);
  }

  lemma UnclippedFlat(start: real, end: real, level: real, w: real, t: real)
    requires 0.0 <= start && end <= w
    ensures Value([Flat(start, end, level)], w, t) == if start <= t < end then level else 0.0
  {
    Unclipped(start, end, level, 0.0, w, t);
    assert 0.0 * (t - start) == 0.0;
  }

  predicate Fits(r: Row, w: real) { Counts(r) ==> 0.0 <= r.sent && r.sent + r.record.serviceLatency <= w }

  function BlocksOf(r: Row, output: bool): Blocks { SpanBlocks(SpanFrom(r.sent, r.record, output), 0.0) }

  lemma PhasesAre(r: Row, output: bool)
    ensures HasPhases(r) ==>
      && FirstToken(SpanFrom(r.sent, r.record, output)) == Some(Prefill(r))
      && 0.0 <= Prefill(r) <= r.record.serviceLatency
      && BlocksOf(r, output) == SplitBlocks(SpanFrom(r.sent, r.record, output), r.sent, Prefill(r))
    ensures Counts(r) && !HasPhases(r) ==>
      BlocksOf(r, output) == NO_BLOCKS.(all := [Flat(r.sent, r.sent + r.record.serviceLatency, 1.0)])
    ensures !Counts(r) ==> BlocksOf(r, output) == NO_BLOCKS
  {
  }

  lemma RowConcurrency(r: Row, output: bool, w: real, t: real)
    requires Fits(r, w)
    ensures var b := BlocksOf(r, output);
      && Value(b.all, w, t) == InFlight(t)(r)
      && Value(b.prefill, w, t) == Prefilling(t)(r)
      && Value(b.decode, w, t) == Decoding(t)(r)
  {
    hide Value;
    PhasesAre(r, output);
    hide SpanBlocks, BlocksOf;
    OneValue(Segment(0.0, 0.0, 0.0, 0.0), w, t);
    if Counts(r) {
      UnclippedFlat(r.sent, r.sent + r.record.serviceLatency, 1.0, w, t);
      if HasPhases(r) {
        UnclippedFlat(r.sent, r.sent + Prefill(r), 1.0, w, t);
        UnclippedFlat(r.sent + Prefill(r), r.sent + r.record.serviceLatency, 1.0, w, t);
      }
    }
  }

  lemma RowTokens(r: Row, output: bool, w: real, t: real)
    requires Fits(r, w)
    ensures Value(BlocksOf(r, output).tokens, w, t) == TokensHeld(output, t)(r)
  {
    hide Value;
    PhasesAre(r, output);
    hide SpanBlocks, BlocksOf;
    OneValue(Segment(0.0, 0.0, 0.0, 0.0), w, t);
    if HasPhases(r) && ReportsTokens(r) && output {
      var split, end, isl := r.sent + Prefill(r), r.sent + r.record.serviceLatency, r.record.inputTokens as real;
      var slope := if Decode(r) > 0.0 then r.record.outputTokens as real / Decode(r) else 0.0;
      var a, b := Flat(r.sent, split, isl), Segment(split, end, isl, slope);
      assert [a, b] == [a] + [b];
      ValueAppend([a], [b], w, t);
      UnclippedFlat(r.sent, split, isl, w, t);
      Unclipped(split, end, isl, slope, w, t);
    }
  }

  lemma ZeroOver(d: real)
    requires d > 0.0
    ensures 0.0 / d == 0.0
  {
  }

  lemma RowSpeeds(r: Row, output: bool, w: real, t: real)
    requires Fits(r, w)
    ensures Value(BlocksOf(r, output).prefillRate, w, t) == PrefillSpeed(t)(r)
    ensures Value(BlocksOf(r, output).decodeRate, w, t) == DecodeSpeed(output, t)(r)
  {
    hide Value;
    PhasesAre(r, output);
    hide SpanBlocks, BlocksOf;
    OneValue(Segment(0.0, 0.0, 0.0, 0.0), w, t);
    if HasPhases(r) {
      var split, end := r.sent + Prefill(r), r.sent + r.record.serviceLatency;
      if Prefill(r) > 0.0 {
        ZeroOver(Prefill(r));
        UnclippedFlat(r.sent, split, r.record.inputTokens as real / Prefill(r), w, t);
      }
      if Decode(r) > 0.0 {
        ZeroOver(Decode(r));
        UnclippedFlat(split, end, r.record.outputTokens as real / Decode(r), w, t);
      }
    }
  }

  lemma RowTotals(r: Row, output: bool)
    ensures SpanTotals(SpanFrom(r.sent, r.record, output)) == Totals(
      Latency()(r), PrefillTime()(r), DecodeTime()(r), TokenTime(output)(r), PromptTokens()(r), OutputTokens(output)(r))
  {
    if HasPhases(r) && !ReportsTokens(r) {
      assert r.record.serviceLatency * 0.0 == 0.0 && Decode(r) * (0.0 / 2.0) == 0.0;
    }
  }

  function SpansAt(rows: seq<Row>, output: bool): seq<RequestSpan> {
    seq(|rows|, i requires 0 <= i < |rows| => SpanFrom(rows[i].sent, rows[i].record, output))
  }

  /** What the six blocks of these rows are worth at time `t`. */
  ghost predicate WorthAt(b: Blocks, rows: seq<Row>, output: bool, w: real, t: real) {
    && Value(b.all, w, t) == Total(rows, InFlight(t))
    && Value(b.prefill, w, t) == Total(rows, Prefilling(t))
    && Value(b.decode, w, t) == Total(rows, Decoding(t))
    && Value(b.tokens, w, t) == Total(rows, TokensHeld(output, t))
    && Value(b.prefillRate, w, t) == Total(rows, PrefillSpeed(t))
    && Value(b.decodeRate, w, t) == Total(rows, DecodeSpeed(output, t))
  }

  lemma {:induction false} BlocksWorth(rows: seq<Row>, output: bool, w: real, t: real)
    requires forall i :: 0 <= i < |rows| ==> Fits(rows[i], w)
    ensures WorthAt(AllBlocks(SpansAt(rows, output), 0.0), rows, output, w, t)
  {
    hide InFlight, Prefilling, Decoding, TokensHeld, PrefillSpeed, DecodeSpeed, SpanBlocks, Fits, Value, SpanFrom;
    if rows == [] {
      OneValue(Segment(0.0, 0.0, 0.0, 0.0), w, t);
    } else {
      BlocksWorth(rows[1..], output, w, t);
      RowConcurrency(rows[0], output, w, t);
      RowTokens(rows[0], output, w, t);
      RowSpeeds(rows[0], output, w, t);
      assert SpansAt(rows, output)[1..] == SpansAt(rows[1..], output);
      var x, y := BlocksOf(rows[0], output), AllBlocks(SpansAt(rows[1..], output), 0.0);
      ValueAppend(x.all, y.all, w, t);
      ValueAppend(x.prefill, y.prefill, w, t);
      ValueAppend(x.decode, y.decode, w, t);
      ValueAppend(x.tokens, y.tokens, w, t);
      ValueAppend(x.prefillRate, y.prefillRate, w, t);
      ValueAppend(x.decodeRate, y.decodeRate, w, t);
    }
  }

  lemma {:induction false} TotalsAre(rows: seq<Row>, output: bool)
    ensures AllTotals(SpansAt(rows, output)) == Totals(
      Total(rows, Latency()), Total(rows, PrefillTime()), Total(rows, DecodeTime()), Total(rows, TokenTime(output)),
      Total(rows, PromptTokens()), Total(rows, OutputTokens(output)))
  {
    hide Latency, PrefillTime, DecodeTime, TokenTime, PromptTokens, OutputTokens, SpanTotals;
    if rows != [] {
      RowTotals(rows[0], output);
      TotalsAre(rows[1..], output);
      assert SpansAt(rows, output)[1..] == SpansAt(rows[1..], output);
    }
  }

  // ---------- one stage

  /** `stat` measures, over `[0, w]`, the sum of `f(t)` over the rows at each time `t`. */
  ghost predicate MeasuresSum(stat: TimeWeightedStat, w: real, rows: seq<Row>, f: real -> (Row -> real)) {
    exists segs :: IsStat(segs, stat.n, w, stat) && forall t :: Value(segs, w, t) == Total(rows, f(t))
  }

  /** The integral of a reported block. */
  ghost predicate AddsUp(stat: TimeWeightedStat, w: real, total: real) {
    stat.avg.Some? ==> stat.avg.value * w == total
  }

  ghost predicate StageReport(rows: seq<Row>, output: bool, w: real, m: TimeWeightedMetrics) {
    && MeasuresSum(m.effectiveConcurrency, w, rows, t => InFlight(t))
    && MeasuresSum(m.prefillConcurrency, w, rows, t => Prefilling(t))
    && MeasuresSum(m.decodeConcurrency, w, rows, t => Decoding(t))
    && MeasuresSum(m.tokensInFlight, w, rows, t => TokensHeld(output, t))
    && MeasuresSum(m.prefillThroughput, w, rows, t => PrefillSpeed(t))
    && MeasuresSum(m.decodeThroughput, w, rows, t => DecodeSpeed(output, t))
    && AddsUp(m.effectiveConcurrency, w, Total(rows, Latency()))
    && AddsUp(m.prefillConcurrency, w, Total(rows, PrefillTime()))
    && AddsUp(m.decodeConcurrency, w, Total(rows, DecodeTime()))
    && AddsUp(m.tokensInFlight, w, Total(rows, TokenTime(output)))
    && AddsUp(m.prefillThroughput, w, Total(rows, PromptTokens()))
    && AddsUp(m.decodeThroughput, w, Total(rows, OutputTokens(output)))
  }

  /** The successes of a stage with their send times, and its window. */
  ghost predicate IsStage(measured: seq<BenchRecord>, successes: seq<BenchRecord>, rows: seq<Row>, w: real) {
    && |rows| == |successes|
    && (forall i :: 0 <= i < |rows| ==> rows[i].record == successes[i] && SentAt(measured, successes[i], rows[i].sent))
    && (if successes == [] then w == 0.0 else IsWindow(measured, w))
  }

  lemma StatMeasuresSum(
      segs: seq<Segment>, n: nat, w: real, stat: TimeWeightedStat, rows: seq<Row>, f: real -> (Row -> real))
    requires IsStat(segs, n, w, stat) && forall t :: Value(segs, w, t) == Total(rows, f(t))
    ensures MeasuresSum(stat, w, rows, f)
  {
    hide Measures, IsPeak, Value, Total;
  }

  /** Whatever `StageTimeWeighted` promises about its spans, said of the records: at every moment each
      block is the plain sum over the successes, and its integral the plain total. */
  lemma StageMeans(measured: seq<BenchRecord>, successes: seq<BenchRecord>, output: bool, m: TimeWeightedMetrics)
    returns (rows: seq<Row>, w: real)
    requires measured != [] && forall i :: 0 <= i < |measured| ==> !measured[i].warmup
    requires forall i :: 0 <= i < |successes| ==> successes[i] in measured
    requires var spans := SpansOf(NewClock(measured).value, successes, output);
      var window := if spans == [] then 0.0 else StageWindow(measured).value;
      AllMeasured(spans, 0.0, window, m) && Balanced(spans, window, m)
    ensures IsStage(measured, successes, rows, w) && StageReport(rows, output, w, m)
  {
    hide AllMeasured, Balanced, StageReport, IsStage, SpansOf, SpansAt, RowsFor;
    var clock := NewClock(measured).value;
    w := if successes == [] then 0.0 else StageWindow(measured).value;
    rows := RowsFor(clock, successes);
    RowsAreStage(measured, successes, output, w);
    RowsReport(rows, output, w, m);
  }

  function RowsFor(clock: SendClock, successes: seq<BenchRecord>): seq<Row> {
    seq(|successes|, i requires 0 <= i < |successes| => Row(SendS(clock, successes[i]), successes[i]))
  }

  lemma RowsAreStage(measured: seq<BenchRecord>, successes: seq<BenchRecord>, output: bool, w: real)
    requires measured != [] && forall i :: 0 <= i < |measured| ==> !measured[i].warmup
    requires forall i :: 0 <= i < |successes| ==> successes[i] in measured
    requires StageWindow(measured).Some? && w == if successes == [] then 0.0 else StageWindow(measured).value
    ensures var clock := NewClock(measured).value;
      && IsStage(measured, successes, RowsFor(clock, successes), w)
      && SpansAt(RowsFor(clock, successes), output) == SpansOf(clock, successes, output)
      && |SpansOf(clock, successes, output)| == |RowsFor(clock, successes)| == |successes|
      && forall i :: 0 <= i < |successes| ==> Fits(RowsFor(clock, successes)[i], w)
  {
    hide SentAt, IsWindow, SendS, SpanFrom, Fits, StageWindow;
    var rows := RowsFor(NewClock(measured).value, successes);
    WindowIs(measured);
    forall i | 0 <= i < |rows| ensures SentAt(measured, successes[i], rows[i].sent) && Fits(rows[i], w) {
      SendsAre(measured, successes[i]);
      SuccessFits(measured, successes[i], output);
    }
  }

  lemma SuccessFits(measured: seq<BenchRecord>, r: BenchRecord, output: bool)
    requires r in measured && forall i :: 0 <= i < |measured| ==> !measured[i].warmup
    ensures StageWindow(measured).Some?
    ensures Fits(Row(SendS(NewClock(measured).value, r), r), StageWindow(measured).value)
  {
    hide SendS, StageWindow;
    SuccessInside(measured, r, output);
  }

  lemma RowsReport(rows: seq<Row>, output: bool, w: real, m: TimeWeightedMetrics)
    requires forall i :: 0 <= i < |rows| ==> Fits(rows[i], w)
    requires AllMeasured(SpansAt(rows, output), 0.0, w, m) && Balanced(SpansAt(rows, output), w, m)
    ensures StageReport(rows, output, w, m)
  {
    hide Fits, MeasuresSum, AllMeasured, Balanced, AddsUp;
    PhasesMeasured(rows, output, w, m);
    TokensMeasured(rows, output, w, m);
    RowsAddUp(rows, output, w, m);
  }

  lemma PhasesMeasured(rows: seq<Row>, output: bool, w: real, m: TimeWeightedMetrics)
    requires forall i :: 0 <= i < |rows| ==> Fits(rows[i], w)
    requires AllMeasured(SpansAt(rows, output), 0.0, w, m)
    ensures MeasuresSum(m.effectiveConcurrency, w, rows, t => InFlight(t))
    ensures MeasuresSum(m.prefillConcurrency, w, rows, t => Prefilling(t))
    ensures MeasuresSum(m.decodeConcurrency, w, rows, t => Decoding(t))
  {
    hide Fits, IsStat, AllBlocks, Total, Value, InFlight, Prefilling, Decoding, MeasuresSum;
    var b := AllBlocks(SpansAt(rows, output), 0.0);
    forall t
      ensures Value(b.all, w, t) == Total(rows, InFlight(t))
      ensures Value(b.prefill, w, t) == Total(rows, Prefilling(t))
      ensures Value(b.decode, w, t) == Total(rows, Decoding(t))
    {
      BlocksWorth(rows, output, w, t);
    }
    StatMeasuresSum(b.all, |b.all|, w, m.effectiveConcurrency, rows, t => InFlight(t));
    StatMeasuresSum(b.prefill, b.split, w, m.prefillConcurrency, rows, t => Prefilling(t));
    StatMeasuresSum(b.decode, b.split, w, m.decodeConcurrency, rows, t => Decoding(t));
  }

  lemma TokensMeasured(rows: seq<Row>, output: bool, w: real, m: TimeWeightedMetrics)
    requires forall i :: 0 <= i < |rows| ==> Fits(rows[i], w)
    requires AllMeasured(SpansAt(rows, output), 0.0, w, m)
    ensures MeasuresSum(m.tokensInFlight, w, rows, t => TokensHeld(output, t))
    ensures MeasuresSum(m.prefillThroughput, w, rows, t => PrefillSpeed(t))
    ensures MeasuresSum(m.decodeThroughput, w, rows, t => DecodeSpeed(output, t))
  {
    hide Fits, IsStat, AllBlocks, Total, Value, TokensHeld, PrefillSpeed, DecodeSpeed, MeasuresSum;
    var b := AllBlocks(SpansAt(rows, output), 0.0);
    forall t
      ensures Value(b.tokens, w, t) == Total(rows, TokensHeld(output, t))
      ensures Value(b.prefillRate, w, t) == Total(rows, PrefillSpeed(t))
      ensures Value(b.decodeRate, w, t) == Total(rows, DecodeSpeed(output, t))
    {
      BlocksWorth(rows, output, w, t);
    }
    StatMeasuresSum(b.tokens, b.tokenRows, w, m.tokensInFlight, rows, t => TokensHeld(output, t));
    StatMeasuresSum(b.prefillRate, b.prefillRows, w, m.prefillThroughput, rows, t => PrefillSpeed(t));
    StatMeasuresSum(b.decodeRate, b.decodeRows, w, m.decodeThroughput, rows, t => DecodeSpeed(output, t));
  }

  lemma RowsAddUp(rows: seq<Row>, output: bool, w: real, m: TimeWeightedMetrics)
    requires Balanced(SpansAt(rows, output), w, m)
    ensures AddsUp(m.effectiveConcurrency, w, Total(rows, Latency()))
    ensures AddsUp(m.prefillConcurrency, w, Total(rows, PrefillTime()))
    ensures AddsUp(m.decodeConcurrency, w, Total(rows, DecodeTime()))
    ensures AddsUp(m.tokensInFlight, w, Total(rows, TokenTime(output)))
    ensures AddsUp(m.prefillThroughput, w, Total(rows, PromptTokens()))
    ensures AddsUp(m.decodeThroughput, w, Total(rows, OutputTokens(output)))
  {
    hide AllTotals, Total, Timed, Splits, TokenCounted, PrefillRated, DecodeRated, SpansAt;
    TotalsAre(rows, output);
  }

  /** Together the two phases last as long as the requests that have them. */
  lemma {:induction false} PhasesAddUp(rows: seq<Row>)
    ensures Total(rows, PrefillTime()) + Total(rows, DecodeTime())
         == Total(rows, (r: Row) => if HasPhases(r) then r.record.serviceLatency else 0.0)
  {
    if rows != [] { PhasesAddUp(rows[1..]); }
  }
}
