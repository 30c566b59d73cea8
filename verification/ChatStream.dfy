/** Consuming a chat stream (src/chat_stream.rs:130-298, 364-407): visible-output timing, usage
    and the finish verdict, fed by the event parser. */
module ChatStream {
  import opened Numbers
  import opened Sequences
  import opened Sse
  import Json

  /** Nanoseconds since the request was sent. */
  type Duration = nat

  datatype RequestError = ApiError | ParseError | StreamTruncated | NoOutputToken | ReasoningTruncated | Transport

  datatype Usage = Usage(
    prompt: nat, completion: nat, total: nat, promptPresent: bool, completionPresent: bool, reasoning: Option<nat>)

  /** What a consumer has gathered, apart from its parser. */
  datatype Tally = Tally(
    firstToken: Option<Duration>, firstReasoning: Option<Duration>, lastToken: Option<Duration>, itl: seq<Duration>,
    usage: Usage, done: bool, sawFinish: bool, finishReason: Option<string>, text: string)

  const FRESH := Tally(None, None, None, [], Usage(0, 0, 0, false, false, None), false, false, None, "")

  // ---------- one event

  function OutputText(choice: Json.Value): Option<string> {
    var delta := Json.AsStr(Json.GetIn(Json.Get(choice, "delta"), "content"));
    if delta.Some? then delta else Json.AsStr(Json.Get(choice, "text"))
  }

  predicate ToolArguments(call: Json.Value) {
    Json.NonEmptyStr(Json.GetIn(Json.Get(call, "function"), "arguments"))
  }

  predicate HasOutputToken(choice: Json.Value) {
    var delta := Json.Get(choice, "delta");
    var calls := Json.GetIn(delta, "tool_calls");
    || (OutputText(choice).Some? && OutputText(choice).value != "")
    || Json.NonEmptyStr(Json.GetIn(Json.GetIn(delta, "function_call"), "arguments"))
    || (calls.Some? && calls.value.Arr?
        && exists i :: 0 <= i < |calls.value.items| && ToolArguments(calls.value.items[i]))
  }

  predicate HasReasoningToken(choice: Json.Value) {
    var delta := Json.Get(choice, "delta");
    Json.NonEmptyStr(Json.GetIn(delta, "reasoning_content")) || Json.NonEmptyStr(Json.GetIn(delta, "reasoning"))
  }

  function FinishReason(choice: Json.Value): Option<string> {
    Json.AsStr(Json.Get(choice, "finish_reason"))
  }

  /** Choice index 0; a choice without an index is taken by position. */
  predicate Measured(choice: Json.Value, position: nat) {
    match Json.AsU64(Json.Get(choice, "index"))
    case Some(index) => index == 0
    case None => position == 0
  }

  function NonNegativeCount(v: Option<Json.Value>): Option<nat> {
    if Json.AsU64(v).Some? then Json.AsU64(v)
    else if v.Some? && v.value.Float? && v.value.x >= 0.0 && v.value.x.Floor as real == v.value.x then
      Some(if v.value.x.Floor < Json.U64_LIMIT then v.value.x.Floor else Json.U64_LIMIT - 1)
    else None
  }

  /** The first nonzero reasoning count; zero only if every reported place says zero. */
  function ReasoningTokens(usage: Json.Value): Option<nat> {
    var a := NonNegativeCount(Json.GetIn(Json.Get(usage, "completion_tokens_details"), "reasoning_tokens"));
    var b := NonNegativeCount(Json.GetIn(Json.Get(usage, "output_tokens_details"), "reasoning_tokens"));
    var c := NonNegativeCount(Json.Get(usage, "reasoning_tokens"));
    if a.Some? && a.value != 0 then a
    else if b.Some? && b.value != 0 then b
    else if c.Some? && c.value != 0 then c
    else if a.Some? || b.Some? || c.Some? then Some(0)
    else None
  }

  function Or(v: Option<nat>, default: nat): nat { if v.Some? then v.value else default }

  function MergeUsage(u: Usage, usage: Json.Value): Usage {
    var prompt := Json.AsU64(Json.Get(usage, "prompt_tokens"));
    var completion := Json.AsU64(Json.Get(usage, "completion_tokens"));
    Usage(Or(prompt, u.prompt), Or(completion, u.completion),
          Or(Json.AsU64(Json.Get(usage, "total_tokens")), u.total),
          u.promptPresent || prompt.Some?, u.completionPresent || completion.Some?,
          if ReasoningTokens(usage).Some? then ReasoningTokens(usage) else u.reasoning)
  }

  /** A visible token: the first one sets TTFT, each later one adds a gap. */
  function SeeToken(t: Tally, now: Duration): Tally {
    if t.firstToken.None? then t.(firstToken := Some(now), lastToken := Some(now))
    else if t.lastToken.Some? then t.(itl := t.itl + [SaturatingSub(now, t.lastToken.value)], lastToken := Some(now))
    else t.(lastToken := Some(now))
  }

  function SeeFinish(t: Tally, choice: Json.Value): Tally {
    if FinishReason(choice).Some? then t.(sawFinish := true, finishReason := FinishReason(choice)) else t
  }

  function SeeReasoning(t: Tally, choice: Json.Value, now: Duration): Tally {
    if t.firstReasoning.None? && HasReasoningToken(choice) then t.(firstReasoning := Some(now)) else t
  }

  function SeeOutput(t: Tally, choice: Json.Value, now: Duration): Tally {
    if HasOutputToken(choice) then SeeToken(t, now) else t
  }

  function SeeText(t: Tally, choice: Json.Value): Tally {
    if OutputText(choice).Some? then t.(text := t.text + OutputText(choice).value) else t
  }

  function ApplyChoice(t: Tally, choice: Json.Value, now: Duration): Tally {
    SeeText(SeeOutput(SeeReasoning(SeeFinish(t, choice), choice, now), choice, now), choice)
  }

  function ApplyChoices(t: Tally, choices: seq<Json.Value>, position: nat, now: Duration): Tally
    requires position <= |choices|
    decreases |choices| - position
  {
    if position == |choices| then t
    else
      var next := if Measured(choices[position], position) then ApplyChoice(t, choices[position], now) else t;
      ApplyChoices(next, choices, position + 1, now)
  }

  datatype Verdict = Good(tally: Tally) | Bad(error: RequestError, tally: Tally)

  function ChoicesOf(v: Json.Value): seq<Json.Value> {
    match Json.Get(v, "choices")
    case Some(Arr(items)) => items
    case _ => []
  }

  function WithUsage(t: Tally, v: Json.Value): Tally {
    match Json.Get(v, "usage")
    case Some(usage) => t.(usage := MergeUsage(t.usage, usage))
    case None => t
  }

  function ApplyEvent(t: Tally, event: SseEvent, now: Duration): Verdict {
    match event
    case Done => Good(t.(done := true))
    case Raw(_) => Bad(ParseError, t)
    case Parsed(v) =>
      if Json.Get(v, "error").Some? then Bad(ApiError, t)
      else
        Good(ApplyChoices(WithUsage(t, v), ChoicesOf(v), 0, now))
  }

  /** Events in order, stopping at the first failing one. */
  function ApplyEvents(t: Tally, events: seq<SseEvent>, now: Duration): Verdict
    decreases |events|
  {
    if events == [] then Good(t)
    else match ApplyEvent(t, events[0], now)
      case Good(next) => ApplyEvents(next, events[1..], now)
      case Bad(e, at) => Bad(e, at)
  }

  // ---------- the consumer object

  class Consumer {
    const parser: SseParser
    var tally: Tally

    constructor (codec: Codec)
      ensures fresh(parser) && parser.Valid() && parser.State() == ParserState([], []) && parser.codec == codec
      ensures tally == FRESH
    {
      parser := new SseParser(codec);
      tally := FRESH;
    }

    /** Feeds one chunk read at time `now`; an error leaves later events of the chunk unread. */
    method Feed(bytes: seq<byte>, now: Duration) returns (error: Option<RequestError>)
      requires parser.Valid()
      modifies this, parser
      ensures parser.Valid()
      ensures parser.State() == Run(parser.codec, old(parser.State()), bytes).state
      ensures var verdict := ApplyEvents(old(tally), Run(parser.codec, old(parser.State()), bytes).events, now);
        tally == verdict.tally && error == (if verdict.Bad? then Some(verdict.error) else None)
    {
      hide ApplyEvent, Run;
      var events := parser.Feed(bytes);
      ghost var goal := ApplyEvents(tally, events, now);
      for k := 0 to |events|
        invariant ApplyEvents(tally, events[k..], now) == goal
        invariant parser.Valid() && parser.State() == old(Run(parser.codec, parser.State(), bytes)).state
      {
        assert events[k..][1..] == events[k + 1..];
        var verdict := ApplyEvent(tally, events[k], now);
        tally := verdict.tally;
        if verdict.Bad? {
          return Some(verdict.error);
        }
      }
      return None;
    }
  }

  // ---------- the whole stream

  /** A body read: the bytes and the clock when they arrived. */
  datatype Read = Read(bytes: seq<byte>, now: Duration)

  /** How a body ends after its chunks: at its end, or with a transport error. */
  datatype BodyEnd = Closed | Broken

  datatype ChatResult = ChatResult(
    latency: Duration, ttft: Option<Duration>, firstReasoning: Option<Duration>, finishReason: Option<string>,
    itl: seq<Duration>, usage: Usage, text: string)

  datatype Outcome = Completed(result: ChatResult) | Failed(error: RequestError, usage: Usage)

  /** Reads until an error, `[DONE]` or the end of the body. */
  function Consume(codec: Codec, st: ParserState, t: Tally, chunks: seq<Read>, end: BodyEnd): Verdict
    decreases |chunks|
  {
    if chunks == [] then
      if end.Broken? then Bad(Transport, t) else Good(t)
    else
      var out := Run(codec, st, chunks[0].bytes);
      match ApplyEvents(t, out.events, chunks[0].now)
      case Bad(e, at) => Bad(e, at)
      case Good(next) => if next.done then Good(next) else Consume(codec, out.state, next, chunks[1..], end)
  }

  function Finish(t: Tally, latency: Duration, allowMissingTtft: bool): Outcome {
    if !t.done && !t.sawFinish then Failed(StreamTruncated, t.usage)
    else if t.firstToken.None? && !allowMissingTtft then Failed(NoOutputToken, t.usage)
    else Completed(ChatResult(latency, t.firstToken, t.firstReasoning, t.finishReason, t.itl, t.usage, t.text))
  }

  function Settle(v: Verdict, latency: Duration, allowMissingTtft: bool): Outcome {
    match v
    case Bad(e, t) => Failed(e, t.usage)
    case Good(t) => Finish(t, latency, allowMissingTtft)
  }

  function ConsumeAll(
      codec: Codec, chunks: seq<Read>, end: BodyEnd, latency: Duration, allowMissingTtft: bool): Outcome {
    Settle(Consume(codec, ParserState([], []), FRESH, chunks, end), latency, allowMissingTtft)
  }

  method ConsumeStream(codec: Codec, chunks: seq<Read>, end: BodyEnd, latency: Duration, allowMissingTtft: bool)
    returns (r: Outcome)
    ensures r == ConsumeAll(codec, chunks, end, latency, allowMissingTtft)
  {
    hide Run, ApplyEvents, Finish;
    var consumer := new Consumer(codec);
    ghost var goal := Consume(codec, ParserState([], []), FRESH, chunks, end);
    var k := 0;
    while k < |chunks|
      invariant 0 <= k <= |chunks| && consumer.parser.Valid() && consumer.parser.codec == codec
      invariant fresh(consumer) && fresh(consumer.parser)
      invariant Consume(codec, consumer.parser.State(), consumer.tally, chunks[k..], end) == goal
      decreases |chunks| - k
    {
      assert chunks[k..][1..] == chunks[k + 1..];
      var error := consumer.Feed(chunks[k].bytes, chunks[k].now);
      if error.Some? {
        return Failed(error.value, consumer.tally.usage);
      }
      if consumer.tally.done {
        return Finish(consumer.tally, latency, allowMissingTtft);
      }
      k := k + 1;
    }
    if end.Broken? {
      return Failed(Transport, consumer.tally.usage);
    }
    return Finish(consumer.tally, latency, allowMissingTtft);
  }

  /** Classification of a completed stream, independent of the TTFT fallback. */
  function OutputError(r: ChatResult): Option<RequestError> {
    if r.ttft.Some? then None
    else if r.firstReasoning.Some? && r.finishReason == Some("length") then Some(ReasoningTruncated)
    else Some(NoOutputToken)
  }

  // ---------- timing

  function SumItl(itl: seq<Duration>): nat {
    if itl == [] then 0 else itl[0] + SumItl(itl[1..])
  }

  lemma {:induction false} SumItlSnoc(itl: seq<Duration>, d: Duration)
    ensures SumItl(itl + [d]) == SumItl(itl) + d
  {
    if itl == [] {
      assert itl + [d] == [d];
    } else {
      assert (itl + [d])[1..] == itl[1..] + [d];
      SumItlSnoc(itl[1..], d);
    }
  }

  /** Gaps telescope: TTFT plus all gaps is the time of the last visible token so far. */
  ghost predicate Timed(t: Tally, now: Duration) {
    && (t.firstToken.Some? <==> t.lastToken.Some?)
    && (t.firstToken.None? ==> t.itl == [])
    && (t.lastToken.Some? ==> t.firstToken.value + SumItl(t.itl) == t.lastToken.value <= now)
    && (t.firstReasoning.Some? ==> t.firstReasoning.value <= now)
  }

  lemma ChoiceTimed(t: Tally, choice: Json.Value, now: Duration)
    requires Timed(t, now)
    ensures Timed(ApplyChoice(t, choice, now), now)
  {
    hide SeeFinish, SeeReasoning, SeeOutput, SeeText, Timed;
    FinishTimed(t, choice, now);
    ReasoningTimed(SeeFinish(t, choice), choice, now);
    OutputTimed(SeeReasoning(SeeFinish(t, choice), choice, now), choice, now);
    TextTimed(SeeOutput(SeeReasoning(SeeFinish(t, choice), choice, now), choice, now), choice, now);
  }

  lemma FinishTimed(t: Tally, choice: Json.Value, now: Duration)
    requires Timed(t, now)
    ensures Timed(SeeFinish(t, choice), now)
  {
    hide FinishReason, SumItl;
  }

  lemma ReasoningTimed(t: Tally, choice: Json.Value, now: Duration)
    requires Timed(t, now)
    ensures Timed(SeeReasoning(t, choice, now), now)
  {
    hide HasReasoningToken, SumItl;
  }

  lemma OutputTimed(t: Tally, choice: Json.Value, now: Duration)
    requires Timed(t, now)
    ensures Timed(SeeOutput(t, choice, now), now)
  {
    hide HasOutputToken, SumItl, SeeToken, Timed;
    TokenTimed(t, now);
  }

  lemma TextTimed(t: Tally, choice: Json.Value, now: Duration)
    requires Timed(t, now)
    ensures Timed(SeeText(t, choice), now)
  {
    hide OutputText, SumItl;
  }

  lemma TokenTimed(t: Tally, now: Duration)
    requires Timed(t, now)
    ensures Timed(SeeToken(t, now), now)
  {
    if t.lastToken.Some? { SumItlSnoc(t.itl, SaturatingSub(now, t.lastToken.value)); }
  }

  lemma {:induction false} ChoicesTimed(t: Tally, choices: seq<Json.Value>, position: nat, now: Duration)
    requires Timed(t, now) && position <= |choices|
    ensures Timed(ApplyChoices(t, choices, position, now), now)
    decreases |choices| - position
  {
    hide ApplyChoice, Measured;
    if position < |choices| {
      ChoiceTimed(t, choices[position], now);
      var next := if Measured(choices[position], position) then ApplyChoice(t, choices[position], now) else t;
      ChoicesTimed(next, choices, position + 1, now);
    }
  }

  lemma {:induction false} EventsTimed(t: Tally, events: seq<SseEvent>, now: Duration)
    requires Timed(t, now)
    ensures Timed(ApplyEvents(t, events, now).tally, now)
    decreases |events|
  {
    if events != [] {
      EventTimed(t, events[0], now);
      var verdict := ApplyEvent(t, events[0], now);
      if verdict.Good? { EventsTimed(verdict.tally, events[1..], now); }
    }
  }

  lemma EventTimed(t: Tally, event: SseEvent, now: Duration)
    requires Timed(t, now)
    ensures Timed(ApplyEvent(t, event, now).tally, now)
  {
    hide MergeUsage, ApplyChoices, ChoicesOf;
    if event.Parsed? && Json.Get(event.value, "error").None? {
      ChoicesTimed(WithUsage(t, event.value), ChoicesOf(event.value), 0, now);
    }
  }

  /** Reads arrive in clock order, none after `latest`. */
  ghost predicate InOrder(chunks: seq<Read>, from: Duration, latest: Duration)
    decreases |chunks|
  {
    if chunks == [] then from <= latest
    else from <= chunks[0].now && InOrder(chunks[1..], chunks[0].now, latest)
  }

  lemma {:induction false} ConsumeTimed(
      codec: Codec, st: ParserState, t: Tally, chunks: seq<Read>, end: BodyEnd, from: Duration, latest: Duration)
    requires Timed(t, from) && InOrder(chunks, from, latest)
    ensures Timed(Consume(codec, st, t, chunks, end).tally, latest)
    decreases |chunks|
  {
    hide Run, ApplyEvents;
    if chunks != [] {
      var now := chunks[0].now;
      var out := Run(codec, st, chunks[0].bytes);
      EventsTimed(t, out.events, now);
      LaterThan(chunks[1..], now, latest);
      var verdict := ApplyEvents(t, out.events, now);
      if verdict.Good? && !verdict.tally.done {
        ConsumeTimed(codec, out.state, verdict.tally, chunks[1..], end, now, latest);
      }
    }
  }

  lemma {:induction false} LaterThan(chunks: seq<Read>, from: Duration, latest: Duration)
    requires InOrder(chunks, from, latest)
    ensures from <= latest
    decreases |chunks|
  {
    if chunks != [] { LaterThan(chunks[1..], chunks[0].now, latest); }
  }

  /** For every stream under a nondecreasing clock, TTFT plus all inter-token gaps is the time of
      the last visible token, and that is within the latency. */
  lemma TimingTelescopes(codec: Codec, chunks: seq<Read>, end: BodyEnd, latency: Duration, allowMissingTtft: bool)
    requires InOrder(chunks, 0, latency)
    ensures var r := ConsumeAll(codec, chunks, end, latency, allowMissingTtft);
      var t := Consume(codec, ParserState([], []), FRESH, chunks, end).tally;
      r.Completed? && r.result.ttft.Some? ==>
        t.lastToken.Some? && r.result.ttft.value + SumItl(r.result.itl) == t.lastToken.value <= r.result.latency
  {
    ConsumeTimed(codec, ParserState([], []), FRESH, chunks, end, 0, latency);
  }

  // ---------- what does not depend on chunk boundaries

  /** A tally without its clock readings: only how many visible tokens there were. */
  datatype Clockless = Clockless(
    visible: nat, reasoned: bool, usage: Usage, done: bool, sawFinish: bool, finishReason: Option<string>, text: string)

  function Erase(t: Tally): Clockless {
    Clockless(if t.firstToken.None? then 0 else 1 + |t.itl|, t.firstReasoning.Some?,
              t.usage, t.done, t.sawFinish, t.finishReason, t.text)
  }

  ghost predicate Paired(t: Tally) {
    (t.firstToken.Some? <==> t.lastToken.Some?) && (t.firstToken.None? ==> t.itl == [])
  }

  /** Two tallies that agree except for clock readings. */
  ghost predicate Alike(a: Tally, b: Tally) { Paired(a) && Paired(b) && Erase(a) == Erase(b) }

  ghost predicate AlikeVerdicts(a: Verdict, b: Verdict) {
    Alike(a.tally, b.tally) && (a.Good? <==> b.Good?) && (a.Bad? && b.Bad? ==> a.error == b.error)
  }

  lemma ChoiceAlike(a: Tally, b: Tally, choice: Json.Value, s: Duration, t: Duration)
    requires Alike(a, b)
    ensures Alike(ApplyChoice(a, choice, s), ApplyChoice(b, choice, t))
  {
    hide SeeFinish, SeeReasoning, SeeOutput, SeeText, Alike;
    FinishAlike(a, b, choice);
    ReasoningAlike(SeeFinish(a, choice), SeeFinish(b, choice), choice, s, t);
    var a2, b2 := SeeReasoning(SeeFinish(a, choice), choice, s), SeeReasoning(SeeFinish(b, choice), choice, t);
    OutputAlike(a2, b2, choice, s, t);
    TextAlike(SeeOutput(a2, choice, s), SeeOutput(b2, choice, t), choice);
  }

  lemma FinishAlike(a: Tally, b: Tally, choice: Json.Value)
    requires Alike(a, b)
    ensures Alike(SeeFinish(a, choice), SeeFinish(b, choice))
  {
    hide FinishReason;
  }

  lemma ReasoningAlike(a: Tally, b: Tally, choice: Json.Value, s: Duration, t: Duration)
    requires Alike(a, b)
    ensures Alike(SeeReasoning(a, choice, s), SeeReasoning(b, choice, t))
  {
    hide HasReasoningToken;
  }

  lemma OutputAlike(a: Tally, b: Tally, choice: Json.Value, s: Duration, t: Duration)
    requires Alike(a, b)
    ensures Alike(SeeOutput(a, choice, s), SeeOutput(b, choice, t))
  {
    hide HasOutputToken;
  }

  lemma TextAlike(a: Tally, b: Tally, choice: Json.Value)
    requires Alike(a, b)
    ensures Alike(SeeText(a, choice), SeeText(b, choice))
  {
    hide OutputText;
  }

  lemma {:induction false} ChoicesAlike(
      a: Tally, b: Tally, choices: seq<Json.Value>, position: nat, s: Duration, t: Duration)
    requires Alike(a, b) && position <= |choices|
    ensures Alike(ApplyChoices(a, choices, position, s), ApplyChoices(b, choices, position, t))
    decreases |choices| - position
  {
    hide ApplyChoice, Measured, Alike;
    if position < |choices| {
      var choice := choices[position];
      ChoiceAlike(a, b, choice, s, t);
      if Measured(choice, position) {
        ChoicesAlike(ApplyChoice(a, choice, s), ApplyChoice(b, choice, t), choices, position + 1, s, t);
      } else {
        ChoicesAlike(a, b, choices, position + 1, s, t);
      }
    }
  }

  lemma EventAlike(a: Tally, b: Tally, event: SseEvent, s: Duration, t: Duration)
    requires Alike(a, b)
    ensures AlikeVerdicts(ApplyEvent(a, event, s), ApplyEvent(b, event, t))
  {
    hide MergeUsage, ApplyChoices, ChoicesOf;
    if event.Parsed? && Json.Get(event.value, "error").None? {
      var a1, b1 := WithUsage(a, event.value), WithUsage(b, event.value);
      assert Alike(a1, b1);
      ChoicesAlike(a1, b1, ChoicesOf(event.value), 0, s, t);
    }
  }

  lemma {:induction false} EventsAlike(a: Tally, b: Tally, events: seq<SseEvent>, s: Duration, t: Duration)
    requires Alike(a, b)
    ensures AlikeVerdicts(ApplyEvents(a, events, s), ApplyEvents(b, events, t))
    decreases |events|
  {
    hide ApplyEvent, Alike;
    if events != [] {
      EventAlike(a, b, events[0], s, t);
      var x, y := ApplyEvent(a, events[0], s), ApplyEvent(b, events[0], t);
      if x.Good? { EventsAlike(x.tally, y.tally, events[1..], s, t); }
    }
  }

  lemma {:induction false} EventsAppend(t: Tally, a: seq<SseEvent>, b: seq<SseEvent>, now: Duration)
    ensures ApplyEvents(t, a + b, now) ==
      match ApplyEvents(t, a, now)
      case Good(next) => ApplyEvents(next, b, now)
      case Bad(e, at) => Bad(e, at)
    decreases |a|
  {
    hide ApplyEvent;
    if a == [] {
      assert a + b == b;
    } else {
      assert (a + b)[1..] == a[1..] + b;
      var verdict := ApplyEvent(t, a[0], now);
      if verdict.Good? { EventsAppend(verdict.tally, a[1..], b, now); }
    }
  }

  function Bytes(chunks: seq<Read>): seq<byte> {
    if chunks == [] then [] else chunks[0].bytes + Bytes(chunks[1..])
  }

  /** `[DONE]`, if it comes at all, is the last event. */
  ghost predicate NothingAfterDone(events: seq<SseEvent>) {
    forall i :: 0 <= i < |events| - 1 ==> !events[i].Done?
  }

  /** Only `[DONE]` marks a tally as done. */
  lemma EventDone(t: Tally, event: SseEvent, now: Duration)
    requires !event.Done?
    ensures ApplyEvent(t, event, now).tally.done == t.done
  {
    hide MergeUsage, ApplyChoices, ChoicesOf;
    if event.Parsed? && Json.Get(event.value, "error").None? {
      ChoicesDone(WithUsage(t, event.value), ChoicesOf(event.value), 0, now);
    }
  }

  lemma {:induction false} ChoicesDone(t: Tally, choices: seq<Json.Value>, position: nat, now: Duration)
    requires position <= |choices|
    ensures ApplyChoices(t, choices, position, now).done == t.done
    decreases |choices| - position
  {
    hide HasOutputToken, HasReasoningToken, OutputText, FinishReason, Measured;
    if position < |choices| {
      var next := if Measured(choices[position], position) then ApplyChoice(t, choices[position], now) else t;
      ChoicesDone(next, choices, position + 1, now);
    }
  }

  lemma {:induction false} DoneOnlyByDone(t: Tally, events: seq<SseEvent>, now: Duration)
    requires !t.done && ApplyEvents(t, events, now).Good? && ApplyEvents(t, events, now).tally.done
    ensures exists i :: 0 <= i < |events| && events[i].Done?
    decreases |events|
  {
    hide ApplyEvent;
    if events[0].Done? {
    } else {
      EventDone(t, events[0], now);
      DoneOnlyByDone(ApplyEvent(t, events[0], now).tally, events[1..], now);
      var i :| 0 <= i < |events[1..]| && events[1..][i].Done?;
      assert events[i + 1].Done?;
    }
  }

  /** What remains of a run of events once the body has been read: the transport verdict. */
  function Ending(v: Verdict, end: BodyEnd): Verdict {
    if v.Good? && !v.tally.done && end.Broken? then Bad(Transport, v.tally) else v
  }

  /** `[DONE]` is among the first `m` events. */
  ghost predicate DoneWithin(events: seq<SseEvent>, m: nat) {
    exists d :: 0 <= d < m && d < |events| && events[d].Done?
  }

  /** However the body is cut into chunks, consuming it is applying some of its events once: all of
      them, or the first `m` with `[DONE]` among them. */
  lemma {:induction false} ConsumeIsApply(
      codec: Codec, st: ParserState, a: Tally, b: Tally, chunks: seq<Read>, end: BodyEnd, now: Duration)
    returns (m: nat)
    requires Alike(a, b) && !a.done
    ensures var events := Run(codec, st, Bytes(chunks)).events;
      && m <= |events|
      && (m == |events| || DoneWithin(events, m))
      && AlikeVerdicts(Consume(codec, st, a, chunks, end), Ending(ApplyEvents(b, events[..m], now), end))
    decreases |chunks|
  {
    hide Run, DoneWithin, ApplyEvents;
    if chunks == [] {
      RunNothing(codec, st);
      NothingApplied(b, now);
      m := 0;
    } else {
      var out := Run(codec, st, chunks[0].bytes);
      var rest := Run(codec, out.state, Bytes(chunks[1..])).events;
      var all := out.events + rest;
      RunAppend(codec, st, chunks[0].bytes, Bytes(chunks[1..]));
      EventsAlike(a, b, out.events, chunks[0].now, now);
      var mine, theirs := ApplyEvents(a, out.events, chunks[0].now), ApplyEvents(b, out.events, now);
      if mine.Bad? {
        m := |all|;
        EventsAppend(b, out.events, rest, now);
        assert all[..m] == all;
      } else if mine.tally.done {
        m := |out.events|;
        assert all[..m] == out.events;
        DoneSeen(a, out.events, rest, chunks[0].now);
      } else {
        var k := ConsumeIsApply(codec, out.state, mine.tally, theirs.tally, chunks[1..], end, now);
        m := |out.events| + k;
        EventsAppend(b, out.events, rest[..k], now);
        assert all[..m] == out.events + rest[..k];
        if k < |rest| { DoneLater(out.events, rest, k); }
      }
    }
  }

  lemma NothingApplied(t: Tally, now: Duration)
    ensures ApplyEvents(t, [], now) == Good(t)
  {
  }

  lemma DoneSeen(a: Tally, front: seq<SseEvent>, rest: seq<SseEvent>, now: Duration)
    requires !a.done && ApplyEvents(a, front, now).Good? && ApplyEvents(a, front, now).tally.done
    ensures DoneWithin(front + rest, |front|)
  {
    DoneOnlyByDone(a, front, now);
    var d :| 0 <= d < |front| && front[d].Done?;
    assert (front + rest)[d].Done?;
  }

  lemma DoneLater(front: seq<SseEvent>, rest: seq<SseEvent>, k: nat)
    requires k <= |rest| && DoneWithin(rest, k)
    ensures DoneWithin(front + rest, |front| + k)
  {
    var d :| 0 <= d < k && rest[d].Done?;
    assert (front + rest)[|front| + d].Done?;
  }

  /** Applying `[DONE]` without a later failure leaves the tally done. */
  lemma {:induction false} DoneStays(t: Tally, events: seq<SseEvent>, now: Duration)
    requires t.done || DoneWithin(events, |events|)
    ensures ApplyEvents(t, events, now).Good? ==> ApplyEvents(t, events, now).tally.done
    decreases |events|
  {
    hide ApplyEvent;
    if events != [] {
      var next := ApplyEvent(t, events[0], now);
      FirstDone(t, events[0], now);
      if next.Good? {
        if !next.tally.done {
          var d :| 0 <= d < |events| && events[d].Done?;
          assert events[1..][d - 1].Done?;
        }
        DoneStays(next.tally, events[1..], now);
      }
    }
  }

  lemma FirstDone(t: Tally, event: SseEvent, now: Duration)
    ensures (t.done || event.Done?) && ApplyEvent(t, event, now).Good? ==> ApplyEvent(t, event, now).tally.done
  {
    if !event.Done? { EventDone(t, event, now); }
  }

  /** The public result without clock readings. */
  datatype Summary =
    | Finished(
        text: string, finishReason: Option<string>, usage: Usage, visible: nat, outputError: Option<RequestError>)
    | Broke(error: RequestError, usage: Usage)

  function Summarize(o: Outcome): Summary {
    match o
    case Failed(e, usage) => Broke(e, usage)
    case Completed(r) =>
      Finished(r.text, r.finishReason, r.usage, if r.ttft.None? then 0 else 1 + |r.itl|, OutputError(r))
  }

  /** What a run of events comes to, read once from the start. */
  function SummaryOf(events: seq<SseEvent>, end: BodyEnd, allowMissingTtft: bool): Summary {
    Summarize(Settle(Ending(ApplyEvents(FRESH, events, 0), end), 0, allowMissingTtft))
  }

  lemma AlikeSettles(x: Verdict, y: Verdict, latencyX: Duration, latencyY: Duration, allowMissingTtft: bool)
    requires AlikeVerdicts(x, y)
    ensures Summarize(Settle(x, latencyX, allowMissingTtft)) == Summarize(Settle(y, latencyY, allowMissingTtft))
  {
  }

  /** Stopping anywhere behind `[DONE]` comes to the same as stopping right at it. */
  ghost predicate LateEventsInert(events: seq<SseEvent>, end: BodyEnd, allowMissingTtft: bool) {
    forall d, m :: 0 <= d < m <= |events| && events[d].Done? ==>
      SummaryOf(events[..m], end, allowMissingTtft) == SummaryOf(events[..d + 1], end, allowMissingTtft)
  }

  function Public(codec: Codec, x: seq<Read>, end: BodyEnd, latency: Duration, allowMissingTtft: bool): Summary {
    Summarize(ConsumeAll(codec, x, end, latency, allowMissingTtft))
  }

  /** Every two ways to cut the body into reads, at any times, give the same text, finish reason,
      usage, visible-token count and error class. */
  ghost predicate CutsAgree(codec: Codec, body: seq<byte>, end: BodyEnd, allowMissingTtft: bool) {
    forall x, y, s, t :: Bytes(x) == body && Bytes(y) == body ==>
      Public(codec, x, end, s, allowMissingTtft) == Public(codec, y, end, t, allowMissingTtft)
  }

  function EventsOf(codec: Codec, body: seq<byte>): seq<SseEvent> { Run(codec, ParserState([], []), body).events }

  /** Whatever the cut, the public result is that of a prefix of the events. */
  lemma PublicIsPrefix(
      codec: Codec, x: seq<Read>, end: BodyEnd, latency: Duration, allowMissingTtft: bool)
    returns (m: nat)
    ensures var events := EventsOf(codec, Bytes(x));
      && m <= |events| && (m == |events| || DoneWithin(events, m))
      && Public(codec, x, end, latency, allowMissingTtft) == SummaryOf(events[..m], end, allowMissingTtft)
  {
    hide ApplyEvents, Run, Consume, Finish, Summarize, Ending, DoneWithin;
    m := ConsumeIsApply(codec, ParserState([], []), FRESH, FRESH, x, end, 0);
    var events := EventsOf(codec, Bytes(x));
    AlikeSettles(Consume(codec, ParserState([], []), FRESH, x, end), Ending(ApplyEvents(FRESH, events[..m], 0), end),
                 latency, 0, allowMissingTtft);
  }

  lemma InertPrefix(events: seq<SseEvent>, m: nat, end: BodyEnd, allowMissingTtft: bool)
    requires LateEventsInert(events, end, allowMissingTtft) && m <= |events|
    requires m == |events| || DoneWithin(events, m)
    ensures SummaryOf(events[..m], end, allowMissingTtft) == SummaryOf(events, end, allowMissingTtft)
  {
    hide SummaryOf;
    assert events[..|events|] == events;
    if m < |events| {
      var d :| 0 <= d < m && events[d].Done?;
      assert SummaryOf(events[..m], end, allowMissingTtft) == SummaryOf(events[..d + 1], end, allowMissingTtft);
      assert SummaryOf(events[..|events|], end, allowMissingTtft) == SummaryOf(events[..d + 1], end, allowMissingTtft);
    }
  }

  /** Chunk boundaries do not matter exactly when nothing behind `[DONE]` matters. */
  lemma ChunksDoNotMatterIff(codec: Codec, body: seq<byte>, end: BodyEnd, allowMissingTtft: bool)
    ensures CutsAgree(codec, body, end, allowMissingTtft)
      <==> LateEventsInert(EventsOf(codec, body), end, allowMissingTtft)
  {
    hide Public, SummaryOf, EventsOf, LateEventsInert, Bytes;
    var events := EventsOf(codec, body);
    if LateEventsInert(events, end, allowMissingTtft) {
      forall x, y, s, t | Bytes(x) == body && Bytes(y) == body
        ensures Public(codec, x, end, s, allowMissingTtft) == Public(codec, y, end, t, allowMissingTtft)
      {
        var m := PublicIsPrefix(codec, x, end, s, allowMissingTtft);
        var n := PublicIsPrefix(codec, y, end, t, allowMissingTtft);
        InertPrefix(events, m, end, allowMissingTtft);
        InertPrefix(events, n, end, allowMissingTtft);
      }
    }
    if CutsAgree(codec, body, end, allowMissingTtft) { AgreeingIsInert(codec, body, end, allowMissingTtft); }
  }

  lemma AgreeingIsInert(codec: Codec, body: seq<byte>, end: BodyEnd, allowMissingTtft: bool)
    requires CutsAgree(codec, body, end, allowMissingTtft)
    ensures LateEventsInert(EventsOf(codec, body), end, allowMissingTtft)
  {
    hide Public, SummaryOf, EventsOf, Bytes;
    var events := EventsOf(codec, body);
    forall d, m | 0 <= d < m <= |events| && events[d].Done?
      ensures SummaryOf(events[..m], end, allowMissingTtft) == SummaryOf(events[..d + 1], end, allowMissingTtft)
    {
      var x := CutBehindDone(codec, body, end, allowMissingTtft, d, m);
      var y := CutBehindDone(codec, body, end, allowMissingTtft, d, d + 1);
      assert Public(codec, x, end, 0, allowMissingTtft) == Public(codec, y, end, 0, allowMissingTtft);
    }
  }

  /** A body can be cut behind any number of its events. */
  lemma {:induction false} CutPoint(codec: Codec, st: ParserState, body: seq<byte>, m: nat) returns (p: nat)
    requires m <= |Run(codec, st, body).events|
    ensures p <= |body| && Run(codec, st, body[..p]).events == Run(codec, st, body).events[..m]
    decreases |body|
  {
    if m == 0 {
      p := 0;
    } else {
      var first := Step(codec, st, body[0]);
      var rest := Run(codec, first.state, body[1..]).events;
      StepAtMostOne(codec, st, body[0]);
      var q := CutPoint(codec, first.state, body[1..], m - |first.events|);
      p := q + 1;
      assert body[..p][1..] == body[1..][..q];
      assert (first.events + rest)[..m] == first.events + rest[..m - |first.events|];
    }
  }

  lemma StepAtMostOne(codec: Codec, st: ParserState, b: byte)
    ensures |Step(codec, st, b).events| <= 1
  {
  }

  lemma CutBehindDone(codec: Codec, body: seq<byte>, end: BodyEnd, allowMissingTtft: bool, d: nat, m: nat)
    returns (x: seq<Read>)
    requires d < m <= |EventsOf(codec, body)| && EventsOf(codec, body)[d].Done?
    ensures Bytes(x) == body
    ensures Public(codec, x, end, 0, allowMissingTtft) == SummaryOf(EventsOf(codec, body)[..m], end, allowMissingTtft)
  {
    hide Run, ApplyEvents, Finish, Summarize;
    var st := ParserState([], []);
    var p := CutPoint(codec, st, body, m);
    x := [Read(body[..p], 0), Read(body[p..], 0)];
    assert x[1..] == [Read(body[p..], 0)] && x[1..][1..] == [];
    assert Bytes(x[1..]) == body[p..] + Bytes([]);
    assert Bytes(x) == body[..p] + body[p..] == body;
    var seen := EventsOf(codec, body)[..m];
    assert seen[d].Done?;
    DoneStays(FRESH, seen, 0);
  }

  // ---------- the same, event by event

  /** What a done tally will be reported as. */
  function View(t: Tally, allowMissingTtft: bool): Summary { Summarize(Finish(t, 0, allowMissingTtft)) }

  /** An event that a done tally may see without harm: `[DONE]` again, or parsed, not an error, and
      without effect on what is reported. */
  predicate Harmless(t: Tally, event: SseEvent, allowMissingTtft: bool) {
    event.Done?
    || (event.Parsed? && Json.Get(event.value, "error").None?
        && View(ApplyEvent(t, event, 0).tally, allowMissingTtft) == View(t, allowMissingTtft))
  }

  /** Every event behind `[DONE]` is harmless to the tally it meets. */
  ghost predicate LateEventsHarmless(events: seq<SseEvent>, allowMissingTtft: bool) {
    forall k :: 0 <= k < |events| && DoneWithin(events, k) && ApplyEvents(FRESH, events[..k], 0).Good? ==>
      Harmless(ApplyEvents(FRESH, events[..k], 0).tally, events[k], allowMissingTtft)
  }

  /** One more event behind `[DONE]` leaves the report alone exactly when it is harmless. */
  lemma OneLateEvent(events: seq<SseEvent>, k: nat, end: BodyEnd, allowMissingTtft: bool)
    requires k < |events| && DoneWithin(events, k)
    ensures SummaryOf(events[..k + 1], end, allowMissingTtft) == SummaryOf(events[..k], end, allowMissingTtft)
      <==> (ApplyEvents(FRESH, events[..k], 0).Good? ==>
              Harmless(ApplyEvents(FRESH, events[..k], 0).tally, events[k], allowMissingTtft))
  {
    hide ApplyEvents, ApplyEvent, DoneWithin;
    assert events[..k + 1] == events[..k] + [events[k]];
    EventsAppend(FRESH, events[..k], [events[k]], 0);
    DoneInPrefix(events, k);
    DoneStays(FRESH, events[..k], 0);
    var before := ApplyEvents(FRESH, events[..k], 0);
    if before.Good? {
      AppliedOne(before.tally, events[k]);
      LateVerdict(before.tally, events[k], allowMissingTtft);
    }
  }

  lemma DoneInPrefix(events: seq<SseEvent>, k: nat)
    requires k <= |events| && DoneWithin(events, k)
    ensures DoneWithin(events[..k], k)
  {
    var d :| 0 <= d < k && events[d].Done?;
    assert events[..k][d].Done?;
  }

  lemma AppliedOne(t: Tally, event: SseEvent)
    ensures ApplyEvents(t, [event], 0) == ApplyEvent(t, event, 0)
  {
    hide ApplyEvent;
    assert [event][1..] == [];
  }

  lemma LateVerdict(t: Tally, event: SseEvent, allowMissingTtft: bool)
    requires t.done
    ensures var v := ApplyEvent(t, event, 0);
      && (v.Good? ==> v.tally.done)
      && (Summarize(Settle(v, 0, allowMissingTtft)) == View(t, allowMissingTtft)
          <==> Harmless(t, event, allowMissingTtft))
  {
    hide ApplyChoices, MergeUsage, ChoicesOf;
    FirstDone(t, event, 0);
  }

  lemma {:induction false} HarmlessPrefix(
      events: seq<SseEvent>, d: nat, m: nat, end: BodyEnd, allowMissingTtft: bool)
    requires d < m <= |events| && events[d].Done? && LateEventsHarmless(events, allowMissingTtft)
    ensures SummaryOf(events[..m], end, allowMissingTtft) == SummaryOf(events[..d + 1], end, allowMissingTtft)
    decreases m
  {
    hide SummaryOf, Harmless;
    if m > d + 1 {
      HarmlessPrefix(events, d, m - 1, end, allowMissingTtft);
      OneLateEvent(events, m - 1, end, allowMissingTtft);
    }
  }

  /** So chunk boundaries do not matter exactly when every event behind `[DONE]` is harmless. */
  lemma ChunksDoNotMatterPerEvent(codec: Codec, body: seq<byte>, end: BodyEnd, allowMissingTtft: bool)
    ensures CutsAgree(codec, body, end, allowMissingTtft)
      <==> LateEventsHarmless(EventsOf(codec, body), allowMissingTtft)
  {
    hide CutsAgree, SummaryOf, EventsOf, Harmless;
    ChunksDoNotMatterIff(codec, body, end, allowMissingTtft);
    var events := EventsOf(codec, body);
    if LateEventsHarmless(events, allowMissingTtft) {
      forall d, m | 0 <= d < m <= |events| && events[d].Done?
        ensures SummaryOf(events[..m], end, allowMissingTtft) == SummaryOf(events[..d + 1], end, allowMissingTtft)
      {
        HarmlessPrefix(events, d, m, end, allowMissingTtft);
      }
    }
    if LateEventsInert(events, end, allowMissingTtft) {
      forall k | 0 <= k < |events| && DoneWithin(events, k) && ApplyEvents(FRESH, events[..k], 0).Good?
        ensures Harmless(ApplyEvents(FRESH, events[..k], 0).tally, events[k], allowMissingTtft)
      {
        var d :| 0 <= d < k && events[d].Done?;
        OneLateEvent(events, k, end, allowMissingTtft);
        assert SummaryOf(events[..k + 1], end, allowMissingTtft) == SummaryOf(events[..d + 1], end, allowMissingTtft);
        assert SummaryOf(events[..k], end, allowMissingTtft) == SummaryOf(events[..d + 1], end, allowMissingTtft);
      }
    }
  }

  /** In particular, any two cuts agree when no event follows `[DONE]`. */
  lemma ChunksDoNotMatter(codec: Codec, body: seq<byte>, end: BodyEnd, allowMissingTtft: bool)
    requires NothingAfterDone(EventsOf(codec, body))
    ensures CutsAgree(codec, body, end, allowMissingTtft)
  {
    hide CutsAgree, SummaryOf, EventsOf;
    ChunksDoNotMatterIff(codec, body, end, allowMissingTtft);
    var events := EventsOf(codec, body);
    forall d, m | 0 <= d < m <= |events| && events[d].Done?
      ensures SummaryOf(events[..m], end, allowMissingTtft) == SummaryOf(events[..d + 1], end, allowMissingTtft)
    {
      assert m == d + 1;
    }
  }

  /** It can fail: an unparsable event right after `[DONE]` fails the stream when both
      arrive in one read, and is never looked at when they arrive in two. */
  lemma ChunksMatterAfterDone(codec: Codec, enc: string -> seq<byte>, junk: string)
    requires Encodes(codec, enc) && NoTrailingSpace(junk) && '\n' !in junk
    requires junk != "[DONE]" && codec.parse(junk) == None
    ensures var done, bad := EncodeEvent(enc, [Data("[DONE]")]), EncodeEvent(enc, [Data(junk)]);
      && Bytes([Read(done + bad, 0)]) == Bytes([Read(done, 0), Read(bad, 0)])
      && ConsumeAll(codec, [Read(done + bad, 0)], Closed, 0, true).Failed?
      && ConsumeAll(codec, [Read(done, 0), Read(bad, 0)], Closed, 0, true).Completed?
  {
    hide Run, Encodes, EncodeEvent, ApplyEvents;
    var st := ParserState([], []);
    var done, bad := EncodeEvent(enc, [Data("[DONE]")]), EncodeEvent(enc, [Data(junk)]);
    OnePayload(codec, enc, "[DONE]");
    OnePayload(codec, enc, junk);
    RunAppend(codec, st, done, bad);
    AfterDone(junk);
    var two := [Read(done, 0), Read(bad, 0)];
    assert two[1..] == [Read(bad, 0)] && two[1..][1..] == [];
    assert Bytes(two[1..]) == bad + Bytes([]);
    assert Bytes(two) == done + bad;
    assert [Read(done + bad, 0)][1..] == [];
  }

  lemma OnePayload(codec: Codec, enc: string -> seq<byte>, payload: string)
    requires Encodes(codec, enc) && NoTrailingSpace(payload) && '\n' !in payload
    ensures Run(codec, ParserState([], []), EncodeEvent(enc, [Data(payload)]))
         == Output([Dispatch(codec, payload)], ParserState([], []))
  {
    var lines := [Data(payload)];
    assert lines[1..] == [] && Payload(lines) == [payload] + Payload([]);
    EventRoundTrip(codec, enc, lines);
  }

  lemma AfterDone(junk: string)
    ensures ApplyEvents(FRESH, [Done], 0) == Good(FRESH.(done := true))
    ensures ApplyEvents(FRESH, [Done] + [Raw(junk)], 0).Bad?
  {
    assert [Done][1..] == [] && ([Done] + [Raw(junk)])[1..] == [Raw(junk)];
  }
}
