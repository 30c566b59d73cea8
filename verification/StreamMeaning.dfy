/** What a consumed chat stream reports, in closed form over its events
    (src/chat_stream.rs:165-298, 371-411): no consumer state, only which events were read when. */
module StreamMeaning {
  import opened Numbers
  import opened Sequences
  import opened Sse
  import opened ChatStream
  import Json

  // ---------- events, and the choices that are measured

  datatype Seen = Seen(event: SseEvent, at: Duration)

  function Stamp(events: seq<SseEvent>, now: Duration): seq<Seen> {
    seq(|events|, i requires 0 <= i < |events| => Seen(events[i], now))
  }

  /** All events of a body with the time of the read that completed them. */
  function Timeline(codec: Codec, st: ParserState, chunks: seq<Read>): seq<Seen>
    decreases |chunks|
  {
    if chunks == [] then []
    else
      var out := Run(codec, st, chunks[0].bytes);
      Stamp(out.events, chunks[0].now) + Timeline(codec, out.state, chunks[1..])
  }

  /** A choice of an event that counts, with the time it was read. */
  datatype Heard = Heard(choice: Json.Value, at: Duration)

  /** Choice 0 by its own index or, without a usable index, by its place. */
  predicate IsFirst(choice: Json.Value, place: nat) {
    match Json.Get(choice, "index")
    case Some(Int(n)) => if 0 <= n < U64 then n == 0 else place == 0
    case _ => place == 0
  }

  const U64: int := 18446744073709551616

  function FirstOnes(items: seq<Json.Value>, at: Duration): seq<Heard> {
    if items == [] then []
    else
      var n := |items| - 1;
      FirstOnes(items[..n], at) + (if IsFirst(items[n], n) then [Heard(items[n], at)] else [])
  }

  function ChoicesIn(e: Seen): seq<Heard> {
    if e.event.Parsed? then
      match Json.Get(e.event.value, "choices")
      case Some(Arr(items)) => FirstOnes(items, e.at)
      case _ => []
    else []
  }

  function Choices(seen: seq<Seen>): seq<Heard> {
    if seen == [] then [] else Choices(seen[..|seen| - 1]) + ChoicesIn(seen[|seen| - 1])
  }

  // ---------- what one choice says

  function StringAt(v: Option<Json.Value>): Option<string> {
    match v
    case Some(Str(s)) => Some(s)
    case _ => None
  }

  function Inside(v: Json.Value, outer: string, key: string): Option<Json.Value> {
    match Json.Get(v, outer)
    case Some(inner) => Json.Get(inner, key)
    case None => None
  }

  /** `delta.content`, or the `text` of a plain completion. */
  function TextOf(choice: Json.Value): string {
    match StringAt(Inside(choice, "delta", "content"))
    case Some(s) => s
    case None => match StringAt(Json.Get(choice, "text"))
      case Some(s) => s
      case None => ""
  }

  predicate Filled(v: Option<Json.Value>) { StringAt(v).Some? && StringAt(v).value != "" }

  /** Visible text, or arguments of a function or tool call. */
  predicate IsVisible(choice: Json.Value) {
    || TextOf(choice) != ""
    || (Inside(choice, "delta", "function_call").Some?
        && Filled(Json.Get(Inside(choice, "delta", "function_call").value, "arguments")))
    || (match Inside(choice, "delta", "tool_calls")
        case Some(Arr(calls)) => exists i :: 0 <= i < |calls| && Filled(Inside(calls[i], "function", "arguments"))
        case _ => false)
  }

  predicate IsReasoning(choice: Json.Value) {
    Filled(Inside(choice, "delta", "reasoning_content")) || Filled(Inside(choice, "delta", "reasoning"))
  }

  function ReasonOf(choice: Json.Value): Option<string> { StringAt(Json.Get(choice, "finish_reason")) }

  // ---------- closed forms over the choices

  function Texts(cs: seq<Heard>): string {
    if cs == [] then "" else Texts(cs[..|cs| - 1]) + TextOf(cs[|cs| - 1].choice)
  }

  /** When visible output arrived. */
  function VisibleTimes(cs: seq<Heard>): seq<Duration> {
    if cs == [] then []
    else
      var last := cs[|cs| - 1];
      VisibleTimes(cs[..|cs| - 1]) + (if IsVisible(last.choice) then [last.at] else [])
  }

  /** The last finish reason given. */
  ghost predicate LastReason(cs: seq<Heard>, r: Option<string>) {
    if r.None? then forall i :: 0 <= i < |cs| ==> ReasonOf(cs[i].choice).None?
    else exists i :: 0 <= i < |cs| && ReasonOf(cs[i].choice) == r
           && forall j :: i < j < |cs| ==> ReasonOf(cs[j].choice).None?
  }

  /** When reasoning first arrived. */
  ghost predicate FirstReasoning(cs: seq<Heard>, t: Option<Duration>) {
    if t.None? then forall i :: 0 <= i < |cs| ==> !IsReasoning(cs[i].choice)
    else exists i :: 0 <= i < |cs| && IsReasoning(cs[i].choice) && cs[i].at == t.value
           && forall j :: 0 <= j < i ==> !IsReasoning(cs[j].choice)
  }

  /** The first of `times`, and the gaps between neighbours. */
  ghost predicate Gaps(times: seq<Duration>, first: Option<Duration>, itl: seq<Duration>) {
    && first == (if times == [] then None else Some(times[0]))
    && |itl| == (if times == [] then 0 else |times| - 1)
    && forall k :: 0 <= k < |itl| ==> itl[k] == if times[k + 1] >= times[k] then times[k + 1] - times[k] else 0
  }

  // ---------- closed forms over usage

  function UsageIn(e: Seen): Option<Json.Value> {
    if e.event.Parsed? then Json.Get(e.event.value, "usage") else None
  }

  function CountIn(e: Seen, key: string): Option<nat> {
    match UsageIn(e)
    case Some(usage) => (match Json.Get(usage, key)
      case Some(Int(n)) => if 0 <= n < U64 then Some(n) else None
      case _ => None)
    case None => None
  }

  function ReasoningIn(e: Seen): Option<nat> {
    match UsageIn(e)
    case Some(usage) => ReasoningTokens(usage)
    case None => None
  }

  /** The last value reported. */
  ghost predicate LastOf(values: seq<Option<nat>>, v: Option<nat>) {
    if v.None? then forall i :: 0 <= i < |values| ==> values[i].None?
    else exists i :: 0 <= i < |values| && values[i] == v && forall j :: i < j < |values| ==> values[j].None?
  }

  function CountsIn(seen: seq<Seen>, key: string): seq<Option<nat>> {
    seq(|seen|, i requires 0 <= i < |seen| => CountIn(seen[i], key))
  }

  function ReasoningsIn(seen: seq<Seen>): seq<Option<nat>> {
    seq(|seen|, i requires 0 <= i < |seen| => ReasoningIn(seen[i]))
  }

  /** The last count of each kind, zero without one, and whether there was one. */
  ghost predicate IsUsage(seen: seq<Seen>, u: Usage) {
    && (exists v :: LastOf(CountsIn(seen, "prompt_tokens"), v)
          && u.promptPresent == v.Some? && u.prompt == if v.Some? then v.value else 0)
    && (exists v :: LastOf(CountsIn(seen, "completion_tokens"), v)
          && u.completionPresent == v.Some? && u.completion == if v.Some? then v.value else 0)
    && (exists v :: LastOf(CountsIn(seen, "total_tokens"), v) && u.total == if v.Some? then v.value else 0)
    && LastOf(ReasoningsIn(seen), u.reasoning)
  }

  // ---------- a tally is these closed forms

  ghost predicate HasDone(seen: seq<Seen>) { exists i :: 0 <= i < |seen| && seen[i].event.Done? }

  predicate Fails(e: SseEvent) { e.Raw? || (e.Parsed? && Json.Get(e.value, "error").Some?) }

  ghost predicate NoneFails(seen: seq<Seen>) { forall i :: 0 <= i < |seen| ==> !Fails(seen[i].event) }

  ghost predicate FromChoices(cs: seq<Heard>, t: Tally) {
    && t.text == Texts(cs)
    && LastReason(cs, t.finishReason) && (t.sawFinish <==> t.finishReason.Some?)
    && FirstReasoning(cs, t.firstReasoning)
    && Gaps(VisibleTimes(cs), t.firstToken, t.itl)
    && t.lastToken == (var times := VisibleTimes(cs); if times == [] then None else Some(times[|times| - 1]))
  }

  ghost predicate Gathered(seen: seq<Seen>, t: Tally) {
    FromChoices(Choices(seen), t) && IsUsage(seen, t.usage) && (t.done <==> HasDone(seen))
  }

  lemma AccessorsAgree(choice: Json.Value)
    ensures OutputText(choice) == (
      if StringAt(Inside(choice, "delta", "content")).Some? then StringAt(Inside(choice, "delta", "content"))
      else StringAt(Json.Get(choice, "text")))
    ensures TextOf(choice) == if OutputText(choice).Some? then OutputText(choice).value else ""
    ensures HasReasoningToken(choice) <==> IsReasoning(choice)
    ensures FinishReason(choice) == ReasonOf(choice)
  {
  }

  lemma VisibleAgrees(choice: Json.Value)
    ensures HasOutputToken(choice) <==> IsVisible(choice)
  {
    AccessorsAgree(choice);
    hide OutputText, TextOf;
    match Inside(choice, "delta", "tool_calls")
    case Some(Arr(calls)) =>
      forall i | 0 <= i < |calls|
        ensures ToolArguments(calls[i]) <==> Filled(Inside(calls[i], "function", "arguments"))
      {
      }
    case _ =>
  }

  lemma MeasuredIsFirst(choice: Json.Value, place: nat)
    ensures Measured(choice, place) <==> IsFirst(choice, place)
  {
  }

  lemma ReasonNext(cs: seq<Heard>, h: Heard, r: Option<string>)
    requires LastReason(cs, r)
    ensures LastReason(cs + [h], if ReasonOf(h.choice).Some? then ReasonOf(h.choice) else r)
  {
    hide ReasonOf;
    var more := cs + [h];
    assert more[|cs|] == h && forall i :: 0 <= i < |cs| ==> more[i] == cs[i];
  }

  lemma ReasoningNext(cs: seq<Heard>, h: Heard, t: Option<Duration>)
    requires FirstReasoning(cs, t)
    ensures FirstReasoning(cs + [h], if t.None? && IsReasoning(h.choice) then Some(h.at) else t)
  {
    hide IsReasoning;
    var more := cs + [h];
    assert more[|cs|] == h && forall i :: 0 <= i < |cs| ==> more[i] == cs[i];
  }

  /** One more visible token: the first one, or one more gap. */
  lemma GapsNext(times: seq<Duration>, t: Tally, now: Duration)
    requires Gaps(times, t.firstToken, t.itl)
    requires t.lastToken == if times == [] then None else Some(times[|times| - 1])
    ensures var next := SeeToken(t, now);
      && Gaps(times + [now], next.firstToken, next.itl) && next.lastToken == Some(now)
      && next == t.(firstToken := next.firstToken, lastToken := next.lastToken, itl := next.itl)
  {
    var more, next := times + [now], SeeToken(t, now);
    assert forall i :: 0 <= i < |times| ==> more[i] == times[i];
    if times != [] {
      assert next.itl == t.itl + [SaturatingSub(now, times[|times| - 1])];
      assert forall k :: 0 <= k < |t.itl| ==> next.itl[k] == t.itl[k];
    }
  }

  lemma VisibleNext(cs: seq<Heard>, h: Heard)
    ensures VisibleTimes(cs + [h]) == if IsVisible(h.choice) then VisibleTimes(cs) + [h.at] else VisibleTimes(cs)
    ensures Texts(cs + [h]) == Texts(cs) + TextOf(h.choice)
  {
    hide IsVisible, TextOf;
    assert (cs + [h])[..|cs|] == cs;
  }

  lemma ChoiceGathered(cs: seq<Heard>, t: Tally, h: Heard)
    requires FromChoices(cs, t)
    ensures FromChoices(cs + [h], ApplyChoice(t, h.choice, h.at))
    ensures var next := ApplyChoice(t, h.choice, h.at);
      next.usage == t.usage && next.done == t.done
  {
    hide OutputText, HasOutputToken, HasReasoningToken, FinishReason, IsVisible, IsReasoning, TextOf, ReasonOf,
      LastReason, FirstReasoning, Gaps, SeeToken, VisibleTimes, Texts;
    AccessorsAgree(h.choice);
    VisibleAgrees(h.choice);
    ReasonNext(cs, h, t.finishReason);
    ReasoningNext(cs, h, t.firstReasoning);
    VisibleNext(cs, h);
    var t2 := SeeReasoning(SeeFinish(t, h.choice), h.choice, h.at);
    GapsNext(VisibleTimes(cs), t2, h.at);
    if OutputText(h.choice).None? { assert t.text + "" == t.text; }
  }

  lemma {:induction false} ChoicesGathered(
      cs: seq<Heard>, t: Tally, items: seq<Json.Value>, place: nat, now: Duration)
    requires place <= |items| && FromChoices(cs + FirstOnes(items[..place], now), t)
    ensures var next := ApplyChoices(t, items, place, now);
      FromChoices(cs + FirstOnes(items, now), next) && next.usage == t.usage && next.done == t.done
    decreases |items| - place
  {
    hide FromChoices, ApplyChoice, Measured, IsFirst;
    if place == |items| {
      assert items[..place] == items;
    } else {
      var heard, h := FirstOnes(items[..place], now), Heard(items[place], now);
      MeasuredIsFirst(items[place], place);
      assert items[..place + 1][..place] == items[..place];
      if IsFirst(items[place], place) {
        ChoiceGathered(cs + heard, t, h);
        assert cs + heard + [h] == cs + FirstOnes(items[..place + 1], now);
        ChoicesGathered(cs, ApplyChoice(t, items[place], now), items, place + 1, now);
      } else {
        assert heard + [] == heard;
        ChoicesGathered(cs, t, items, place + 1, now);
      }
    }
  }

  // ---------- usage of one event

  lemma CountsAgree(v: Json.Value, at: Duration, key: string)
    ensures var e := Seen(Parsed(v), at);
      CountIn(e, key) == (match Json.Get(v, "usage")
        case Some(usage) => Json.AsU64(Json.Get(usage, key))
        case None => None)
  {
  }

  lemma LastNext(values: seq<Option<nat>>, x: Option<nat>, v: Option<nat>)
    requires LastOf(values, v)
    ensures LastOf(values + [x], if x.Some? then x else v)
  {
    var more := values + [x];
    assert more[|values|] == x && forall i :: 0 <= i < |values| ==> more[i] == values[i];
  }

  lemma CountsNext(seen: seq<Seen>, e: Seen, key: string, v: Option<nat>)
    requires LastOf(CountsIn(seen, key), v)
    ensures LastOf(CountsIn(seen + [e], key), if CountIn(e, key).Some? then CountIn(e, key) else v)
  {
    hide LastOf, CountIn;
    assert CountsIn(seen + [e], key) == CountsIn(seen, key) + [CountIn(e, key)];
    LastNext(CountsIn(seen, key), CountIn(e, key), v);
  }

  lemma ReasoningsNext(seen: seq<Seen>, e: Seen, v: Option<nat>)
    requires LastOf(ReasoningsIn(seen), v)
    ensures LastOf(ReasoningsIn(seen + [e]), if ReasoningIn(e).Some? then ReasoningIn(e) else v)
  {
    hide LastOf, ReasoningIn;
    assert ReasoningsIn(seen + [e]) == ReasoningsIn(seen) + [ReasoningIn(e)];
    LastNext(ReasoningsIn(seen), ReasoningIn(e), v);
  }

  /** The usage after one more event, from the counts that event reports. */
  function UsageAfter(u: Usage, e: Seen): Usage {
    var prompt, completion := CountIn(e, "prompt_tokens"), CountIn(e, "completion_tokens");
    Usage(Or(prompt, u.prompt), Or(completion, u.completion), Or(CountIn(e, "total_tokens"), u.total),
          u.promptPresent || prompt.Some?, u.completionPresent || completion.Some?,
          if ReasoningIn(e).Some? then ReasoningIn(e) else u.reasoning)
  }

  lemma UsageNext(seen: seq<Seen>, e: Seen, u: Usage)
    requires IsUsage(seen, u)
    ensures IsUsage(seen + [e], UsageAfter(u, e))
  {
    hide LastOf, CountIn, ReasoningIn, CountsIn, ReasoningsIn;
    var p :| LastOf(CountsIn(seen, "prompt_tokens"), p)
      && u.promptPresent == p.Some? && u.prompt == if p.Some? then p.value else 0;
    var c :| LastOf(CountsIn(seen, "completion_tokens"), c)
      && u.completionPresent == c.Some? && u.completion == if c.Some? then c.value else 0;
    var t :| LastOf(CountsIn(seen, "total_tokens"), t) && u.total == if t.Some? then t.value else 0;
    CountsNext(seen, e, "prompt_tokens", p);
    CountsNext(seen, e, "completion_tokens", c);
    CountsNext(seen, e, "total_tokens", t);
    ReasoningsNext(seen, e, u.reasoning);
  }

  lemma UsageAfterIs(u: Usage, v: Json.Value, at: Duration)
    ensures UsageAfter(u, Seen(Parsed(v), at)) ==
      match Json.Get(v, "usage") case Some(usage) => MergeUsage(u, usage) case None => u
  {
    hide ReasoningTokens;
    CountsAgree(v, at, "prompt_tokens");
    CountsAgree(v, at, "completion_tokens");
    CountsAgree(v, at, "total_tokens");
  }

  // ---------- reasoning counts

  /** A nonnegative whole number, also when written as a float; larger ones are cut to 64 bits. */
  function Whole(v: Option<Json.Value>): Option<nat> {
    match v
    case Some(Int(n)) => if 0 <= n < U64 then Some(n) else None
    case Some(Float(x)) =>
      if x >= 0.0 && x.Floor as real == x then Some(if x.Floor < U64 then x.Floor else U64 - 1) else None
    case _ => None
  }

  function Place(usage: Json.Value, k: nat): Option<nat> {
    Whole(
      if k == 0 then Inside(usage, "completion_tokens_details", "reasoning_tokens")
      else if k == 1 then Inside(usage, "output_tokens_details", "reasoning_tokens")
      else Json.Get(usage, "reasoning_tokens"))
  }

  ghost predicate FirstNonzero(usage: Json.Value, k: nat, n: nat) {
    Place(usage, k) == Some(n) && forall j: nat :: j < k ==> Place(usage, j).None? || Place(usage, j) == Some(0)
  }

  lemma WholeAgrees(v: Option<Json.Value>)
    ensures Whole(v) == NonNegativeCount(v)
  {
  }

  lemma PlacesAgree(usage: Json.Value)
    ensures Place(usage, 0)
         == NonNegativeCount(Json.GetIn(Json.Get(usage, "completion_tokens_details"), "reasoning_tokens"))
    ensures Place(usage, 1)
         == NonNegativeCount(Json.GetIn(Json.Get(usage, "output_tokens_details"), "reasoning_tokens"))
    ensures Place(usage, 2) == NonNegativeCount(Json.Get(usage, "reasoning_tokens"))
  {
    hide Whole, NonNegativeCount;
    WholeAgrees(Inside(usage, "completion_tokens_details", "reasoning_tokens"));
    WholeAgrees(Inside(usage, "output_tokens_details", "reasoning_tokens"));
    WholeAgrees(Json.Get(usage, "reasoning_tokens"));
  }

  /** The first nonzero count of the three places; zero if some place says so and none says more. */
  lemma ReasoningCount(usage: Json.Value)
    ensures var r := ReasoningTokens(usage);
      && (r.None? <==> forall k: nat :: k < 3 ==> Place(usage, k).None?)
      && (r == Some(0) ==> forall k: nat :: k < 3 ==> Place(usage, k).None? || Place(usage, k) == Some(0))
      && (r.Some? && r.value > 0 ==> exists k: nat :: k < 3 && FirstNonzero(usage, k, r.value))
  {
    PlacesAgree(usage);
    hide NonNegativeCount, Place;
    var r := ReasoningTokens(usage);
    assert r.Some? && r.value > 0 ==>
      FirstNonzero(usage, 0, r.value) || FirstNonzero(usage, 1, r.value) || FirstNonzero(usage, 2, r.value);
  }

  // ---------- one event

  lemma EventGathered(seen: seq<Seen>, t: Tally, e: Seen)
    requires Gathered(seen, t) && !Fails(e.event)
    ensures ApplyEvent(t, e.event, e.at).Good? && Gathered(seen + [e], ApplyEvent(t, e.event, e.at).tally)
  {
    hide FromChoices, IsUsage, MergeUsage, ApplyChoices, FirstOnes;
    assert (seen + [e])[..|seen|] == seen;
    assert Choices(seen + [e]) == Choices(seen) + ChoicesIn(e);
    DoneNext(seen, e);
    UsageNext(seen, e, t.usage);
    match e.event
    case Parsed(v) =>
      UsageAfterIs(t.usage, v, e.at);
      var items, t1 := ChoicesOf(v), WithUsage(t, v);
      SameChoices(Choices(seen), t, t1);
      NoneHeard(Choices(seen), items, e.at);
      ChoicesGathered(Choices(seen), t1, items, 0, e.at);
      assert ChoicesIn(e) == FirstOnes(items, e.at);
    case Done =>
      SameChoices(Choices(seen), t, t.(done := true));
      assert Choices(seen) + [] == Choices(seen);
      NoCounts(t.usage, e);
  }

  lemma NoneHeard(cs: seq<Heard>, items: seq<Json.Value>, now: Duration)
    ensures cs + FirstOnes(items[..0], now) == cs
    ensures FirstOnes([], now) == []
  {
  }

  lemma NoCounts(u: Usage, e: Seen)
    requires !e.event.Parsed?
    ensures UsageAfter(u, e) == u
  {
  }

  lemma SameChoices(cs: seq<Heard>, a: Tally, b: Tally)
    requires FromChoices(cs, a) && b == a.(usage := b.usage, done := b.done)
    ensures FromChoices(cs, b)
  {
  }

  lemma DoneNext(seen: seq<Seen>, e: Seen)
    ensures HasDone(seen + [e]) <==> HasDone(seen) || e.event.Done?
  {
    var more := seen + [e];
    assert more[|seen|] == e && forall i :: 0 <= i < |seen| ==> more[i] == seen[i];
  }

  // ---------- many events

  function ErrorOf(e: SseEvent): RequestError { if e.Raw? then ParseError else ApiError }

  /** Event `f` is the first one that fails the stream. */
  ghost predicate FailsAt(seen: seq<Seen>, f: nat) {
    f < |seen| && Fails(seen[f].event) && forall j :: 0 <= j < f ==> !Fails(seen[j].event)
  }

  /** The verdict is the first failure, with what came before it, or everything gathered. */
  ghost predicate Applied(seen: seq<Seen>, v: Verdict) {
    if v.Good? then NoneFails(seen) && Gathered(seen, v.tally)
    else exists f :: 0 <= f < |seen| && FailsAt(seen, f) && v.error == ErrorOf(seen[f].event)
                     && Gathered(seen[..f], v.tally)
  }

  lemma FirstFails(seen: seq<Seen>, t: Tally, later: seq<Seen>, e: Seen)
    requires Gathered(seen, t) && NoneFails(seen) && Fails(e.event)
    ensures ApplyEvent(t, e.event, e.at) == Bad(ErrorOf(e.event), t)
    ensures Applied(seen + ([e] + later), Bad(ErrorOf(e.event), t))
  {
    hide Gathered;
    var all := seen + ([e] + later);
    assert all[|seen|] == e && all[..|seen|] == seen;
    assert forall j :: 0 <= j < |seen| ==> all[j] == seen[j];
    assert FailsAt(all, |seen|);
  }

  lemma {:induction false} EventsApplied(seen: seq<Seen>, t: Tally, events: seq<SseEvent>, now: Duration)
    requires Gathered(seen, t) && NoneFails(seen)
    ensures Applied(seen + Stamp(events, now), ApplyEvents(t, events, now))
    decreases |events|
  {
    hide Gathered, ApplyEvent, Fails;
    if events == [] {
      assert seen + [] == seen;
    } else {
      var e := Seen(events[0], now);
      var later := Stamp(events[1..], now);
      assert Stamp(events, now) == [e] + later;
      if Fails(e.event) {
        FirstFails(seen, t, later, e);
      } else {
        EventGathered(seen, t, e);
        assert (seen + [e])[|seen|] == e && forall j :: 0 <= j < |seen| ==> (seen + [e])[j] == seen[j];
        EventsApplied(seen + [e], ApplyEvent(t, e.event, now).tally, events[1..], now);
        assert seen + [e] + later == seen + ([e] + later);
      }
    }
  }

  // ---------- the whole stream

  /** Neither a failure nor `[DONE]` yet: the next read is awaited. */
  ghost predicate Open(seen: seq<Seen>) { NoneFails(seen) && !HasDone(seen) }

  function Start(): ParserState { ParserState([], []) }

  /** The body is read up to the first read that fails or completes `[DONE]`, or to its end. */
  ghost predicate ReadUpTo(codec: Codec, chunks: seq<Read>, n: nat) {
    && n <= |chunks|
    && (forall m :: 0 <= m < n ==> Open(Timeline(codec, Start(), chunks[..m])))
    && (n < |chunks| ==> !Open(Timeline(codec, Start(), chunks[..n])))
  }

  ghost predicate Concluded(seen: seq<Seen>, end: BodyEnd, v: Verdict) {
    if Open(seen) && end.Broken? then v.Bad? && v.error == Transport && Gathered(seen, v.tally)
    else Applied(seen, v) && (v.Good? ==> HasDone(seen) || end.Closed?)
  }

  lemma {:induction false} TimelineAppend(codec: Codec, st: ParserState, a: seq<Read>, chunk: Read)
    ensures Timeline(codec, st, a + [chunk]) == Timeline(codec, st, a)
      + Stamp(Run(codec, StateAfter(codec, st, a), chunk.bytes).events, chunk.now)
    decreases |a|
  {
    hide Run;
    if a == [] {
      assert (a + [chunk])[0] == chunk && (a + [chunk])[1..] == [];
      assert Timeline(codec, st, a + [chunk]) == Stamp(Run(codec, st, chunk.bytes).events, chunk.now) + [];
    } else {
      assert (a + [chunk])[0] == a[0] && (a + [chunk])[1..] == a[1..] + [chunk];
      TimelineAppend(codec, Run(codec, st, a[0].bytes).state, a[1..], chunk);
    }
  }

  function StateAfter(codec: Codec, st: ParserState, chunks: seq<Read>): ParserState
    decreases |chunks|
  {
    if chunks == [] then st else StateAfter(codec, Run(codec, st, chunks[0].bytes).state, chunks[1..])
  }

  lemma {:induction false} StateAfterNext(codec: Codec, st: ParserState, a: seq<Read>, chunk: Read)
    ensures StateAfter(codec, st, a + [chunk]) == Run(codec, StateAfter(codec, st, a), chunk.bytes).state
    decreases |a|
  {
    hide Run;
    if a == [] {
      assert (a + [chunk])[0] == chunk && (a + [chunk])[1..] == [];
    } else {
      assert (a + [chunk])[0] == a[0] && (a + [chunk])[1..] == a[1..] + [chunk];
      StateAfterNext(codec, Run(codec, st, a[0].bytes).state, a[1..], chunk);
    }
  }

  lemma DoneIsDone(seen: seq<Seen>, t: Tally)
    requires Gathered(seen, t)
    ensures t.done <==> HasDone(seen)
  {
  }

  /** Reading on from the first `k` reads. */
  lemma {:induction false} ConsumeConcludes(codec: Codec, chunks: seq<Read>, k: nat, t: Tally, end: BodyEnd)
    returns (n: nat)
    requires k <= |chunks| && Gathered(Timeline(codec, Start(), chunks[..k]), t)
    requires forall m :: 0 <= m <= k ==> Open(Timeline(codec, Start(), chunks[..m]))
    ensures ReadUpTo(codec, chunks, n)
    ensures Concluded(Timeline(codec, Start(), chunks[..n]), end,
                      Consume(codec, StateAfter(codec, Start(), chunks[..k]), t, chunks[k..], end))
    decreases |chunks| - k
  {
    hide Gathered, Run, ApplyEvents, Open, Timeline, StateAfter, Applied;
    var seen, st := Timeline(codec, Start(), chunks[..k]), StateAfter(codec, Start(), chunks[..k]);
    if k == |chunks| {
      n := k;
      EndConcludes(seen, t);
    } else {
      var chunk := chunks[k];
      var out := Run(codec, st, chunk.bytes);
      var next := Timeline(codec, Start(), chunks[..k + 1]);
      assert chunks[..k + 1] == chunks[..k] + [chunk] && chunks[k..][0] == chunk && chunks[k..][1..] == chunks[k + 1..];
      TimelineAppend(codec, Start(), chunks[..k], chunk);
      StateAfterNext(codec, Start(), chunks[..k], chunk);
      OpenGives(seen);
      EventsApplied(seen, t, out.events, chunk.now);
      var v := ApplyEvents(t, out.events, chunk.now);
      AppliedOpen(next, v);
      if v.Good? && !v.tally.done {
        n := ConsumeConcludes(codec, chunks, k + 1, v.tally, end);
      } else {
        n := k + 1;
      }
    }
  }

  lemma OpenGives(seen: seq<Seen>)
    requires Open(seen)
    ensures NoneFails(seen)
  {
  }

  lemma EndConcludes(seen: seq<Seen>, t: Tally)
    requires Open(seen) && Gathered(seen, t)
    ensures Applied(seen, Good(t))
  {
    hide Gathered;
  }

  lemma AppliedOpen(seen: seq<Seen>, v: Verdict)
    requires Applied(seen, v)
    ensures Open(seen) <==> v.Good? && !v.tally.done
    ensures v.Good? ==> (v.tally.done <==> HasDone(seen)) && Gathered(seen, v.tally)
  {
    if v.Good? { DoneIsDone(seen, v.tally); }
    hide Gathered;
  }

  // ---------- the report

  ghost predicate HasReason(seen: seq<Seen>) {
    exists i :: 0 <= i < |Choices(seen)| && ReasonOf(Choices(seen)[i].choice).Some?
  }

  ghost predicate HasVisible(seen: seq<Seen>) { VisibleTimes(Choices(seen)) != [] }

  /** The result of a stream whose events are `seen`. */
  ghost predicate IsResult(seen: seq<Seen>, latency: Duration, r: ChatResult) {
    && r.latency == latency
    && r.text == Texts(Choices(seen))
    && LastReason(Choices(seen), r.finishReason)
    && FirstReasoning(Choices(seen), r.firstReasoning)
    && Gaps(VisibleTimes(Choices(seen)), r.ttft, r.itl)
    && IsUsage(seen, r.usage)
  }

  /** A failure by event `f`, with the usage reported before it. */
  ghost predicate FailedBy(seen: seq<Seen>, f: nat, error: RequestError, usage: Usage) {
    && FailsAt(seen, f) && IsUsage(seen[..f], usage)
    && error == if seen[f].event.Raw? then ParseError else ApiError
  }

  /** What a body whose events up to the end of reading are `seen` comes to. */
  ghost predicate Reports(seen: seq<Seen>, end: BodyEnd, latency: Duration, allowMissingTtft: bool, o: Outcome) {
    if !NoneFails(seen) then
      o.Failed? && exists f :: 0 <= f < |seen| && FailedBy(seen, f, o.error, o.usage)
    else if !HasDone(seen) && end.Broken? then o.Failed? && o.error == Transport && IsUsage(seen, o.usage)
    else if !HasDone(seen) && !HasReason(seen) then o.Failed? && o.error == StreamTruncated && IsUsage(seen, o.usage)
    else if !HasVisible(seen) && !allowMissingTtft then
      o.Failed? && o.error == NoOutputToken && IsUsage(seen, o.usage)
    else o.Completed? && IsResult(seen, latency, o.result)
  }

  lemma GatheredReports(seen: seq<Seen>, t: Tally, latency: Duration)
    requires Gathered(seen, t)
    ensures IsUsage(seen, t.usage) && (t.done <==> HasDone(seen)) && (t.sawFinish <==> HasReason(seen))
    ensures t.firstToken.Some? <==> HasVisible(seen)
    ensures IsResult(seen, latency,
      ChatResult(latency, t.firstToken, t.firstReasoning, t.finishReason, t.itl, t.usage, t.text))
  {
    hide Texts, VisibleTimes, IsUsage, Choices, ReasonOf;
  }

  lemma ConcludedReports(
      seen: seq<Seen>, end: BodyEnd, v: Verdict, latency: Duration, allowMissingTtft: bool)
    requires Concluded(seen, end, v)
    ensures Reports(seen, end, latency, allowMissingTtft, Settle(v, latency, allowMissingTtft))
  {
    hide Gathered, IsUsage, IsResult, HasReason, HasVisible, HasDone;
    if v.Good? || (Open(seen) && end.Broken?) {
      GatheredReports(seen, v.tally, latency);
    } else {
      var f :| 0 <= f < |seen| && FailsAt(seen, f) && v.error == ErrorOf(seen[f].event) && Gathered(seen[..f], v.tally);
      GatheredReports(seen[..f], v.tally, latency);
      assert FailedBy(seen, f, v.error, v.tally.usage);
    }
  }

  lemma NothingGathered()
    ensures Gathered([], FRESH) && Open([])
  {
    assert LastOf(CountsIn([], "prompt_tokens"), None) && LastOf(CountsIn([], "completion_tokens"), None);
    assert LastOf(CountsIn([], "total_tokens"), None);
  }

  /** For every codec, cut and ending: how far the body is read, and what its events up to there
      make of it. */
  lemma StreamMeans(
      codec: Codec, chunks: seq<Read>, end: BodyEnd, latency: Duration, allowMissingTtft: bool) returns (n: nat)
    ensures ReadUpTo(codec, chunks, n)
    ensures Reports(Timeline(codec, Start(), chunks[..n]), end, latency, allowMissingTtft,
                    ConsumeAll(codec, chunks, end, latency, allowMissingTtft))
  {
    hide Gathered, Open, Concluded, Reports, Consume, Settle;
    NothingGathered();
    assert chunks[..0] == [] && chunks[0..] == chunks;
    n := ConsumeConcludes(codec, chunks, 0, FRESH, end);
    ConcludedReports(Timeline(codec, Start(), chunks[..n]), end,
                     Consume(codec, Start(), FRESH, chunks, end), latency, allowMissingTtft);
  }
}
