/** Server-sent event framing (src/sse.rs:19-90), after sections 9.2.5 and 9.2.6 of the WHATWG
    HTML Living Standard. Text decoding and JSON parsing are parameters: the theorems hold for
    every decoder and every parser. */
module Sse {
  import opened Sequences
  import Json

  newtype byte = x: int | 0 <= x < 256

  const LF: byte := 10
  const CR: byte := 13

  datatype Codec = Codec(decode: seq<byte> -> string, parse: string -> Option<Json.Value>)

  datatype SseEvent = Done | Parsed(value: Json.Value) | Raw(text: string)

  datatype ParserState = ParserState(pending: seq<byte>, dataLines: seq<string>)

  datatype Output = Output(events: seq<SseEvent>, state: ParserState)

  // ---------- text

  predicate IsWhitespace(c: char) {
    var n := c as int;
    9 <= n <= 13 || n == 0x20 || n == 0x85 || n == 0xA0 || n == 0x1680 || 0x2000 <= n <= 0x200A
    || n == 0x2028 || n == 0x2029 || n == 0x202F || n == 0x205F || n == 0x3000
  }

  predicate IsBlank(text: string) {
    forall i :: 0 <= i < |text| ==> IsWhitespace(text[i])
  }

  function TrimEnd(text: string): string {
    if text != "" && IsWhitespace(text[|text| - 1]) then TrimEnd(text[..|text| - 1]) else text
  }

  function Join(lines: seq<string>): string {
    if lines == [] then "" else if |lines| == 1 then lines[0] else lines[0] + "\n" + Join(lines[1..])
  }

  const DATA: string := "data:"

  // ---------- one line

  function Dispatch(codec: Codec, payload: string): SseEvent {
    if payload == "[DONE]" then Done
    else match codec.parse(payload)
      case Some(v) => Parsed(v)
      case None => Raw(payload)
  }

  datatype LineResult = LineResult(events: seq<SseEvent>, dataLines: seq<string>)

  function HandleText(codec: Codec, dataLines: seq<string>, text: string): LineResult {
    if IsBlank(text) then
      if dataLines == [] then LineResult([], []) else LineResult([Dispatch(codec, Join(dataLines))], [])
    else if text[0] == ':' then LineResult([], dataLines)
    else
      var trimmed := TrimEnd(text);
      if DATA <= trimmed then
        var rest := trimmed[|DATA|..];
        LineResult([], dataLines + [if rest != "" && rest[0] == ' ' then rest[1..] else rest])
      else LineResult([], dataLines)
  }

  function StripCr(line: seq<byte>): seq<byte> {
    if line != [] && line[|line| - 1] == CR then line[..|line| - 1] else line
  }

  function HandleLine(codec: Codec, dataLines: seq<string>, line: seq<byte>): LineResult {
    HandleText(codec, dataLines, codec.decode(StripCr(line)))
  }

  // ---------- the reference: one byte at a time

  function Step(codec: Codec, st: ParserState, b: byte): Output {
    if b == LF then
      var r := HandleLine(codec, st.dataLines, st.pending);
      Output(r.events, ParserState([], r.dataLines))
    else Output([], ParserState(st.pending + [b], st.dataLines))
  }

  function Run(codec: Codec, st: ParserState, bytes: seq<byte>): Output
    decreases |bytes|
  {
    if bytes == [] then Output([], st)
    else
      var first := Step(codec, st, bytes[0]);
      var rest := Run(codec, first.state, bytes[1..]);
      Output(first.events + rest.events, rest.state)
  }

  lemma {:induction false} RunAppend(codec: Codec, st: ParserState, a: seq<byte>, b: seq<byte>)
    ensures var x := Run(codec, st, a);
      var y := Run(codec, x.state, b);
      Run(codec, st, a + b) == Output(x.events + y.events, y.state)
    decreases |a|
  {
    if a == [] {
      assert a + b == b;
    } else {
      assert (a + b)[1..] == a[1..] + b;
      var first := Step(codec, st, a[0]);
      RunAppend(codec, first.state, a[1..], b);
      var x := Run(codec, first.state, a[1..]);
      var y := Run(codec, x.state, b);
      assert first.events + (x.events + y.events) == first.events + x.events + y.events;
    }
  }

  lemma {:induction false} RunWithoutNewline(codec: Codec, st: ParserState, bytes: seq<byte>)
    requires LF !in bytes
    ensures Run(codec, st, bytes) == Output([], ParserState(st.pending + bytes, st.dataLines))
    decreases |bytes|
  {
    if bytes == [] {
      assert st.pending + bytes == st.pending;
    } else {
      RunWithoutNewline(codec, ParserState(st.pending + [bytes[0]], st.dataLines), bytes[1..]);
      assert st.pending + [bytes[0]] + bytes[1..] == st.pending + bytes;
    }
  }

  /** A complete line, read byte by byte, is handled as a line. */
  lemma RunLine(codec: Codec, dataLines: seq<string>, line: seq<byte>)
    requires LF !in line
    ensures var r := HandleLine(codec, dataLines, line);
      Run(codec, ParserState([], dataLines), line + [LF]) == Output(r.events, ParserState([], r.dataLines))
  {
    var st := ParserState([], dataLines);
    RunWithoutNewline(codec, st, line);
    assert [] + line == line;
    RunAppend(codec, st, line, [LF]);
    var here := ParserState(line, dataLines);
    var step := Step(codec, here, LF);
    assert Run(codec, here, [LF]) == Output(step.events + [], step.state);
  }

  // ---------- the parser object

  class SseParser {
    const codec: Codec
    var pending: seq<byte>
    var dataLines: seq<string>

    /** Between calls only an unfinished line is held back. */
    ghost predicate Valid()
      reads this
    {
      LF !in pending
    }

    ghost function State(): ParserState
      reads this
    {
      ParserState(pending, dataLines)
    }

    constructor (codec: Codec)
      ensures Valid() && State() == ParserState([], []) && this.codec == codec
    {
      this.codec := codec;
      pending, dataLines := [], [];
    }

    /** Ingests a chunk and returns every event it completes: exactly those of the byte-by-byte
        reader, which also determines the new state. */
    method Feed(chunk: seq<byte>) returns (events: seq<SseEvent>)
      requires Valid()
      modifies this
      ensures Valid()
      ensures Output(events, State()) == Run(codec, old(State()), chunk)
    {
      hide Run, HandleLine;
      ghost var goal := Run(codec, State(), chunk);
      RunAppend(codec, ParserState([], dataLines), pending, chunk);
      RunWithoutNewline(codec, ParserState([], dataLines), pending);
      assert [] + pending == pending;
      pending := pending + chunk;
      events := [];
      assert [] + goal.events == goal.events;
      while LF in pending
        invariant var rest := Run(codec, ParserState([], dataLines), pending);
          events + rest.events == goal.events && rest.state == goal.state
        decreases |pending|
      {
        var nl := FindNewline(pending);
        var line := pending[..nl];
        ghost var before := ParserState([], dataLines);
        ghost var rest := pending[nl + 1..];
        assert pending == (line + [LF]) + rest;
        RunAppend(codec, before, line + [LF], rest);
        RunLine(codec, dataLines, line);
        var r := HandleLine(codec, dataLines, line);
        pending := pending[nl + 1..];
        ghost var done := events;
        events := events + r.events;
        dataLines := r.dataLines;
        ghost var tail := Run(codec, ParserState([], dataLines), pending);
        assert done + (r.events + tail.events) == events + tail.events;
      }
      RunWithoutNewline(codec, ParserState([], dataLines), pending);
      assert events + [] == events && [] + pending == pending;
    }
  }

  method FindNewline(bytes: seq<byte>) returns (nl: nat)
    requires LF in bytes
    ensures nl < |bytes| && bytes[nl] == LF && LF !in bytes[..nl]
  {
    nl := 0;
    while bytes[nl] != LF
      invariant nl < |bytes| && LF !in bytes[..nl]
      invariant LF in bytes[nl..]
      decreases |bytes| - nl
    {
      assert bytes[nl..] == [bytes[nl]] + bytes[nl + 1..];
      assert bytes[..nl + 1] == bytes[..nl] + [bytes[nl]];
      nl := nl + 1;
    }
  }

  // ---------- chunk boundaries do not matter

  function Concat(chunks: seq<seq<byte>>): seq<byte> {
    if chunks == [] then [] else chunks[0] + Concat(chunks[1..])
  }

  /** Feeding chunk after chunk. */
  function RunChunks(codec: Codec, st: ParserState, chunks: seq<seq<byte>>): Output
    decreases |chunks|
  {
    if chunks == [] then Output([], st)
    else
      var first := Run(codec, st, chunks[0]);
      var rest := RunChunks(codec, first.state, chunks[1..]);
      Output(first.events + rest.events, rest.state)
  }

  lemma {:induction false} ChunksIrrelevant(codec: Codec, st: ParserState, chunks: seq<seq<byte>>)
    ensures RunChunks(codec, st, chunks) == Run(codec, st, Concat(chunks))
    decreases |chunks|
  {
    if chunks != [] {
      var first := Run(codec, st, chunks[0]);
      ChunksIrrelevant(codec, first.state, chunks[1..]);
      RunAppend(codec, st, chunks[0], Concat(chunks[1..]));
    }
  }

  // ---------- encoding and reading back

  /** An encoder whose text survives decoding and never forges a line end. */
  ghost predicate Encodes(codec: Codec, enc: string -> seq<byte>) {
    && (forall s :: codec.decode(enc(s)) == s)
    && (forall s :: '\n' !in s ==> LF !in enc(s))
    && (forall s :: enc(s) != [] && enc(s)[|enc(s)| - 1] == CR ==> s != "" && s[|s| - 1] == '\r')
    && codec.decode([]) == ""
  }

  /** A line of the stream: part of a payload, without the optional space, with blanks behind it, or
      a field or comment that carries no data. */
  datatype Line = Data(text: string) | Tight(text: string) | Padded(text: string, pad: string) | Other(text: string)

  predicate HasData(line: Line) { !line.Other? }

  predicate NoTrailingSpace(text: string) {
    text == "" || !IsWhitespace(text[|text| - 1])
  }

  ghost predicate IsOther(text: string) {
    && NoTrailingSpace(text) && !IsBlank(text) && '\n' !in text
    && (text[0] == ':' || !(DATA <= text))
  }

  ghost predicate WellFormed(line: Line) {
    match line
    case Data(text) => NoTrailingSpace(text) && '\n' !in text
    case Tight(text) => NoTrailingSpace(text) && '\n' !in text && (text == "" || text[0] != ' ')
    case Padded(text, pad) =>
      && NoTrailingSpace(text) && '\n' !in text
      && IsBlank(pad) && '\n' !in pad && (pad == "" || pad[|pad| - 1] != '\r')
    case Other(text) => IsOther(text)
  }

  function LineText(line: Line): string {
    match line
    case Data(text) => DATA + " " + text
    case Tight(text) => DATA + text
    case Padded(text, pad) => DATA + " " + text + pad
    case Other(text) => text
  }

  function Payload(lines: seq<Line>): seq<string> {
    if lines == [] then [] else (if HasData(lines[0]) then [lines[0].text] else []) + Payload(lines[1..])
  }

  function EncodeLines(enc: string -> seq<byte>, lines: seq<Line>): seq<byte> {
    if lines == [] then [] else enc(LineText(lines[0])) + [LF] + EncodeLines(enc, lines[1..])
  }

  /** One event: its lines and the blank line that dispatches it. */
  function EncodeEvent(enc: string -> seq<byte>, lines: seq<Line>): seq<byte> {
    EncodeLines(enc, lines) + [LF]
  }

  lemma LineHandled(codec: Codec, enc: string -> seq<byte>, dataLines: seq<string>, line: Line)
    requires Encodes(codec, enc) && WellFormed(line)
    ensures LF !in enc(LineText(line))
    ensures HandleLine(codec, dataLines, enc(LineText(line)))
         == LineResult([], dataLines + if HasData(line) then [line.text] else [])
  {
    var text := LineText(line);
    assert '\n' !in text;
    assert text != "" && text[|text| - 1] != '\r';
    assert StripCr(enc(text)) == enc(text);
    TextHandled(codec, dataLines, line);
  }

  lemma TextHandled(codec: Codec, dataLines: seq<string>, line: Line)
    requires WellFormed(line)
    ensures HandleText(codec, dataLines, LineText(line))
         == LineResult([], dataLines + if HasData(line) then [line.text] else [])
  {
    var text := LineText(line);
    match line {
      case Data(payload) =>
        DataHandled(codec, dataLines, payload, "");
        assert DATA + " " + payload + "" == text;
      case Padded(payload, pad) =>
        DataHandled(codec, dataLines, payload, pad);
      case Tight(payload) =>
        assert text[0] == 'd' && !IsBlank(text);
        DataOnlyTrimmed();
        assert payload != "" ==> text[|text| - 1] == payload[|payload| - 1];
        assert TrimEnd(text) == text;
        assert text[|DATA|..] == payload;
      case Other(_) =>
        assert TrimEnd(text) == text;
        assert dataLines + [] == dataLines;
    }
  }

  lemma DataHandled(codec: Codec, dataLines: seq<string>, payload: string, pad: string)
    requires NoTrailingSpace(payload) && IsBlank(pad)
    ensures HandleText(codec, dataLines, DATA + " " + payload + pad) == LineResult([], dataLines + [payload])
  {
    var plain := DATA + " " + payload;
    var text := plain + pad;
    assert text[0] == 'd' && !IsBlank(text);
    TrimPad(plain, pad);
    if payload == "" {
      DataOnlyTrimmed();
      assert plain == "data: " && DATA[|DATA|..] == "";
    } else {
      assert plain[|plain| - 1] == payload[|payload| - 1];
      assert TrimEnd(plain) == plain;
      assert plain[|DATA|..] == " " + payload;
    }
  }

  lemma {:induction false} TrimPad(text: string, pad: string)
    requires IsBlank(pad)
    ensures TrimEnd(text + pad) == TrimEnd(text)
    decreases |pad|
  {
    if pad == "" {
      assert text + pad == text;
    } else {
      assert (text + pad)[..|text + pad| - 1] == text + pad[..|pad| - 1];
      TrimPad(text, pad[..|pad| - 1]);
    }
  }

  lemma DataOnlyTrimmed()
    ensures TrimEnd("data: ") == DATA && TrimEnd(DATA) == DATA
  {
    var text := "data: ";
    assert text[..|text| - 1] == DATA;
    assert TrimEnd(DATA) == DATA;
  }

  /** Reading one line in front of `rest` only adds its payload, if it has one. */
  lemma FirstLine(codec: Codec, enc: string -> seq<byte>, dataLines: seq<string>, line: Line, rest: seq<byte>)
    requires Encodes(codec, enc) && WellFormed(line)
    ensures Run(codec, ParserState([], dataLines), enc(LineText(line)) + [LF] + rest)
         == Run(codec, ParserState([], dataLines + if HasData(line) then [line.text] else []), rest)
  {
    hide Run, HandleLine, Encodes, WellFormed, LineText;
    LineHandled(codec, enc, dataLines, line);
    RunLine(codec, dataLines, enc(LineText(line)));
    RunAppend(codec, ParserState([], dataLines), enc(LineText(line)) + [LF], rest);
    var after := Run(codec, ParserState([], dataLines + if HasData(line) then [line.text] else []), rest);
    assert [] + after.events == after.events;
  }

  /** A line may end in CR LF as well as in LF. */
  lemma CrLfIsLf(codec: Codec, dataLines: seq<string>, line: seq<byte>, rest: seq<byte>)
    requires LF !in line && (line == [] || line[|line| - 1] != CR)
    ensures Run(codec, ParserState([], dataLines), line + [CR, LF] + rest)
         == Run(codec, ParserState([], dataLines), line + [LF] + rest)
  {
    hide Run;
    var long := line + [CR];
    RunLine(codec, dataLines, line);
    RunLine(codec, dataLines, long);
    assert long[..|long| - 1] == line;
    RunAppend(codec, ParserState([], dataLines), line + [LF], rest);
    RunAppend(codec, ParserState([], dataLines), long + [LF], rest);
    assert line + [CR, LF] + rest == long + [LF] + rest;
  }

  lemma EncodeUnfolds(enc: string -> seq<byte>, lines: seq<Line>)
    ensures lines == [] ==> EncodeLines(enc, lines) == [] && Payload(lines) == []
    ensures lines != [] ==>
      && EncodeLines(enc, lines) == enc(LineText(lines[0])) + [LF] + EncodeLines(enc, lines[1..])
      && Payload(lines) == (if HasData(lines[0]) then [lines[0].text] else []) + Payload(lines[1..])
  {
  }

  lemma {:induction false} LinesHandled(
      codec: Codec, enc: string -> seq<byte>, dataLines: seq<string>, lines: seq<Line>)
    requires Encodes(codec, enc) && forall i :: 0 <= i < |lines| ==> WellFormed(lines[i])
    ensures Run(codec, ParserState([], dataLines), EncodeLines(enc, lines))
         == Output([], ParserState([], dataLines + Payload(lines)))
    decreases |lines|
  {
    hide Run, HandleLine, Encodes, WellFormed, LineText, EncodeLines, Payload;
    EncodeUnfolds(enc, lines);
    if lines == [] {
      RunNothing(codec, ParserState([], dataLines));
      assert dataLines + [] == dataLines;
    } else {
      var more := dataLines + if HasData(lines[0]) then [lines[0].text] else [];
      FirstLine(codec, enc, dataLines, lines[0], EncodeLines(enc, lines[1..]));
      LinesHandled(codec, enc, more, lines[1..]);
      assert more + Payload(lines[1..]) == dataLines + Payload(lines);
    }
  }

  lemma RunNothing(codec: Codec, st: ParserState)
    ensures Run(codec, st, []) == Output([], st)
  {
  }

  /** Round trip: one event comes back as its payload, whatever other lines surround it. */
  lemma EventRoundTrip(codec: Codec, enc: string -> seq<byte>, lines: seq<Line>)
    requires Encodes(codec, enc)
    requires Payload(lines) != [] && forall i :: 0 <= i < |lines| ==> WellFormed(lines[i])
    ensures Run(codec, ParserState([], []), EncodeEvent(enc, lines))
         == Output([Dispatch(codec, Join(Payload(lines)))], ParserState([], []))
  {
    LinesHandled(codec, enc, [], lines);
    assert [] + Payload(lines) == Payload(lines);
    RunAppend(codec, ParserState([], []), EncodeLines(enc, lines), [LF]);
    RunLine(codec, Payload(lines), []);
    assert [] + [LF] == [LF];
  }

  function EncodeAll(enc: string -> seq<byte>, events: seq<seq<Line>>): seq<byte> {
    if events == [] then [] else EncodeEvent(enc, events[0]) + EncodeAll(enc, events[1..])
  }

  function DispatchAll(codec: Codec, events: seq<seq<Line>>): seq<SseEvent> {
    if events == [] then [] else [Dispatch(codec, Join(Payload(events[0])))] + DispatchAll(codec, events[1..])
  }

  /** Consecutive payloads come back in order, once each. */
  lemma {:induction false} StreamRoundTrip(codec: Codec, enc: string -> seq<byte>, events: seq<seq<Line>>)
    requires Encodes(codec, enc)
    requires forall k :: 0 <= k < |events| ==> Payload(events[k]) != []
    requires forall k, i :: 0 <= k < |events| && 0 <= i < |events[k]| ==> WellFormed(events[k][i])
    ensures Run(codec, ParserState([], []), EncodeAll(enc, events))
         == Output(DispatchAll(codec, events), ParserState([], []))
    decreases |events|
  {
    if events != [] {
      EventRoundTrip(codec, enc, events[0]);
      RunAppend(codec, ParserState([], []), EncodeEvent(enc, events[0]), EncodeAll(enc, events[1..]));
      StreamRoundTrip(codec, enc, events[1..]);
    }
  }

  // ---------- what an event is

  /** The pieces of a text between its line ends. */
  function SplitLines(text: string): seq<string> {
    if text == "" then [""]
    else
      var rest := SplitLines(text[1..]);
      if text[0] == '\n' then [""] + rest else [[text[0]] + rest[0]] + rest[1..]
  }

  lemma {:induction false} SplitSome(text: string)
    ensures SplitLines(text) != []
    ensures '\n' !in text ==> SplitLines(text) == [text]
  {
    if text != "" {
      SplitSome(text[1..]);
      assert text == [text[0]] + text[1..];
    }
  }

  lemma {:induction false} SplitAfterLine(line: string, rest: string)
    requires '\n' !in line
    ensures SplitLines(line + "\n" + rest) == [line] + SplitLines(rest)
  {
    var text := line + "\n" + rest;
    if line == "" {
      assert text[0] == '\n' && text[1..] == rest;
    } else {
      assert text[0] == line[0] && text[1..] == line[1..] + "\n" + rest;
      SplitAfterLine(line[1..], rest);
      assert [line[0]] + line[1..] == line;
      assert ([line[1..]] + SplitLines(rest))[1..] == SplitLines(rest);
    }
  }

  /** Joining the lines of a payload loses nothing: they can be told apart again. */
  lemma {:induction false} JoinedLines(lines: seq<string>)
    requires lines != [] && forall i :: 0 <= i < |lines| ==> '\n' !in lines[i]
    ensures SplitLines(Join(lines)) == lines
  {
    if |lines| == 1 {
      SplitSome(lines[0]);
    } else {
      JoinedLines(lines[1..]);
      SplitAfterLine(lines[0], Join(lines[1..]));
      assert lines == [lines[0]] + lines[1..];
    }
  }

  lemma {:induction false} PayloadLines(lines: seq<Line>)
    requires forall i :: 0 <= i < |lines| ==> WellFormed(lines[i])
    ensures forall i :: 0 <= i < |Payload(lines)| ==> '\n' !in Payload(lines)[i]
  {
    if lines != [] { PayloadLines(lines[1..]); }
  }

  /** One encoded event is the end marker, a JSON value or raw text, of a payload whose lines are
      those that were sent. */
  lemma EventIs(codec: Codec, enc: string -> seq<byte>, lines: seq<Line>) returns (payload: string)
    requires Encodes(codec, enc)
    requires Payload(lines) != [] && forall i :: 0 <= i < |lines| ==> WellFormed(lines[i])
    ensures SplitLines(payload) == Payload(lines)
    ensures var out := Run(codec, ParserState([], []), EncodeEvent(enc, lines));
      && |out.events| == 1 && out.state == ParserState([], [])
      && (payload == "[DONE]" <==> out.events[0] == Done)
      && (payload != "[DONE]" && codec.parse(payload).Some? ==> out.events[0] == Parsed(codec.parse(payload).value))
      && (payload != "[DONE]" && codec.parse(payload).None? ==> out.events[0] == Raw(payload))
  {
    hide Run, Join, SplitLines, Encodes, WellFormed, EncodeEvent, Payload;
    EventRoundTrip(codec, enc, lines);
    PayloadLines(lines);
    JoinedLines(Payload(lines));
    payload := Join(Payload(lines));
  }
}
