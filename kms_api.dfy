/** `KmsApiService` of `src/services/kmsApi.ts`: the streaming query's read loop and line
    handler, the abort-controller lifecycle and request construction. The network is
    a `Reply` value, `JSON.parse` the parameter `parse`, and a concurrent `stopStream`
    the `Cancel` value saying at which await it happens. */
module KmsApi {
  import opened Wrappers
  import opened Text
  import opened Records
  import opened PayloadDecoder

  /** The request body (`KmsRequest`). */
  datatype KmsRequest = KmsRequest(message: string, username: string, history: seq<Json>, stream: bool)

  /** The failures `onError` reports. */
  datatype StreamError =
    | HttpStatus(status: int)        // "HTTP error! status: <status>"
    | NullBody                       // "Response body is null"
    | NetworkError(message: string)  // a rejected fetch or read, other than an abort

  /** The callback invocations of one `streamQuery`, in order. */
  datatype Event = OnMessage(record: Record) | OnComplete | OnError(error: StreamError)

  /** The body stream: the decoded text chunks `reader.read()` yields, then either the end
      of the stream (`failure == None`) or a read that rejects with a network error. */
  datatype Body = Body(chunks: seq<string>, failure: Option<string>)

  /** What `fetch` does: reject with a network error, or resolve with a status and a body. */
  datatype Reply = FetchFailed(message: string) | Response(status: int, body: Option<Body>)

  /** When a concurrent `stopStream()` happens: never, while `fetch` is pending, or while
      the read after `chunks` delivered chunks is pending. */
  datatype Cancel = Never | DuringFetch | DuringRead(chunks: nat)

  /** `response.ok`: a status in the range 200-299. */
  predicate IsOk(status: int) {
    200 <= status <= 299
  }

  const DataPrefix: string := "data: "
  const DoneSentinel: string := "[DONE]"

  /** The payload of an event line: the trimmed line minus its `data: ` prefix, when
      the trimmed line has that prefix. */
  function LinePayload(line: string): (p: Option<string>)
    ensures p.Some? <==> StartsWith(Trim(line), DataPrefix)
    ensures p.Some? ==> Trim(line) == DataPrefix + p.value
  {
    var t := Trim(line);
    // the early `continue` for a blank line; the prefix test would reject it as well
    if t == "" then None
    else if StartsWith(t, DataPrefix) then
      assert t == t[..6] + t[6..];
      Some(t[6..])
    else None
  }

  /** What one line does to the stream. */
  datatype LineOutcome = Skip | Emit(record: Record) | Stop

  /** One line: blank and non-`data: ` lines do nothing; the sentinel stops the stream;
      any other payload goes through the decode chain and the last-resort wrapping. */
  function LineStep(line: string, parse: string -> Option<Record>): (o: LineOutcome)
    ensures LinePayload(line).None? ==> o == Skip
    ensures o == Stop <==> LinePayload(line) == Some(DoneSentinel)
    ensures o.Emit? <==> LinePayload(line).Some? && LinePayload(line) != Some(DoneSentinel)
                         && HandlePayload(LinePayload(line).value, parse).Some?
    ensures o.Emit? ==> Some(o.record) == HandlePayload(LinePayload(line).value, parse)
  {
    match LinePayload(line)
    case None => Skip
    case Some(payload) =>
      if payload == DoneSentinel then Stop
      else
        match HandlePayload(payload, parse)
        case Some(record) => Emit(record)
        case None => Skip
  }

  /** `LineStep` with the parser fixed: what the loop does with each line. */
  function LineHandler(parse: string -> Option<Record>): string -> LineOutcome {
    line => LineStep(line, parse)
  }

  /** Only messages, followed by one completion exactly when the sentinel was seen. */
  predicate MessagesThenStop(events: seq<Event>, stopped: bool) {
    if stopped then events != [] && events[|events| - 1] == OnComplete && AllMessages(events[..|events| - 1])
    else AllMessages(events)
  }

  predicate AllMessages(events: seq<Event>) {
    forall i :: 0 <= i < |events| ==> events[i].OnMessage?
  }

  /** The callbacks made so far, and whether the sentinel has stopped the stream. */
  datatype Run = Run(events: seq<Event>, stopped: bool)

  /** The events of a run of lines, and whether the sentinel stopped it; nothing after
      the sentinel is looked at. */
  function LinesEvents(lines: seq<string>, step: string -> LineOutcome): (r: Run)
    ensures MessagesThenStop(r.events, r.stopped)
    decreases |lines|
  {
    if lines == [] then Run([], false)
    else
      match step(lines[0])
      case Stop => Run([OnComplete], true)
      case Skip => LinesEvents(lines[1..], step)
      case Emit(record) =>
        var rest := LinesEvents(lines[1..], step);
        var events := [OnMessage(record)] + rest.events;
        assert rest.stopped ==> events[..|events| - 1] == [OnMessage(record)] + rest.events[..|rest.events| - 1];
        Run(events, rest.stopped)
  }

  /** The events of the chunks read so far, each split on `\n` on its own (no text is
      carried over from one chunk to the next), and whether the sentinel stopped the stream. */
  function ChunksEvents(chunks: seq<string>, step: string -> LineOutcome): (r: Run)
    ensures MessagesThenStop(r.events, r.stopped)
    decreases |chunks|
  {
    if chunks == [] then Run([], false)
    else
      var head := LinesEvents(Split(chunks[0], '\n'), step);
      if head.stopped then head
      else
        var tail := ChunksEvents(chunks[1..], step);
        var events := head.events + tail.events;
        AllMessagesAppend(head.events, if tail.stopped then tail.events[..|tail.events| - 1] else tail.events);
        assert tail.stopped ==> events[..|events| - 1] == head.events + tail.events[..|tail.events| - 1];
        Run(events, tail.stopped)
  }

  lemma AllMessagesAppend(a: seq<Event>, b: seq<Event>)
    requires AllMessages(a) && AllMessages(b)
    ensures AllMessages(a + b)
  {
  }

  /** The number of chunks read before the stream ends or is aborted. */
  function Delivered(body: Body, cancel: Cancel): nat {
    if cancel.DuringRead? && cancel.chunks <= |body.chunks| then cancel.chunks else |body.chunks|
  }

  /** The callbacks one `streamQuery` makes, in order. */
  function StreamEvents(reply: Reply, cancel: Cancel, step: string -> LineOutcome): seq<Event> {
    if cancel == DuringFetch then []
    else
      match reply
      case FetchFailed(message) => [OnError(NetworkError(message))]
      case Response(status, body) =>
        if !IsOk(status) then [OnError(HttpStatus(status))]
        else if body.None? then [OnError(NullBody)]
        else
          var n := Delivered(body.value, cancel);
          var run := ChunksEvents(body.value.chunks[..n], step);
          var events := run.events;
          if run.stopped then events
          else if cancel.DuringRead? && cancel.chunks <= |body.value.chunks| then events
          else if body.value.failure.Some? then events + [OnError(NetworkError(body.value.failure.value))]
          else events + [OnComplete]
  }

  lemma {:induction false} LinesEventsSnoc(lines: seq<string>, line: string, step: string -> LineOutcome)
    requires !LinesEvents(lines, step).stopped
    ensures LinesEvents(lines + [line], step) ==
      match step(line)
      case Skip => LinesEvents(lines, step)
      case Emit(record) => Run(LinesEvents(lines, step).events + [OnMessage(record)], false)
      case Stop => Run(LinesEvents(lines, step).events + [OnComplete], true)
    decreases |lines|
  {
    if lines != [] {
      assert (lines + [line])[1..] == lines[1..] + [line];
      if step(lines[0]) != Stop {
        LinesEventsSnoc(lines[1..], line, step);
      }
    }
  }

  /** Once the sentinel is seen, later lines change nothing. */
  lemma {:induction false} LinesEventsStopped(lines: seq<string>, more: seq<string>, step: string -> LineOutcome)
    requires LinesEvents(lines, step).stopped
    ensures LinesEvents(lines + more, step) == LinesEvents(lines, step)
    decreases |lines|
  {
    assert lines != [];
    assert (lines + more)[1..] == lines[1..] + more;
    if step(lines[0]) != Stop {
      LinesEventsStopped(lines[1..], more, step);
    }
  }

  lemma {:induction false} ChunksEventsSnoc(chunks: seq<string>, chunk: string, step: string -> LineOutcome)
    requires !ChunksEvents(chunks, step).stopped
    ensures ChunksEvents(chunks + [chunk], step) ==
      var last := LinesEvents(Split(chunk, '\n'), step);
      Run(ChunksEvents(chunks, step).events + last.events, last.stopped)
    decreases |chunks|
  {
    if chunks == [] {
      assert [chunk][1..] == [];
    } else {
      assert (chunks + [chunk])[1..] == chunks[1..] + [chunk];
      ChunksEventsSnoc(chunks[1..], chunk, step);
    }
  }

  /** Once the sentinel is seen, later chunks change nothing: no later line is processed. */
  lemma {:induction false} ChunksEventsStopped(chunks: seq<string>, more: seq<string>, step: string -> LineOutcome)
    requires ChunksEvents(chunks, step).stopped
    ensures ChunksEvents(chunks + more, step) == ChunksEvents(chunks, step)
    decreases |chunks|
  {
    assert chunks != [];
    assert (chunks + more)[1..] == chunks[1..] + more;
    if !LinesEvents(Split(chunks[0], '\n'), step).stopped {
      ChunksEventsStopped(chunks[1..], more, step);
    }
  }

  /** The inner `for` loop over the lines of one chunk: the events its lines produce, up
      to and including the completion the sentinel triggers, and whether it stopped. */
  method HandleChunk(chunk: string, step: string -> LineOutcome) returns (events: seq<Event>, stopped: bool)
    ensures Run(events, stopped) == LinesEvents(Split(chunk, '\n'), step)
  {
    var lines := Split(chunk, '\n');
    events := [];
    for i := 0 to |lines|
      invariant LinesEvents(lines[..i], step) == Run(events, false)
    {
      LinesEventsNext(lines, i, step);
      match step(lines[i])
      case Skip =>
      case Emit(record) =>
        events := events + [OnMessage(record)];
      case Stop =>
        events := events + [OnComplete];
        LinesEventsStopped(lines[..i + 1], lines[i + 1..], step);
        assert lines[..i + 1] + lines[i + 1..] == lines;
        return events, true;
    }
    assert lines[..|lines|] == lines;
    return events, false;
  }

  /** The abort controller of one call; `abort()` marks its signal aborted. */
  class Controller {
    var aborted: bool

    constructor ()
      ensures !aborted
    {
      aborted := false;
    }

    method Abort()
      modifies this
      ensures aborted
    {
      aborted := true;
    }
  }

  class KmsApiService {
    /** The controller of the call in progress, `null` between calls. */
    var abortController: Controller?

    constructor ()
      ensures abortController == null
    {
      abortController := null;
    }

    /** Aborts the call in progress, if any, and forgets its controller; a second call does nothing. */
    method StopStream()
      modifies this, abortController
      ensures abortController == null
      ensures old(abortController) != null ==> old(abortController).aborted
      ensures old(abortController) == null ==> unchanged(this)
    {
      if abortController != null {
        abortController.Abort();
        abortController := null;
      }
    }

    /** `createRequest`: the message, the user (`admin` unless given), no history, streaming on. */
    function CreateRequest(message: string, username: string := "admin"): (r: KmsRequest)
      ensures r.message == message && r.username == username
      ensures r.history == [] && r.stream
    {
      KmsRequest(message, username, [], true)
    }

    /** `streamQuery`: installs a fresh controller, makes the callbacks `StreamEvents`
        describes, in that order, and clears the controller when it returns. */
    method StreamQuery(reply: Reply, cancel: Cancel, parse: string -> Option<Record>) returns (log: seq<Event>)
      modifies this
      ensures abortController == null
      ensures log == StreamEvents(reply, cancel, LineHandler(parse))
    {
      var controller := new Controller();
      abortController := controller;
      log := [];
      if cancel == DuringFetch {
        StopStream();
      }
      if controller.aborted {
        // fetch rejects with an AbortError: no callback
        abortController := null;
        return;
      }
      if reply.FetchFailed? {
        log := [OnError(NetworkError(reply.message))];
        abortController := null;
        return;
      }
      if !IsOk(reply.status) {
        log := [OnError(HttpStatus(reply.status))];
        abortController := null;
        return;
      }
      if reply.body.None? {
        log := [OnError(NullBody)];
        abortController := null;
        return;
      }
      log := ReadBody(reply, controller, cancel, LineHandler(parse));
    }

    /** The `while (true)` read loop of `streamQuery`, from the first `reader.read()` on:
        the callbacks it makes, ending with the controller cleared. */
    method ReadBody(reply: Reply, controller: Controller, cancel: Cancel, step: string -> LineOutcome) returns (log: seq<Event>)
      requires Reading(reply, cancel)
      requires abortController == controller && !controller.aborted
      modifies this, controller
      ensures abortController == null
      ensures log == StreamEvents(reply, cancel, step)
    {
      var body := reply.body.value;
      log := [];
      var k := 0;
      while true
        invariant 0 <= k <= |body.chunks|
        invariant abortController == controller && !controller.aborted
        invariant !(cancel.DuringRead? && cancel.chunks < k)
        invariant ChunksEvents(body.chunks[..k], step) == Run(log, false)
        decreases |body.chunks| - k
      {
        if cancel == DuringRead(k) {
          StopStream();
        }
        if controller.aborted {
          // the pending read rejects with an AbortError: no callback
          abortController := null;
          StreamAbortedAt(reply, cancel, step, k);
          return;
        }
        if k == |body.chunks| {
          assert body.chunks[..k] == body.chunks;
          StreamEndedAt(reply, cancel, step);
          if body.failure.Some? {
            log := log + [OnError(NetworkError(body.failure.value))];
          } else {
            log := log + [OnComplete];
          }
          abortController := null;
          return;
        }
        var events, stopped := HandleChunk(body.chunks[k], step);
        ChunksEventsNext(body.chunks, k, step);
        log := log + events;
        if stopped {
          abortController := null;
          StreamStoppedAt(reply, cancel, step, k);
          return;
        }
        k := k + 1;
      }
    }
  }

  /** The loop's step over lines: line `i` extends the events of the lines before it. */
  lemma LinesEventsNext(lines: seq<string>, i: nat, step: string -> LineOutcome)
    requires i < |lines| && !LinesEvents(lines[..i], step).stopped
    ensures LinesEvents(lines[..i + 1], step) ==
      match step(lines[i])
      case Skip => LinesEvents(lines[..i], step)
      case Emit(record) => Run(LinesEvents(lines[..i], step).events + [OnMessage(record)], false)
      case Stop => Run(LinesEvents(lines[..i], step).events + [OnComplete], true)
  {
    LinesEventsSnoc(lines[..i], lines[i], step);
    assert lines[..i + 1] == lines[..i] + [lines[i]];
  }

  /** The loop's step over chunks: chunk `k` extends the events of the chunks before it. */
  lemma ChunksEventsNext(chunks: seq<string>, k: nat, step: string -> LineOutcome)
    requires k < |chunks| && !ChunksEvents(chunks[..k], step).stopped
    ensures var last := LinesEvents(Split(chunks[k], '\n'), step);
      ChunksEvents(chunks[..k + 1], step) == Run(ChunksEvents(chunks[..k], step).events + last.events, last.stopped)
  {
    ChunksEventsSnoc(chunks[..k], chunks[k], step);
    assert chunks[..k + 1] == chunks[..k] + [chunks[k]];
  }

  /** The body stream of a reply that gets as far as reading. */
  predicate Reading(reply: Reply, cancel: Cancel) {
    cancel != DuringFetch && reply.Response? && IsOk(reply.status) && reply.body.Some?
  }

  /** The sentinel in chunk `k` ends the stream with the events so far. */
  lemma StreamStoppedAt(reply: Reply, cancel: Cancel, step: string -> LineOutcome, k: nat)
    requires Reading(reply, cancel)
    requires var body := reply.body.value;
      k < |body.chunks| && !(cancel.DuringRead? && cancel.chunks <= k)
      && ChunksEvents(body.chunks[..k + 1], step).stopped
    ensures StreamEvents(reply, cancel, step) == ChunksEvents(reply.body.value.chunks[..k + 1], step).events
  {
    var body := reply.body.value;
    var n := Delivered(body, cancel);
    ChunksEventsStopped(body.chunks[..k + 1], body.chunks[k + 1..n], step);
    assert body.chunks[..k + 1] + body.chunks[k + 1..n] == body.chunks[..n];
  }

  /** An abort during the read after `k` chunks ends the stream with the events so far. */
  lemma StreamAbortedAt(reply: Reply, cancel: Cancel, step: string -> LineOutcome, k: nat)
    requires Reading(reply, cancel)
    requires k <= |reply.body.value.chunks| && cancel == DuringRead(k)
    requires !ChunksEvents(reply.body.value.chunks[..k], step).stopped
    ensures StreamEvents(reply, cancel, step) == ChunksEvents(reply.body.value.chunks[..k], step).events
  {
  }

  /** Reading to the end without the sentinel adds one final completion or error. */
  lemma StreamEndedAt(reply: Reply, cancel: Cancel, step: string -> LineOutcome)
    requires Reading(reply, cancel)
    requires !(cancel.DuringRead? && cancel.chunks <= |reply.body.value.chunks|)
    requires !ChunksEvents(reply.body.value.chunks, step).stopped
    ensures var body := reply.body.value;
      StreamEvents(reply, cancel, step) == ChunksEvents(body.chunks, step).events
        + [if body.failure.Some? then OnError(NetworkError(body.failure.value)) else OnComplete]
  {
    assert reply.body.value.chunks[..|reply.body.value.chunks|] == reply.body.value.chunks;
  }

  /** The number of terminal callbacks (`onComplete` or `onError`) in `events`. */
  function Terminals(events: seq<Event>): nat
    decreases |events|
  {
    if events == [] then 0
    else (if events[0].OnMessage? then 0 else 1) + Terminals(events[1..])
  }

  lemma {:induction false} TerminalsOfMessages(events: seq<Event>)
    requires AllMessages(events)
    ensures Terminals(events) == 0
    decreases |events|
  {
    if events != [] {
      TerminalsOfMessages(events[1..]);
    }
  }

  lemma {:induction false} TerminalsAppend(a: seq<Event>, b: seq<Event>)
    ensures Terminals(a + b) == Terminals(a) + Terminals(b)
    decreases |a|
  {
    if a == [] {
      assert a + b == b;
    } else {
      assert (a + b)[0] == a[0] && (a + b)[1..] == a[1..] + b;
      TerminalsAppend(a[1..], b);
    }
  }

  /** Messages, then at most one terminal callback, which is the last. */
  lemma MessagesThenTerminal(events: seq<Event>, last: seq<Event>)
    requires AllMessages(events) && |last| <= 1
    ensures Terminals(events + last) == Terminals(last)
    ensures forall i :: 0 <= i < |events| ==> (events + last)[i].OnMessage?
  {
    TerminalsAppend(events, last);
    TerminalsOfMessages(events);
  }

  /** Every stream makes at most one terminal callback, and nothing follows it: all
      callbacks before the last are `onMessage`. */
  lemma StreamTerminatesOnce(reply: Reply, cancel: Cancel, step: string -> LineOutcome)
    ensures var events := StreamEvents(reply, cancel, step);
      Terminals(events) <= 1 && forall i :: 0 <= i < |events| - 1 ==> events[i].OnMessage?
  {
    var events := StreamEvents(reply, cancel, step);
    if Reading(reply, cancel) {
      var body := reply.body.value;
      var run := ChunksEvents(body.chunks[..Delivered(body, cancel)], step);
      if run.stopped {
        MessagesThenTerminal(run.events[..|run.events| - 1], [OnComplete]);
        assert run.events[..|run.events| - 1] + [OnComplete] == run.events;
      } else if cancel.DuringRead? && cancel.chunks <= |body.chunks| {
        MessagesThenTerminal(run.events, []);
        assert run.events + [] == run.events;
      } else {
        MessagesThenTerminal(run.events, [events[|events| - 1]]);
        assert events == run.events + [events[|events| - 1]];
      }
    }
  }

  /** A failed fetch, a status outside 200-299 or a missing body produce exactly one
      `onError` and nothing else; an abort during `fetch` produces no callback at all. */
  lemma StreamFailsBeforeReading(reply: Reply, cancel: Cancel, step: string -> LineOutcome)
    requires !Reading(reply, cancel)
    ensures cancel == DuringFetch ==> StreamEvents(reply, cancel, step) == []
    ensures cancel != DuringFetch ==> |StreamEvents(reply, cancel, step)| == 1 && StreamEvents(reply, cancel, step)[0].OnError?
    ensures cancel != DuringFetch && reply.Response? && !IsOk(reply.status) ==>
      StreamEvents(reply, cancel, step) == [OnError(HttpStatus(reply.status))]
    ensures cancel != DuringFetch && reply.Response? && IsOk(reply.status) ==>
      StreamEvents(reply, cancel, step) == [OnError(NullBody)]
  {
  }

  /** Without the sentinel, a stream that reads to its end makes one `onComplete`, after
      every `onMessage`; one whose last read fails makes one `onError` instead. */
  lemma StreamEndsNaturally(reply: Reply, cancel: Cancel, step: string -> LineOutcome)
    requires Reading(reply, cancel)
    requires !(cancel.DuringRead? && cancel.chunks <= |reply.body.value.chunks|)
    requires !ChunksEvents(reply.body.value.chunks, step).stopped
    ensures var events := StreamEvents(reply, cancel, step);
      events != [] && AllMessages(events[..|events| - 1])
      && events[|events| - 1] == (if reply.body.value.failure.Some? then OnError(NetworkError(reply.body.value.failure.value)) else OnComplete)
  {
    StreamEndedAt(reply, cancel, step);
    var events := StreamEvents(reply, cancel, step);
    assert events[..|events| - 1] == ChunksEvents(reply.body.value.chunks, step).events;
  }

  /** The sentinel ends the stream with `onComplete`, whatever the transport would have done next. */
  lemma StreamEndsAtSentinel(reply: Reply, cancel: Cancel, step: string -> LineOutcome)
    requires Reading(reply, cancel)
    requires ChunksEvents(reply.body.value.chunks[..Delivered(reply.body.value, cancel)], step).stopped
    ensures var events := StreamEvents(reply, cancel, step);
      events != [] && AllMessages(events[..|events| - 1]) && events[|events| - 1] == OnComplete
  {
  }

  /** An abort while a read is pending silences the stream: unless the sentinel came first,
      there is neither `onComplete` nor `onError`. */
  lemma StreamAbortIsSilent(reply: Reply, cancel: Cancel, step: string -> LineOutcome)
    requires Reading(reply, cancel)
    requires cancel.DuringRead? && cancel.chunks <= |reply.body.value.chunks|
    requires !ChunksEvents(reply.body.value.chunks[..cancel.chunks], step).stopped
    ensures AllMessages(StreamEvents(reply, cancel, step))
  {
  }

  /** A chat event line, `data: ` + `ChatPayload`, and the two halves it falls into when
      cut after `typ`: the head payload and the tail line. */
  const ChatPayload: string := "{\"type\":\"chat\",\"content\":\"hi\"}"
  const HeadPayload: string := "{\"typ"
  const TailLine: string := "e\":\"chat\",\"content\":\"hi\"}"

  /** A `data: ` line whose payload has no surrounding white space reads that payload. */
  lemma DataLinePayload(payload: string)
    requires payload != [] && !IsWhitespace(payload[|payload| - 1])
    ensures LinePayload(DataPrefix + payload) == Some(payload)
  {
    var line := DataPrefix + payload;
    assert line[0] == 'd' && line[..6] == DataPrefix;
    assert line[|line| - 1] == payload[|payload| - 1];
    TrimmedIsFixed(line);
  }

  /** A decoded line followed by a blank one makes exactly that message. */
  lemma EmitThenBlank(line: string, step: string -> LineOutcome, rec: Record)
    requires step(line) == Emit(rec) && step("") == Skip
    ensures LinesEvents([line, ""], step) == Run([OnMessage(rec)], false)
  {
    assert [line, ""][1..] == [""];
    assert LinesEvents([""], step) == Run([], false);
  }

  /** The whole line, newline-terminated, makes one message. */
  lemma CutLineDecodes(parse: string -> Option<Record>, rec: Record)
    requires parse(ChatPayload) == Some(rec)
    ensures LinesEvents(Split(DataPrefix + ChatPayload + "\n", '\n'), LineHandler(parse)) == Run([OnMessage(rec)], false)
  {
    var line := DataPrefix + ChatPayload;
    assert '\n' !in line;
    SplitTerminatedLine(line, '\n');
    DataLinePayload(ChatPayload);
    assert HandlePayload(ChatPayload, parse) == Some(rec);
    EmitThenBlank(line, LineHandler(parse), rec);
  }

  /** A line the handler skips makes nothing on its own. */
  lemma SkippedLine(line: string, step: string -> LineOutcome)
    requires step(line) == Skip
    ensures LinesEvents([line], step) == Run([], false)
  {
    assert [line][1..] == [];
  }

  /** The characters of the cut head line: no newline, no single quote. */
  lemma HeadLineChars()
    ensures '\n' !in DataPrefix + HeadPayload && '\'' !in HeadPayload
    ensures HeadPayload[|HeadPayload| - 1] == 'p' && HeadPayload != DoneSentinel
  {
  }

  /** The head is a five-character payload that no stage decodes and that is too short to
      be wrapped: it makes nothing. */
  lemma CutLineHeadSkips(parse: string -> Option<Record>)
    requires parse(HeadPayload) == None
    ensures LinesEvents(Split(DataPrefix + HeadPayload, '\n'), LineHandler(parse)) == Run([], false)
  {
    var line := DataPrefix + HeadPayload;
    HeadLineChars();
    SplitNoSeparator(line, '\n');
    DataLinePayload(HeadPayload);
    NoQuoteNoDictMarker(HeadPayload);
    ShortHasNoType(HeadPayload);
    assert HandlePayload(HeadPayload, parse) == None;
    SkippedLine(line, LineHandler(parse));
  }

  /** The tail lacks the `data: ` prefix: it makes nothing. */
  lemma CutLineTailSkips(parse: string -> Option<Record>)
    ensures LinesEvents(Split(TailLine + "\n", '\n'), LineHandler(parse)) == Run([], false)
  {
    assert '\n' !in TailLine;
    SplitTerminatedLine(TailLine, '\n');
    TrimmedIsFixed(TailLine);
    var step := LineHandler(parse);
    assert TailLine[0] != DataPrefix[0];
    assert step(TailLine) == Skip;
    assert step("") == Skip;
    assert LinesEvents([""], step) == Run([], false);
  }

  /** A clean stream of chunks without the sentinel ends with `onComplete`. */
  lemma CleanStream(chunks: seq<string>, step: string -> LineOutcome)
    requires !ChunksEvents(chunks, step).stopped
    ensures StreamEvents(Response(200, Some(Body(chunks, None))), Never, step)
      == ChunksEvents(chunks, step).events + [OnComplete]
  {
    StreamEndedAt(Response(200, Some(Body(chunks, None))), Never, step);
  }

  /** Chunks whose lines make no callback make none together. */
  lemma SilentChunks(c1: string, c2: string, step: string -> LineOutcome)
    requires LinesEvents(Split(c1, '\n'), step) == Run([], false)
    requires LinesEvents(Split(c2, '\n'), step) == Run([], false)
    ensures ChunksEvents([c1, c2], step) == Run([], false)
  {
    assert [c1, c2][1..] == [c2] && [c2][1..] == [];
    assert ChunksEvents([c2], step) == Run([], false);
  }

  /** The cut falls inside the payload, after `{"typ`. */
  lemma CutAfterTyp()
    ensures HeadPayload + TailLine == ChatPayload
  {
  }

  lemma Regroup(a: string, b: string, c: string, d: string)
    ensures (a + b) + (c + d) == a + (b + c) + d
  {
  }

  /** The same bytes delivered in one chunk or cut in two after `typ` give different
      callbacks: the record arrives only when the line is not cut. */
  lemma ChunkBoundaryLosesRecord(parse: string -> Option<Record>, rec: Record)
    requires parse(ChatPayload) == Some(rec) && parse(HeadPayload) == None
    ensures (DataPrefix + HeadPayload) + (TailLine + "\n") == DataPrefix + ChatPayload + "\n"
    ensures StreamEvents(Response(200, Some(Body([DataPrefix + ChatPayload + "\n"], None))), Never, LineHandler(parse))
      == [OnMessage(rec), OnComplete]
    ensures StreamEvents(Response(200, Some(Body([DataPrefix + HeadPayload, TailLine + "\n"], None))), Never, LineHandler(parse))
      == [OnComplete]
  {
    CutAfterTyp();
    Regroup(DataPrefix, HeadPayload, TailLine, "\n");
    CutLineDecodes(parse, rec);
    CutLineHeadSkips(parse);
    CutLineTailSkips(parse);
    OneMessageChunk(DataPrefix + ChatPayload + "\n", LineHandler(parse), rec);
    SilentChunksStream(DataPrefix + HeadPayload, TailLine + "\n", LineHandler(parse));
  }

  /** One chunk holding one message line makes that message, then `onComplete`. */
  lemma OneMessageChunk(whole: string, step: string -> LineOutcome, rec: Record)
    requires LinesEvents(Split(whole, '\n'), step) == Run([OnMessage(rec)], false)
    ensures StreamEvents(Response(200, Some(Body([whole], None))), Never, step) == [OnMessage(rec), OnComplete]
  {
    assert [whole][1..] == [];
    assert ChunksEvents([whole], step) == Run([OnMessage(rec)], false);
    CleanStream([whole], step);
  }

  /** Two chunks whose lines make nothing make only `onComplete`. */
  lemma SilentChunksStream(head: string, tail: string, step: string -> LineOutcome)
    requires LinesEvents(Split(head, '\n'), step) == Run([], false)
    requires LinesEvents(Split(tail, '\n'), step) == Run([], false)
    ensures StreamEvents(Response(200, Some(Body([head, tail], None))), Never, step) == [OnComplete]
  {
    SilentChunks(head, tail, step);
    CleanStream([head, tail], step);
  }
}
