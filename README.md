# KMS stream client: a Dafny model of the streaming decoder and the accumulator

This project models the part of the KMS chat client that turns a server-sent event stream
into an answer text and an evidence list:

- `KmsApiService.streamQuery` (`src/services/kmsApi.ts`). It reads the response body
  chunk by chunk and splits each chunk on `\n` on its own. It trims each line and keeps
  only `data: ` lines. The `[DONE]` sentinel stops it. Every other payload goes through
  four stages:
  1. strict `JSON.parse`;
  2. a textual Python-dict-to-JSON rewrite;
  3. a regex extraction of `type` and `content`;
  4. last-resort wrapping of payloads longer than ten UTF-16 code units
     (`dataStr.length`).

  The result is an ordered log of `onMessage`, `onComplete` and `onError` callbacks.
- The `abortController` field's lifecycle, `stopStream` and `createRequest`.
- The accumulator class `StreamParser` (`src/utils/streamParser.ts`):
  - `processMessage` appends chat fragments, or replaces the text with a full response;
  - it pushes evidence for info records and ignores every other type;
  - `reset` clears both fields;
  - `getCurrentData` and `processMessage` return snapshots;
  - `formatEvidence` renders one evidence item.

Modules:

- `Wrappers` holds `Option`.
- `Text` holds the JavaScript string operations the code relies on:
  - `trim`, with the ECMAScript white-space and line-terminator set;
  - `split` on one character, `includes` and `startsWith`;
  - the global single-character `replace` and the global literal `replace`.
- `Records` holds the JSON value and the decoded record.
- `PayloadDecoder` holds the decode chain. Its three regexes are specified as ghost
  predicates and implemented by position scans proved against them.
- `KmsApi` holds the line handler, the read loop and the service class.
- `StreamParsing` holds the accumulator.

The model's inputs:

- **Network.** The network is a `Reply` value. It is either a rejected `fetch`, or a
  status with an optional body. A body is the sequence of decoded text chunks followed
  by either the end of the stream or a failing read.
- **JSON parser.** `JSON.parse` is a parameter `parse: string -> Option<Record>`.
  `None` stands for a throw.
- **Cancellation.** A concurrent `stopStream()` is a `Cancel` value. It says at which
  await the call happens: never, during `fetch`, or during the read after `k` chunks.
  `StreamQuery` calls `StopStream` at that point. The pending await then observes the
  aborted controller and rejects with an `AbortError`.

`StreamQuery` and `ReadBody` are proved against `StreamEvents`, a function giving the
callback log of one call. The properties of the stream are lemmas about that function
and about `ChunksEvents` and `LinesEvents`, the logs of chunks and of lines.
`ProcessMessage` is proved against `Fold`, the pure step of the accumulator. Runs of
records are described by `FoldAll`.

## Model

| member | source | states |
|---|---|---|
| Text.Trim | src/services/kmsApi.ts:100 | the result is the input with a white-space prefix and a white-space suffix removed, and it neither starts nor ends with white space |
| Text.TrimIdempotent | src/services/kmsApi.ts:100 | trimming a trimmed line changes nothing |
| Text.Includes | src/services/kmsApi.ts:121 | true exactly when the pattern occurs at some position |
| Text.StartsWith | src/services/kmsApi.ts:104 | `startsWith`: the text begins with the prefix; no contract of its own, it is the definition `LinePayload`'s contract is stated in |
| Text.Split | src/services/kmsApi.ts:97 | at least one part, and no part contains the separator |
| Text.JoinSplit | src/services/kmsApi.ts:97 | joining the parts with the separator gives back the chunk: splitting loses no text |
| Text.SplitJoin | src/services/kmsApi.ts:97 | splitting separator-free parts joined by the separator gives back those parts |
| Text.SplitNoSeparator | src/services/kmsApi.ts:97 | a chunk without `\n` is a single line |
| Text.SplitTerminatedLine | src/services/kmsApi.ts:97 | a line followed by one `\n` splits into that line and an empty line |
| Text.ReplaceChar | src/services/kmsApi.ts:124 | every occurrence of the character is replaced and every other character stays in place |
| Text.ReplaceAll | src/services/kmsApi.ts:125-127 | a text in which the pattern never occurs is returned unchanged |
| Text.ReplaceAllFirst | src/services/kmsApi.ts:125-127 | the leftmost occurrence of the pattern becomes the replacement, the text before it is kept, and replacing goes on after it; with `ReplaceAll`'s own contract this fixes the result for every text |
| Text.Utf16Length | src/services/kmsApi.ts:159 | `.length` lies between the number of characters and twice that number |
| Text.Utf16LengthBasic | src/services/kmsApi.ts:159 | without astral characters `.length` is the number of characters |
| Text.Utf16LengthAstral | src/services/kmsApi.ts:159 | each astral character counts two code units |
| Text.ReplaceAllKeepsOut | src/services/kmsApi.ts:125-127 | a character absent from the text and from the replacement is absent from the result |
| Text.ReplaceAllRemoves | src/services/kmsApi.ts:125-127 | when the replacement cannot spell the pattern again, no occurrence of the pattern is left |
| Text.ReplaceAllPreserves | src/services/kmsApi.ts:125-127 | a later replacement that cannot spell an earlier pattern keeps that pattern absent |
| Text.AbsentCharNotIncluded | src/services/kmsApi.ts:121 | a marker holding a character that the payload lacks is not included in it |
| Records.RecordToJson | src/utils/streamParser.ts:40 | the pushed record object has exactly the record's present properties, with their values |
| Records.Truthy | src/utils/streamParser.ts:20-31 | JavaScript truthiness of a JSON value (`null`, `false`, `0` and `""` are falsy); a definition without a contract, used by `EvidenceItem` and `Fold` |
| Records.IsSet | src/utils/streamParser.ts:29 | `if (data.evidence)`: the property is present and truthy; a definition without a contract, used by `EvidenceItem` |
| Records.HasText | src/utils/streamParser.ts:20-31 | `if (data.content)` / `if (data.response)`: the string property is present and non-empty; a definition without a contract, used by `Fold` |
| PayloadDecoder.ValueStart | src/services/kmsApi.ts:132 | finds where a quoted value begins after `['"]key['"]:\s*['"]` at a position, exactly when that prefix matches there |
| PayloadDecoder.TypeAt | src/services/kmsApi.ts:132 | the type regex anchored at one position: any result is a match, and any match is the result |
| PayloadDecoder.FindType | src/services/kmsApi.ts:132 | finds a type exactly when the type regex matches somewhere; the type is a non-empty quote-free run and comes from the leftmost match |
| PayloadDecoder.LazyContentAt | src/services/kmsApi.ts:133 | the content regex `(.+?)['"]$` at one position: any result is a capture of a match there, and any match there captures the result (the text up to the closing quote that ends the payload) |
| PayloadDecoder.GreedyContentAt | src/services/kmsApi.ts:137 | the content regex `(.+)` at one position: any result is a capture of a match there, and any match there captures the result (the longest run without a line terminator) |
| PayloadDecoder.StripTrailingQuote | src/services/kmsApi.ts:140 | drops exactly one trailing quote, if present, and nothing else |
| PayloadDecoder.ExtractContent | src/services/kmsApi.ts:133-147 | the leftmost lazy capture if the lazy regex matches; else the leftmost greedy capture minus one trailing quote; else `""` |
| PayloadDecoder.DictToJsonHasNoSingleQuote | src/services/kmsApi.ts:123-127 | the dict rewrite leaves no `'` |
| PayloadDecoder.HasDictMarker | src/services/kmsApi.ts:121 | the payload includes `{'` or `': '`; a definition without a contract; `NoDictMarker` and `NoQuoteNoDictMarker` state when it fails |
| PayloadDecoder.DictToJson | src/services/kmsApi.ts:123-127 | the four global replacements in the code's order; no contract of its own: `DictToJsonHasNoSingleQuote` and `DictToJsonHasNoPythonLiterals` state what it leaves out, and `Text.ReplaceAllFirst` with `Text.ReplaceChar` fix each step's result |
| PayloadDecoder.ExtractedRecord | src/services/kmsApi.ts:144-148 | the record `{type, content}` the regex fallback builds, with `content` from `ExtractContent` (`""` when no content regex matches); a definition used in `Decode`'s contract |
| PayloadDecoder.Rescue | src/services/kmsApi.ts:159-163 | the record `{type: 'info', content: payload}`; a definition used by `HandlePayload` |
| PayloadDecoder.DictToJsonHasNoPythonLiterals | src/services/kmsApi.ts:123-127 | the dict rewrite leaves no `True`, `False` or `None` |
| PayloadDecoder.LiteralRewritesCannotRecreate | src/services/kmsApi.ts:125-127 | none of the three literal replacements can spell its own pattern, or a pattern replaced before it |
| PayloadDecoder.Decode | src/services/kmsApi.ts:114-153 | strict parse first. If it fails and a dict marker is present, the result is the parse of the rewrite and nothing else. With no marker, a record exists exactly when the type regex matches, and it holds the leftmost type and the extracted content. |
| PayloadDecoder.HandlePayload | src/services/kmsApi.ts:112-165 | a decoded record is delivered; an undecodable payload longer than ten UTF-16 code units is delivered as `{type: 'info', content: payload}`; one of ten code units or fewer is dropped |
| PayloadDecoder.AstralPayloadIsRescued | src/services/kmsApi.ts:156-165 | an undecodable payload of six to nine astral characters is longer than ten code units, so it is wrapped as info rather than dropped |
| PayloadDecoder.NoDictMarker | src/services/kmsApi.ts:121 | a payload without `{`, with every `'` after every `:`, carries neither dict marker |
| PayloadDecoder.NoQuotedTypeKey | src/services/kmsApi.ts:132 | a payload that spells `type` only at its start has no quoted `type` key, so the type regex fails |
| PayloadDecoder.NoQuoteNoDictMarker | src/services/kmsApi.ts:121 | a payload without `'` carries neither dict marker |
| PayloadDecoder.ShortHasNoType | src/services/kmsApi.ts:132 | a payload shorter than ten characters, the length of `'type':'x'`, cannot hold a type match |
| PayloadDecoder.UnquotedKeysAreRescued | src/services/kmsApi.ts:130-165 | `type: "chat" content: "partial text with 'quotes'"` is not decoded as chat; it is wrapped as an info record holding the whole payload |
| KmsApi.LinePayload | src/services/kmsApi.ts:100-105 | a payload exists exactly when the trimmed line starts with `data: ` (a blank line, skipped first by the code, never does), and the trimmed line is `data: ` followed by it |
| KmsApi.IsOk | src/services/kmsApi.ts:78 | `response.ok`: a status from 200 to 299; a definition used by `StreamEvents` |
| KmsApi.StreamEvents | src/services/kmsApi.ts:60-184 | the callback log of one `streamQuery`; no contract of its own: `StreamQuery` and `ReadBody` are proved to make exactly these callbacks, and `StreamTerminatesOnce`, `StreamFailsBeforeReading`, `StreamStoppedAt`, `StreamAbortedAt`, `StreamEndedAt`, `StreamEndsNaturally`, `StreamEndsAtSentinel` and `StreamAbortIsSilent` state its properties |
| KmsApi.LineStep | src/services/kmsApi.ts:99-165 | a line without a payload does nothing; `[DONE]` stops the stream, and only `[DONE]` does; any other payload emits what the decode chain delivers, and only that |
| KmsApi.LinesEvents | src/services/kmsApi.ts:99-167 | the lines of one chunk make only `onMessage` calls, then one `onComplete` exactly when the sentinel stopped them |
| KmsApi.ChunksEvents | src/services/kmsApi.ts:89-168 | the chunks read so far make only `onMessage` calls, then one `onComplete` exactly when the sentinel stopped them |
| KmsApi.LinesEventsStopped | src/services/kmsApi.ts:107-110 | once the sentinel is seen, no later line of the chunk is processed |
| KmsApi.ChunksEventsStopped | src/services/kmsApi.ts:107-110 | once the sentinel is seen, no later chunk is processed |
| KmsApi.HandleChunk | src/services/kmsApi.ts:97-167 | the inner loop over the lines of one chunk makes exactly the callbacks `LinesEvents` gives, and reports whether the sentinel stopped it |
| KmsApi.Controller.constructor | src/services/kmsApi.ts:65 | a fresh controller is not aborted |
| KmsApi.Controller.Abort | src/services/kmsApi.ts:188 | afterwards the controller is aborted |
| KmsApi.KmsApiService.constructor | src/services/kmsApi.ts:23 | a new service has no controller |
| KmsApi.KmsApiService.StopStream | src/services/kmsApi.ts:186-191 | the controller of the call in progress, if any, is aborted; afterwards there is none; with no call in progress nothing changes, so a second call is a no-op |
| KmsApi.KmsApiService.CreateRequest | src/services/kmsApi.ts:193-200 | the request carries the message and the user (`admin` by default), an empty history and streaming on |
| KmsApi.KmsApiService.StreamQuery | src/services/kmsApi.ts:60-184 | makes exactly the callbacks `StreamEvents` gives, in order, and leaves no controller behind |
| KmsApi.KmsApiService.ReadBody | src/services/kmsApi.ts:89-183 | the read loop makes exactly the callbacks `StreamEvents` gives for a body that is being read, and clears the controller |
| KmsApi.StreamStoppedAt | src/services/kmsApi.ts:107-110 | the sentinel in a chunk ends the stream with the callbacks so far, whatever the transport would do next |
| KmsApi.StreamAbortedAt | src/services/kmsApi.ts:171-174 | an abort during a read ends the stream with the callbacks made so far and adds nothing |
| KmsApi.StreamEndedAt | src/services/kmsApi.ts:89-170 | reading to the end without the sentinel adds exactly one final `onComplete`, or one `onError` when the last read fails |
| KmsApi.StreamTerminatesOnce | src/services/kmsApi.ts:89-180 | every call makes at most one terminal callback, and every earlier callback is `onMessage` |
| KmsApi.StreamFailsBeforeReading | src/services/kmsApi.ts:78-84 | a failed fetch, a status outside 200-299 or a missing body makes exactly one `onError` and no `onMessage`; an abort during `fetch` makes no callback |
| KmsApi.StreamEndsNaturally | src/services/kmsApi.ts:89-170 | without the sentinel, a stream read to its end makes one `onComplete` after all messages, or one `onError` if its last read fails |
| KmsApi.StreamEndsAtSentinel | src/services/kmsApi.ts:107-110 | a stream stopped by the sentinel ends with exactly one `onComplete` after its messages |
| KmsApi.StreamAbortIsSilent | src/services/kmsApi.ts:171-174 | an abort while a read is pending, before any sentinel, makes neither `onComplete` nor `onError` |
| KmsApi.DataLinePayload | src/services/kmsApi.ts:100-105 | a `data: ` line whose payload has no trailing white space yields that payload |
| KmsApi.CutLineDecodes | src/services/kmsApi.ts:96-110 | the chat line, delivered whole with its newline, makes one message |
| KmsApi.CutLineHeadSkips | src/services/kmsApi.ts:156-165 | the head `data: {"typ` of the cut line decodes at no stage and is too short to wrap |
| KmsApi.CutLineTailSkips | src/services/kmsApi.ts:102-104 | the tail of the cut line has no `data: ` prefix and makes nothing |
| KmsApi.ChunkBoundaryLosesRecord | src/services/kmsApi.ts:96-97 | the same text as one chunk gives `[onMessage(record), onComplete]`; cut after `typ` into two chunks, it gives only `[onComplete]` |
| KmsApi.CutAfterTyp | src/services/kmsApi.ts:96-97 | the head and tail payload pieces together are exactly the whole chat payload |
| KmsApi.OneMessageChunk | src/services/kmsApi.ts:89-170 | a clean stream of one chunk whose lines make one message ends with that message and one `onComplete` |
| KmsApi.SilentChunksStream | src/services/kmsApi.ts:89-170 | a clean stream of two chunks whose lines make nothing ends with `onComplete` alone |
| KmsApi.CleanStream | src/services/kmsApi.ts:89-170 | a stream read to its end without error or sentinel ends with its messages and one `onComplete` |
| StreamParsing.SynthesizedEvidence | src/utils/streamParser.ts:33-37 | the synthesized item is `{type: 'evidence', content, source: 'KMS Evidence'}` with no other key |
| StreamParsing.EvidenceItem | src/utils/streamParser.ts:29-41 | a truthy `evidence` is pushed as it is; else a non-empty `content` is wrapped; else the whole record is pushed |
| StreamParsing.Fold | src/utils/streamParser.ts:17-43 | the evidence list only grows at its end, by at most one. A chat record appends a non-empty fragment, else it is replaced by a non-empty response, else nothing changes; chat leaves evidence alone. An info record adds exactly one item and leaves the text alone. Any other type changes nothing. |
| StreamParsing.FoldAllEvidence | src/utils/streamParser.ts:27-41 | after any run of records, the evidence list is the old list followed by one item per info record, in arrival order |
| StreamParsing.FoldAllFragments | src/utils/streamParser.ts:20-22 | a run of chat fragments builds the text by concatenation in arrival order |
| StreamParsing.LastReplacement | src/utils/streamParser.ts:23-26 | finds the last chat record that replaces the text, or reports that there is none |
| StreamParsing.FoldAllChat | src/utils/streamParser.ts:18-26 | after any run of records, the text is the last full response (or the initial text) followed by every later fragment |
| StreamParsing.StreamParser.constructor | src/utils/streamParser.ts:9-10 | a new accumulator has empty text and no evidence |
| StreamParsing.StreamParser.Reset | src/utils/streamParser.ts:12-15 | both fields are cleared |
| StreamParsing.StreamParser.ProcessMessage | src/utils/streamParser.ts:17-48 | the new state is `Fold` of the old state and the record, and the returned snapshot equals the new state |
| StreamParsing.StreamParser.GetCurrentData | src/utils/streamParser.ts:50-55 | the snapshot holds the current text and evidence list |
| StreamParsing.StreamParser.FormatEvidence | src/utils/streamParser.ts:57-67 | a string is returned unchanged; booleans are spelt `true`/`false`; objects, arrays and `null` go through `JSON.stringify` |

## Left out

- Network I/O (`fetch`, `getReader`, `AbortController` signalling) is modelled by the
  `Reply` and `Cancel` values.
- The `TextDecoder` (`src/services/kmsApi.ts:87,96`) is left out. Chunks arrive as
  strings. The model therefore does not capture multi-byte characters carried from one
  read to the next.
- `JSON.parse` and `JSON.stringify` are parameters. The JSON grammar is not modelled.
- A `JSON.parse` result that is not an object is left out. Properties beyond `type`,
  `content`, `response` and `evidence` are left out too. So are `type`, `content` or
  `response` values that are not strings: a `Record` is typed, with optional string
  fields and an optional JSON `evidence`.
- `query` (`src/services/kmsApi.ts:25-58`) is a single fetch with no logic of its own
  beyond the error mapping.
- `console.log` and `console.warn` are left out.
- The React components are left out.
- The error message texts are left out. `StreamError` names the cause and keeps the
  status or the transport's message.
- A callback that throws is not modelled. In the code, a throw from `onMessage` inside
  the decode `try` would be caught and rescued like a decode failure. The callbacks here
  are a log that cannot fail.
- Strings are sequences of Unicode code points, where JavaScript counts UTF-16 code
  units. Only `dataStr.length` depends on the difference, and `Utf16Length` models it.
  The other operations look only at characters of the Basic Multilingual Plane, so they
  give the same result.
- Concurrency is left out. A `stopStream()` made from inside a callback takes effect in
  the code only at the next read. The model places cancellation only at the two awaits,
  sequentially, and the abort flag is observed by the pending await.
- KmsApi.KmsApiService.StreamQuery: the model does not capture what the service field
  holds while a callback runs, because callbacks are not re-entrant here.
- StreamParsing.StreamParser.FormatEvidence: numbers are passed to `stringify` instead
  of being spelt as `String(n)` spells them. JavaScript number formatting is not
  modelled.
- StreamParsing.StreamParser.GetCurrentData: that each call returns a fresh copy of the
  list is not stated. Snapshots are values, so no later update can reach them.

## Behaviours of the code

Three behaviours of the code worth stating:

- Lines are not carried over between chunks. Each chunk is split on its own
  (`src/services/kmsApi.ts:96-97`). A line cut across two chunks is therefore not
  decoded as if it had arrived whole: its head is decoded alone, so it may be dropped,
  wrapped as info or decoded with truncated content. Its tail is read as a line of its
  own, which without the `data: ` prefix is skipped. `KmsApi.ChunkBoundaryLosesRecord` shows a chat record lost this way.
- The last-resort wrapping puts the payload in `content`, not in an evidence property
  (`src/services/kmsApi.ts:160-163`). The accumulator then turns it into a synthesized
  evidence item.
- The type regex wants a quoted `type` key (`src/services/kmsApi.ts:132`). So the
  payload `type: "chat" content: "partial text with 'quotes'"`, whose keys are not
  quoted, yields no chat record. It is rescued as info instead
  (`PayloadDecoder.UnquotedKeysAreRescued`).

