/** The accumulator of `src/utils/streamParser.ts`: folds decoded records into the answer
    text and the evidence list, and hands out a snapshot after every record. */
module StreamParsing {
  import opened Wrappers
  import opened Records

  /** The snapshot returned to the caller (`ParsedStreamData`). */
  datatype ParsedStreamData = ParsedStreamData(chatContent: string, evidenceData: seq<Json>)

  const EvidenceType: string := "evidence"
  const EvidenceSource: string := "KMS Evidence"

  /** The evidence object built from an info record's `content`. */
  function SynthesizedEvidence(content: string): (j: Json)
    ensures j.Obj? && j.fields.Keys == {"type", "content", "source"}
    ensures j.fields["type"] == Str(EvidenceType) && j.fields["content"] == Str(content)
    ensures j.fields["source"] == Str(EvidenceSource)
  {
    Obj(map["type" := Str(EvidenceType), "content" := Str(content), "source" := Str(EvidenceSource)])
  }

  /** The record is a chat record that replaces the answer: no usable fragment, a usable full response. */
  predicate IsReplacement(data: Record) {
    data.kind == Some(ChatType) && !HasText(data.content) && HasText(data.response)
  }

  /** The record is a chat record that carries a fragment to append. */
  predicate IsFragment(data: Record) {
    data.kind == Some(ChatType) && HasText(data.content)
  }

  /** The item an info record adds to the evidence list: the truthy `evidence` payload
      itself, else a synthesized evidence object for a non-empty `content`, else the whole record. */
  function EvidenceItem(data: Record): (j: Json)
    ensures IsSet(data.evidence) ==> j == data.evidence.value
    ensures !IsSet(data.evidence) && HasText(data.content) ==> j == SynthesizedEvidence(data.content.value)
    ensures !IsSet(data.evidence) && !HasText(data.content) ==> j == RecordToJson(data)
  {
    if IsSet(data.evidence) then data.evidence.value
    else if HasText(data.content) then SynthesizedEvidence(data.content.value)
    else RecordToJson(data)
  }

  /** One step of the accumulator, as a pure function of the old state and the record. */
  function Fold(s: ParsedStreamData, data: Record): (r: ParsedStreamData)
    // the evidence list only ever grows at its end, by at most one item
    ensures s.evidenceData <= r.evidenceData && |r.evidenceData| <= |s.evidenceData| + 1
    // chat: append a fragment, else replace with the full response, else nothing; evidence untouched
    ensures data.kind == Some(ChatType) ==> r.evidenceData == s.evidenceData
    ensures IsFragment(data) ==> r.chatContent == s.chatContent + data.content.value
    ensures IsReplacement(data) ==> r.chatContent == data.response.value
    ensures data.kind == Some(ChatType) && !HasText(data.content) && !HasText(data.response) ==> r == s
    // info: exactly one evidence item is added; the answer text is untouched
    ensures data.kind == Some(InfoType) ==>
      r.chatContent == s.chatContent && r.evidenceData == s.evidenceData + [EvidenceItem(data)]
    // any other tag (or none): no change
    ensures data.kind != Some(ChatType) && data.kind != Some(InfoType) ==> r == s
  {
    if data.kind == Some(ChatType) then
      if HasText(data.content) then s.(chatContent := s.chatContent + data.content.value)
      else if HasText(data.response) then s.(chatContent := data.response.value)
      else s
    else if data.kind == Some(InfoType) then
      s.(evidenceData := s.evidenceData + [EvidenceItem(data)])
    else s
  }

  /** The state after folding every record of `records`, in arrival order. */
  function FoldAll(s: ParsedStreamData, records: seq<Record>): ParsedStreamData
    decreases |records|
  {
    if records == [] then s else FoldAll(Fold(s, records[0]), records[1..])
  }

  lemma {:induction false} FoldAllSnoc(s: ParsedStreamData, records: seq<Record>, data: Record)
    ensures FoldAll(s, records + [data]) == Fold(FoldAll(s, records), data)
    decreases |records|
  {
    if records != [] {
      assert (records + [data])[1..] == records[1..] + [data];
      FoldAllSnoc(Fold(s, records[0]), records[1..], data);
    }
  }

  /** The evidence items of the info records of `records`, in arrival order. */
  function InfoItems(records: seq<Record>): seq<Json>
    decreases |records|
  {
    if records == [] then []
    else if records[0].kind == Some(InfoType) then [EvidenceItem(records[0])] + InfoItems(records[1..])
    else InfoItems(records[1..])
  }

  /** The number of info records in `records`. */
  function CountInfo(records: seq<Record>): nat
    decreases |records|
  {
    if records == [] then 0
    else (if records[0].kind == Some(InfoType) then 1 else 0) + CountInfo(records[1..])
  }

  /** Evidence is never dropped or reordered: after any run of records the list is the old list
      followed by one item per info record, in the order those records arrived. */
  lemma {:induction false} FoldAllEvidence(s: ParsedStreamData, records: seq<Record>)
    ensures FoldAll(s, records).evidenceData == s.evidenceData + InfoItems(records)
    ensures |InfoItems(records)| == CountInfo(records)
    decreases |records|
  {
    if records != [] {
      FoldAllEvidence(Fold(s, records[0]), records[1..]);
    }
  }

  /** The fragments of the fragment-carrying chat records of `records`, concatenated. */
  function Fragments(records: seq<Record>): string
    decreases |records|
  {
    if records == [] then []
    else (if IsFragment(records[0]) then records[0].content.value else []) + Fragments(records[1..])
  }

  /** A sequence of chat fragments builds the answer by concatenation in arrival order. */
  lemma {:induction false} FoldAllFragments(s: ParsedStreamData, records: seq<Record>)
    requires forall i :: 0 <= i < |records| ==> IsFragment(records[i])
    ensures FoldAll(s, records).chatContent == s.chatContent + Fragments(records)
    decreases |records|
  {
    if records != [] {
      FoldAllFragments(Fold(s, records[0]), records[1..]);
    }
  }

  /** Index of the last replacing chat record, if any. */
  function LastReplacement(records: seq<Record>): (j: Option<nat>)
    ensures j.Some? ==> j.value < |records| && IsReplacement(records[j.value])
    ensures j.Some? ==> forall k :: j.value < k < |records| ==> !IsReplacement(records[k])
    ensures j.None? ==> forall k :: 0 <= k < |records| ==> !IsReplacement(records[k])
    decreases |records|
  {
    if records == [] then None
    else if IsReplacement(records[|records| - 1]) then Some(|records| - 1)
    else LastReplacement(records[..|records| - 1])
  }

  /** The answer text a run of records leaves, stated without the fold: the last full
      response (or the initial text when there is none) followed by every later fragment. */
  function FinalChat(init: string, records: seq<Record>): string {
    match LastReplacement(records)
    case None => init + Fragments(records)
    case Some(j) => records[j].response.value + Fragments(records[j + 1..])
  }

  lemma {:induction false} FragmentsSnoc(records: seq<Record>, data: Record)
    ensures Fragments(records + [data]) == Fragments(records) + (if IsFragment(data) then data.content.value else [])
    decreases |records|
  {
    if records != [] {
      assert (records + [data])[1..] == records[1..] + [data];
      FragmentsSnoc(records[1..], data);
    }
  }

  /** The fold computes exactly the answer text `FinalChat` describes. */
  lemma {:induction false} FoldAllChat(s: ParsedStreamData, records: seq<Record>)
    ensures FoldAll(s, records).chatContent == FinalChat(s.chatContent, records)
    decreases |records|
  {
    if records != [] {
      var front, last := records[..|records| - 1], records[|records| - 1];
      assert records == front + [last];
      FoldAllSnoc(s, front, last);
      FoldAllChat(s, front);
      if IsReplacement(last) {
        FinalChatReplaced(s.chatContent, front, last);
      } else {
        FinalChatExtended(s.chatContent, front, last);
      }
    }
  }

  /** A replacing record makes its full response the whole answer text. */
  lemma FinalChatReplaced(init: string, front: seq<Record>, last: Record)
    requires IsReplacement(last)
    ensures FinalChat(init, front + [last]) == last.response.value
  {
    var records := front + [last];
    assert LastReplacement(records) == Some(|front|);
    assert records[|records|..] == [];
  }

  /** Any other record extends the answer text by its fragment, if it has one. */
  lemma FinalChatExtended(init: string, front: seq<Record>, last: Record)
    requires !IsReplacement(last)
    ensures FinalChat(init, front + [last])
      == FinalChat(init, front) + (if IsFragment(last) then last.content.value else [])
  {
    var records := front + [last];
    assert records[..|records| - 1] == front;
    assert LastReplacement(records) == LastReplacement(front);
    match LastReplacement(front)
    case None =>
      FragmentsSnoc(front, last);
    case Some(j) =>
      assert records[j + 1..] == front[j + 1..] + [last];
      FragmentsSnoc(front[j + 1..], last);
  }

  /** The accumulator object: the answer text so far and the evidence list so far. */
  class StreamParser {
    var chatContent: string
    var evidenceData: seq<Json>

    constructor ()
      ensures chatContent == "" && evidenceData == []
    {
      chatContent := "";
      evidenceData := [];
    }

    /** Clears both fields, for the start of a new session. */
    method Reset()
      modifies this
      ensures chatContent == "" && evidenceData == []
    {
      chatContent := "";
      evidenceData := [];
    }

    /** Folds one record into the fields and returns a snapshot of the new state. */
    method ProcessMessage(data: Record) returns (snapshot: ParsedStreamData)
      modifies this
      ensures GetCurrentData() == Fold(old(GetCurrentData()), data)
      ensures snapshot == GetCurrentData()
    {
      if data.kind == Some(ChatType) {
        if HasText(data.content) {
          chatContent := chatContent + data.content.value;
        } else if HasText(data.response) {
          chatContent := data.response.value;
        }
      } else if data.kind == Some(InfoType) {
        if IsSet(data.evidence) {
          evidenceData := evidenceData + [data.evidence.value];
        } else if HasText(data.content) {
          evidenceData := evidenceData + [SynthesizedEvidence(data.content.value)];
        } else {
          evidenceData := evidenceData + [RecordToJson(data)];
        }
      }
      snapshot := ParsedStreamData(chatContent, evidenceData);
    }

    /** A snapshot of the current fields; the list is a value, so later folds cannot change it. */
    function GetCurrentData(): (d: ParsedStreamData)
      reads this
      ensures d.chatContent == chatContent && d.evidenceData == evidenceData
    {
      ParsedStreamData(chatContent, evidenceData)
    }

    /** Renders one evidence item for display: a string is shown as it is; every other value
        goes through `stringify` (`JSON.stringify(evidence, null, 2)` for objects, arrays and
        `null`, which JavaScript types as 'object'); booleans are spelt as `String` spells them. */
    static function FormatEvidence(evidence: Json, stringify: Json -> string): (r: string)
      ensures evidence.Str? ==> r == evidence.s
      ensures evidence.Bool? ==> r == (if evidence.b then "true" else "false")
      ensures evidence.Null? || evidence.Arr? || evidence.Obj? ==> r == stringify(evidence)
    {
      match evidence
      case Str(s) => s
      case Bool(b) => if b then "true" else "false"
      case _ => stringify(evidence)
    }
  }
}
