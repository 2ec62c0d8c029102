/** The values that travel from the stream decoder to the accumulator. */
module Records {
  import opened Wrappers

  /** A JSON value as `JSON.parse` produces it; numbers are kept as exact reals. */
  datatype Json =
    | Null
    | Bool(b: bool)
    | Num(n: real)
    | Str(s: string)
    | Arr(items: seq<Json>)
    | Obj(fields: map<string, Json>)

  /** JavaScript truthiness of a JSON value: `null`, `false`, `0` and `""` are falsy. */
  predicate Truthy(v: Json) {
    match v
    case Null => false
    case Bool(b) => b
    case Num(n) => n != 0.0
    case Str(s) => s != ""
    case Arr(_) => true
    case Obj(_) => true
  }

  /** Truthiness of an optional property; an absent one is `undefined`, which is falsy. */
  predicate IsSet(v: Option<Json>) {
    v.Some? && Truthy(v.value)
  }

  /** Truthiness of an optional string property: absent and `""` are both falsy. */
  predicate HasText(s: Option<string>) {
    s.Some? && s.value != ""
  }

  /** One decoded stream message (`KmsResponse`): its `type` tag and the three optional
      properties the accumulator reads. */
  datatype Record = Record(
    kind: Option<string>,
    content: Option<string>,
    response: Option<string>,
    evidence: Option<Json>)

  const ChatType: string := "chat"
  const InfoType: string := "info"

  /** The property map of an optional string-valued key. */
  function StringField(key: string, v: Option<string>): map<string, Json> {
    if v.Some? then map[key := Str(v.value)] else map[]
  }

  /** The record as the plain object it is in JavaScript: its present properties and nothing else. */
  function RecordToJson(r: Record): (j: Json)
    ensures j.Obj?
    ensures ("type" in j.fields <==> r.kind.Some?) && (r.kind.Some? ==> j.fields["type"] == Str(r.kind.value))
    ensures ("content" in j.fields <==> r.content.Some?) && (r.content.Some? ==> j.fields["content"] == Str(r.content.value))
    ensures ("response" in j.fields <==> r.response.Some?) && (r.response.Some? ==> j.fields["response"] == Str(r.response.value))
    ensures ("evidence" in j.fields <==> r.evidence.Some?) && (r.evidence.Some? ==> j.fields["evidence"] == r.evidence.value)
    ensures j.fields.Keys <= {"type", "content", "response", "evidence"}
  {
    var ev: map<string, Json> := if r.evidence.Some? then map["evidence" := r.evidence.value] else map[];
    Obj(StringField("type", r.kind) + StringField("content", r.content) + StringField("response", r.response) + ev)
  }
}
