/** The tolerant payload decoder of `streamQuery` in `src/services/kmsApi.ts`: strict JSON,
    then a Python-dict-to-JSON rewrite, then a regex extraction of `type` and `content`,
    then last-resort wrapping of long payloads. `JSON.parse` is the parameter `parse`. */
module PayloadDecoder {
  import opened Wrappers
  import opened Text
  import opened Records

  /** A character of the regex class `['"]`. */
  predicate IsQuote(c: char) {
    c == '\'' || c == '"'
  }

  /** End of the run of white space that starts at `i`. */
  function SkipWhitespace(s: string, i: nat): (j: nat)
    requires i <= |s|
    ensures i <= j <= |s|
    ensures forall m :: i <= m < j ==> IsWhitespace(s[m])
    ensures j == |s| || !IsWhitespace(s[j])
    decreases |s| - i
  {
    if i < |s| && IsWhitespace(s[i]) then SkipWhitespace(s, i + 1) else i
  }

  /** End of the longest run starting at `i` of characters for which `stop` is false. */
  function RunEnd(s: string, i: nat, stop: char -> bool): (j: nat)
    requires i <= |s|
    ensures i <= j <= |s|
    ensures forall m :: i <= m < j ==> !stop(s[m])
    ensures j == |s| || stop(s[j])
    decreases |s| - i
  {
    if i < |s| && !stop(s[i]) then RunEnd(s, i + 1, stop) else i
  }

  /** The regex prefix `['"]key['"]:\s*['"]` matches `s[i..k]`. */
  ghost predicate KeyPrefix(s: string, key: string, i: nat, k: nat) {
    i + |key| + 4 <= k <= |s|
    && IsQuote(s[i]) && s[i + 1..i + 1 + |key|] == key && IsQuote(s[i + 1 + |key|])
    && s[i + 2 + |key|] == ':'
    && (forall m :: i + 3 + |key| <= m < k - 1 ==> IsWhitespace(s[m]))
    && IsQuote(s[k - 1])
  }

  /** Where the quoted value begins when `['"]key['"]:\s*['"]` matches at `i`. The match
      is unique: `\s*` cannot give back white space to let a quote match. */
  function ValueStart(s: string, key: string, i: nat): (k: Option<nat>)
    ensures forall k': nat :: KeyPrefix(s, key, i, k') <==> k == Some(k')
  {
    var n := |key|;
    if i + n + 3 < |s| && IsQuote(s[i]) && s[i + 1..i + 1 + n] == key && IsQuote(s[i + 1 + n])
       && s[i + 2 + n] == ':'
    then
      var j := SkipWhitespace(s, i + n + 3);
      if j < |s| && IsQuote(s[j]) then
        assert KeyPrefix(s, key, i, j + 1);
        Some(j + 1)
      else None
    else None
  }

  /** First position below `n` at which `f` finds a match: regex search from the left. */
  function FirstMatch(n: nat, from: nat, f: nat -> Option<string>): (r: Option<nat>)
    requires from <= n
    ensures r.Some? ==> from <= r.value < n && f(r.value).Some?
    ensures r.Some? ==> forall j :: from <= j < r.value ==> f(j).None?
    ensures r.None? ==> forall j :: from <= j < n ==> f(j).None?
    decreases n - from
  {
    if from == n then None
    else if f(from).Some? then Some(from)
    else FirstMatch(n, from + 1, f)
  }

  /** No character of `t` is a quote: the class `[^'"]`. */
  predicate QuoteFree(t: string) {
    forall m :: 0 <= m < |t| ==> !IsQuote(t[m])
  }

  /** The type regex `['"]type['"]:\s*['"]([^'"]+)['"]` matches at `i`, with its value
      starting at `k` and captured text `t`. */
  ghost predicate TypePattern(s: string, i: nat, k: nat, t: string) {
    KeyPrefix(s, "type", i, k) && t != [] && k + |t| < |s| && s[k..k + |t|] == t
    && QuoteFree(t) && IsQuote(s[k + |t|])
  }

  /** The type regex tried at position `i` alone. */
  function TypeAt(s: string, i: nat): (r: Option<string>)
    ensures r.Some? ==> exists k: nat :: TypePattern(s, i, k, r.value)
    ensures forall k: nat, t :: TypePattern(s, i, k, t) ==> r == Some(t)
  {
    match ValueStart(s, "type", i)
    case None => None
    case Some(k) =>
      var e := RunEnd(s, k, IsQuote);
      forall k': nat, t | TypePattern(s, i, k', t) ensures k < e < |s| && t == s[k..e] {
        QuotedRunEnd(s, k', t);
      }
      if k < e < |s| then
        assert TypePattern(s, i, k, s[k..e]);
        Some(s[k..e])
      else None
  }

  /** A run of non-quote characters closed by a quote ends exactly at that quote. */
  lemma QuotedRunEnd(s: string, k: nat, t: string)
    requires k + |t| < |s| && s[k..k + |t|] == t
    requires QuoteFree(t)
    requires IsQuote(s[k + |t|])
    ensures RunEnd(s, k, IsQuote) == k + |t|
  {
    assert forall m :: k <= m < k + |t| ==> s[m] == t[m - k];
  }

  /** The type regex matches at `i` capturing `t`, and at no earlier position. */
  ghost predicate LeftmostType(s: string, i: nat, t: string) {
    (exists k: nat :: TypePattern(s, i, k, t))
    && forall j: nat, k: nat, t' :: j < i ==> !TypePattern(s, j, k, t')
  }

  /** `dataStr.match(typeRegex)`: the captured type of the leftmost match, if any. */
  function FindType(s: string): (r: Option<string>)
    ensures r.Some? ==> r.value != [] && QuoteFree(r.value)
    ensures r.Some? ==> exists i: nat :: LeftmostType(s, i, r.value)
    ensures r.Some? <==> exists i: nat, k: nat, t :: TypePattern(s, i, k, t)
  {
    var f := (i: nat) => TypeAt(s, i);
    match FirstMatch(|s|, 0, f)
    case Some(i) =>
      var t := TypeAt(s, i).value;
      assert LeftmostType(s, i, t) by {
        forall j: nat, k: nat, t' | j < i ensures !TypePattern(s, j, k, t') {
          assert f(j).None?;
        }
      }
      Some(t)
    case None =>
      assert !exists i: nat, k: nat, t :: TypePattern(s, i, k, t) by {
        forall i: nat, k: nat, t ensures !TypePattern(s, i, k, t) {
          if i < |s| { assert f(i).None?; }
        }
      }
      None
  }

  /** The lazy content regex `['"]content['"]:\s*['"](.+?)['"]$` matches at `i`, with its
      value starting at `k` and captured text `c`: the capture runs to one character before
      the end of the payload, which is a quote, and holds no line terminator. */
  ghost predicate LazyContentPattern(s: string, i: nat, k: nat, c: string) {
    KeyPrefix(s, "content", i, k) && c != [] && k + |c| + 1 == |s| && s[k..k + |c|] == c
    && (forall m :: 0 <= m < |c| ==> !IsLineTerminator(c[m])) && IsQuote(s[|s| - 1])
  }

  /** The lazy content regex tried at position `i` alone. */
  function LazyContentAt(s: string, i: nat): (r: Option<string>)
    ensures r.Some? ==> exists k: nat :: LazyContentPattern(s, i, k, r.value)
    ensures forall k: nat, c :: LazyContentPattern(s, i, k, c) ==> r == Some(c)
  {
    match ValueStart(s, "content", i)
    case None => None
    case Some(k) =>
      if k + 1 < |s| && IsQuote(s[|s| - 1]) && RunEnd(s, k, IsLineTerminator) >= |s| - 1 then
        assert LazyContentPattern(s, i, k, s[k..|s| - 1]);
        Some(s[k..|s| - 1])
      else None
  }

  /** The greedy content regex `['"]content['"]:\s*['"](.+)` matches at `i`, with its value
      starting at `k` and captured text `c`: the longest non-empty run without a line terminator. */
  ghost predicate GreedyContentPattern(s: string, i: nat, k: nat, c: string) {
    KeyPrefix(s, "content", i, k) && c != [] && k + |c| <= |s| && s[k..k + |c|] == c
    && (forall m :: 0 <= m < |c| ==> !IsLineTerminator(c[m]))
    && (k + |c| == |s| || IsLineTerminator(s[k + |c|]))
  }

  /** The greedy content regex tried at position `i` alone. */
  function GreedyContentAt(s: string, i: nat): (r: Option<string>)
    ensures r.Some? ==> exists k: nat :: GreedyContentPattern(s, i, k, r.value)
    ensures forall k: nat, c :: GreedyContentPattern(s, i, k, c) ==> r == Some(c)
  {
    match ValueStart(s, "content", i)
    case None => None
    case Some(k) =>
      var e := RunEnd(s, k, IsLineTerminator);
      forall k': nat, c | GreedyContentPattern(s, i, k', c) ensures k < e && c == s[k..e] {
        LineRunEnd(s, k', c);
      }
      if k < e then
        assert GreedyContentPattern(s, i, k, s[k..e]);
        Some(s[k..e])
      else None
  }

  /** A run without line terminators that reaches the end or a line terminator is the
      longest such run. */
  lemma LineRunEnd(s: string, k: nat, c: string)
    requires k + |c| <= |s| && s[k..k + |c|] == c
    requires forall m :: 0 <= m < |c| ==> !IsLineTerminator(c[m])
    requires k + |c| == |s| || IsLineTerminator(s[k + |c|])
    ensures RunEnd(s, k, IsLineTerminator) == k + |c|
  {
    assert forall m :: k <= m < k + |c| ==> s[m] == c[m - k];
  }

  /** `.replace(/['"]$/, '')`: drops one final quote, if there is one. */
  function StripTrailingQuote(c: string): (r: string)
    ensures c != [] && IsQuote(c[|c| - 1]) ==> r + [c[|c| - 1]] == c
    ensures c == [] || !IsQuote(c[|c| - 1]) ==> r == c
  {
    if c != [] && IsQuote(c[|c| - 1]) then c[..|c| - 1] else c
  }

  ghost predicate HasLazyContent(s: string) {
    exists i: nat, k: nat, c :: LazyContentPattern(s, i, k, c)
  }

  ghost predicate HasGreedyContent(s: string) {
    exists i: nat, k: nat, c :: GreedyContentPattern(s, i, k, c)
  }

  /** The lazy content regex matches at `i` capturing `c`, and at no earlier position. */
  ghost predicate LeftmostLazyContent(s: string, i: nat, c: string) {
    (exists k: nat :: LazyContentPattern(s, i, k, c))
    && forall j: nat, k: nat, c' :: j < i ==> !LazyContentPattern(s, j, k, c')
  }

  /** The greedy content regex matches at `i` capturing `c`, and at no earlier position. */
  ghost predicate LeftmostGreedyContent(s: string, i: nat, c: string) {
    (exists k: nat :: GreedyContentPattern(s, i, k, c))
    && forall j: nat, k: nat, c' :: j < i ==> !GreedyContentPattern(s, j, k, c')
  }

  /** The content the regex fallback extracts: the leftmost lazy match anchored at the end
      of the payload; failing that, the leftmost greedy match with one trailing quote
      stripped; failing both, the empty string. */
  function ExtractContent(s: string): (r: string)
    ensures HasLazyContent(s) ==> exists i: nat :: LeftmostLazyContent(s, i, r)
    ensures !HasLazyContent(s) && HasGreedyContent(s) ==>
      exists i: nat, c :: LeftmostGreedyContent(s, i, c) && r == StripTrailingQuote(c)
    ensures !HasLazyContent(s) && !HasGreedyContent(s) ==> r == ""
  {
    var lazy := (i: nat) => LazyContentAt(s, i);
    var greedy := (i: nat) => GreedyContentAt(s, i);
    match FirstMatch(|s|, 0, lazy)
    case Some(i) =>
      var c := LazyContentAt(s, i).value;
      assert LeftmostLazyContent(s, i, c) by {
        forall j: nat, k: nat, c' | j < i ensures !LazyContentPattern(s, j, k, c') {
          assert lazy(j).None?;
        }
      }
      c
    case None =>
      assert !HasLazyContent(s) by {
        forall i: nat, k: nat, c ensures !LazyContentPattern(s, i, k, c) {
          if i < |s| { assert lazy(i).None?; }
        }
      }
      match FirstMatch(|s|, 0, greedy)
      case Some(i) =>
        var c := GreedyContentAt(s, i).value;
        assert LeftmostGreedyContent(s, i, c) by {
          forall j: nat, k: nat, c' | j < i ensures !GreedyContentPattern(s, j, k, c') {
            assert greedy(j).None?;
          }
        }
        StripTrailingQuote(c)
      case None =>
        assert !HasGreedyContent(s) by {
          forall i: nat, k: nat, c ensures !GreedyContentPattern(s, i, k, c) {
            if i < |s| { assert greedy(i).None?; }
          }
        }
        ""
  }

  /** The heuristic that a payload is a Python dict literal: it contains `{'` or `': '`. */
  predicate HasDictMarker(s: string) {
    Includes(s, "{'") || Includes(s, "': '")
  }

  /** The textual Python-dict-to-JSON rewrite: every `'` becomes `"`, then every `True`,
      `False` and `None` becomes `true`, `false` and `null`. */
  function DictToJson(s: string): string {
    var quoted := ReplaceChar(s, '\'', '"');
    ReplaceAll(ReplaceAll(ReplaceAll(quoted, "True", "true"), "False", "false"), "None", "null")
  }

  /** The rewrite leaves no single quote behind. */
  lemma DictToJsonHasNoSingleQuote(s: string)
    ensures '\'' !in DictToJson(s)
  {
    var quoted := ReplaceChar(s, '\'', '"');
    assert '\'' !in quoted by {
      forall i | 0 <= i < |quoted| ensures quoted[i] != '\'' { }
    }
    ReplaceAllKeepsOut(quoted, "True", "true", '\'');
    var t := ReplaceAll(quoted, "True", "true");
    ReplaceAllKeepsOut(t, "False", "false", '\'');
    ReplaceAllKeepsOut(ReplaceAll(t, "False", "false"), "None", "null", '\'');
  }

  /** No literal replacement can spell its own pattern, or a pattern replaced before it,
      again. */
  lemma LiteralRewritesCannotRecreate()
    ensures NoRecreation("True", "true") && NoRecreation("True", "false") && NoRecreation("True", "null")
    ensures NoRecreation("False", "false") && NoRecreation("False", "null")
    ensures NoRecreation("None", "null")
  {
    forall j | 1 <= j < 4 ensures !Compatible("True"[j..], "true") && !Compatible("True"[j..], "false")
      && !Compatible("True"[j..], "null")
    {
      assert "True"[j..][0] in "rue";
    }
    forall j | 1 <= j < 5 ensures !Compatible("False"[j..], "false") && !Compatible("False"[j..], "null") {
      assert "False"[j..][0] in "alse";
    }
    forall j | 1 <= j < 4 ensures !Compatible("None"[j..], "null") {
      if j == 2 {
        assert "None"[j..][1] != "null"[1];
      } else {
        assert "None"[j..][0] != "null"[0];
      }
    }
  }

  /** The rewrite leaves no Python literal behind: no `True`, `False` or `None` occurs
      in its output, because no later replacement can spell an earlier pattern again. */
  lemma DictToJsonHasNoPythonLiterals(s: string)
    ensures Absent(DictToJson(s), "True") && Absent(DictToJson(s), "False") && Absent(DictToJson(s), "None")
  {
    var quoted := ReplaceChar(s, '\'', '"');
    var t1 := ReplaceAll(quoted, "True", "true");
    var t2 := ReplaceAll(t1, "False", "false");
    LiteralRewritesCannotRecreate();
    ReplaceAllRemoves(quoted, "True", "true");
    ReplaceAllPreserves(t1, "False", "false", "True");
    ReplaceAllPreserves(t2, "None", "null", "True");
    ReplaceAllRemoves(t1, "False", "false");
    ReplaceAllPreserves(t2, "None", "null", "False");
    ReplaceAllRemoves(t2, "None", "null");
  }

  /** The record the regex fallback builds: the extracted type and content, nothing else. */
  function ExtractedRecord(s: string, kind: string): Record {
    Record(Some(kind), Some(ExtractContent(s)), None, None)
  }

  /** The decode chain of one payload, ending in `Some` where `onMessage` is reached and
      in `None` where an exception reaches the outer handler: strict parse first; if that
      fails and the payload looks like a dict, the parse of its rewrite and nothing else;
      otherwise the regex extraction, which fails exactly when no type is found. */
  function Decode(payload: string, parse: string -> Option<Record>): (r: Option<Record>)
    ensures parse(payload).Some? ==> r == parse(payload)
    ensures parse(payload).None? && HasDictMarker(payload) ==> r == parse(DictToJson(payload))
    ensures parse(payload).None? && !HasDictMarker(payload) ==>
      (r.Some? <==> exists i: nat, k: nat, t :: TypePattern(payload, i, k, t))
    ensures parse(payload).None? && !HasDictMarker(payload) && r.Some? ==>
      exists i: nat, t :: LeftmostType(payload, i, t) && r.value == ExtractedRecord(payload, t)
  {
    match parse(payload)
    case Some(record) => Some(record)
    case None =>
      if HasDictMarker(payload) then parse(DictToJson(payload))
      else
        match FindType(payload)
        case Some(kind) => Some(ExtractedRecord(payload, kind))
        case None => None
  }

  /** Payloads up to this many UTF-16 code units are dropped when nothing can decode them. */
  const RescueMinLength: nat := 10

  /** The last-resort record: an info record whose content is the raw payload. */
  function Rescue(payload: string): Record {
    Record(Some(InfoType), Some(payload), None, None)
  }

  /** What one payload delivers to `onMessage`, if anything: the decoded record; else,
      for a payload longer than ten UTF-16 code units (`dataStr.length > 10`), the raw
      payload wrapped as info. A decode
      failure never ends the stream; it only drops or wraps this one payload. */
  function HandlePayload(payload: string, parse: string -> Option<Record>): (r: Option<Record>)
    ensures Decode(payload, parse).Some? ==> r == Decode(payload, parse)
    ensures Decode(payload, parse).None? && Utf16Length(payload) > RescueMinLength ==>
      r == Some(Record(Some(InfoType), Some(payload), None, None))
    ensures Decode(payload, parse).None? && Utf16Length(payload) <= RescueMinLength ==> r == None
  {
    match Decode(payload, parse)
    case Some(record) => Some(record)
    case None => if Utf16Length(payload) > RescueMinLength then Some(Rescue(payload)) else None
  }

  /** Neither dict marker occurs in `a + b` when `{` occurs nowhere, every `'` lies in `b`
      and every `:` in `a`. */
  lemma NoDictMarker(a: string, b: string)
    requires '{' !in a && '{' !in b && '\'' !in a && ':' !in b
    ensures !HasDictMarker(a + b)
  {
    var colon := "': '";
    assert colon[0] == '\'' && colon[1] == ':';
    NoStraddle(a, b, colon);
    AbsentCharNotIncluded(a + b, "{'", '{');
  }

  /** Both dict markers hold a single quote, so a payload without one has neither. */
  lemma NoQuoteNoDictMarker(s: string)
    requires '\'' !in s
    ensures !HasDictMarker(s)
  {
    var brace, colon := "{'", "': '";
    assert brace[1] == '\'' && colon[0] == '\'';
    AbsentCharNotIncluded(s, brace, '\'');
    AbsentCharNotIncluded(s, colon, '\'');
  }

  /** The shortest type match, `'type':'x'`, is ten characters long. */
  lemma ShortHasNoType(s: string)
    requires |s| < 10
    ensures FindType(s) == None
  {
    forall i: nat, k: nat, t ensures !TypePattern(s, i, k, t) {
    }
  }

  /** A pattern whose first character never occurs in `a` and whose second never occurs in
      `b` does not occur in `a + b`. */
  lemma NoStraddle(a: string, b: string, p: string)
    requires |p| >= 2 && p[0] !in a && p[1] !in b
    ensures !Includes(a + b, p)
  {
    var s := a + b;
    forall i ensures !OccursAt(s, p, i) {
      assert 0 <= i < |a| ==> s[i] == a[i] && a[i] in a;
      assert |a| <= i && i + 1 < |s| ==> s[i + 1] == b[i + 1 - |a|] && b[i + 1 - |a|] in b;
      assert 0 <= i && i + |p| <= |s| ==> s[i..i + |p|][0] == s[i] && s[i..i + |p|][1] == s[i + 1];
    }
  }

  /** The type regex cannot match at `i` unless the second letter of its key, `y`, stands
      at `i + 2`. */
  lemma NotTypeKeyAt(s: string, i: nat, k: nat, t: string)
    requires i + 2 < |s| ==> s[i + 2] != 'y'
    ensures !TypePattern(s, i, k, t)
  {
    assert i + 5 <= |s| ==> s[i + 1..i + 5][1] == s[i + 2];
  }

  /** Where `type` is spelt only once, at the very start, it is not a quoted key, and the
      type regex finds nothing. */
  lemma NoQuotedTypeKey(r: string)
    requires 'y' !in r
    ensures FindType("ty" + r) == None
  {
    var s := "ty" + r;
    forall i: nat, k: nat, t ensures !TypePattern(s, i, k, t) {
      assert i + 2 < |s| ==> s[i + 2] == r[i] && r[i] in r;
      NotTypeKeyAt(s, i, k, t);
    }
  }

  /** A payload that neither parses, nor looks like a dict, nor holds a quoted type key is
      wrapped as info when it is longer than ten characters. */
  lemma UndecodableIsRescued(payload: string, parse: string -> Option<Record>)
    requires parse(payload) == None && !HasDictMarker(payload) && FindType(payload) == None
    requires Utf16Length(payload) > RescueMinLength
    ensures HandlePayload(payload, parse) == Some(Rescue(payload))
  {
  }

  /** Six to nine astral characters (emoji, say) are too short for any stage to decode,
      yet longer than ten code units: such a payload is wrapped as info, not dropped. */
  lemma AstralPayloadIsRescued(payload: string, parse: string -> Option<Record>)
    requires parse(payload) == None && 6 <= |payload| < 10
    requires forall k :: 0 <= k < |payload| ==> IsAstral(payload[k])
    ensures HandlePayload(payload, parse) == Some(Rescue(payload))
  {
    assert forall k :: 0 <= k < |payload| ==> payload[k] != '\'';
    NoQuoteNoDictMarker(payload);
    ShortHasNoType(payload);
    Utf16LengthAstral(payload);
  }

  /** The payload `type: "chat" content: "partial text with 'quotes'"`, in three pieces. */
  const UnquotedHead: string := "ty"
  const UnquotedMid: string := "pe: \"chat\" content: \""
  const UnquotedTail: string := "partial text with 'quotes'\""

  /** The characters the first two pieces of the unquoted payload leave out. */
  lemma UnquotedHeadChars()
    ensures '{' !in UnquotedHead && '\'' !in UnquotedHead
    ensures '{' !in UnquotedMid && '\'' !in UnquotedMid && 'y' !in UnquotedMid
  {
  }

  /** The characters the last piece of the unquoted payload leaves out, and its length. */
  lemma UnquotedTailChars()
    ensures '{' !in UnquotedTail && ':' !in UnquotedTail && 'y' !in UnquotedTail
    ensures |UnquotedTail| > RescueMinLength
  {
  }

  /** With unquoted keys the payload matches neither dict marker nor the type regex, which
      wants a quoted `type` key; being longer than ten characters it is wrapped as an info
      record holding the whole payload, and no chat record comes out of it. */
  lemma UnquotedKeysAreRescued(parse: string -> Option<Record>)
    requires parse(UnquotedHead + UnquotedMid + UnquotedTail) == None
    ensures HandlePayload(UnquotedHead + UnquotedMid + UnquotedTail, parse)
      == Some(Rescue(UnquotedHead + UnquotedMid + UnquotedTail))
  {
    var payload := UnquotedHead + UnquotedMid + UnquotedTail;
    UnquotedHeadChars();
    UnquotedTailChars();
    NoDictMarker(UnquotedHead + UnquotedMid, UnquotedTail);
    NoQuotedTypeKey(UnquotedMid + UnquotedTail);
    assert payload == "ty" + (UnquotedMid + UnquotedTail);
    UndecodableIsRescued(payload, parse);
  }
}
