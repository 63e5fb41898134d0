/** Post-processing of the language-model replies in
    backend/agents/document_agent.py: cutting a JSON candidate out of a
    reply, decoding it, back-filling the seven expected fields, the review
    pass and the classifier reply, each with its fixed fallback record.

    The model's reply is an input: `Some(text)` when the API answer carried
    a `content` entry, `None` when it did not (the source then uses "{}").
    JSON decoding is the partial function `decode`, which yields the
    decoded JSON value or `None` where `json.loads` raises. */
module AgentReplies {
  import opened PyText

  type Record = map<string, string>

  /** A decoded JSON value: an object (whose values are strings), an array,
      a string, or any other literal (a number, `true`, `false`, `null`),
      kept as its text. */
  datatype Json =
    | Object(fields: Record)
    | Array(items: seq<Json>)
    | Str(text: string)
    | Scalar(literal: string)

  type Decoder = string -> Option<Json>

  /** Python's `key in v` on a decoded value: key lookup in an object,
      element equality in a list, substring search in a string; `None`
      where `in` raises, on numbers, booleans and `null`. */
  function MemberTest(v: Json, key: string): (r: Option<bool>)
    ensures r.None? <==> v.Scalar?
    ensures v.Object? ==> r == Some(key in v.fields)
    ensures v.Str? ==> (r == Some(true) <==> exists i :: OccursAt(v.text, key, i))
    ensures v.Array? ==> (r == Some(true) <==> exists i :: 0 <= i < |v.items| && v.items[i] == Str(key))
  {
    match v
    case Object(f) => Some(key in f)
    case Array(xs) => Some(Str(key) in xs)
    case Str(t) => ContainsIffOccurs(t, key); Some(Contains(t, key))
    case Scalar(_) => None
  }

  const JsonFence: string := "```json"
  const Fence: string := "```"
  /** The reply used when the API answer has no `content`. */
  const EmptyObject: string := "{}"

  const NotAvailable: string := "غير متوفر"
  const NotSpecified: string := "غير محدد"

  /** The seven fields every extraction result carries, with their
      defaults, in the order the source lists them. */
  const DefaultFields: seq<(string, string)> := [
    ("رقم_المستند", NotAvailable), ("التاريخ", NotAvailable), ("نوع_الوثيقة", NotSpecified),
    ("الجهة_الصادرة", NotAvailable), ("الاسم_الرئيسي", NotAvailable), ("المسؤول", NotAvailable),
    ("الموضوع", NotSpecified)
  ]

  function KeysOf(pairs: seq<(string, string)>): set<string> {
    set p | p in pairs :: p.0
  }

  predicate DistinctKeys(pairs: seq<(string, string)>) {
    forall i, j :: 0 <= i < j < |pairs| ==> pairs[i].0 != pairs[j].0
  }

  /** A dictionary literal: each pair in order, a later key overwriting an
      earlier one. */
  function RecordOf(pairs: seq<(string, string)>): Record
    decreases |pairs|
  {
    if pairs == [] then map[]
    else
      var p := pairs[|pairs| - 1];
      RecordOf(pairs[..|pairs| - 1])[p.0 := p.1]
  }

  /** A literal without repeated keys maps each of its keys to its value. */
  lemma {:induction false} RecordOfSpec(pairs: seq<(string, string)>)
    requires DistinctKeys(pairs)
    ensures RecordOf(pairs).Keys == KeysOf(pairs)
    ensures forall i :: 0 <= i < |pairs| ==> RecordOf(pairs)[pairs[i].0] == pairs[i].1
    decreases |pairs|
  {
    if pairs != [] {
      var n := |pairs| - 1;
      var pre := pairs[..n];
      RecordOfSpec(pre);
      assert forall i :: 0 <= i < n ==> pairs[i] == pre[i];
      assert pairs == pre + [pairs[n]];
    }
  }

  lemma DefaultFieldsDistinct()
    ensures DistinctKeys(DefaultFields)
  {
  }

  /** The default value of each expected field. The source writes this record
      twice: as the defaults merged into a decoded reply and, verbatim, as
      the fallback returned when decoding fails. */
  function DefaultRecord(): (r: Record)
    ensures r.Keys == KeysOf(DefaultFields)
    ensures forall i :: 0 <= i < |DefaultFields| ==> r[DefaultFields[i].0] == DefaultFields[i].1
  {
    DefaultFieldsDistinct();
    RecordOfSpec(DefaultFields);
    RecordOf(DefaultFields)
  }

  /** The text the source works on: the reply's content, or "{}" without one. */
  function ContentOf(reply: Option<string>): string {
    reply.GetOr(EmptyObject)
  }

  /** The stripped span from the first "{" to the last "}", or nothing when
      the last "}" comes first. */
  function BraceSpan(t: string): Option<string> {
    var start := Find(t, "{", 0);
    var end := RFind(t, "}") + 1;
    if start != -1 && end > start then Some(Strip(t[start..end])) else None
  }

  /** The JSON candidate `_extract_entities` cuts out of the stripped reply
      `t`: a "```json" fence, else a generic "```" fence, else the span from
      the first "{" to the last "}", else the whole text. `None` stands for
      the candidate left unset, on which `json.loads` raises. */
  function EntityCandidate(t: string): (r: Option<string>)
    ensures r.Some? ==> |r.value| <= |t|
    ensures r.None? ==> Contains(t, Fence) || (Contains(t, "{") && RFind(t, "}") < Find(t, "{", 0))
  {
    JsonFenceHoldsFence(t);
    if Contains(t, JsonFence) then
      var start := Find(t, JsonFence, 0) + |JsonFence|;
      var end := Find(t, Fence, start);
      if end != -1 then Some(Strip(t[start..end])) else None
    else if Contains(t, Fence) then
      var start := Find(t, Fence, 0) + |Fence|;
      var end := Find(t, Fence, start);
      if end != -1 then Some(Strip(t[start..end])) else None
    else if Contains(t, "{") && Contains(t, "}") then
      BraceSpan(t)
    else if StartsWith(t, "{") && EndsWith(t, "}") then
      Some(t)
    else
      Some(t)
  }

  /** Every "```json" contains a "```". */
  lemma JsonFenceIsFence(t: string, i: int)
    requires OccursAt(t, JsonFence, i)
    ensures OccursAt(t, Fence, i)
  {
    assert t[i..i + 3] == t[i..i + 7][..3];
  }

  /** A text holding "```json" holds "```". */
  lemma JsonFenceHoldsFence(t: string)
    ensures Contains(t, JsonFence) ==> Contains(t, Fence)
  {
    var f := Find(t, JsonFence, 0);
    if f != -1 {
      JsonFenceIsFence(t, f);
      ContainsIffOccurs(t, Fence);
    }
  }

  /** A text without "```" has neither kind of fence. */
  lemma NoFenceNoJsonFence(t: string)
    requires forall k :: !OccursAt(t, Fence, k)
    ensures !Contains(t, Fence) && !Contains(t, JsonFence)
  {
    var f := Find(t, JsonFence, 0);
    if f != -1 {
      JsonFenceIsFence(t, f);
    }
    assert Find(t, Fence, 0) == -1;
  }

  /** With a "```json" fence closed later by "```", the candidate is exactly
      the stripped text between the two. */
  lemma JsonFenceCandidate(t: string, i: nat, j: nat)
    requires OccursAt(t, JsonFence, i) && forall k :: 0 <= k < i ==> !OccursAt(t, JsonFence, k)
    requires i + |JsonFence| <= j && OccursAt(t, Fence, j)
    requires forall k :: i + |JsonFence| <= k < j ==> !OccursAt(t, Fence, k)
    ensures EntityCandidate(t) == Some(Strip(t[i + |JsonFence|..j]))
  {
    assert Find(t, JsonFence, 0) == i;
    assert Find(t, Fence, i + |JsonFence|) == j;
  }

  /** A "```json" fence with no "```" after it leaves no candidate. */
  lemma UnclosedJsonFenceHasNoCandidate(t: string, i: nat)
    requires OccursAt(t, JsonFence, i) && forall k :: 0 <= k < i ==> !OccursAt(t, JsonFence, k)
    requires forall k :: i + |JsonFence| <= k ==> !OccursAt(t, Fence, k)
    ensures EntityCandidate(t) == None
  {
    assert Find(t, JsonFence, 0) == i;
  }

  /** Without "```json", a generic "```" fence yields the stripped text up to
      the next "```", and no candidate when there is none. */
  lemma GenericFenceCandidate(t: string, i: nat)
    requires forall k :: !OccursAt(t, JsonFence, k)
    requires OccursAt(t, Fence, i) && forall k :: 0 <= k < i ==> !OccursAt(t, Fence, k)
    ensures var j := Find(t, Fence, i + |Fence|);
      && (j == -1 <==> forall k :: i + |Fence| <= k ==> !OccursAt(t, Fence, k))
      && EntityCandidate(t) == (if j == -1 then None else Some(Strip(t[i + |Fence|..j])))
  {
    assert Find(t, JsonFence, 0) == -1;
    assert Find(t, Fence, 0) == i;
  }

  lemma BraceSpanAt(t: string, i: nat, j: nat)
    requires i < |t| && t[i] == '{' && forall k :: 0 <= k < i ==> t[k] != '{'
    requires j < |t| && t[j] == '}' && forall k :: j < k < |t| ==> t[k] != '}'
    ensures BraceSpan(t) == if i < j then Some(Strip(t[i..j + 1])) else None
  {
    FindChar(t, '{', i);
    RFindChar(t, '}', j);
    assert "{" == ['{'] && "}" == ['}'];
    assert i != j;
  }

  /** Without any fence, a reply holding both braces yields the stripped span
      from the first "{" to the last "}" inclusive, and no candidate when
      the last "}" comes before the first "{". */
  lemma BraceCandidate(t: string, i: nat, j: nat)
    requires forall k :: !OccursAt(t, Fence, k)
    requires i < |t| && t[i] == '{' && forall k :: 0 <= k < i ==> t[k] != '{'
    requires j < |t| && t[j] == '}' && forall k :: j < k < |t| ==> t[k] != '}'
    ensures EntityCandidate(t) == if i < j then Some(Strip(t[i..j + 1])) else None
  {
    NoFenceNoJsonFence(t);
    BraceSpanAt(t, i, j);
    OccursAtChar(t, '{', i);
    OccursAtChar(t, '}', j);
    assert "{" == ['{'] && "}" == ['}'];
    assert Contains(t, "{") && Contains(t, "}");
  }

  /** A reply with no fence and not both braces is its own candidate. */
  lemma WholeReplyCandidate(t: string)
    requires forall k :: !OccursAt(t, Fence, k)
    requires !(Contains(t, "{") && Contains(t, "}"))
    ensures EntityCandidate(t) == Some(t)
  {
    NoFenceNoJsonFence(t);
  }

  /** The "starts with { and ends with }" test is never reached: such a text
      already holds both braces, so the brace rule takes it, and for a
      stripped reply without fences that rule yields the whole text. */
  lemma BracedReplyTakesBraceRule(t: string)
    requires StartsWith(t, "{") && EndsWith(t, "}")
    ensures Contains(t, "{") && Contains(t, "}")
    ensures (forall k :: !OccursAt(t, Fence, k)) && Strip(t) == t ==> EntityCandidate(t) == Some(t)
  {
    assert t[0] == t[..1][0];
    assert t[|t| - 1] == t[|t| - 1..][0];
    OccursAtChar(t, '{', 0);
    OccursAtChar(t, '}', |t| - 1);
    if (forall k :: !OccursAt(t, Fence, k)) && Strip(t) == t {
      BraceCandidate(t, 0, |t| - 1);
      assert t[0..|t| - 1 + 1] == t;
    }
  }

  /** `pairs` added to `d` in order, each only when its key is not there yet. */
  function FillMissing(d: Record, pairs: seq<(string, string)>): Record
    decreases |pairs|
  {
    if pairs == [] then d
    else
      var before := FillMissing(d, pairs[..|pairs| - 1]);
      var p := pairs[|pairs| - 1];
      if p.0 in before then before else before[p.0 := p.1]
  }

  /** Filling in a literal without repeated keys keeps every present value
      and adds the literal's value for every missing key. */
  lemma {:induction false} FillMissingIsUnion(d: Record, pairs: seq<(string, string)>)
    requires DistinctKeys(pairs)
    ensures FillMissing(d, pairs) == RecordOf(pairs) + d
    decreases |pairs|
  {
    if pairs != [] {
      var n := |pairs| - 1;
      var pre := pairs[..n];
      assert DistinctKeys(pre);
      FillMissingIsUnion(d, pre);
      RecordOfSpec(pre);
      var k := pairs[n].0;
      assert k !in KeysOf(pre);
    }
  }

  /** `_extract_entities`' default merge: every expected field missing from
      the decoded record gets its default; fields already present keep their
      values, and nothing else is added or changed. */
  method MergeDefaults(decoded: Record) returns (merged: Record)
    ensures merged == DefaultRecord() + decoded
    ensures merged.Keys == decoded.Keys + KeysOf(DefaultFields)
    ensures forall k :: k in decoded ==> merged[k] == decoded[k]
    ensures forall i :: 0 <= i < |DefaultFields| && DefaultFields[i].0 !in decoded ==>
              merged[DefaultFields[i].0] == DefaultFields[i].1
  {
    merged := decoded;
    var i := 0;
    while i < |DefaultFields|
      invariant 0 <= i <= |DefaultFields|
      invariant merged == FillMissing(decoded, DefaultFields[..i])
    {
      var (key, defaultValue) := DefaultFields[i];
      assert DefaultFields[..i + 1][..i] == DefaultFields[..i];
      if key !in merged {
        merged := merged[key := defaultValue];
      }
      i := i + 1;
    }
    assert DefaultFields[..i] == DefaultFields;
    DefaultFieldsDistinct();
    FillMissingIsUnion(decoded, DefaultFields);
  }

  /** The text `_review_extracted_data` hands to the decoder, cut out of the
      stripped review reply `t`: a closed "```json" fence, else the span
      from the first "{" to the last "}" (empty when they are out of order),
      else the text unchanged. Unlike extraction, an unclosed fence keeps
      the whole text and a generic "```" fence is not looked for. */
  function ReviewCandidate(t: string): (r: string)
    ensures |r| <= |t|
  {
    if Contains(t, JsonFence) then
      var start := Find(t, JsonFence, 0) + |JsonFence|;
      var end := Find(t, Fence, start);
      if end != -1 then Strip(t[start..end]) else t
    else if Contains(t, "{") && Contains(t, "}") then
      var start := Find(t, "{", 0);
      var end := RFind(t, "}") + 1;
      Strip(Slice(t, start, end))
    else
      t
  }

  /** With a "```json" fence closed later by "```", the review decodes the
      stripped text between the two. */
  lemma ReviewJsonFenceCut(t: string, i: nat, j: nat)
    requires OccursAt(t, JsonFence, i) && forall k :: 0 <= k < i ==> !OccursAt(t, JsonFence, k)
    requires i + |JsonFence| <= j && OccursAt(t, Fence, j)
    requires forall k :: i + |JsonFence| <= k < j ==> !OccursAt(t, Fence, k)
    ensures ReviewCandidate(t) == Strip(t[i + |JsonFence|..j])
  {
    assert Find(t, JsonFence, 0) == i;
    assert Find(t, Fence, i + |JsonFence|) == j;
  }

  /** Without "```json", a reply whose first "{" comes before its last "}"
      is cut to the stripped span between them, inclusive, even when it
      holds a generic "```" fence that extraction would have cut first. */
  lemma ReviewBraceCut(t: string, i: nat, j: nat)
    requires forall k :: !OccursAt(t, JsonFence, k)
    requires i < |t| && t[i] == '{' && forall k :: 0 <= k < i ==> t[k] != '{'
    requires j < |t| && t[j] == '}' && forall k :: j < k < |t| ==> t[k] != '}'
    requires i < j
    ensures ReviewCandidate(t) == Strip(t[i..j + 1])
  {
    FindChar(t, '{', i);
    RFindChar(t, '}', j);
    OccursAtChar(t, '{', i);
    OccursAtChar(t, '}', j);
    assert "{" == ['{'] && "}" == ['}'];
    assert Contains(t, "{") && Contains(t, "}");
    assert Slice(t, i, j + 1) == t[i..j + 1];
  }

  /** Without "```json" and without one of the two braces, the review
      decodes the stripped reply as it is. */
  lemma ReviewWholeText(t: string)
    requires forall k :: !OccursAt(t, JsonFence, k)
    requires (forall k :: 0 <= k < |t| ==> t[k] != '{') || (forall k :: 0 <= k < |t| ==> t[k] != '}')
    ensures ReviewCandidate(t) == t
  {
    assert "{" == ['{'] && "}" == ['}'];
    var open := Find(t, "{", 0);
    var close := Find(t, "}", 0);
    if open != -1 && close != -1 {
      OccursAtChar(t, '{', open);
      OccursAtChar(t, '}', close);
    }
  }

  /** `_review_extracted_data`: whatever the reviewer's reply decodes to
      (an object or any other JSON value) replaces the data, and the data
      comes back unchanged when the reply does not decode. */
  function ReviewExtractedData(data: Json, reply: Option<string>, decode: Decoder): (r: Json)
    ensures decode(ReviewCandidate(Strip(ContentOf(reply)))).None? ==> r == data
    ensures decode(ReviewCandidate(Strip(ContentOf(reply)))).Some? ==>
              r == decode(ReviewCandidate(Strip(ContentOf(reply)))).value
  {
    match decode(ReviewCandidate(Strip(ContentOf(reply))))
    case Some(reviewed) => reviewed
    case None => data
  }

  lemma EmptyObjectStrips()
    ensures Strip(EmptyObject) == EmptyObject
  {
    assert TrimLeft(EmptyObject) == EmptyObject;
    assert TrimRight(EmptyObject) == EmptyObject;
  }

  lemma EmptyObjectBraces()
    ensures forall k :: !OccursAt(EmptyObject, Fence, k)
    ensures !Contains(EmptyObject, JsonFence)
    ensures Find(EmptyObject, "{", 0) == 0 && RFind(EmptyObject, "}") == 1
  {
    var t := EmptyObject;
    assert t[0] == '{' && t[1] == '}';
    FindChar(t, '{', 0);
    RFindChar(t, '}', 1);
    assert "{" == ['{'] && "}" == ['}'];
  }

  /** "{}" strips to itself and is its own candidate under both cutting rules. */
  lemma EmptyObjectCandidates()
    ensures Strip(EmptyObject) == EmptyObject
    ensures EntityCandidate(EmptyObject) == Some(EmptyObject)
    ensures ReviewCandidate(EmptyObject) == EmptyObject
  {
    var t := EmptyObject;
    EmptyObjectStrips();
    EmptyObjectBraces();
    BraceCandidate(t, 0, 1);
    assert t[0..2] == t;
    assert Slice(t, 0, 2) == t;
  }

  /** A review reply without `content` falls back to "{}"; when that decodes
      to the empty object, the empty object replaces the data. */
  lemma ReviewWithoutContentEmptiesData(data: Json, decode: Decoder)
    requires decode(EmptyObject) == Some(Object(map[]))
    ensures ReviewExtractedData(data, None, decode) == Object(map[])
  {
    EmptyObjectCandidates();
  }

  /** A "```json" fence left open makes the review decode the whole stripped
      reply, where extraction would have had no candidate at all. */
  lemma ReviewUnclosedJsonFence(t: string, i: nat)
    requires OccursAt(t, JsonFence, i) && forall k :: 0 <= k < i ==> !OccursAt(t, JsonFence, k)
    requires forall k :: i + |JsonFence| <= k ==> !OccursAt(t, Fence, k)
    ensures ReviewCandidate(t) == t
    ensures EntityCandidate(t) == None
  {
    assert Find(t, JsonFence, 0) == i;
  }

  /** With the last "}" before the first "{" (and no "```json"), the review
      decodes the empty string. */
  lemma ReviewBracesOutOfOrder(t: string, i: nat, j: nat)
    requires forall k :: !OccursAt(t, JsonFence, k)
    requires i < |t| && t[i] == '{' && forall k :: 0 <= k < i ==> t[k] != '{'
    requires j < |t| && t[j] == '}' && forall k :: j < k < |t| ==> t[k] != '}'
    requires j < i
    ensures ReviewCandidate(t) == []
  {
    FindChar(t, '{', i);
    RFindChar(t, '}', j);
    OccursAtChar(t, '{', i);
    OccursAtChar(t, '}', j);
    assert TrimLeft([]) == [];
  }

  /** Every expected field name is `in` the decoded value. On a value that
      is not an object this is the only way through the default merge: the
      first name that is not `in` it makes the assignment raise, and on a
      number, boolean or `null` the `in` test itself raises. */
  predicate HoldsEveryDefault(v: Json) {
    forall i :: 0 <= i < |DefaultFields| ==> MemberTest(v, DefaultFields[i].0) == Some(true)
  }

  /** Which decoded values get through the merge unchanged: an object always
      does (it is filled in instead); a number, boolean, `null`, empty list
      or string shorter than the first expected name never does; a list of
      the seven expected names does. */
  lemma HoldsEveryDefaultCases(v: Json)
    ensures v.Scalar? ==> !HoldsEveryDefault(v)
    ensures v == Array([]) ==> !HoldsEveryDefault(v)
    ensures v.Str? && |v.text| < |DefaultFields[0].0| ==> !HoldsEveryDefault(v)
    ensures v == Array(seq(|DefaultFields|, i requires 0 <= i < |DefaultFields| => Str(DefaultFields[i].0))) ==>
              HoldsEveryDefault(v)
  {
    if v.Scalar? || v == Array([]) {
      assert MemberTest(v, DefaultFields[0].0) != Some(true);
    }
    if v.Str? && |v.text| < |DefaultFields[0].0| {
      assert MemberTest(v, DefaultFields[0].0) == Some(false);
    }
    if v == Array(seq(|DefaultFields|, i requires 0 <= i < |DefaultFields| => Str(DefaultFields[i].0))) {
      forall i | 0 <= i < |DefaultFields|
        ensures MemberTest(v, DefaultFields[i].0) == Some(true)
      {
        assert v.items[i] == Str(DefaultFields[i].0);
      }
    }
  }

  /** `_extract_entities` after the API call: cut a candidate out of the
      stripped reply and decode it. A decoded object gets the seven expected
      fields back-filled; any other decoded value goes through the same loop,
      which leaves it unchanged when every expected name is `in` it and
      raises otherwise. What survives goes through the review pass; when
      there is no candidate, it does not decode, or the merge raises, the
      result is the fixed seven-field fallback record. */
  method ExtractEntities(reply: Option<string>, reviewReply: Option<string>, decode: Decoder)
    returns (r: Json)
    ensures var c := EntityCandidate(Strip(ContentOf(reply)));
      (c.None? || decode(c.value).None?) ==> r == Object(DefaultRecord())
    ensures var c := EntityCandidate(Strip(ContentOf(reply)));
      (c.Some? && decode(c.value).Some? && decode(c.value).value.Object?) ==>
        r == ReviewExtractedData(Object(DefaultRecord() + decode(c.value).value.fields), reviewReply, decode)
    ensures var c := EntityCandidate(Strip(ContentOf(reply)));
      (c.Some? && decode(c.value).Some? && !decode(c.value).value.Object?) ==>
        r == if HoldsEveryDefault(decode(c.value).value)
             then ReviewExtractedData(decode(c.value).value, reviewReply, decode)
             else Object(DefaultRecord())
  {
    var content := Strip(ContentOf(reply));
    var candidate := EntityCandidate(content);
    if candidate.None? {
      return Object(DefaultRecord());
    }
    var decoded := decode(candidate.value);
    if decoded.None? {
      return Object(DefaultRecord());
    }
    var value := decoded.value;
    if value.Object? {
      var merged := MergeDefaults(value.fields);
      return ReviewExtractedData(Object(merged), reviewReply, decode);
    }
    var i := 0;
    while i < |DefaultFields|
      invariant 0 <= i <= |DefaultFields|
      invariant forall j :: 0 <= j < i ==> MemberTest(value, DefaultFields[j].0) == Some(true)
    {
      if MemberTest(value, DefaultFields[i].0) != Some(true) {
        return Object(DefaultRecord());
      }
      i := i + 1;
    }
    r := ReviewExtractedData(value, reviewReply, decode);
  }

  const TypeKey: string := "نوع_الوثيقة"
  const ConfidenceKey: string := "مستوى_الثقة"
  const ReasonKey: string := "السبب"

  /** `_classify_document` after the API call: the reply's content, unstripped,
      is decoded and returned whatever JSON value it is; when it does not
      decode, the fixed three-field record "other / low / analysis failed". */
  function ClassifyDocument(reply: Option<string>, decode: Decoder): (r: Json)
    ensures decode(ContentOf(reply)).Some? ==> r == decode(ContentOf(reply)).value
    ensures decode(ContentOf(reply)).None? ==>
      && r.Object?
      && r.fields.Keys == {TypeKey, ConfidenceKey, ReasonKey}
      && r.fields[TypeKey] == "أخرى"
      && r.fields[ConfidenceKey] == "منخفض"
      && r.fields[ReasonKey] == "فشل في التحليل"
  {
    match decode(ContentOf(reply))
    case Some(classification) => classification
    case None => Object(map[TypeKey := "أخرى", ConfidenceKey := "منخفض", ReasonKey := "فشل في التحليل"])
  }
}
