# Document analysis core, modelled in Dafny

This project models the computational core of an Arabic document-processing
backend. The backend OCRs scanned pages. It asks LLM agents to extract,
review and classify the entities on each page, and it reports on the result.
The Dafny model covers the parts that turn agent replies and extracted fields
into structured results:

- **Agent replies** (`replies.dfy`, module `AgentReplies`). These are the
  steps of the document agent that follow the LLM call:
  - cutting a JSON candidate out of an extraction reply (a "```json" fence, a
    generic "```" fence, the span from the first "{" to the last "}", or the
    whole reply);
  - merging the seven default fields into the decoded record;
  - the review step, which replaces the data with the reviewer's decoded
    reply or keeps it;
  - the classification step and its fallback record.
- **Processing summary** (`summary.dfy`, module `ProcessingSummary`). This is
  `generate_processing_summary`:
  - it counts successful and failed pages and sums their processing times;
  - it collects document numbers, dates, names and document types from the
    pages whose agent succeeded;
  - it de-duplicates each list with `list(set(...))`. That raises when a
    collected value is itself a list; the model returns `None` there.
- **Document analysis** (`analysis.dfy`, module `DocumentAnalysis`). This is
  the computation of the `/analyze-document` handler:
  - field statistics;
  - grouping the filled fields by cleaned value;
  - duplicate detection (groups of two or more fields whose value has at
    least three characters);
  - attribute-variation detection over six groups of Arabic field-name
    fragments;
  - the risk tier, the recommendations, and the list of missing fields;
  - the overall status and next steps;
  - the handler's two error exits.
- **Python text primitives** (`pytext.dfy`, module `PyText`): `str.strip()`
  with CPython's whitespace set, `find`/`rfind` returning -1, `in` on
  strings, `startswith`/`endswith`, clamped slicing, and the facts about
  them that the other modules use.

The loops of the source are methods with loop invariants. Each method's
`ensures` ties its result to specification functions of the input. The
properties the source relies on are proved as lemmas about those functions.
Two things are abstract parameters rather than being modelled:

- `lower` stands for Python's `str.lower()`;
- `decode` stands for `json.loads`. It yields the decoded JSON value (an
  object, a list, a string or another literal) and `None` where `json.loads`
  raises. A decoded value that is not an object is passed on as the source
  passes it on: the review and the classifier return it as it is, and the
  extraction merge keeps it only when every expected field name is `in` it.

The float comparison `empty_fields > total_fields * 0.3` is modelled in
integers as `10 * empty > 3 * total`. The comparison
`empty_fields < total_fields * 0.3` is modelled as `10 * empty < 3 * total`.

Two behaviours of the source are stated as lemmas:

- An analysis of OCR text alone (no fields) is rated low-risk and "complete"
  in its recommendations, yet its overall status reads "incomplete"
  (`OcrTextOnlyReadsIncomplete`).
- A reply that starts with "{" and ends with "}" holds both braces, so when
  it has no "```" fence the brace-span rule takes it. A fenced reply is taken
  by a fence rule first. Either way the source's fourth extraction pattern
  never decides anything (`BracedReplyTakesBraceRule`).

## Model

| member | source | states |
|---|---|---|
| PyText.Strip | backend/agents/document_agent.py:303 | `str.strip()` never lengthens its input, and the result neither starts nor ends with whitespace |
| PyText.TrimLeftWindow | backend/agents/document_agent.py:303 | the left trim keeps a suffix of the input and drops only whitespace in front of it |
| PyText.TrimRightWindow | backend/agents/document_agent.py:303 | the right trim keeps a prefix of the input and drops only whitespace behind it |
| PyText.StripWindow | backend/agents/document_agent.py:303 | the stripped text is a contiguous window of the input, with only whitespace on either side |
| PyText.StripEmptyIffAllSpace | backend/main.py:440 | a value strips to "" exactly when every character is whitespace, which is the source's test for an empty field |
| PyText.StripIdempotent | backend/main.py:451 | stripping an already stripped value changes nothing |
| PyText.Find | backend/agents/document_agent.py:306-319 | `find` returns -1 or an index at or after the start where the pattern occurs, and the pattern occurs nowhere before that index |
| PyText.RFindFrom | backend/agents/document_agent.py:326 | the last occurrence at or below a bound, or -1, with no occurrence between it and the bound |
| PyText.RFind | backend/agents/document_agent.py:326 | `rfind` returns -1 or an occurrence, and the pattern occurs at no later index |
| PyText.ContainsIffOccurs | backend/agents/document_agent.py:309 | `sub in s` holds exactly when `sub` occurs at some index |
| PyText.OccursAtChar | backend/agents/document_agent.py:323-326 | a one-character pattern occurs exactly at the positions of that character |
| PyText.FindChar | backend/agents/document_agent.py:325 | `find` of a character is its first position |
| PyText.RFindChar | backend/agents/document_agent.py:326 | `rfind` of a character is its last position |
| PyText.Slice | backend/agents/document_agent.py:405-408 | Python slicing with non-negative bounds never lengthens the text: an in-range slice is the Dafny subsequence, and an empty range gives "" |
| PyText.ToSetAppend | backend/main.py:452-454 | appending one element adds exactly that element to the element set |
| AgentReplies.MemberTest | backend/agents/document_agent.py:353 | Python's `key in v` raises exactly on numbers, booleans and `null`; on a list it holds exactly when some element is that string; on a string it holds exactly when the key occurs in it; on an object it is key lookup |
| AgentReplies.EntityCandidate | backend/agents/document_agent.py:306-335 | the extraction candidate is never longer than the stripped reply, and it is unset only when the reply holds a "```" fence or its last "}" comes before its first "{" |
| AgentReplies.JsonFenceHoldsFence | backend/agents/document_agent.py:309-316 | a reply holding "```json" holds "```" |
| AgentReplies.RecordOfSpec | backend/agents/document_agent.py:341-349 | a dictionary literal with distinct keys has exactly those keys, each with its value |
| AgentReplies.DefaultFieldsDistinct | backend/agents/document_agent.py:341-349 | the seven default field names are distinct |
| AgentReplies.DefaultRecord | backend/agents/document_agent.py:341-349 | the default record has exactly the seven default keys, each with its default text |
| AgentReplies.JsonFenceIsFence | backend/agents/document_agent.py:309-316 | every "```json" opens with "```", so the generic-fence rule is only reached without a "```json" |
| AgentReplies.NoFenceNoJsonFence | backend/agents/document_agent.py:309-323 | a reply without "```" has neither fence, so the brace rule is reached |
| AgentReplies.JsonFenceCandidate | backend/agents/document_agent.py:309-315 | with a closed "```json" fence, the candidate is the stripped text between the first "```json" and the next "```" |
| AgentReplies.UnclosedJsonFenceHasNoCandidate | backend/agents/document_agent.py:309-339 | a "```json" with no later "```" leaves the candidate unset, so decoding fails |
| AgentReplies.GenericFenceCandidate | backend/agents/document_agent.py:316-322 | without "```json", the candidate is the stripped text between the first two "```"; it is unset when there is no closing fence |
| AgentReplies.BraceSpanAt | backend/agents/document_agent.py:323-329 | the brace span runs from the first "{" through the last "}", and there is none when the last "}" comes before the first "{" |
| AgentReplies.BraceCandidate | backend/agents/document_agent.py:323-329 | a reply with braces and no fence yields the stripped brace span as its candidate, or none when the braces are out of order |
| AgentReplies.WholeReplyCandidate | backend/agents/document_agent.py:330-334 | a reply with no fence and not both braces is decoded whole |
| AgentReplies.BracedReplyTakesBraceRule | backend/agents/document_agent.py:323-334 | a reply that starts with "{" and ends with "}" contains both braces, so the brace rule takes it and the startswith/endswith rule is never reached |
| AgentReplies.FillMissingIsUnion | backend/agents/document_agent.py:352-354 | adding each missing default in turn gives the defaults overridden by the decoded record |
| AgentReplies.MergeDefaults | backend/agents/document_agent.py:352-354 | after the loop the record is the defaults overridden by the decoded record: its keys are the union, decoded values are kept, and each missing default key has its default |
| AgentReplies.ReviewCandidate | backend/agents/document_agent.py:399-408 | the review's cut is never longer than the stripped reply |
| AgentReplies.ReviewJsonFenceCut | backend/agents/document_agent.py:400-404 | with a closed "```json" fence, the review decodes the stripped text between the first "```json" and the next "```" |
| AgentReplies.ReviewBraceCut | backend/agents/document_agent.py:405-408 | without "```json", a reply whose first "{" precedes its last "}" is cut to the stripped span between them, even when it holds a generic "```" fence |
| AgentReplies.ReviewWholeText | backend/agents/document_agent.py:399-408 | without "```json" and without one of the braces, the stripped reply is decoded as it is |
| AgentReplies.ReviewExtractedData | backend/agents/document_agent.py:396-415 | whatever JSON value the reviewer's cut reply decodes to replaces the data, an object or not; when it does not decode, the data is returned unchanged |
| AgentReplies.EmptyObjectCandidates | backend/agents/document_agent.py:300-303 | a reply with no content is read as "{}", which both the extraction rule and the review rule pass through unchanged |
| AgentReplies.ReviewWithoutContentEmptiesData | backend/agents/document_agent.py:396-413 | a review reply without content decodes "{}" and so replaces the data with the empty object |
| AgentReplies.HoldsEveryDefaultCases | backend/agents/document_agent.py:352-354 | a decoded number, boolean, `null`, empty list or short string never gets through the default merge, while a list of the seven expected names does |
| AgentReplies.ReviewUnclosedJsonFence | backend/agents/document_agent.py:400-404 | with an unclosed "```json", the review decodes the whole stripped reply, while extraction leaves its candidate unset |
| AgentReplies.ReviewBracesOutOfOrder | backend/agents/document_agent.py:405-408 | when the last "}" precedes the first "{", the review slice is empty |
| AgentReplies.ExtractEntities | backend/agents/document_agent.py:299-371 | an unset or undecodable candidate gives the seven-field fallback record; a decoded object is reviewed with the defaults merged under it; any other decoded value is reviewed unchanged when every expected name is `in` it, and gives the fallback record otherwise |
| AgentReplies.ClassifyDocument | backend/agents/document_agent.py:421-436 | the unstripped reply is returned decoded, whatever JSON value it is; when it does not decode, the result is exactly the three-key fallback object (other / low / analysis failed) |
| ProcessingSummary.Dedup | backend/main.py:412-415 | `list(set(xs))` fails exactly when an element is a list; otherwise it holds each element of `xs` once and no others |
| ProcessingSummary.CollectEntities | backend/main.py:385-407 | one successful page appends its truthy document number, its truthy dates in key order, every listed name or a single truthy name, and its truthy document type |
| ProcessingSummary.GenerateProcessingSummary | backend/main.py:358-417 | the summary fails exactly when a collected value is a list; otherwise each count, the time and every de-duplicated list are those of the in-order tally of the pages, and locations, organisations and confidence scores are empty |
| ProcessingSummary.TallyOf | backend/main.py:376-409 | folding the pages in order, every page adds to exactly one of the two counters |
| ProcessingSummary.CountersPartitionPages | backend/main.py:376-409 | the successful and failed counters add up to the page count, and the first counts the successful pages |
| ProcessingSummary.SumOfTimesSnoc | backend/main.py:381-382 | the time sum over one more page adds that page's contribution |
| ProcessingSummary.TimeSumsSuccessfulPages | backend/main.py:377-382 | the total time is the sum of the processing times of the successful pages that report one |
| ProcessingSummary.TallyCollectsPageEntities | backend/main.py:376-407 | each collected list is the concatenation, page by page, of what each page contributes |
| ProcessingSummary.EntitiesOfMembers | backend/main.py:385-407 | a value is in the concatenation exactly when some page contributes it |
| ProcessingSummary.CollectedFromEntityPages | backend/main.py:385-407 | a value is collected exactly when some page whose agent succeeded yields it |
| ProcessingSummary.SummaryCounters | backend/main.py:358-417 | in a returned summary the counters add up to the page count, and the time is the sum over the successful pages |
| ProcessingSummary.SummaryListsPageEntities | backend/main.py:358-417 | each returned list has no repeats and holds exactly the values some successful page contributed |
| DocumentAnalysis.KeysWhere | backend/main.py:585-586 | selecting fields in key order never yields more keys than there are fields |
| DocumentAnalysis.KeysWhereMembers | backend/main.py:508-513 | a key is selected exactly when some field with that key satisfies the test |
| DocumentAnalysis.KeysWhereNone | backend/main.py:515 | nothing is selected exactly when no field satisfies the test |
| DocumentAnalysis.FirstKeyWhere | backend/main.py:465 | the first selected key belongs to the first field that satisfies the test |
| DocumentAnalysis.KeysWhereSplit | backend/main.py:439-441 | a test and its negation split the fields between them |
| DocumentAnalysis.FilledCount | backend/main.py:440 | the filled count never exceeds the number of fields |
| DocumentAnalysis.FirstOccurrencesSpec | backend/main.py:448-454 | the dictionary's keys are listed once each, in insertion order, and are exactly the groups some field falls in |
| DocumentAnalysis.GroupBySpec | backend/main.py:448-454 | each dictionary entry lists, in order, the fields of its group |
| DocumentAnalysis.GroupByValue | backend/main.py:448-454 | the loop builds the value-to-fields dictionary: its keys in insertion order are the cleaned values, and each maps to the filled fields with that cleaned value |
| DocumentAnalysis.FieldsWithValueMembers | backend/main.py:449-454 | a field is listed under a cleaned value exactly when it is filled and its stripped, lower-cased value is that value |
| DocumentAnalysis.CleanValuesAreTheGroups | backend/main.py:448-454 | the dictionary's keys are distinct and are exactly the cleaned values some filled field has |
| DocumentAnalysis.ValueOfField | backend/main.py:465 | looking a key up gives that field's original value |
| DocumentAnalysis.DuplicatesAmong | backend/main.py:457-463 | a value is reported exactly when more than one field has it and its stripped length is at least three |
| DocumentAnalysis.DetailsMatchValues | backend/main.py:457-470 | the details list and the reported values correspond one to one, in order |
| DocumentAnalysis.FindDuplicates | backend/main.py:457-470 | the loop over the dictionary yields exactly the reported values and their details, in insertion order |
| DocumentAnalysis.DuplicateReportedIff | backend/main.py:458-461 | a cleaned value is reported exactly when at least two fields have it and it is at least three characters long after stripping |
| DocumentAnalysis.DuplicateDetailFacts | backend/main.py:464-470 | each detail names the fields sharing the value and counts them (at least two); its severity is "high" exactly when more than two share it; its value is the original text of the first such field |
| DocumentAnalysis.FieldsMentioning | backend/main.py:507-513 | the inner loops collect, in key order, the field names whose lower-cased, stripped form contains one of the group's fragments |
| DocumentAnalysis.DetectVariations | backend/main.py:496-522 | the loop over the six groups yields exactly the specified variation details |
| DocumentAnalysis.MatchingFieldsMembers | backend/main.py:508-513 | a field name is collected for a group exactly when it mentions one of the group's fragments |
| DocumentAnalysis.VariationsAmongSpec | backend/main.py:506-522 | a detail is reported for a group exactly when two or more field names mention it; it holds those names and their count; there are no more details than groups |
| DocumentAnalysis.VariationConceptsDistinct | backend/main.py:506-522 | groups with distinct concept names give details with distinct concept names |
| DocumentAnalysis.AttributeConceptsReportedOnce | backend/main.py:496-522 | over the six attribute groups, no concept is reported twice |
| DocumentAnalysis.RiskTier | backend/main.py:530-543 | no issues give low / medium / authentic; one to three give medium / high / authentic; more than three give high / urgent / requires_review; risk is low exactly when there are no issues and high exactly when there are more than three |
| DocumentAnalysis.RiskNeverDecreases | backend/main.py:530-543 | more issues never give a lower risk level |
| DocumentAnalysis.Recommendations | backend/main.py:546-556 | the appends build exactly the recommendation list |
| DocumentAnalysis.MessagesDistinct | backend/main.py:548-556 | the five recommendation messages are pairwise different |
| DocumentAnalysis.RecommendedSpec | backend/main.py:546-556 | the list is never empty and has no repeats; each message is present exactly under its condition; "appears complete" exactly when there are no duplicates, no variations and no empty fields |
| DocumentAnalysis.Importance | backend/main.py:582 | a missing field is "critical" exactly when its lower-cased name contains the word for number or date, otherwise "important" exactly when it contains the word for name or place, otherwise "standard" |
| DocumentAnalysis.MissingCriticalData | backend/main.py:579-587 | one entry per empty field, each rated by its lower-cased name |
| DocumentAnalysis.MissingAreTheEmptyFields | backend/main.py:579-587 | a field is listed as missing exactly when it is empty |
| DocumentAnalysis.Take | backend/main.py:568-573 | `xs[:n]` is the prefix of `xs` with exactly n elements, or all of `xs` when it is shorter |
| DocumentAnalysis.OverallStatus | backend/main.py:596 | the status is "complete" exactly when fewer than 30% of the fields are empty, and "incomplete" otherwise; "complete" needs fewer empty than total fields and not more than 30% empty; a non-empty document with no empty field is "complete" |
| DocumentAnalysis.AnalyzeDocument | backend/main.py:419-656 | without an agent, a 500 error; with no fields and no OCR text, the 400 error re-raised as 500; otherwise the analysis of the fields |
| DocumentAnalysis.AnalysisCounts | backend/main.py:439-599 | filled plus empty is the total; one missing entry per empty field; at most three details of each kind; risk is low exactly when there are no empty fields, duplicates or variations |
| DocumentAnalysis.NoFieldsNoVariations | backend/main.py:506-522 | with no fields there are no variations |
| DocumentAnalysis.OcrTextOnlyReadsIncomplete | backend/main.py:530-597 | OCR text with no fields gives low risk and the "appears complete" recommendation, but an "incomplete" overall status |
| DocumentAnalysis.ThirtyPercentBoundary | backend/main.py:553-596 | a mostly empty document is "incomplete"; at exactly 30% empty it is "incomplete" without the "appears incomplete" recommendation |

## Left out

- The LLM prompts and calls, the OCR step, the HTTP request parsing and the printing are not modelled. Agent replies are parameters (`Option<string>`, where `None` is a reply without a "content" key).
- `json.loads` and `str.lower()` are abstract parameters. JSON syntax and Unicode case mapping are not modelled. The values inside a decoded object are strings; objects whose values are numbers, lists or objects are not modelled.
- AgentReplies.ExtractEntities: an exception outside the decode step returns `{"error": ...}` (backend/agents/document_agent.py:373-374). The only one the model could reach is a reply whose "content" is JSON null. Null content is not modelled.
- AgentReplies.ReviewExtractedData: a null "content" makes `.strip()` raise, and the data is then returned unchanged (:417-419). Null content is not modelled.
- AgentReplies.ClassifyDocument: a reply whose "content" is JSON null makes `json.loads` raise, which gives the fallback record (:431-436). Null content is not modelled; a reply is either text or absent.
- AgentReplies.MergeDefaults: the contract fixes the keys and values but not the dictionary's key order.
- DocumentAnalysis.AnalyzeDocument: the inner handler at backend/main.py:600-651 returns a default analysis when the computation raises. With string keys and values the computation cannot raise, so that path is not modelled. The same goes for the response envelope at :601-605.
- DocumentAnalysis.AnalyzeDocument: field values are strings. Numbers, lists and objects in `extracted_data`, whose `str()` form the source uses, are not modelled.
- DocumentAnalysis.AnalyzeDocument: these human-readable texts are not modelled: `duplicate_fields`, the `details` reports, each detail's `issue` and `suggestion`, and each missing field's `reason`.
- DocumentAnalysis.AttributeGroups: the concept names that `.title()` derives from the group keys are written out as constants.
- DocumentAnalysis.OverallStatus: the float product `total * 0.3` is replaced by exact integer arithmetic. Float rounding is not modelled.
- ProcessingSummary.GenerateProcessingSummary: processing times are exact reals, so float rounding is not modelled. `set()` order is left open. Extracted values are null, strings or lists; numbers and objects are not modelled.
- ProcessingSummary.GenerateProcessingSummary: a page whose agent `extracted_data` is not a dictionary is not modelled. The source raises at backend/main.py:389-406 on such a value, or collects nothing from a list or string that holds none of the key names.
