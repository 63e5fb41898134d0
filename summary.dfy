/** `generate_processing_summary` of backend/main.py: the fold of the
    per-page records of one upload into page counters, a processing-time
    total and de-duplicated lists of the entities found on the pages. */
module ProcessingSummary {
  import opened PyText

  /** A value of a page's `extracted_data`: JSON null, a string, or a list
      of strings. */
  datatype FieldValue = Null | Text(text: string) | Items(items: seq<string>)

  /** Python truthiness of a value. */
  predicate Truthy(v: FieldValue) {
    match v
    case Null => false
    case Text(s) => s != []
    case Items(xs) => xs != []
  }

  /** The `agent_result` of a page; a missing `extracted_data` is the empty map. */
  datatype AgentResult = AgentResult(success: bool, extractedData: map<string, FieldValue>)

  /** One page record: its `success` flag, its `processing_time` when the
      record has that key, and its `agent_result` when it has one. */
  datatype Page = Page(success: bool, processingTime: Option<real>, agentResult: Option<AgentResult>)

  const DocumentNumberKey: string := "رقم_المستند"
  /** The two date fields, in the order they are read. */
  const DateKeys: seq<string> := ["التاريخ_الميلادي", "التاريخ_الهجري"]
  const NamesKey: string := "الأسماء_الشخصية"
  const DocumentTypeKey: string := "نوع_الوثيقة"

  /** Entities are read from a page only when the page and its agent result
      both report success. */
  predicate YieldsEntities(p: Page) {
    p.success && p.agentResult.Some? && p.agentResult.value.success
  }

  /** The value under `key`, when present and truthy. */
  function IfTruthy(data: map<string, FieldValue>, key: string): seq<FieldValue> {
    if key in data && Truthy(data[key]) then [data[key]] else []
  }

  /** The truthy values under `keys`, in order. */
  function TruthyValues(data: map<string, FieldValue>, keys: seq<string>): seq<FieldValue>
    decreases |keys|
  {
    if keys == [] then [] else TruthyValues(data, keys[..|keys| - 1]) + IfTruthy(data, keys[|keys| - 1])
  }

  /** Each string of a list, as a value. */
  function Texts(xs: seq<string>): seq<FieldValue> {
    seq(|xs|, i requires 0 <= i < |xs| => Text(xs[i]))
  }

  /** The names one page contributes: every element of a list, or a truthy
      single value once. */
  function NamesOf(data: map<string, FieldValue>): seq<FieldValue> {
    if NamesKey !in data then []
    else match data[NamesKey]
      case Items(xs) => Texts(xs)
      case v => if Truthy(v) then [v] else []
  }

  datatype Entity = DocumentNumbers | Dates | Names | DocumentTypes

  /** What an agent's extracted data contributes to each collected list. */
  function DataEntities(data: map<string, FieldValue>, e: Entity): seq<FieldValue> {
    match e
    case DocumentNumbers => IfTruthy(data, DocumentNumberKey)
    case Dates => TruthyValues(data, DateKeys)
    case Names => NamesOf(data)
    case DocumentTypes => IfTruthy(data, DocumentTypeKey)
  }

  /** What one page contributes to each collected list. */
  function PageEntities(p: Page, e: Entity): seq<FieldValue> {
    if YieldsEntities(p) then DataEntities(p.agentResult.value.extractedData, e) else []
  }

  /** The summary's state before de-duplication. */
  datatype Tally = Tally(successful: nat, failed: nat, time: real,
                         numbers: seq<FieldValue>, dates: seq<FieldValue>,
                         names: seq<FieldValue>, types: seq<FieldValue>)

  function Collected(t: Tally, e: Entity): seq<FieldValue> {
    match e
    case DocumentNumbers => t.numbers
    case Dates => t.dates
    case Names => t.names
    case DocumentTypes => t.types
  }

  /** The tally after the pages, folded in order. */
  function TallyOf(pages: seq<Page>): (r: Tally)
    ensures r.successful + r.failed == |pages|
    decreases |pages|
  {
    if pages == [] then Tally(0, 0, 0.0, [], [], [], [])
    else
      var t := TallyOf(pages[..|pages| - 1]);
      var p := pages[|pages| - 1];
      if !p.success then t.(failed := t.failed + 1)
      else Tally(t.successful + 1, t.failed,
                 t.time + p.processingTime.GetOr(0.0),
                 t.numbers + PageEntities(p, DocumentNumbers),
                 t.dates + PageEntities(p, Dates),
                 t.names + PageEntities(p, Names),
                 t.types + PageEntities(p, DocumentTypes))
  }

  /** Python's `set` raises on a list element: a tally can be de-duplicated
      only when none of its collected values is a list. */
  predicate Hashable(xs: seq<FieldValue>) {
    forall i :: 0 <= i < |xs| ==> !xs[i].Items?
  }

  predicate AllHashable(t: Tally) {
    forall e: Entity :: Hashable(Collected(t, e))
  }

  datatype ExtractedEntities = ExtractedEntities(
    documentNumbers: seq<FieldValue>, dates: seq<FieldValue>, names: seq<FieldValue>,
    locations: seq<FieldValue>, organizations: seq<FieldValue>)

  datatype Summary = Summary(
    totalPages: nat, successfulPages: nat, failedPages: nat, totalProcessingTime: real,
    extractedEntities: ExtractedEntities, documentTypes: seq<FieldValue>, confidenceScores: seq<real>)

  /** `ys` is `list(set(xs))`: no repeats, and exactly the elements of `xs`. */
  predicate SameElements(ys: seq<FieldValue>, xs: seq<FieldValue>) {
    NoDuplicates(ys) && ToSet(ys) == ToSet(xs)
  }

  /** The summary's list for an entity. */
  function Listed(s: Summary, e: Entity): seq<FieldValue> {
    match e
    case DocumentNumbers => s.extractedEntities.documentNumbers
    case Dates => s.extractedEntities.dates
    case Names => s.extractedEntities.names
    case DocumentTypes => s.documentTypes
  }

  /** `s` is what the source returns for `pageCount` pages with tally `t`. */
  predicate Summarises(s: Summary, pageCount: nat, t: Tally) {
    && s.totalPages == pageCount
    && s.successfulPages == t.successful
    && s.failedPages == t.failed
    && s.totalProcessingTime == t.time
    && (forall e: Entity :: SameElements(Listed(s, e), Collected(t, e)))
    && s.extractedEntities.locations == []
    && s.extractedEntities.organizations == []
    && s.confidenceScores == []
  }

  /** `list(set(xs))`: `None` where `set` raises because an element is a
      list; otherwise the distinct elements of `xs`, in an order the
      contract leaves open. */
  method Dedup(xs: seq<FieldValue>) returns (r: Option<seq<FieldValue>>)
    ensures r.None? <==> !Hashable(xs)
    ensures r.Some? ==> SameElements(r.value, xs) && |r.value| <= |xs|
  {
    var seen: seq<FieldValue> := [];
    var i := 0;
    while i < |xs|
      invariant 0 <= i <= |xs|
      invariant forall k :: 0 <= k < i ==> !xs[k].Items?
      invariant NoDuplicates(seen) && ToSet(seen) == ToSet(xs[..i]) && |seen| <= i
    {
      if xs[i].Items? {
        return None;
      }
      assert xs[..i + 1] == xs[..i] + [xs[i]];
      ToSetAppend(xs[..i], xs[i]);
      ToSetAppend(seen, xs[i]);
      if xs[i] !in seen {
        seen := seen + [xs[i]];
      }
      i := i + 1;
    }
    assert xs[..i] == xs;
    return Some(seen);
  }

  /** The entity-collecting part of the loop body for one page whose agent
      succeeded: each list grows by what the page's data contributes. */
  method CollectEntities(data: map<string, FieldValue>, numbers: seq<FieldValue>, dates: seq<FieldValue>,
                         names: seq<FieldValue>, types: seq<FieldValue>)
    returns (numbers': seq<FieldValue>, dates': seq<FieldValue>, names': seq<FieldValue>, types': seq<FieldValue>)
    ensures numbers' == numbers + DataEntities(data, DocumentNumbers)
    ensures dates' == dates + DataEntities(data, Dates)
    ensures names' == names + DataEntities(data, Names)
    ensures types' == types + DataEntities(data, DocumentTypes)
  {
    numbers', dates', names', types' := numbers, dates, names, types;
    if DocumentNumberKey in data && Truthy(data[DocumentNumberKey]) {
      numbers' := numbers' + [data[DocumentNumberKey]];
    }
    for j := 0 to |DateKeys|
      invariant dates' == dates + TruthyValues(data, DateKeys[..j])
    {
      assert DateKeys[..j + 1][..j] == DateKeys[..j];
      var dateField := DateKeys[j];
      if dateField in data && Truthy(data[dateField]) {
        dates' := dates' + [data[dateField]];
      }
    }
    assert DateKeys[..|DateKeys|] == DateKeys;
    if NamesKey in data {
      var pageNames := data[NamesKey];
      if pageNames.Items? {
        names' := names' + Texts(pageNames.items);
      } else if Truthy(pageNames) {
        names' := names' + [pageNames];
      }
    }
    if DocumentTypeKey in data && Truthy(data[DocumentTypeKey]) {
      types' := types' + [data[DocumentTypeKey]];
    }
  }

  /** `generate_processing_summary`: `None` where the final de-duplication
      raises on a list value. */
  method GenerateProcessingSummary(pages: seq<Page>) returns (r: Option<Summary>)
    ensures r.None? <==> !AllHashable(TallyOf(pages))
    ensures r.Some? ==> Summarises(r.value, |pages|, TallyOf(pages))
  {
    var successful, failed: nat := 0, 0;
    var time := 0.0;
    var numbers, dates, names, types: seq<FieldValue> := [], [], [], [];
    var i := 0;
    while i < |pages|
      invariant 0 <= i <= |pages|
      invariant TallyOf(pages[..i]) == Tally(successful, failed, time, numbers, dates, names, types)
    {
      var page := pages[i];
      assert pages[..i + 1][..i] == pages[..i];
      if page.success {
        successful := successful + 1;
        if page.processingTime.Some? {
          time := time + page.processingTime.value;
        }
        if page.agentResult.Some? && page.agentResult.value.success {
          numbers, dates, names, types :=
            CollectEntities(page.agentResult.value.extractedData, numbers, dates, names, types);
        }
      } else {
        failed := failed + 1;
      }
      i := i + 1;
    }
    assert pages[..i] == pages;
    assert AllHashable(TallyOf(pages)) <==> Hashable(numbers) && Hashable(dates) && Hashable(names) && Hashable(types) by {
      assert Collected(TallyOf(pages), DocumentNumbers) == numbers;
      assert Collected(TallyOf(pages), Dates) == dates;
      assert Collected(TallyOf(pages), Names) == names;
      assert Collected(TallyOf(pages), DocumentTypes) == types;
    }

    var uniqueNumbers := Dedup(numbers);
    if uniqueNumbers.None? {
      return None;
    }
    var uniqueDates := Dedup(dates);
    if uniqueDates.None? {
      return None;
    }
    var uniqueNames := Dedup(names);
    if uniqueNames.None? {
      return None;
    }
    var uniqueLocations := Dedup([]);
    var uniqueOrganizations := Dedup([]);
    var uniqueTypes := Dedup(types);
    if uniqueTypes.None? {
      return None;
    }
    assert uniqueLocations.Some? && uniqueLocations.value == [];
    assert uniqueOrganizations.Some? && uniqueOrganizations.value == [];
    var entities := ExtractedEntities(uniqueNumbers.value, uniqueDates.value, uniqueNames.value,
                                      uniqueLocations.value, uniqueOrganizations.value);
    r := Some(Summary(|pages|, successful, failed, time, entities, uniqueTypes.value, []));
  }

  /** The positions of the pages that report success. */
  function SuccessfulIndices(pages: seq<Page>): set<nat> {
    set i: nat | i < |pages| && pages[i].success
  }

  /** Every page goes to exactly one of the two counters: the successful
      pages to the first, the rest to the second. */
  lemma {:induction false} CountersPartitionPages(pages: seq<Page>)
    ensures TallyOf(pages).successful + TallyOf(pages).failed == |pages|
    ensures TallyOf(pages).successful == |SuccessfulIndices(pages)|
  {
    if pages != [] {
      var n := |pages| - 1;
      var pre := pages[..n];
      CountersPartitionPages(pre);
      assert forall i :: 0 <= i < n ==> pages[i] == pre[i];
      if pages[n].success {
        assert SuccessfulIndices(pages) == SuccessfulIndices(pre) + {n};
      } else {
        assert SuccessfulIndices(pages) == SuccessfulIndices(pre);
      }
    }
  }

  /** The time a page adds: its own, when it succeeded and carries one. */
  function TimeOf(p: Page): real {
    if p.success && p.processingTime.Some? then p.processingTime.value else 0.0
  }

  /** Sum of the times the pages add, first page first. */
  function SumOfTimes(pages: seq<Page>): real
    decreases |pages|
  {
    if pages == [] then 0.0 else TimeOf(pages[0]) + SumOfTimes(pages[1..])
  }

  lemma {:induction false} SumOfTimesSnoc(pages: seq<Page>, p: Page)
    ensures SumOfTimes(pages + [p]) == SumOfTimes(pages) + TimeOf(p)
    decreases |pages|
  {
    if pages != [] {
      assert (pages + [p])[1..] == pages[1..] + [p];
      SumOfTimesSnoc(pages[1..], p);
    }
  }

  /** The processing-time total is the sum over the successful pages that
      carry a time; failed pages add nothing. */
  lemma {:induction false} TimeSumsSuccessfulPages(pages: seq<Page>)
    ensures TallyOf(pages).time == SumOfTimes(pages)
    decreases |pages|
  {
    if pages != [] {
      var n := |pages| - 1;
      TimeSumsSuccessfulPages(pages[..n]);
      assert pages == pages[..n] + [pages[n]];
      SumOfTimesSnoc(pages[..n], pages[n]);
    }
  }

  /** Page `p` contributes `v` to the list for `e`: only a page whose own
      and whose agent's `success` are both true contributes anything. */
  predicate Contributes(p: Page, e: Entity, v: FieldValue) {
    YieldsEntities(p) && v in DataEntities(p.agentResult.value.extractedData, e)
  }

  /** What the pages contribute to the list for `e`, page by page. */
  function EntitiesOf(pages: seq<Page>, e: Entity): seq<FieldValue>
    decreases |pages|
  {
    if pages == [] then [] else EntitiesOf(pages[..|pages| - 1], e) + PageEntities(pages[|pages| - 1], e)
  }

  /** The tally's list for `e` is the pages' contributions in page order. */
  lemma {:induction false} TallyCollectsPageEntities(pages: seq<Page>, e: Entity)
    ensures Collected(TallyOf(pages), e) == EntitiesOf(pages, e)
    decreases |pages|
  {
    if pages != [] {
      TallyCollectsPageEntities(pages[..|pages| - 1], e);
    }
  }

  lemma {:induction false} EntitiesOfMembers(pages: seq<Page>, e: Entity, v: FieldValue)
    ensures v in EntitiesOf(pages, e) <==> exists i :: 0 <= i < |pages| && v in PageEntities(pages[i], e)
    decreases |pages|
  {
    if pages != [] {
      var n := |pages| - 1;
      var pre := pages[..n];
      EntitiesOfMembers(pre, e, v);
      assert forall i :: 0 <= i < n ==> pages[i] == pre[i];
    }
  }

  /** A value is collected for an entity exactly when some successful page
      with a successful agent result contributes it. */
  lemma CollectedFromEntityPages(pages: seq<Page>, e: Entity, v: FieldValue)
    ensures v in Collected(TallyOf(pages), e) <==> exists i :: 0 <= i < |pages| && Contributes(pages[i], e, v)
  {
    TallyCollectsPageEntities(pages, e);
    EntitiesOfMembers(pages, e, v);
    assert forall i :: 0 <= i < |pages| ==> (v in PageEntities(pages[i], e) <==> Contributes(pages[i], e, v));
  }

  /** The summary's counters partition the pages, and its time is the sum
      over the successful pages. */
  lemma SummaryCounters(s: Summary, pages: seq<Page>)
    requires Summarises(s, |pages|, TallyOf(pages))
    ensures s.successfulPages + s.failedPages == s.totalPages == |pages|
    ensures s.successfulPages == |SuccessfulIndices(pages)|
    ensures s.totalProcessingTime == SumOfTimes(pages)
  {
    CountersPartitionPages(pages);
    TimeSumsSuccessfulPages(pages);
  }

  /** Each list of the summary holds, without repeats, exactly the values
      that successful pages with successful agent results contribute. */
  lemma SummaryListsPageEntities(s: Summary, pages: seq<Page>, e: Entity, v: FieldValue)
    requires Summarises(s, |pages|, TallyOf(pages))
    ensures NoDuplicates(Listed(s, e))
    ensures v in Listed(s, e) <==> exists i :: 0 <= i < |pages| && Contributes(pages[i], e, v)
  {
    CollectedFromEntityPages(pages, e, v);
    assert SameElements(Listed(s, e), Collected(TallyOf(pages), e));
    assert v in Listed(s, e) <==> v in ToSet(Listed(s, e));
    assert v in Collected(TallyOf(pages), e) <==> v in ToSet(Collected(TallyOf(pages), e));
  }
}
