/** The field-quality analysis of the `/analyze-document` request in
    backend/main.py: field statistics, duplicate values, attribute-name
    variations, the risk tier, the recommendations and the list of empty
    fields, computed from the request's `extracted_data`.

    `extracted_data` is a sequence of fields in the dictionary's insertion
    order. `.lower()` is the total function `lower`, left abstract. */
module DocumentAnalysis {
  import opened PyText

  /** One entry of `extracted_data`. */
  datatype Field = Field(key: string, value: string)

  type Lower = string -> string

  /** A dictionary never holds a key twice. */
  predicate DistinctKeys(fields: seq<Field>) {
    forall i, j :: 0 <= i < j < |fields| ==> fields[i].key != fields[j].key
  }

  // ---------------------------------------------------------------------
  // Selecting fields

  /** The keys of the fields that satisfy `p`, in key order. */
  function KeysWhere(fields: seq<Field>, p: Field -> bool): (r: seq<string>)
    ensures |r| <= |fields|
    decreases |fields|
  {
    if fields == [] then []
    else
      var f := fields[|fields| - 1];
      KeysWhere(fields[..|fields| - 1], p) + (if p(f) then [f.key] else [])
  }

  /** A key is selected exactly when some field with that key satisfies `p`. */
  lemma {:induction false} KeysWhereMembers(fields: seq<Field>, p: Field -> bool, k: string)
    ensures k in KeysWhere(fields, p) <==> exists i :: 0 <= i < |fields| && fields[i].key == k && p(fields[i])
    decreases |fields|
  {
    if fields != [] {
      var n := |fields| - 1;
      var pre := fields[..n];
      KeysWhereMembers(pre, p, k);
      assert forall i :: 0 <= i < n ==> fields[i] == pre[i];
    }
  }

  /** Nothing is selected exactly when no field satisfies `p`. */
  lemma {:induction false} KeysWhereNone(fields: seq<Field>, p: Field -> bool)
    ensures KeysWhere(fields, p) == [] <==> forall i :: 0 <= i < |fields| ==> !p(fields[i])
    decreases |fields|
  {
    if fields != [] {
      var n := |fields| - 1;
      KeysWhereNone(fields[..n], p);
      assert forall i :: 0 <= i < n ==> fields[..n][i] == fields[i];
    }
  }

  /** The first selected key belongs to the first field that satisfies `p`. */
  lemma {:induction false} FirstKeyWhere(fields: seq<Field>, p: Field -> bool)
    requires KeysWhere(fields, p) != []
    ensures exists i :: 0 <= i < |fields| && fields[i].key == KeysWhere(fields, p)[0] && p(fields[i])
                        && forall j :: 0 <= j < i ==> !p(fields[j])
    decreases |fields|
  {
    var n := |fields| - 1;
    var pre := fields[..n];
    assert forall j :: 0 <= j < n ==> fields[j] == pre[j];
    if KeysWhere(pre, p) != [] {
      FirstKeyWhere(pre, p);
      assert KeysWhere(fields, p)[0] == KeysWhere(pre, p)[0];
    } else {
      KeysWhereNone(pre, p);
    }
  }

  /** Every field satisfies exactly one of `p` and its negation `q`. */
  lemma {:induction false} KeysWhereSplit(fields: seq<Field>, p: Field -> bool, q: Field -> bool)
    requires forall f :: q(f) == !p(f)
    ensures |KeysWhere(fields, p)| + |KeysWhere(fields, q)| == |fields|
    decreases |fields|
  {
    if fields != [] {
      KeysWhereSplit(fields[..|fields| - 1], p, q);
    }
  }

  // ---------------------------------------------------------------------
  // Field statistics

  /** `v and str(v).strip()`: a field is filled when its stripped value is
      not empty. */
  predicate Filled(f: Field) {
    Strip(f.value) != []
  }

  /** `not v or str(v).strip() == ""`. */
  predicate Unfilled(f: Field) {
    !Filled(f)
  }

  /** The number of filled fields. */
  function FilledCount(fields: seq<Field>): (n: nat)
    ensures n <= |fields|
  {
    |KeysWhere(fields, Filled)|
  }

  // ---------------------------------------------------------------------
  // Grouping fields by value

  /** The grouping key of a value: `str(v).strip().lower()`. */
  function Clean(v: string, lower: Lower): string {
    lower(Strip(v))
  }

  /** The group a field joins: none when it is empty. */
  function GroupOf(f: Field, lower: Lower): Option<string> {
    if Filled(f) then Some(Clean(f.value, lower)) else None
  }

  /** Grouping by `GroupOf`, as a function value. */
  function Grouping(lower: Lower): Field -> Option<string> {
    f => GroupOf(f, lower)
  }

  /** `f` is filled and its value groups under `c`. */
  predicate HasClean(f: Field, lower: Lower, c: string) {
    GroupOf(f, lower) == Some(c)
  }

  /** The keys of the fields `group` puts under `c`, in key order. */
  function InGroup(fields: seq<Field>, group: Field -> Option<string>, c: string): seq<string> {
    KeysWhere(fields, f => group(f) == Some(c))
  }

  /** The groups of `fields` under `group`, each once, in the order they
      first occur. */
  function FirstOccurrences(fields: seq<Field>, group: Field -> Option<string>): seq<string>
    decreases |fields|
  {
    if fields == [] then []
    else
      var before := FirstOccurrences(fields[..|fields| - 1], group);
      match group(fields[|fields| - 1])
      case Some(c) => if c in before then before else before + [c]
      case None => before
  }

  /** The keys of `fields` collected per group, as a dictionary of lists. */
  function GroupBy(fields: seq<Field>, group: Field -> Option<string>): map<string, seq<string>>
    decreases |fields|
  {
    if fields == [] then map[]
    else
      var before := GroupBy(fields[..|fields| - 1], group);
      var f := fields[|fields| - 1];
      match group(f)
      case Some(c) => before[c := (if c in before then before[c] else []) + [f.key]]
      case None => before
  }

  /** Each group occurs once, and a value is a group exactly when some field
      joins it. */
  lemma {:induction false} FirstOccurrencesSpec(fields: seq<Field>, group: Field -> Option<string>, c: string)
    ensures NoDuplicates(FirstOccurrences(fields, group))
    ensures c in FirstOccurrences(fields, group) <==> exists i :: 0 <= i < |fields| && group(fields[i]) == Some(c)
    decreases |fields|
  {
    if fields != [] {
      var n := |fields| - 1;
      var pre := fields[..n];
      FirstOccurrencesSpec(pre, group, c);
      assert forall i :: 0 <= i < n ==> fields[i] == pre[i];
      match group(fields[n])
      case Some(d) => FirstOccurrencesSpec(pre, group, d);
      case None =>
    }
  }

  /** The dictionary has one entry per group, in the first-occurrence order,
      and each entry lists exactly the keys of that group in key order. */
  lemma {:induction false} GroupBySpec(fields: seq<Field>, group: Field -> Option<string>)
    ensures GroupBy(fields, group).Keys == ToSet(FirstOccurrences(fields, group))
    ensures forall c :: c in GroupBy(fields, group) ==> GroupBy(fields, group)[c] == InGroup(fields, group, c)
    decreases |fields|
  {
    if fields != [] {
      var n := |fields| - 1;
      var pre := fields[..n];
      var f := fields[n];
      GroupBySpec(pre, group);
      var before := GroupBy(pre, group);
      match group(f)
      case None =>
      case Some(d) =>
        ToSetAppend(FirstOccurrences(pre, group), d);
        if d !in before {
          FirstOccurrencesSpec(pre, group, d);
          KeysWhereNone(pre, g => group(g) == Some(d));
        }
    }
  }

  /** The grouping keys of the filled fields, in `value_to_fields` order. */
  function CleanValues(fields: seq<Field>, lower: Lower): seq<string> {
    FirstOccurrences(fields, Grouping(lower))
  }

  /** The keys of the filled fields whose value groups under `c`, in order. */
  function FieldsWithValue(fields: seq<Field>, lower: Lower, c: string): seq<string> {
    InGroup(fields, Grouping(lower), c)
  }

  /** The `value_to_fields` loop: groups the filled fields by cleaned value;
      `order` is the dictionary's insertion order. */
  method GroupByValue(fields: seq<Field>, lower: Lower) returns (order: seq<string>, groups: map<string, seq<string>>)
    ensures order == CleanValues(fields, lower)
    ensures groups.Keys == ToSet(order)
    ensures forall c :: c in groups ==> groups[c] == FieldsWithValue(fields, lower, c)
  {
    order, groups := [], map[];
    var i := 0;
    while i < |fields|
      invariant 0 <= i <= |fields|
      invariant order == FirstOccurrences(fields[..i], Grouping(lower))
      invariant groups == GroupBy(fields[..i], Grouping(lower))
      invariant groups.Keys == ToSet(order)
    {
      var f := fields[i];
      assert fields[..i + 1][..i] == fields[..i];
      if Strip(f.value) != [] {
        var clean := lower(Strip(f.value));
        assert Grouping(lower)(f) == Some(clean);
        if clean !in groups {
          ToSetAppend(order, clean);
          groups := groups[clean := []];
          order := order + [clean];
        }
        groups := groups[clean := groups[clean] + [f.key]];
      } else {
        assert Grouping(lower)(f) == None;
      }
      i := i + 1;
    }
    assert fields[..i] == fields;
    GroupBySpec(fields, Grouping(lower));
  }

  /** The keys grouped under `c` are exactly the filled fields whose value
      cleans to `c`. */
  lemma FieldsWithValueMembers(fields: seq<Field>, lower: Lower, c: string, k: string)
    ensures k in FieldsWithValue(fields, lower, c) <==>
              exists i :: 0 <= i < |fields| && fields[i].key == k && Filled(fields[i])
                          && Clean(fields[i].value, lower) == c
  {
    KeysWhereMembers(fields, f => Grouping(lower)(f) == Some(c), k);
  }

  /** The insertion order lists each grouping key once, and a value is a
      grouping key exactly when some filled field cleans to it. */
  lemma CleanValuesAreTheGroups(fields: seq<Field>, lower: Lower, c: string)
    ensures NoDuplicates(CleanValues(fields, lower))
    ensures c in CleanValues(fields, lower) <==> FieldsWithValue(fields, lower, c) != []
  {
    FirstOccurrencesSpec(fields, Grouping(lower), c);
    KeysWhereNone(fields, f => Grouping(lower)(f) == Some(c));
  }

  /** `extracted_data[key]`: the value of the first field with `key`. */
  function ValueOf(fields: seq<Field>, key: string): string
    decreases |fields|
  {
    if fields == [] then "" else if fields[0].key == key then fields[0].value else ValueOf(fields[1..], key)
  }

  lemma {:induction false} ValueOfField(fields: seq<Field>, i: nat)
    requires DistinctKeys(fields) && i < |fields|
    ensures ValueOf(fields, fields[i].key) == fields[i].value
    decreases i
  {
    if i > 0 {
      assert fields[0].key != fields[i].key;
      ValueOfField(fields[1..], i - 1);
    }
  }

  // ---------------------------------------------------------------------
  // Duplicate values

  /** A grouping key is reported when it groups more than one field and is
      at least three characters long once stripped. */
  predicate IsDuplicate(fields: seq<Field>, lower: Lower, c: string) {
    |FieldsWithValue(fields, lower, c)| > 1 && |Strip(c)| >= 3
  }

  /** One entry of `duplicate_details`; `value` is the original, uncleaned
      value of the first field of the group. */
  datatype DuplicateDetail = DuplicateDetail(value: string, fields: seq<string>, count: nat, severity: string)

  /** The keys among `cs` that are reported, in order. */
  function DuplicatesAmong(fields: seq<Field>, lower: Lower, cs: seq<string>): (r: seq<string>)
    ensures forall c :: c in r <==> c in cs && IsDuplicate(fields, lower, c)
    ensures forall i :: 0 <= i < |r| ==> IsDuplicate(fields, lower, r[i])
    decreases |cs|
  {
    if cs == [] then []
    else
      var c := cs[|cs| - 1];
      DuplicatesAmong(fields, lower, cs[..|cs| - 1]) + (if IsDuplicate(fields, lower, c) then [c] else [])
  }

  /** The keys of `duplicate_analysis`, in insertion order. */
  function DuplicateValues(fields: seq<Field>, lower: Lower): seq<string> {
    DuplicatesAmong(fields, lower, CleanValues(fields, lower))
  }

  function DetailFor(fields: seq<Field>, lower: Lower, c: string): DuplicateDetail
    requires FieldsWithValue(fields, lower, c) != []
  {
    var group := FieldsWithValue(fields, lower, c);
    DuplicateDetail(ValueOf(fields, group[0]), group, |group|, if |group| > 2 then "high" else "medium")
  }

  /** The details of the keys among `cs` that are reported, in order. */
  function DetailsAmong(fields: seq<Field>, lower: Lower, cs: seq<string>): seq<DuplicateDetail>
    decreases |cs|
  {
    if cs == [] then []
    else
      var c := cs[|cs| - 1];
      DetailsAmong(fields, lower, cs[..|cs| - 1]) + (if IsDuplicate(fields, lower, c) then [DetailFor(fields, lower, c)] else [])
  }

  /** All of `duplicate_details`, before truncation. */
  function DuplicateDetails(fields: seq<Field>, lower: Lower): seq<DuplicateDetail> {
    DetailsAmong(fields, lower, CleanValues(fields, lower))
  }

  /** The k-th detail describes the k-th reported key. */
  lemma {:induction false} DetailsMatchValues(fields: seq<Field>, lower: Lower, cs: seq<string>)
    ensures |DetailsAmong(fields, lower, cs)| == |DuplicatesAmong(fields, lower, cs)|
    ensures forall k :: 0 <= k < |DetailsAmong(fields, lower, cs)| ==>
              IsDuplicate(fields, lower, DuplicatesAmong(fields, lower, cs)[k]) &&
              DetailsAmong(fields, lower, cs)[k] == DetailFor(fields, lower, DuplicatesAmong(fields, lower, cs)[k])
    decreases |cs|
  {
    if cs != [] {
      DetailsMatchValues(fields, lower, cs[..|cs| - 1]);
    }
  }

  /** The loop over `value_to_fields` that fills `duplicate_analysis` and
      `duplicate_details`. */
  method FindDuplicates(fields: seq<Field>, lower: Lower, order: seq<string>, groups: map<string, seq<string>>)
    returns (duplicateValues: seq<string>, details: seq<DuplicateDetail>)
    requires order == CleanValues(fields, lower) && groups.Keys == ToSet(order)
    requires forall c :: c in groups ==> groups[c] == FieldsWithValue(fields, lower, c)
    ensures duplicateValues == DuplicateValues(fields, lower)
    ensures details == DuplicateDetails(fields, lower)
  {
    duplicateValues, details := [], [];
    var i := 0;
    while i < |order|
      invariant 0 <= i <= |order|
      invariant duplicateValues == DuplicatesAmong(fields, lower, order[..i])
      invariant details == DetailsAmong(fields, lower, order[..i])
    {
      var value := order[i];
      assert order[..i + 1][..i] == order[..i];
      assert value in groups;
      var group := groups[value];
      if |group| > 1 && |Strip(value)| >= 3 {
        duplicateValues := duplicateValues + [value];
        details := details + [DuplicateDetail(ValueOf(fields, group[0]), group, |group|,
                                              if |group| > 2 then "high" else "medium")];
      }
      i := i + 1;
    }
    assert order[..i] == order;
  }

  /** A value is reported as a duplicate exactly when at least two filled
      fields clean to it and it is at least three characters long. */
  lemma DuplicateReportedIff(fields: seq<Field>, lower: Lower, c: string)
    ensures c in DuplicateValues(fields, lower) <==>
              |FieldsWithValue(fields, lower, c)| >= 2 && |Strip(c)| >= 3
  {
    CleanValuesAreTheGroups(fields, lower, c);
  }

  /** Each reported duplicate lists the fields of its group, counts them,
      is "high" exactly when more than two fields share the value, and
      shows the original value of the first such field in key order. */
  lemma DuplicateDetailFacts(fields: seq<Field>, lower: Lower, k: nat)
    requires DistinctKeys(fields) && k < |DuplicateValues(fields, lower)|
    ensures |DuplicateDetails(fields, lower)| == |DuplicateValues(fields, lower)|
    ensures var c := DuplicateValues(fields, lower)[k];
            var d := DuplicateDetails(fields, lower)[k];
      && d.fields == FieldsWithValue(fields, lower, c)
      && d.count == |d.fields| >= 2
      && (d.severity == "high" <==> d.count > 2)
      && exists i :: 0 <= i < |fields| && fields[i].key == d.fields[0] && d.value == fields[i].value
                     && HasClean(fields[i], lower, c)
                     && forall j :: 0 <= j < i ==> !HasClean(fields[j], lower, c)
  {
    DetailsMatchValues(fields, lower, CleanValues(fields, lower));
    var c := DuplicateValues(fields, lower)[k];
    FirstKeyWhere(fields, f => Grouping(lower)(f) == Some(c));
    var i :| 0 <= i < |fields| && fields[i].key == FieldsWithValue(fields, lower, c)[0]
             && HasClean(fields[i], lower, c)
             && forall j :: 0 <= j < i ==> !HasClean(fields[j], lower, c);
    ValueOfField(fields, i);
  }

  // ---------------------------------------------------------------------
  // Attribute-name variations

  /** One entry of `attribute_groups`: the concept name the source derives
      from the group's name, and the words that signal it. */
  datatype AttributeGroup = AttributeGroup(concept: string, variations: seq<string>)

  const AttributeGroups: seq<AttributeGroup> := [
    AttributeGroup("Owner", ["مالك", "صاحب", "مالك العقار", "المالك", "صاحب العقار"]),
    AttributeGroup("Author", ["مؤلف", "كاتب", "محرر", "المؤلف", "الكاتب"]),
    AttributeGroup("Director", ["مدير", "رئيس", "مدير عام", "المدير", "الرئيس"]),
    AttributeGroup("Date", ["تاريخ", "التاريخ", "تاريخ الإصدار", "تاريخ التحرير", "يوم"]),
    AttributeGroup("Number", ["رقم", "الرقم", "رقم المرجع", "رقم الوثيقة", "رقم التسلسل"]),
    AttributeGroup("Location", ["مكان", "موقع", "عنوان", "المكان", "الموقع", "العنوان"])
  ]

  /** One entry of `variation_details`. */
  datatype VariationDetail = VariationDetail(concept: string, fields: seq<string>, count: nat)

  /** Some variation occurs in the lower-cased, stripped field name. */
  predicate MentionsVariation(key: string, lower: Lower, variations: seq<string>) {
    exists j :: 0 <= j < |variations| && Contains(Strip(lower(key)), variations[j])
  }

  /** The field names that mention one of `variations`, in key order. */
  function MatchingFields(fields: seq<Field>, lower: Lower, variations: seq<string>): seq<string> {
    KeysWhere(fields, (f: Field) => MentionsVariation(f.key, lower, variations))
  }

  /** The detail for each of `groups` that more than one field mentions. */
  function VariationsAmong(fields: seq<Field>, lower: Lower, groups: seq<AttributeGroup>): seq<VariationDetail>
    decreases |groups|
  {
    if groups == [] then []
    else
      var g := groups[|groups| - 1];
      var found := MatchingFields(fields, lower, g.variations);
      VariationsAmong(fields, lower, groups[..|groups| - 1])
        + (if |found| > 1 then [VariationDetail(g.concept, found, |found|)] else [])
  }

  /** All of `variation_details`, before truncation. */
  function VariationDetails(fields: seq<Field>, lower: Lower): seq<VariationDetail> {
    VariationsAmong(fields, lower, AttributeGroups)
  }

  /** The two inner loops for one group: each field name, lower-cased and
      stripped, is tested against the variations until one occurs in it. */
  method FieldsMentioning(fields: seq<Field>, lower: Lower, variations: seq<string>) returns (found: seq<string>)
    ensures found == MatchingFields(fields, lower, variations)
  {
    found := [];
    var i := 0;
    while i < |fields|
      invariant 0 <= i <= |fields|
      invariant found == MatchingFields(fields[..i], lower, variations)
    {
      var fieldLower := Strip(lower(fields[i].key));
      assert fields[..i + 1][..i] == fields[..i];
      var j := 0;
      while j < |variations|
        invariant 0 <= j <= |variations|
        invariant forall m :: 0 <= m < j ==> !Contains(fieldLower, variations[m])
        invariant found == MatchingFields(fields[..i], lower, variations)
      {
        if Contains(fieldLower, variations[j]) {
          found := found + [fields[i].key];
          break;
        }
        j := j + 1;
      }
      i := i + 1;
    }
    assert fields[..i] == fields;
  }

  /** The loop over `attribute_groups`: a group is reported when more than
      one field name mentions it. */
  method DetectVariations(fields: seq<Field>, lower: Lower) returns (details: seq<VariationDetail>)
    ensures details == VariationDetails(fields, lower)
  {
    details := [];
    var g := 0;
    while g < |AttributeGroups|
      invariant 0 <= g <= |AttributeGroups|
      invariant details == VariationsAmong(fields, lower, AttributeGroups[..g])
    {
      var found := FieldsMentioning(fields, lower, AttributeGroups[g].variations);
      assert AttributeGroups[..g + 1][..g] == AttributeGroups[..g];
      if |found| > 1 {
        details := details + [VariationDetail(AttributeGroups[g].concept, found, |found|)];
      }
      g := g + 1;
    }
    assert AttributeGroups[..g] == AttributeGroups;
  }

  /** A field name is listed for a group exactly when it mentions one of the
      group's variations. */
  lemma MatchingFieldsMembers(fields: seq<Field>, lower: Lower, variations: seq<string>, k: string)
    ensures k in MatchingFields(fields, lower, variations) <==>
              (exists i :: 0 <= i < |fields| && fields[i].key == k) && MentionsVariation(k, lower, variations)
  {
    KeysWhereMembers(fields, (f: Field) => MentionsVariation(f.key, lower, variations), k);
  }

  /** Every reported variation belongs to one of the groups, lists exactly
      the fields mentioning that group, and has at least two of them; and
      every group that at least two fields mention is reported. */
  lemma {:induction false} VariationsAmongSpec(fields: seq<Field>, lower: Lower, groups: seq<AttributeGroup>)
    ensures forall d :: d in VariationsAmong(fields, lower, groups) ==>
              exists g :: g in groups && d.concept == g.concept
                          && d.fields == MatchingFields(fields, lower, g.variations)
                          && d.count == |d.fields| >= 2
    ensures forall g :: g in groups && |MatchingFields(fields, lower, g.variations)| >= 2 ==>
              exists d :: d in VariationsAmong(fields, lower, groups) && d.concept == g.concept
                          && d.fields == MatchingFields(fields, lower, g.variations)
    ensures |VariationsAmong(fields, lower, groups)| <= |groups|
    decreases |groups|
  {
    if groups != [] {
      var n := |groups| - 1;
      var pre := groups[..n];
      VariationsAmongSpec(fields, lower, pre);
      assert groups == pre + [groups[n]];
      forall g | g in groups && |MatchingFields(fields, lower, g.variations)| >= 2
        ensures exists d :: d in VariationsAmong(fields, lower, groups) && d.concept == g.concept
                            && d.fields == MatchingFields(fields, lower, g.variations)
      {
        if g in pre {
          var d :| d in VariationsAmong(fields, lower, pre) && d.concept == g.concept
                   && d.fields == MatchingFields(fields, lower, g.variations);
          assert d in VariationsAmong(fields, lower, groups);
        } else {
          assert g == groups[n];
          var found := MatchingFields(fields, lower, g.variations);
          assert VariationDetail(g.concept, found, |found|) in VariationsAmong(fields, lower, groups);
        }
      }
    }
  }

  /** Groups with distinct concept names give details with distinct concept
      names: no concept is reported twice. */
  lemma {:induction false} VariationConceptsDistinct(fields: seq<Field>, lower: Lower, groups: seq<AttributeGroup>)
    requires forall i, j :: 0 <= i < j < |groups| ==> groups[i].concept != groups[j].concept
    ensures var ds := VariationsAmong(fields, lower, groups);
      forall i, j :: 0 <= i < j < |ds| ==> ds[i].concept != ds[j].concept
    decreases |groups|
  {
    if groups != [] {
      var n := |groups| - 1;
      var pre := groups[..n];
      VariationConceptsDistinct(fields, lower, pre);
      VariationsAmongSpec(fields, lower, pre);
      var ds := VariationsAmong(fields, lower, pre);
      forall i | 0 <= i < |ds| ensures ds[i].concept != groups[n].concept {
        var g :| g in pre && ds[i].concept == g.concept;
        var k :| 0 <= k < n && pre[k] == g;
      }
    }
  }

  /** The six attribute groups have distinct concept names, so each concept
      is reported at most once. */
  lemma AttributeConceptsReportedOnce(fields: seq<Field>, lower: Lower)
    ensures var ds := VariationDetails(fields, lower);
      forall i, j :: 0 <= i < j < |ds| ==> ds[i].concept != ds[j].concept
  {
    var gs := AttributeGroups;
    assert gs[0].concept[0] == 'O' && gs[1].concept[0] == 'A' && gs[2].concept[0] == 'D';
    assert gs[3].concept == "Date" && gs[4].concept[0] == 'N' && gs[5].concept[0] == 'L';
    assert gs[2].concept[1] == 'i' && gs[3].concept[1] == 'a';
    VariationConceptsDistinct(fields, lower, gs);
    assert VariationDetails(fields, lower) == VariationsAmong(fields, lower, gs);
  }

  // ---------------------------------------------------------------------
  // Risk tier and recommendations

  /** `risk_level`, `priority_level` and `document_authenticity`. */
  datatype Assessment = Assessment(riskLevel: string, priority: string, authenticity: string)

  /** The three-tier rule on the number of issues found. */
  function RiskTier(issues: nat): (a: Assessment)
    ensures a.riskLevel == "low" <==> issues == 0
    ensures a.riskLevel == "high" <==> issues > 3
    ensures a.authenticity == "authentic" <==> a.riskLevel != "high"
    ensures a.priority == (if a.riskLevel == "low" then "medium" else if a.riskLevel == "medium" then "high" else "urgent")
    ensures issues == 0 ==> a == Assessment("low", "medium", "authentic")
    ensures 1 <= issues <= 3 ==> a == Assessment("medium", "high", "authentic")
    ensures issues > 3 ==> a == Assessment("high", "urgent", "requires_review")
  {
    if issues == 0 then Assessment("low", "medium", "authentic")
    else if issues <= 3 then Assessment("medium", "high", "authentic")
    else Assessment("high", "urgent", "requires_review")
  }

  function RiskRank(level: string): nat {
    if level == "low" then 0 else if level == "medium" then 1 else 2
  }

  /** More issues never lower the risk level. */
  lemma RiskNeverDecreases(fewer: nat, more: nat)
    requires fewer <= more
    ensures RiskRank(RiskTier(fewer).riskLevel) <= RiskRank(RiskTier(more).riskLevel)
  {
  }

  const ResolveDuplicates: string := "Review and resolve duplicate field values"
  const StandardiseNames: string := "Consider standardizing " + "attribute names across documents"
  const CompleteMissing: string := "Complete missing field information"
  const AppearsIncomplete: string := "Document appears " + "incomplete - manual review recommended"
  const AppearsComplete: string := "Document appears complete - proceed with standard processing"

  /** More than 30% of the fields are empty: `empty > total * 0.3`. */
  predicate MostlyEmpty(empty: nat, total: nat) {
    10 * empty > 3 * total
  }

  /** The recommendations, in the order the source appends them. */
  function Recommended(hasDuplicates: bool, hasVariations: bool, empty: nat, total: nat): seq<string> {
    var found :=
      (if hasDuplicates then [ResolveDuplicates] else [])
      + (if hasVariations then [StandardiseNames] else [])
      + (if empty > 0 then [CompleteMissing] else [])
      + (if MostlyEmpty(empty, total) then [AppearsIncomplete] else []);
    if found == [] then [AppearsComplete] else found
  }

  /** The `recommendations` appends. */
  method Recommendations(hasDuplicates: bool, hasVariations: bool, empty: nat, total: nat) returns (recs: seq<string>)
    ensures recs == Recommended(hasDuplicates, hasVariations, empty, total)
  {
    recs := [];
    if hasDuplicates {
      recs := recs + [ResolveDuplicates];
    }
    if hasVariations {
      recs := recs + [StandardiseNames];
    }
    if empty > 0 {
      recs := recs + [CompleteMissing];
    }
    if MostlyEmpty(empty, total) {
      recs := recs + [AppearsIncomplete];
    }
    if recs == [] {
      recs := recs + [AppearsComplete];
    }
  }

  /** The five recommendations are pairwise different. */
  lemma MessagesDistinct()
    ensures ResolveDuplicates !in [StandardiseNames, CompleteMissing, AppearsIncomplete, AppearsComplete]
    ensures StandardiseNames !in [CompleteMissing, AppearsIncomplete, AppearsComplete]
    ensures CompleteMissing !in [AppearsIncomplete, AppearsComplete]
    ensures AppearsIncomplete != AppearsComplete
  {
    assert |ResolveDuplicates| == 41 && |CompleteMissing| == 34 && |AppearsComplete| == 60;
    assert StandardiseNames[0] == 'C' && AppearsIncomplete[0] == 'D';
  }

  /** The list is never empty, repeats nothing, holds each recommendation
      exactly when its condition holds, and says "complete" exactly when
      there is nothing to report. */
  lemma RecommendedSpec(hasDuplicates: bool, hasVariations: bool, empty: nat, total: nat)
    ensures var recs := Recommended(hasDuplicates, hasVariations, empty, total);
      && recs != []
      && NoDuplicates(recs)
      && (ResolveDuplicates in recs <==> hasDuplicates)
      && (StandardiseNames in recs <==> hasVariations)
      && (CompleteMissing in recs <==> empty > 0)
      && (AppearsIncomplete in recs <==> MostlyEmpty(empty, total))
      && (AppearsComplete in recs <==> !hasDuplicates && !hasVariations && empty == 0)
  {
    MessagesDistinct();
  }

  // ---------------------------------------------------------------------
  // Empty fields

  /** One entry of `missing_critical_data`. */
  datatype MissingField = MissingField(field: string, importance: string)

  /** "critical" when the lower-cased key mentions a number or a date,
      "important" when it mentions a name or a place, "standard" otherwise. */
  function Importance(key: string, lower: Lower): (r: string)
    ensures r == "critical" <==>
              (exists i :: OccursAt(lower(key), "رقم", i)) || (exists i :: OccursAt(lower(key), "تاريخ", i))
    ensures r == "important" <==>
              r != "critical" && ((exists i :: OccursAt(lower(key), "اسم", i)) || (exists i :: OccursAt(lower(key), "مكان", i)))
    ensures r == "critical" || r == "important" || r == "standard"
  {
    var k := lower(key);
    ContainsIffOccurs(k, "رقم");
    ContainsIffOccurs(k, "تاريخ");
    ContainsIffOccurs(k, "اسم");
    ContainsIffOccurs(k, "مكان");
    if Contains(k, "رقم") || Contains(k, "تاريخ") then "critical"
    else if Contains(k, "اسم") || Contains(k, "مكان") then "important"
    else "standard"
  }

  /** `missing_critical_data`: the empty fields in key order, each rated. */
  function MissingCriticalData(fields: seq<Field>, lower: Lower): (r: seq<MissingField>)
    ensures |r| == |fields| - FilledCount(fields)
    ensures forall i :: 0 <= i < |r| ==> r[i].importance == Importance(r[i].field, lower)
  {
    var keys := KeysWhere(fields, Unfilled);
    KeysWhereSplit(fields, Filled, Unfilled);
    seq(|keys|, i requires 0 <= i < |keys| => MissingField(keys[i], Importance(keys[i], lower)))
  }

  /** A key is listed as missing exactly when its field is empty. */
  lemma MissingAreTheEmptyFields(fields: seq<Field>, lower: Lower, k: string)
    ensures (exists j :: 0 <= j < |MissingCriticalData(fields, lower)| && MissingCriticalData(fields, lower)[j].field == k) <==>
              exists i :: 0 <= i < |fields| && fields[i].key == k && !Filled(fields[i])
  {
    var keys := KeysWhere(fields, Unfilled);
    KeysWhereMembers(fields, Unfilled, k);
    assert forall j :: 0 <= j < |keys| ==> MissingCriticalData(fields, lower)[j].field == keys[j];
  }

  // ---------------------------------------------------------------------
  // The request

  /** At most the first `n` elements: Python's `xs[:n]`. */
  function Take<T>(xs: seq<T>, n: nat): (r: seq<T>)
    ensures r <= xs
    ensures |r| == if |xs| <= n then |xs| else n
  {
    if |xs| <= n then xs else xs[..n]
  }

  /** The analysis part of the response. */
  datatype Analysis = Analysis(
    totalFields: nat, filledFields: nat, emptyFields: nat,
    hasDuplicates: bool, duplicateDetails: seq<DuplicateDetail>,
    hasVariations: bool, variationDetails: seq<VariationDetail>, totalVariations: nat,
    missingCriticalData: seq<MissingField>,
    assessment: Assessment, recommendations: seq<string>,
    overallStatus: string, nextSteps: seq<string>)

  /** The request's result: the analysis, or the HTTP error the handler
      raises (`status`), carrying the error it caught (`causeStatus`,
      `causeDetail`). */
  datatype Outcome = Analysed(analysis: Analysis) | Failed(status: nat, causeStatus: nat, causeDetail: string)

  const LowRiskSteps: seq<string> := ["Verify extracted data", "Archive document"]
  const ReviewSteps: seq<string> := ["Manual review required", "Verify data accuracy"]

  /** `overall_status`: "complete" when fewer than 30% of the fields are empty. */
  function OverallStatus(empty: nat, total: nat): (r: string)
    ensures r == "complete" || r == "incomplete"
    ensures r == "complete" <==> 10 * empty < 3 * total
    ensures r == "complete" ==> empty < total && !MostlyEmpty(empty, total)
    ensures 0 < total && empty == 0 ==> r == "complete"
  {
    if 10 * empty < 3 * total then "complete" else "incomplete"
  }

  /** `a` is the analysis the source builds from `fields`. */
  predicate Describes(a: Analysis, fields: seq<Field>, lower: Lower) {
    var empty := |fields| - FilledCount(fields);
    var duplicates := DuplicateDetails(fields, lower);
    var variations := VariationDetails(fields, lower);
    && a.totalFields == |fields|
    && a.filledFields == FilledCount(fields)
    && a.emptyFields == empty
    && a.hasDuplicates == (duplicates != [])
    && a.duplicateDetails == Take(duplicates, 3)
    && a.hasVariations == (variations != [])
    && a.variationDetails == Take(variations, 3)
    && a.totalVariations == |variations|
    && a.missingCriticalData == MissingCriticalData(fields, lower)
    && a.assessment == RiskTier(|duplicates| + |variations| + empty)
    && a.recommendations == Recommended(duplicates != [], variations != [], empty, |fields|)
    && a.overallStatus == OverallStatus(empty, |fields|)
    && a.nextSteps == (if a.assessment.riskLevel == "low" then LowRiskSteps else ReviewSteps)
  }

  /** The `/analyze-document` handler after request parsing: `agentReady`
      says whether the document agent was initialised; a missing
      `extracted_data` is the empty sequence and a missing `ocr_text` the
      empty string. Both errors it raises are caught by its own outer
      handler and raised again as a 500. */
  method AnalyzeDocument(agentReady: bool, fields: seq<Field>, ocrText: string, lower: Lower) returns (r: Outcome)
    ensures !agentReady ==> r == Failed(500, 500, "Document agent not initialized")
    ensures agentReady && fields == [] && ocrText == [] ==> r == Failed(500, 400, "No data provided for analysis")
    ensures agentReady && (fields != [] || ocrText != []) ==> r.Analysed? && Describes(r.analysis, fields, lower)
  {
    if !agentReady {
      return Failed(500, 500, "Document agent not initialized");
    }
    if fields == [] && ocrText == [] {
      return Failed(500, 400, "No data provided for analysis");
    }
    var total := |fields|;
    var filled := FilledCount(fields);
    var empty := total - filled;

    var order, groups := GroupByValue(fields, lower);
    var duplicateValues, duplicates := FindDuplicates(fields, lower, order, groups);
    var hasDuplicates := |duplicateValues| > 0;

    var variations := DetectVariations(fields, lower);
    var hasVariations := |variations| > 0;

    var issues := |duplicates| + |variations| + empty;
    var assessment := RiskTier(issues);
    var recommendations := Recommendations(hasDuplicates, hasVariations, empty, total);

    var nextSteps := if assessment.riskLevel == "low" then LowRiskSteps else ReviewSteps;
    var a := Analysis(total, filled, empty, hasDuplicates, Take(duplicates, 3),
                      hasVariations, Take(variations, 3), |variations|,
                      MissingCriticalData(fields, lower), assessment, recommendations,
                      OverallStatus(empty, total), nextSteps);
    DetailsMatchValues(fields, lower, order);
    assert hasDuplicates == (duplicates != []);
    r := Analysed(a);
  }

  /** Every empty field is one issue and one entry of the missing list, and
      the report shows at most three duplicates and three variations. */
  lemma AnalysisCounts(a: Analysis, fields: seq<Field>, lower: Lower)
    requires Describes(a, fields, lower)
    ensures a.filledFields + a.emptyFields == a.totalFields
    ensures |a.missingCriticalData| == a.emptyFields
    ensures |a.duplicateDetails| <= 3 && |a.variationDetails| <= 3 && a.totalVariations <= |AttributeGroups|
    ensures a.assessment.riskLevel == "low" <==>
              a.emptyFields == 0 && !a.hasDuplicates && !a.hasVariations
  {
    VariationsAmongSpec(fields, lower, AttributeGroups);
  }

  lemma {:induction false} NoFieldsNoVariations(lower: Lower, groups: seq<AttributeGroup>)
    ensures VariationsAmong([], lower, groups) == []
    decreases |groups|
  {
    if groups != [] {
      NoFieldsNoVariations(lower, groups[..|groups| - 1]);
    }
  }

  /** A request with OCR text but no fields is rated low risk and
      recommended as complete, yet its overall status reads "incomplete",
      because zero empty fields are not fewer than 30% of zero fields. */
  lemma OcrTextOnlyReadsIncomplete(a: Analysis, lower: Lower)
    requires Describes(a, [], lower)
    ensures a.assessment.riskLevel == "low"
    ensures a.recommendations == [AppearsComplete]
    ensures a.overallStatus == "incomplete"
  {
    assert CleanValues([], lower) == [];
    NoFieldsNoVariations(lower, AttributeGroups);
  }

  /** When exactly 30% of the fields are empty, the status reads
      "incomplete" although the "appears incomplete" recommendation is not
      given; above 30% both agree. */
  lemma ThirtyPercentBoundary(empty: nat, total: nat, hasDuplicates: bool, hasVariations: bool)
    ensures MostlyEmpty(empty, total) ==> OverallStatus(empty, total) == "incomplete"
    ensures 10 * empty == 3 * total ==>
              OverallStatus(empty, total) == "incomplete"
              && AppearsIncomplete !in Recommended(hasDuplicates, hasVariations, empty, total)
  {
    RecommendedSpec(hasDuplicates, hasVariations, empty, total);
  }
}
