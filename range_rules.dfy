/**
 * The filter rules of the range setting: which attributes it compares,
 * the two sub-filters it builds from the requested boundaries, and the
 * single rule it adds to the caller's filter.
 */
module RangeRules {
  import opened Wrappers
  import opened Php
  import opened RangeTypes
  import opened Filters
  import opened RangeParameters

  /**
   * `getReferencedAttributes`: the column names of the primary and of the
   * secondary attribute, each only when it resolves, primary first.
   */
  method ReferencedAttributes(s: Settings, mm: MetaModel) returns (r: seq<string>)
    ensures |r| == (if s.attrId in mm.attributes then 1 else 0) + (if s.attrId2 in mm.attributes then 1 else 0)
    ensures s.attrId in mm.attributes ==> r[0] == mm.attributes[s.attrId].colName
    ensures s.attrId2 in mm.attributes ==> r[|r| - 1] == mm.attributes[s.attrId2].colName
  {
    var attribute := GetAttributeById(mm, s.attrId);
    var attribute2 := GetAttributeById(mm, s.attrId2);
    r := [];
    if attribute.Some? {
      r := r + [attribute.value.colName];
    }
    if attribute2.Some? {
      r := r + [attribute2.value.colName];
    }
  }

  /**
   * The attributes the comparisons use: none when the primary attribute
   * does not resolve; otherwise the primary one and the secondary one,
   * which is the primary one again when the secondary does not resolve.
   */
  function RangeAttributes(s: Settings, mm: MetaModel): (r: Option<(Attribute, Attribute)>)
    ensures r.Some? <==> s.attrId in mm.attributes
    ensures r.Some? ==> r.value.0 == mm.attributes[s.attrId]
    ensures r.Some? && s.attrId2 in mm.attributes ==> r.value.1 == mm.attributes[s.attrId2]
    ensures r.Some? && s.attrId2 !in mm.attributes ==> r.value.1 == r.value.0
  {
    var attribute := GetAttributeById(mm, s.attrId);
    var attribute2 := GetAttributeById(mm, s.attrId2);
    if attribute.None? then None
    else if attribute2.None? then Some((attribute.value, attribute.value))
    else Some((attribute.value, attribute2.value))
  }

  /** `$value[1]`: the second boundary, or `null` when only one survived. */
  function SecondBoundary(value: seq<string>): (b: Option<string>)
    ensures b.Some? <==> |value| >= 2
    ensures b.Some? ==> b.value == value[1]
  {
    if |value| >= 2 then Some(value[1]) else None
  }

  /**
   * The record's span [primary value, secondary value] holds the bound: the
   * primary value lies below it (or on it, with `moreEqual`) and the
   * secondary value above it (or on it, with `lessEqual`). A record without
   * a value in either column holds nothing.
   */
  predicate InSpan(rec: Record, primary: Attribute, secondary: Attribute, bound: int, moreEqual: bool, lessEqual: bool) {
    && primary.colName in rec.fields
    && secondary.colName in rec.fields
    && (if moreEqual then rec.fields[primary.colName] <= bound else rec.fields[primary.colName] < bound)
    && (if lessEqual then rec.fields[secondary.colName] >= bound else rec.fields[secondary.colName] > bound)
  }

  /**
   * One sub-filter: `LessThan` on the primary attribute and `GreaterThan`
   * on the secondary one, both against the same bound. It accepts exactly
   * the records whose span holds the bound.
   */
  function SubFilter(primary: Attribute, secondary: Attribute, bound: int, moreEqual: bool, lessEqual: bool): (rules: seq<Rule>)
    ensures AllComparisons(rules)
    ensures forall rec :: AcceptsAll(rules, rec) <==> InSpan(rec, primary, secondary, bound, moreEqual, lessEqual)
  {
    var rules := [LessThan(primary, bound, moreEqual), GreaterThan(secondary, bound, lessEqual)];
    assert forall rec :: AcceptsAll(rules, rec) <==> Accepts(rules[0], rec) && Accepts(rules[1], rec);
    rules
  }

  /** The two comparisons of a sub-filter, `LessThan` first. */
  lemma SubFilterRules(primary: Attribute, secondary: Attribute, bound: int, moreEqual: bool, lessEqual: bool)
    ensures SubFilter(primary, secondary, bound, moreEqual, lessEqual)
            == [] + [LessThan(primary, bound, moreEqual)] + [GreaterThan(secondary, bound, lessEqual)]
  {
  }

  /**
   * The cases in which `prepareRules` adds the `StaticIdList(null)` rule:
   * neither the "from" nor the "to" field is active, the primary attribute
   * does not resolve, or the request gives no boundary.
   */
  predicate NoCandidates(s: Settings, mm: MetaModel, url: FilterUrl) {
    || (!s.fromfield && !s.tofield)
    || s.attrId !in mm.attributes
    || ParameterValue(s, mm, url).None?
    || ParameterValue(s, mm, url).value == []
  }

  /**
   * The rule `prepareRules` adds to the caller's filter. `format` stands
   * for `formatValue` of the concrete range kind; it receives `None` for a
   * missing second boundary.
   */
  function RangeRule(s: Settings, mm: MetaModel, url: FilterUrl, format: Option<string> -> int): (r: Rule)
    ensures r.StaticIdList?
    ensures r.ids.None? <==> NoCandidates(s, mm, url)
  {
    if !s.fromfield && !s.tofield then StaticIdList(None)
    else
      match RangeAttributes(s, mm)
      case None => StaticIdList(None)
      case Some(attributes) =>
        var value := ParameterValue(s, mm, url);
        if value.None? || value.value == [] then StaticIdList(None)
        else StaticIdList(Some(BoundaryIds(mm.records, attributes.0, attributes.1, value.value, format, s.moreequal, s.lessequal)))
  }

  /** The ids matched by either sub-filter, one per boundary, each id once. */
  function BoundaryIds(records: seq<Record>, primary: Attribute, secondary: Attribute, value: seq<string>,
                       format: Option<string> -> int, moreEqual: bool, lessEqual: bool): (r: seq<Id>)
    requires value != []
    ensures forall i, j :: 0 <= i < j < |r| ==> r[i] != r[j]
    ensures forall id :: id in r <==>
              exists k :: 0 <= k < |records| && records[k].id == id &&
                (|| InSpan(records[k], primary, secondary, format(Some(value[0])), moreEqual, lessEqual)
                 || InSpan(records[k], primary, secondary, format(SecondBoundary(value)), moreEqual, lessEqual))
  {
    var first := format(Some(value[0]));
    var second := format(SecondBoundary(value));
    Unique(IdsMatching(records, SubFilter(primary, secondary, first, moreEqual, lessEqual)) +
           IdsMatching(records, SubFilter(primary, secondary, second, moreEqual, lessEqual)))
  }

  /** `RangeRule` past its guards: the union of the two sub-filters' ids. */
  lemma RangeRuleEvaluated(s: Settings, mm: MetaModel, url: FilterUrl, format: Option<string> -> int,
                           primary: Attribute, secondary: Attribute, value: seq<string>)
    requires s.fromfield || s.tofield
    requires RangeAttributes(s, mm) == Some((primary, secondary))
    requires ParameterValue(s, mm, url) == Some(value) && value != []
    ensures RangeRule(s, mm, url, format) == StaticIdList(Some(BoundaryIds(mm.records, primary, secondary, value, format, s.moreequal, s.lessequal)))
  {
  }

  /**
   * `prepareRules`: add to the caller's filter the `StaticIdList(null)`
   * rule in the three guard cases, and otherwise the list of ids matched
   * by either of two fresh sub-filters, one per requested boundary.
   */
  method PrepareRules(s: Settings, mm: MetaModel, objFilter: Filter, url: FilterUrl, format: Option<string> -> int)
    modifies objFilter
    ensures objFilter.rules == old(objFilter.rules) + [RangeRule(s, mm, url, format)]
  {
    if !s.fromfield && !s.tofield {
      assert NoCandidates(s, mm, url);
      objFilter.AddFilterRule(StaticIdList(None));
      return;
    }

    var attribute := GetAttributeById(mm, s.attrId);
    var attribute2 := GetAttributeById(mm, s.attrId2);

    if attribute.None? {
      assert NoCandidates(s, mm, url);
      objFilter.AddFilterRule(StaticIdList(None));
      return;
    }

    if attribute2.None? {
      attribute2 := attribute;
    }

    var value := ParameterValue(s, mm, url);

    if value.None? || value.value == [] {
      assert NoCandidates(s, mm, url);
      objFilter.AddFilterRule(StaticIdList(None));
      return;
    }

    assert RangeAttributes(s, mm) == Some((attribute.value, attribute2.value));
    ghost var before := objFilter.rules;
    var filterOne := new Filter();
    var filterTwo := new Filter();
    var moreEqual := s.moreequal;
    var lessEqual := s.lessequal;

    filterOne.AddFilterRule(LessThan(attribute.value, format(Some(value.value[0])), moreEqual));
    filterOne.AddFilterRule(GreaterThan(attribute2.value, format(Some(value.value[0])), lessEqual));

    filterTwo.AddFilterRule(LessThan(attribute.value, format(SecondBoundary(value.value)), moreEqual));
    filterTwo.AddFilterRule(GreaterThan(attribute2.value, format(SecondBoundary(value.value)), lessEqual));

    SubFilterRules(attribute.value, attribute2.value, format(Some(value.value[0])), moreEqual, lessEqual);
    SubFilterRules(attribute.value, attribute2.value, format(SecondBoundary(value.value)), moreEqual, lessEqual);

    assert objFilter.rules == before;
    var firstMatches := filterOne.MatchingIds(mm.records);
    var secondMatches := filterTwo.MatchingIds(mm.records);

    var result := Unique(firstMatches + secondMatches);

    assert StaticIdList(Some(result)) == RangeRule(s, mm, url, format) by {
      RangeRuleEvaluated(s, mm, url, format, attribute.value, attribute2.value, value.value);
    }
    objFilter.AddFilterRule(StaticIdList(Some(result)));
  }

  /**
   * The ids `prepareRules` lists are those of the records whose span holds
   * the first or the second requested boundary, each id once.
   */
  lemma RangeRuleMatches(s: Settings, mm: MetaModel, url: FilterUrl, format: Option<string> -> int)
    requires !NoCandidates(s, mm, url)
    ensures var ids := RangeRule(s, mm, url, format).ids.value;
            forall i, j :: 0 <= i < j < |ids| ==> ids[i] != ids[j]
    ensures var ids := RangeRule(s, mm, url, format).ids.value;
            var attributes := RangeAttributes(s, mm).value;
            var value := ParameterValue(s, mm, url).value;
            forall id :: id in ids <==>
              exists k :: 0 <= k < |mm.records| && mm.records[k].id == id &&
                (|| InSpan(mm.records[k], attributes.0, attributes.1, format(Some(value[0])), s.moreequal, s.lessequal)
                 || InSpan(mm.records[k], attributes.0, attributes.1, format(SecondBoundary(value)), s.moreequal, s.lessequal))
  {
    var attributes := RangeAttributes(s, mm).value;
    var value := ParameterValue(s, mm, url).value;
    assert RangeRule(s, mm, url, format).ids.value
           == BoundaryIds(mm.records, attributes.0, attributes.1, value, format, s.moreequal, s.lessequal);
  }

  /**
   * A span whose two ends are the same column holds a bound only when both
   * comparisons are inclusive and the column's value is the bound itself.
   */
  lemma SelfRangeIsEquality(rec: Record, a: Attribute, bound: int, moreEqual: bool, lessEqual: bool)
    ensures InSpan(rec, a, a, bound, moreEqual, lessEqual) <==>
              moreEqual && lessEqual && a.colName in rec.fields && rec.fields[a.colName] == bound
  {
  }

  /**
   * When the secondary attribute does not resolve, both comparisons use the
   * primary one: with a strict comparison no id is listed, and with both
   * inclusive it holds the records whose primary value is one of the bounds.
   */
  lemma AliasedSecondary(s: Settings, mm: MetaModel, url: FilterUrl, format: Option<string> -> int)
    requires !NoCandidates(s, mm, url) && s.attrId2 !in mm.attributes
    ensures RangeAttributes(s, mm).value == (mm.attributes[s.attrId], mm.attributes[s.attrId])
    ensures !(s.moreequal && s.lessequal) ==> forall id :: id !in RangeRule(s, mm, url, format).ids.value
    ensures var ids := RangeRule(s, mm, url, format).ids.value;
            var col := mm.attributes[s.attrId].colName;
            var value := ParameterValue(s, mm, url).value;
            s.moreequal && s.lessequal ==>
              forall id :: id in ids <==>
                exists k :: 0 <= k < |mm.records| && mm.records[k].id == id && col in mm.records[k].fields &&
                  (mm.records[k].fields[col] == format(Some(value[0])) || mm.records[k].fields[col] == format(SecondBoundary(value)))
  {
    RangeRuleMatches(s, mm, url, format);
    var a := mm.attributes[s.attrId];
    forall rec: Record, bound: int
      ensures InSpan(rec, a, a, bound, s.moreequal, s.lessequal) <==>
                s.moreequal && s.lessequal && a.colName in rec.fields && rec.fields[a.colName] == bound
    {
      SelfRangeIsEquality(rec, a, bound, s.moreequal, s.lessequal);
    }
  }

  /**
   * Inclusivity: a record whose primary value is the bound and whose
   * secondary value lies above it holds the bound exactly when `moreequal`
   * is set; one whose secondary value is the bound and whose primary value
   * lies below it, exactly when `lessequal` is set.
   */
  lemma BoundaryInclusion(rec: Record, primary: Attribute, secondary: Attribute, bound: int, moreEqual: bool, lessEqual: bool)
    requires primary.colName in rec.fields && secondary.colName in rec.fields
    ensures rec.fields[primary.colName] == bound < rec.fields[secondary.colName] ==>
              (InSpan(rec, primary, secondary, bound, moreEqual, lessEqual) <==> moreEqual)
    ensures rec.fields[primary.colName] < bound == rec.fields[secondary.colName] ==>
              (InSpan(rec, primary, secondary, bound, moreEqual, lessEqual) <==> lessEqual)
  {
  }

  /** A worked case: records 1 with span [5, 15] and 2 with span [20, 25], request "10__18". */
  const ExampleStart := Attribute("start", "Start")
  const ExampleStop := Attribute("stop", "Stop")
  const ExampleModel := MetaModel(map[1 := ExampleStart, 2 := ExampleStop],
                                  [Record(1, map["start" := 5, "stop" := 15]), Record(2, map["start" := 20, "stop" := 25])])
  const ExampleSettings := Settings(1, 2, "range", "", true, true, true, true, false, false)
  const ExampleUrl: FilterUrl := map["range" := Scalar("10__18")]

  /** A `formatValue` that reads the two example boundaries as numbers. */
  function ExampleFormat(o: Option<string>): (n: int)
    ensures o == Some("10") ==> n == 10
    ensures o == Some("18") ==> n == 18
  {
    if o == Some("10") then 10 else if o == Some("18") then 18 else 0
  }

  /** "10__18" splits into "10" and "18", both truthy. */
  lemma ExampleEntries()
    ensures Entries(Scalar("10__18")) == ["10", "18"]
    ensures FilterTruthy(["10", "18"]) == ["10", "18"]
  {
    FilterTruthyUnchanged(["10", "18"]);
    SplitOnce("10", "18");
    assert "10" + Delimiter + "18" == "10__18";
  }

  /** The example url's "10__18" is read as the boundaries "10" and "18". */
  lemma ExampleValue()
    ensures ParameterValue(ExampleSettings, ExampleModel, ExampleUrl) == Some(["10", "18"])
  {
    ExampleEntries();
    ValueUnderUrlparam(ExampleSettings, ExampleModel, Scalar("10__18"), ["10", "18"]);
  }

  /** With both comparisons inclusive, record 1 holds 10 and no record holds 18. */
  lemma WorkedExample()
    ensures RangeRule(ExampleSettings, ExampleModel, ExampleUrl, ExampleFormat) == StaticIdList(Some([1]))
  {
    ExampleCandidates();
    RangeRuleEvaluated(ExampleSettings, ExampleModel, ExampleUrl, ExampleFormat, ExampleStart, ExampleStop, ["10", "18"]);
    ExampleBoundaryIds();
  }

  /** The example passes every guard, with boundaries "10" and "18" over start and stop. */
  lemma ExampleCandidates()
    ensures ExampleSettings.fromfield && ExampleSettings.moreequal && ExampleSettings.lessequal
    ensures RangeAttributes(ExampleSettings, ExampleModel) == Some((ExampleStart, ExampleStop))
    ensures ParameterValue(ExampleSettings, ExampleModel, ExampleUrl) == Some(["10", "18"])
  {
    ExampleValue();
  }

  /** Only record 1 holds one of the boundaries 10 and 18. */
  lemma ExampleBoundaryIds()
    ensures BoundaryIds(ExampleModel.records, ExampleStart, ExampleStop, ["10", "18"], ExampleFormat, true, true) == [1]
  {
    var records := ExampleModel.records;
    assert ExampleFormat(Some(["10", "18"][0])) == 10;
    assert ExampleFormat(SecondBoundary(["10", "18"])) == 18;
    assert IdsMatching(records, SubFilter(ExampleStart, ExampleStop, 10, true, true)) == [1] by {
      IdsMatchingTwo(records[0], records[1], SubFilter(ExampleStart, ExampleStop, 10, true, true));
    }
    assert IdsMatching(records, SubFilter(ExampleStart, ExampleStop, 18, true, true)) == [] by {
      IdsMatchingTwo(records[0], records[1], SubFilter(ExampleStart, ExampleStop, 18, true, true));
    }
    assert Unique([1] + []) == [1] by {
      UniqueOfDistinct([1]);
      assert [1] + [] == [1];
    }
  }

  /** Matching over two records: each contributes its id when every rule accepts it. */
  lemma IdsMatchingTwo(r1: Record, r2: Record, rules: seq<Rule>)
    requires AllComparisons(rules)
    ensures IdsMatching([r1, r2], rules)
            == (if AcceptsAll(rules, r1) then [r1.id] else []) + (if AcceptsAll(rules, r2) then [r2.id] else [])
  {
    assert [r1, r2][..1] == [r1];
    assert [r1][..0] == [];
  }
}
