/**
 * The host's filter object, reduced to what the range setting uses: a list
 * of rules it appends to, and the ids of the records that all of its
 * comparison rules accept, evaluated over the records in memory.
 */
module Filters {
  import opened RangeTypes

  /**
   * The ids of the records that every rule accepts, in record order
   * (`getMatchingIds` on a filter holding only comparison rules).
   */
  function IdsMatching(records: seq<Record>, rules: seq<Rule>): (ids: seq<Id>)
    requires AllComparisons(rules)
    ensures |ids| <= |records|
    ensures forall id :: id in ids <==>
              exists k :: 0 <= k < |records| && records[k].id == id && AcceptsAll(rules, records[k])
    decreases |records|
  {
    if records == [] then []
    else
      var init := records[..|records| - 1];
      var last := records[|records| - 1];
      assert forall k :: 0 <= k < |init| ==> init[k] == records[k];
      IdsMatching(init, rules) + (if AcceptsAll(rules, last) then [last.id] else [])
  }

  /** A filter (`IFilter`): the rules added so far, in order. */
  class Filter {
    var rules: seq<Rule>

    /** `getEmptyFilter()`: a filter without rules. */
    constructor ()
      ensures rules == []
    {
      rules := [];
    }

    /** `addFilterRule`: append one rule. */
    method AddFilterRule(r: Rule)
      modifies this
      ensures rules == old(rules) + [r]
    {
      rules := rules + [r];
    }

    /** `getMatchingIds` over the given records. */
    function MatchingIds(records: seq<Record>): (ids: seq<Id>)
      reads this
      requires AllComparisons(rules)
      ensures |ids| <= |records|
      ensures forall id :: id in ids <==>
                exists k :: 0 <= k < |records| && records[k].id == id && AcceptsAll(rules, records[k])
    {
      IdsMatching(records, rules)
    }
  }
}
