/**
 * The data the range filter setting works on: its configuration, the
 * MetaModel it queries (attributes by id and the stored records), the
 * filter url of the request and the filter rules it builds.
 */
module RangeTypes {
  import opened Wrappers

  /** A record (item) id of the MetaModel. */
  type Id = int

  /** An attribute of the MetaModel: its database column and its display name. */
  datatype Attribute = Attribute(colName: string, name: string)

  /**
   * A stored record: its id and the comparable value of each column it has a
   * value in. A column missing from `fields` holds SQL NULL.
   */
  datatype Record = Record(id: Id, fields: map<string, int>)

  /** The MetaModel the setting belongs to: attributes by id, and its records. */
  datatype MetaModel = MetaModel(attributes: map<int, Attribute>, records: seq<Record>)

  /** `getAttributeById`: the attribute with that id, if there is one. */
  function GetAttributeById(mm: MetaModel, id: int): (r: Option<Attribute>)
    ensures r.Some? <==> id in mm.attributes
    ensures r.Some? ==> r.value == mm.attributes[id]
  {
    if id in mm.attributes then Some(mm.attributes[id]) else None
  }

  /** A value in the filter url: PHP `null`, a string, or a list of strings. */
  datatype UrlValue = Null | Scalar(text: string) | List(items: seq<string>)

  /** The filter url: request parameters by name. */
  type FilterUrl = map<string, UrlValue>

  /**
   * The configuration of one range filter setting (`$this->get(..)`).
   * An attribute id that is unset is one that does not resolve.
   */
  datatype Settings = Settings(
    attrId: int,
    attrId2: int,
    urlparam: string,
    labelText: string,
    fromfield: bool,
    tofield: bool,
    moreequal: bool,
    lessequal: bool,
    onlypossible: bool,
    onlyused: bool)

  /**
   * The filter rules this setting creates. `StaticIdList(None)` is the rule
   * built from `null`; what the host makes of it is not modelled.
   */
  datatype Rule =
    | StaticIdList(ids: Option<seq<Id>>)
    | LessThan(attribute: Attribute, value: int, inclusive: bool)
    | GreaterThan(attribute: Attribute, value: int, inclusive: bool)

  /** A rule that compares a column with a bound. */
  predicate IsComparison(r: Rule) {
    r.LessThan? || r.GreaterThan?
  }

  /**
   * A comparison rule accepts a record when the record has a value in the
   * rule's column and that value is below (`LessThan`) or above
   * (`GreaterThan`) the rule's value, equality included iff `inclusive`.
   */
  predicate Accepts(r: Rule, rec: Record)
    requires IsComparison(r)
  {
    var c := r.attribute.colName;
    && c in rec.fields
    && if r.LessThan? then
         (if r.inclusive then rec.fields[c] <= r.value else rec.fields[c] < r.value)
       else
         (if r.inclusive then rec.fields[c] >= r.value else rec.fields[c] > r.value)
  }

  /** Every rule of the list is a comparison. */
  predicate AllComparisons(rules: seq<Rule>) {
    forall i :: 0 <= i < |rules| ==> IsComparison(rules[i])
  }

  /** Every rule of a filter accepts the record: the rules of a filter are a conjunction. */
  predicate AcceptsAll(rules: seq<Rule>, rec: Record)
    requires AllComparisons(rules)
  {
    forall i :: 0 <= i < |rules| ==> Accepts(rules[i], rec)
  }
}
