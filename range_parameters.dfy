/**
 * How the range setting names its request parameter and reads it from the
 * filter url: once as the list of boundaries the rules use, once as the
 * value the widget shows, and back into the string the widget sends.
 */
module RangeParameters {
  import opened Wrappers
  import opened Php
  import opened RangeTypes

  /** The separator between the two boundaries of a scalar parameter. */
  const Delimiter: string := "__"

  /** The array key PHP uses for a parameter name: `null` becomes "". */
  function KeyOf(name: Option<string>): (key: string)
    ensures name.Some? ==> key == name.value
    ensures name.None? ==> key == ""
  {
    name.GetOr("")
  }

  /** `!empty(..)` of a filter url value. */
  predicate NonEmpty(v: UrlValue) {
    match v
    case Null => false
    case Scalar(t) => Truthy(t)
    case List(items) => items != []
  }

  /**
   * `getParamName`: the configured `urlparam` when it is truthy, else the
   * column name of the primary attribute when that resolves, else `null`.
   */
  function ParamName(s: Settings, mm: MetaModel): (r: Option<string>)
    ensures r.Some? <==> Truthy(s.urlparam) || s.attrId in mm.attributes
    ensures Truthy(s.urlparam) ==> r == Some(s.urlparam)
    ensures !Truthy(s.urlparam) && r.Some? ==> r.value == mm.attributes[s.attrId].colName
  {
    if Truthy(s.urlparam) then Some(s.urlparam)
    else
      match GetAttributeById(mm, s.attrId)
      case Some(a) => Some(a.colName)
      case None => None
  }

  /** `getParameters`: the parameter name as a one-element list when it is truthy, else empty. */
  function Parameters(s: Settings, mm: MetaModel): (r: seq<string>)
    ensures |r| <= 1
    ensures r != [] <==> ParamName(s, mm).Some? && Truthy(ParamName(s, mm).value)
    ensures r != [] ==> r == [ParamName(s, mm).value]
  {
    var name := ParamName(s, mm);
    if name.Some? && Truthy(name.value) then [name.value] else []
  }

  /** The raw entries of a parameter value: a list as it is, a string split at every delimiter. */
  function Entries(v: UrlValue): (r: seq<string>)
    ensures v.Scalar? ==> |r| >= 1
  {
    match v
    case Null => []
    case Scalar(t) => Explode(Delimiter, t)
    case List(items) => items
  }

  /**
   * The entries of a string parameter hold no delimiter, and joined again
   * with it they give back the string.
   */
  lemma EntriesRejoin(t: string)
    ensures Implode(Delimiter, Entries(Scalar(t))) == t
    ensures forall k :: 0 <= k < |Entries(Scalar(t))| ==> !Contains(Delimiter, Entries(Scalar(t))[k])
  {
    ImplodeExplode(Delimiter, t);
    ExplodeSegmentsFree(Delimiter, t);
  }

  /**
   * `getParameterValue`: `null` when the parameter is missing or empty;
   * otherwise its entries with every falsy one dropped, reindexed.
   */
  function ParameterValue(s: Settings, mm: MetaModel, url: FilterUrl): (r: Option<seq<string>>)
    ensures var key := KeyOf(ParamName(s, mm));
            r.Some? <==> key in url && NonEmpty(url[key])
    ensures r.Some? ==> forall k :: 0 <= k < |r.value| ==> Truthy(r.value[k])
    ensures r.Some? ==> forall x :: x in r.value <==> x in Entries(url[KeyOf(ParamName(s, mm))]) && Truthy(x)
  {
    var key := KeyOf(ParamName(s, mm));
    if key in url && NonEmpty(url[key]) then Some(FilterTruthy(Entries(url[key])))
    else None
  }

  /**
   * The surviving boundaries keep the order they had in the request: the
   * value is the truthy entries, taken from left to right.
   */
  lemma {:induction false} ParameterValueKeepsOrder(s: Settings, mm: MetaModel, url: FilterUrl, a: seq<string>, b: seq<string>)
    requires var key := KeyOf(ParamName(s, mm));
             key in url && NonEmpty(url[key]) && Entries(url[key]) == a + b
    ensures ParameterValue(s, mm, url) == Some(FilterTruthy(a) + FilterTruthy(b))
  {
    FilterTruthyAppend(a, b);
  }

  /** A string without an underscore holds no delimiter and is a single segment. */
  lemma NoUnderscoreIsOneSegment(a: string)
    requires forall k :: 0 <= k < |a| ==> a[k] != '_'
    ensures Find(Delimiter, a) == None
  {
    forall i | 0 <= i <= |a|
      ensures !OccursAt(Delimiter, a, i)
    {
      if i + 2 <= |a| {
        assert a[i..i + 2][0] == a[i];
      }
    }
  }

  /** No delimiter starts inside an underscore-free `a` of `a__b`. */
  lemma NoEarlierDelimiter(a: string, b: string)
    requires forall k :: 0 <= k < |a| ==> a[k] != '_'
    ensures forall j :: 0 <= j < |a| ==> !OccursAt(Delimiter, a + Delimiter + b, j)
  {
    var s := a + Delimiter + b;
    forall j | 0 <= j < |a|
      ensures !OccursAt(Delimiter, s, j)
    {
      assert s[j] == a[j];
    }
  }

  /** `a__b` with no underscore in `a` or `b` splits into `a` and `b`. */
  lemma SplitOnce(a: string, b: string)
    requires forall k :: 0 <= k < |a| ==> a[k] != '_'
    requires forall k :: 0 <= k < |b| ==> b[k] != '_'
    ensures Explode(Delimiter, a + Delimiter + b) == [a, b]
  {
    NoEarlierDelimiter(a, b);
    ExplodeJoin(Delimiter, a, b);
    NoUnderscoreIsOneSegment(b);
  }

  /** "5__10" splits into "5" and "10", both truthy. */
  lemma EntriesBoth()
    ensures Entries(Scalar("5__10")) == ["5", "10"]
    ensures FilterTruthy(["5", "10"]) == ["5", "10"]
  {
    FilterTruthyUnchanged(["5", "10"]);
    SplitOnce("5", "10");
    assert "5" + Delimiter + "10" == "5__10";
  }

  /** "__10" splits into "" and "10". */
  lemma EntriesUpperOnly()
    ensures Entries(Scalar("__10")) == ["", "10"]
  {
    SplitOnce("", "10");
    assert "" + Delimiter + "10" == "__10";
  }

  /** "0__0" splits into two falsy "0" entries; "0" stays one segment. */
  lemma EntriesZeros()
    ensures Entries(Scalar("0__0")) == ["0", "0"]
    ensures FilterTruthy(["0", "0"]) == []
    ensures Entries(Scalar("0")) == ["0"]
  {
    NoUnderscoreIsOneSegment("0");
    assert ["0", "0"][1..] == ["0"];
    SplitOnce("0", "0");
    assert "0" + Delimiter + "0" == "0__0";
  }

  /** Of the entries "" and "10" only "10" is truthy. */
  lemma UpperOnlyTruthy()
    ensures FilterTruthy(["", "10"]) == ["10"]
  {
    assert ["", "10"][1..] == ["10"];
  }

  /** "5__10" gives both boundaries. */
  lemma ValueExampleBoth(s: Settings, mm: MetaModel)
    requires Truthy(s.urlparam)
    ensures ParameterValue(s, mm, map[s.urlparam := Scalar("5__10")]) == Some(["5", "10"])
  {
    EntriesBoth();
    ValueUnderUrlparam(s, mm, Scalar("5__10"), ["5", "10"]);
  }

  /** "__10" gives only the upper boundary, which moves to index 0. */
  lemma ValueExampleUpperOnly(s: Settings, mm: MetaModel)
    requires Truthy(s.urlparam)
    ensures ParameterValue(s, mm, map[s.urlparam := Scalar("__10")]) == Some(["10"])
  {
    EntriesUpperOnly();
    UpperOnlyTruthy();
    ValueUnderUrlparam(s, mm, Scalar("__10"), ["", "10"]);
  }

  /** The list ["", "10"] gives only the upper boundary, at index 0. */
  lemma ValueExampleList(s: Settings, mm: MetaModel)
    requires Truthy(s.urlparam)
    ensures ParameterValue(s, mm, map[s.urlparam := List(["", "10"])]) == Some(["10"])
  {
    ValueUnderUrlparam(s, mm, List(["", "10"]), ["", "10"]);
    UpperOnlyTruthy();
  }

  /** "0" is empty to PHP, so there is no value; "0__0" is a value with no boundary left. */
  lemma ValueExampleZeros(s: Settings, mm: MetaModel)
    requires Truthy(s.urlparam)
    ensures ParameterValue(s, mm, map[s.urlparam := Scalar("0")]) == None
    ensures ParameterValue(s, mm, map[s.urlparam := Scalar("0__0")]) == Some([])
  {
    EntriesZeros();
    ValueUnderUrlparam(s, mm, Scalar("0__0"), ["0", "0"]);
    ValueUnderUrlparam(s, mm, Scalar("0"), ["0"]);
  }

  /** The value read from a filter url that holds `v` under the configured `urlparam`. */
  lemma ValueUnderUrlparam(s: Settings, mm: MetaModel, v: UrlValue, entries: seq<string>)
    requires Truthy(s.urlparam) && Entries(v) == entries
    ensures ParameterValue(s, mm, map[s.urlparam := v]) == if NonEmpty(v) then Some(FilterTruthy(entries)) else None
  {
    assert KeyOf(ParamName(s, mm)) == s.urlparam;
  }

  /** The entries the widget reads: a list as it is, a string split at its first delimiter only. */
  function WidgetEntries(v: UrlValue): (r: seq<string>)
    ensures v.Scalar? ==> 1 <= |r| <= 2 && !Contains(Delimiter, r[0])
    ensures v.Scalar? ==> (|r| == 2 <==> Contains(Delimiter, v.text))
  {
    match v
    case Null => []
    case Scalar(t) => ExplodeTwo(Delimiter, t)
    case List(items) => items
  }

  /** `$v[0] || $v[1]`, where an index beyond the list reads as `null`. */
  predicate FirstOrSecondTruthy(v: seq<string>) {
    (|v| > 0 && Truthy(v[0])) || (|v| > 1 && Truthy(v[1]))
  }

  /**
   * `prepareWidgetParamAndFilterUrl`: the widget's copy of the filter url
   * and its current value. The value is the parameter's entries (a string
   * split in at most two) when the first or the second of them is truthy,
   * and the copy then holds that list under the parameter's key; otherwise
   * the value is `null` and the copy is the filter url unchanged.
   */
  function WidgetParamAndFilterUrl(s: Settings, mm: MetaModel, url: FilterUrl): (r: (FilterUrl, Option<seq<string>>))
    ensures var key := KeyOf(ParamName(s, mm));
            forall k :: k != key ==> (k in r.0 <==> k in url) && (k in url ==> r.0[k] == url[k])
    ensures r.1.None? ==> r.0 == url
    ensures var key := KeyOf(ParamName(s, mm));
            r.1.Some? <==> key in url && NonEmpty(url[key]) && FirstOrSecondTruthy(WidgetEntries(url[key]))
    ensures var key := KeyOf(ParamName(s, mm));
            r.1.Some? ==> r.0 == url[key := List(r.1.value)] && r.1.value == WidgetEntries(url[key])
    ensures var key := KeyOf(ParamName(s, mm));
            r.1.Some? && url[key].Scalar? ==> 1 <= |r.1.value| <= 2
    ensures r.1.Some? ==> r.1.value != []
  {
    var key := KeyOf(ParamName(s, mm));
    if key in url && NonEmpty(url[key]) then
      var value := WidgetEntries(url[key]);
      if value != [] && FirstOrSecondTruthy(value) then (url[key := List(value)], Some(value))
      else (url, None)
    else (url, None)
  }

  /** The `urlvalue` of the widget: its current value joined with the delimiter, or "" when there is none. */
  function UrlValueOf(current: Option<seq<string>>): (r: string)
    ensures current.None? || current == Some([]) ==> r == ""
    ensures current.Some? && |current.value| == 1 ==> r == current.value[0]
  {
    if current.Some? && current.value != [] then Implode(Delimiter, current.value) else ""
  }

  /**
   * Round trip: when the parameter is a string and the widget has a value,
   * the `urlvalue` the widget sends back is exactly that string.
   */
  lemma WidgetRoundTrip(s: Settings, mm: MetaModel, url: FilterUrl)
    requires var key := KeyOf(ParamName(s, mm));
             key in url && url[key].Scalar? && WidgetParamAndFilterUrl(s, mm, url).1.Some?
    ensures UrlValueOf(WidgetParamAndFilterUrl(s, mm, url).1) == url[KeyOf(ParamName(s, mm))].text
  {
    ImplodeExplodeTwo(Delimiter, url[KeyOf(ParamName(s, mm))].text);
  }

  /**
   * The widget and the rules read a parameter alike as far as its first
   * boundary goes: when the widget's first entry is truthy, it is the first
   * boundary the rules use, for a string and for an array.
   */
  lemma WidgetFirstEntryIsFirstBoundary(s: Settings, mm: MetaModel, url: FilterUrl)
    requires var key := KeyOf(ParamName(s, mm));
             key in url
    ensures var w := WidgetParamAndFilterUrl(s, mm, url).1;
            w.Some? && Truthy(w.value[0]) ==>
              ParameterValue(s, mm, url).Some? && ParameterValue(s, mm, url).value[0] == w.value[0]
  {
    match url[KeyOf(ParamName(s, mm))]
    case Null =>
    case Scalar(t) =>
      ExplodeTwoIsJoinedExplode(Delimiter, t);
      var parts := Explode(Delimiter, t);
      assert parts == [parts[0]] + parts[1..];
      FilterTruthyAppend([parts[0]], parts[1..]);
    case List(items) =>
      if items != [] {
        assert items == [items[0]] + items[1..];
        FilterTruthyAppend([items[0]], items[1..]);
      }
  }

  /**
   * They do not agree beyond that: "____" (four underscores) is an empty
   * value to the rules, whose full split gives three empty strings, but an
   * active one to the widget, whose second entry is "__".
   */
  lemma WidgetAndRulesDiffer(s: Settings, mm: MetaModel)
    requires Truthy(s.urlparam)
    ensures ParameterValue(s, mm, map[s.urlparam := Scalar("____")]) == Some([])
    ensures WidgetParamAndFilterUrl(s, mm, map[s.urlparam := Scalar("____")]).1 == Some(["", "__"])
  {
    var empty: string := "";
    assert Find(Delimiter, empty) == None;
    assert Find(Delimiter, Delimiter) == Some(0);
    assert Delimiter[..0] == empty && Delimiter[2..] == empty;
    assert Explode(Delimiter, Delimiter) == [empty, empty];
    var four := Delimiter + Delimiter;
    assert four == "____";
    assert four[..2] == Delimiter;
    assert Find(Delimiter, four) == Some(0);
    assert four[..0] == empty && four[2..] == Delimiter;
    assert Explode(Delimiter, four) == [empty, empty, empty];
    assert ExplodeTwo(Delimiter, four) == [empty, Delimiter];
    ValueUnderUrlparam(s, mm, Scalar("____"), ["", "", ""]);
    assert FilterTruthy(["", "", ""]) == [];
  }
}
