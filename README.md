# Range filter setting of MetaModels

A model of the abstract range filter setting of MetaModels
(`src/FilterSetting/AbstractRange.php`). The setting compares a requested
boundary value with a span that every record holds between two attributes,
a primary "from" column and a secondary "to" column. It does four things:

- it names and reads its request parameter;
- it prepares what its frontend widget shows: label, size, options and the
  value it sends back;
- it turns the request into a single `StaticIdList` rule for the caller's
  filter;
- it lists the columns it refers to.

The modules follow that structure:

| file | module | contents |
|---|---|---|
| `wrappers.dfy` | `Wrappers` | `Option` |
| `php.dfy` | `Php` | the PHP built-ins the setting relies on: truthiness of a string, `explode` with no limit and with limit two, `implode`, `array_values(array_filter(..))` and `array_unique` |
| `range_types.dfy` | `RangeTypes` | the setting's configuration, the MetaModel (attributes by id, records), the filter url and the filter rules |
| `filters.dfy` | `Filters` | the host's filter object. It is a class whose `rules` list `addFilterRule` appends to, and which evaluates comparison rules over the records in memory |
| `range_parameters.dfy` | `RangeParameters` | `getParamName`, `getParameters`, `getParameterValue`, `prepareWidgetParamAndFilterUrl` and the widget's `urlvalue` |
| `range_widget.dfy` | `RangeWidget` | the label suffix, the widget's `size` and `prepareWidgetOptions` |
| `range_rules.dfy` | `RangeRules` | `getReferencedAttributes` and `prepareRules`, with lemmas about the rule it adds and a worked example |

These parts of the surroundings become parameters:

- `formatValue` of the concrete range kind becomes `format: Option<string> -> int`. It receives `None` where the code reads a missing `$value[1]`.
- `strip_tags` and `trim` become functions `string -> string`.
- The attribute's `getFilterOptions` query becomes a function of the id restriction and the `onlyused` flag.
- The language-string lookup becomes `translate`.

A record is its id and the integer value of each column it has a value in. A missing column is SQL NULL and satisfies no comparison.

`prepareRules` and `prepareWidgetOptions` are methods. Each is proved against a specification function:

- `PrepareRules` against `RangeRule`. It appends exactly `RangeRule(..)` to the caller's filter.
- `PrepareWidgetOptions` against `KeepLabelled`. Its loop unsets entries in place, and its invariant relates the partly cleaned map to `KeepLabelled` of the prefix already visited.

The properties are then proved about those functions.

Two points of the code decide how it is modelled:

- `getParameterValue` (line 91) splits a string parameter at every `__`; only the widget (line 234) uses `explode` with limit two. `ParameterValue` therefore splits at every delimiter and `WidgetParamAndFilterUrl` at the first only.
- What the host does with `StaticIdList(null)` is not in this code, so the model keeps `StaticIdList(None)` as a marker. `NoCandidates` states exactly when it is added.

The two ways of reading the parameter also disagree with each other:

- **Where they agree.** When the widget's first entry is truthy, it is the rules' first boundary. This holds for a string parameter and for an array parameter (`WidgetFirstEntryIsFirstBoundary`).
- **Where they differ.** `"____"` gives the rules an empty value, so the rule is `StaticIdList(None)`. The widget instead gets the active value `["", "__"]` (`WidgetAndRulesDiffer`).
- **The second boundary.** The rules drop falsy entries and reindex, so with `"__10"` the widget's first field is empty while the rules' first boundary is `"10"`. With only one boundary left, the second sub-filter compares against `formatValue(null)`.

## Model

| member | source | states |
|---|---|---|
| Php.Truthy | src/FilterSetting/AbstractRange.php:125 | PHP truthiness of a string, used for `urlparam` (line 125), the parameter name (line 55), the label (line 164) and the widget entries (line 237): exactly "" and "0" are falsy |
| Php.Find | src/FilterSetting/AbstractRange.php:91 | the position `explode` splits at is an occurrence of the delimiter with none before it; `None` exactly when the string holds no delimiter |
| Php.Explode | src/FilterSetting/AbstractRange.php:91 | splitting without a limit always gives at least one segment |
| Php.ExplodeSegmentsFree | src/FilterSetting/AbstractRange.php:91 | no segment of an unlimited split holds the delimiter |
| Php.ExplodeTwo | src/FilterSetting/AbstractRange.php:234 | the split with limit two gives one or two segments, the first free of the delimiter, and two exactly when the string holds the delimiter |
| Php.ImplodeExplode | src/FilterSetting/AbstractRange.php:91 | joining the segments of an unlimited split with the delimiter gives back the string |
| Php.ImplodeExplodeTwo | src/FilterSetting/AbstractRange.php:234 | joining the segments of the split with limit two gives back the string |
| Php.ExplodeTwoIsJoinedExplode | src/FilterSetting/AbstractRange.php:234 | both splits have the same first segment; the limited one has a second segment exactly when the unlimited one has more than one, and that segment is the rest joined again |
| Php.ExplodeStep | src/FilterSetting/AbstractRange.php:91 | an unfolding of `Explode` and `ExplodeTwo` at the leftmost occurrence, used by the other lemmas: the first segment is what precedes it, and the rest is split further (unlimited) or kept whole (limit two) |
| Php.Implode | src/FilterSetting/AbstractRange.php:279 | `implode` begins with the first part, and with two or more parts the delimiter follows it; `ImplodeExplode` and `ImplodeExplodeTwo` state that it undoes both splits |
| Php.FilterTruthy | src/FilterSetting/AbstractRange.php:88-91 | `array_values(array_filter(..))` keeps exactly the truthy entries, all of them truthy, never more than the input |
| Php.FilterTruthyAppend | src/FilterSetting/AbstractRange.php:88-91 | filtering distributes over concatenation, so the surviving entries keep their relative order |
| Php.FilterTruthyUnchanged | src/FilterSetting/AbstractRange.php:88 | filtering leaves a list unchanged if and only if every entry is truthy |
| Php.Unique | src/FilterSetting/AbstractRange.php:364 | `array_unique` keeps exactly the values of its input, each once, never more than the input |
| Php.UniqueOfDistinct | src/FilterSetting/AbstractRange.php:364 | a list without repeated values passes `array_unique` unchanged |
| RangeTypes.Accepts | src/FilterSetting/AbstractRange.php:354-355 | what a comparison rule means for a record: `LessThan` holds when the column's value is below the bound (or on it, when inclusive), `GreaterThan` when it is above (or on it); a record without a value in the column satisfies neither |
| RangeTypes.AcceptsAll | src/FilterSetting/AbstractRange.php:361-362 | a filter accepts a record exactly when every one of its rules does: the rules of one filter are a conjunction, as `getMatchingIds` applies them |
| RangeTypes.GetAttributeById | src/FilterSetting/AbstractRange.php:324-325 | an attribute id resolves exactly when the MetaModel has an attribute under it, and then to that attribute |
| Filters.IdsMatching | src/FilterSetting/AbstractRange.php:361-362 | `getMatchingIds` of a filter of comparisons lists an id exactly when a record with that id satisfies every rule, at most one id per record |
| Filters.Filter.MatchingIds | src/FilterSetting/AbstractRange.php:361-362 | `getMatchingIds` on a filter's own rules lists an id exactly when a record with it satisfies every rule, at most one id per record |
| Filters.Filter.constructor | src/FilterSetting/AbstractRange.php:348-349 | `getEmptyFilter` gives a filter without rules |
| Filters.Filter.AddFilterRule | src/FilterSetting/AbstractRange.php:353-355 | `addFilterRule` appends the rule and changes nothing else |
| RangeParameters.KeyOf | src/FilterSetting/AbstractRange.php:86 | a `null` parameter name indexes the filter url as the key "" |
| RangeParameters.NonEmpty | src/FilterSetting/AbstractRange.php:86 | `isset(..) && !empty(..)` of a url value (line 86, and `!empty` at line 230): `null`, a falsy string and an empty array are empty |
| RangeParameters.ParamName | src/FilterSetting/AbstractRange.php:123-135 | the name is `urlparam` when that is truthy, otherwise the primary attribute's column name; it is `null` exactly when `urlparam` is falsy and the primary attribute does not resolve |
| RangeParameters.Parameters | src/FilterSetting/AbstractRange.php:53-56 | the list holds the parameter name, and nothing else, if and only if that name is truthy; otherwise it is empty |
| RangeParameters.Entries | src/FilterSetting/AbstractRange.php:87-91 | the raw entries the rules read: an array as it is, a string split at every delimiter into at least one segment |
| RangeParameters.EntriesRejoin | src/FilterSetting/AbstractRange.php:91 | the entries of a string parameter hold no delimiter, and joined again with it they give back the string |
| RangeParameters.ParameterValue | src/FilterSetting/AbstractRange.php:83-95 | `null` if and only if the parameter is missing or empty; otherwise a list of truthy entries only, holding every truthy entry of the raw value |
| RangeParameters.ParameterValueKeepsOrder | src/FilterSetting/AbstractRange.php:88-91 | the value is the truthy entries taken from left to right: filtering the split `a + b` is filtering `a` followed by filtering `b` |
| RangeParameters.SplitOnce | src/FilterSetting/AbstractRange.php:91 | `a__b` with no underscore in `a` or `b` splits into exactly `a` and `b` |
| RangeParameters.ValueExampleBoth | src/FilterSetting/AbstractRange.php:91 | `"5__10"` gives the boundaries `["5", "10"]` |
| RangeParameters.ValueExampleUpperOnly | src/FilterSetting/AbstractRange.php:91 | `"__10"` gives `["10"]`: the lone upper boundary moves to index 0 |
| RangeParameters.ValueExampleList | src/FilterSetting/AbstractRange.php:87-88 | the array `["", "10"]` gives `["10"]` |
| RangeParameters.ValueExampleZeros | src/FilterSetting/AbstractRange.php:86-91 | `"0"` is empty, so there is no value; `"0__0"` is a value with no boundary left |
| RangeParameters.ValueUnderUrlparam | src/FilterSetting/AbstractRange.php:85-91 | an unfolding of `ParameterValue` for a url that holds one value under a truthy `urlparam`, used by the examples: the truthy entries when it is non-empty, `null` otherwise |
| RangeParameters.WidgetEntries | src/FilterSetting/AbstractRange.php:231-235 | the raw entries the widget reads: an array as it is, a string split into one or two segments, two exactly when it holds the delimiter, the first free of it |
| RangeParameters.FirstOrSecondTruthy | src/FilterSetting/AbstractRange.php:237 | `$v[0] \|\| $v[1]`: entry 0 or entry 1 exists and is truthy, a missing index reading as `null` |
| RangeParameters.WidgetParamAndFilterUrl | src/FilterSetting/AbstractRange.php:221-250 | no key other than the parameter's own changes; with a `null` value the url comes back unchanged; the value is non-null if and only if the parameter is present, non-empty and its first or second entry is truthy, and then it is the parameter's entries and stands under its key; a string yields at most two entries, and a non-null value holds at least one |
| RangeParameters.UrlValueOf | src/FilterSetting/AbstractRange.php:279 | no value, or an empty one, gives `''`; a single entry is sent as it is |
| RangeParameters.WidgetRoundTrip | src/FilterSetting/AbstractRange.php:279 | for a string parameter with a widget value, the `urlvalue` joined again (line 279) is exactly the string split at line 234 |
| RangeParameters.WidgetFirstEntryIsFirstBoundary | src/FilterSetting/AbstractRange.php:230-237 | for a string or an array parameter, a truthy first widget entry is also the first boundary `getParameterValue` gives the rules |
| RangeParameters.WidgetAndRulesDiffer | src/FilterSetting/AbstractRange.php:230-237 | `"____"` is an empty value (`[]`) to the rules but the active widget value `["", "__"]` |
| RangeWidget.LabelSuffix | src/FilterSetting/AbstractRange.php:168-182 | the suffix is "fromto" iff both fields, "from" iff only the "from" field, "to" iff the "from" field is off |
| RangeWidget.WidgetLabel | src/FilterSetting/AbstractRange.php:161-183 | the label is the configured label, or the attribute name when that is falsy, then a blank, then the translated suffix; the second line is "GET: " and the parameter name |
| RangeWidget.WidgetSize | src/FilterSetting/AbstractRange.php:273 | the widget has one or two fields, two exactly when the label suffix is "fromto" |
| RangeWidget.DistinctKeys | src/FilterSetting/AbstractRange.php:193-207 | an option list holds each key once, as a PHP array does; `unset` by key at line 207 removes one entry because of it, and it is the only precondition of `PrepareWidgetOptions` |
| RangeWidget.Blank | src/FilterSetting/AbstractRange.php:203-206 | a label is blank exactly when `trim(strip_tags(label))` is `''`, the test of line 206 |
| RangeWidget.RemoveKey | src/FilterSetting/AbstractRange.php:207 | `unset` keeps exactly the entries under other keys |
| RangeWidget.KeepLabelled | src/FilterSetting/AbstractRange.php:200-211 | the sanitised options are exactly the input entries, with key and original label, whose label is not blank after `strip_tags` and `trim` |
| RangeWidget.KeepLabelledAppend | src/FilterSetting/AbstractRange.php:201-209 | sanitising distributes over concatenation, so the survivors keep their relative order |
| RangeWidget.KeepLabelledKeys | src/FilterSetting/AbstractRange.php:200-211 | a key survives if and only if its label is not blank, and the result keeps distinct keys |
| RangeWidget.KeepLabelledDistinct | src/FilterSetting/AbstractRange.php:200-211 | sanitising a map keeps its keys distinct |
| RangeWidget.UnsetBlankStep | src/FilterSetting/AbstractRange.php:206-208 | unsetting the key of a blank entry during the walk extends the cleaned prefix by nothing and leaves the rest |
| RangeWidget.KeepStep | src/FilterSetting/AbstractRange.php:201-209 | passing over an entry with a label extends the cleaned prefix by that entry |
| RangeWidget.PrepareWidgetOptions | src/FilterSetting/AbstractRange.php:193-212 | the options returned are the ones `getFilterOptions` gives (restricted to the ids when `onlypossible`, to used values when `onlyused`) with exactly the blank-labelled entries unset, in order |
| RangeRules.ReferencedAttributes | src/FilterSetting/AbstractRange.php:102-118 | one column name per resolved attribute, at most two, the primary one first and the secondary one last |
| RangeRules.RangeAttributes | src/FilterSetting/AbstractRange.php:324-337 | the comparisons use attributes exactly when the primary one resolves; the secondary one is the primary one again when it does not resolve |
| RangeRules.SecondBoundary | src/FilterSetting/AbstractRange.php:358 | `$value[1]` is the second boundary when there are two and `null` otherwise |
| RangeRules.InSpan | src/FilterSetting/AbstractRange.php:353-359 | a record's span holds the bound: its primary value lies below it (or on it, with `moreequal`) and its secondary value above it (or on it, with `lessequal`), both columns having a value |
| RangeRules.SubFilter | src/FilterSetting/AbstractRange.php:353-359 | a sub-filter holds only comparisons and accepts a record exactly when the bound lies in its span, inclusive below iff `moreequal` and above iff `lessequal` |
| RangeRules.SubFilterRules | src/FilterSetting/AbstractRange.php:353-355 | an unfolding of `SubFilter` in the form `PrepareRules` builds it, two appends to an empty filter: the `LessThan` on the primary attribute, then the `GreaterThan` on the secondary one |
| RangeRules.NoCandidates | src/FilterSetting/AbstractRange.php:317-346 | the three guard cases: neither field active, the primary attribute unresolved, or an empty value (`null` or `[]`, as `empty($value)` at line 342) |
| RangeRules.BoundaryIds | src/FilterSetting/AbstractRange.php:353-364 | `array_unique(array_merge(..))` of the two sub-filters' matches: the ids are distinct, and an id is listed exactly when some record with it holds the first boundary or the second (`null` when missing) in its span |
| RangeRules.RangeRule | src/FilterSetting/AbstractRange.php:314-367 | the rule added is always a `StaticIdList`, built from `null` exactly in the three guard cases |
| RangeRules.RangeRuleEvaluated | src/FilterSetting/AbstractRange.php:348-366 | an unfolding of `RangeRule` past its guards, used by `PrepareRules`: the rule lists `BoundaryIds` of the resolved attributes and the value |
| RangeRules.PrepareRules | src/FilterSetting/AbstractRange.php:314-367 | on every path exactly one rule, `RangeRule(..)`, is appended to the caller's filter, whose earlier rules stay as they were |
| RangeRules.RangeRuleMatches | src/FilterSetting/AbstractRange.php:361-366 | the ids listed are distinct, and an id is listed if and only if some record with it holds the first or the second boundary in its span |
| RangeRules.SelfRangeIsEquality | src/FilterSetting/AbstractRange.php:335-337 | on a span whose two ends are the same column, a bound is held only with both comparisons inclusive and a column value equal to the bound |
| RangeRules.AliasedSecondary | src/FilterSetting/AbstractRange.php:335-359 | with an unresolved secondary attribute both comparisons use the primary one; then a strict comparison lists no id, and with both inclusive an id is listed iff its primary value is one of the bounds |
| RangeRules.BoundaryInclusion | src/FilterSetting/AbstractRange.php:350-355 | a bound on the lower end of a span is held iff `moreequal`, one on the upper end iff `lessequal` |
| RangeRules.WorkedExample | src/FilterSetting/AbstractRange.php:314-367 | records with spans [5, 15] and [20, 25] and the request `"10__18"` give exactly the list `[1]` |
| RangeRules.ExampleBoundaryIds | src/FilterSetting/AbstractRange.php:353-364 | in the example, the sub-filter for 10 matches record 1, the one for 18 matches nothing, and their union is `[1]` |

## Left out

- `src/MetaModels/Filter/Setting/RangeDateFilterSettingTypeFactory.php`: it only registers the type name, icon and class and the allowed attribute types (`numeric`, `decimal`, `timestamp`), with no logic.
- Reading a missing `$value[1]` (line 358) or `$parameterValue[1]` (line 237) raises a PHP notice, a warning in PHP 8. It happens for `"10"`, `"10__"` and `"__10"`, and for an array such as `range[]=0`. The model reads `null` there (`SecondBoundary`, `FirstOrSecondTruthy`) and carries no diagnostic, so a host that turns warnings into exceptions and stops `prepareRules` is not modelled.
- `registerFilterParameter` (lines 145-148): it appends to a process-wide `$GLOBALS` registry, which is outside any value the model carries.
- `getParameterFilterNames` (lines 61-74): it formats the backend name with `sprintf`. It is outside the modelled core, and on an unresolved attribute it calls a method on `null`.
- `getParameterFilterWidgets` and `prepareFrontendFilterWidget` (lines 286-309): frontend widget plumbing. Of `getFilterWidgetParameters` (lines 263-281), `label` is modelled by `WidgetLabel` and `LabelSuffix`, `options` by `PrepareWidgetOptions`, `urlparam` by `ParamName`, and `size` and `urlvalue` by `WidgetSize` and `UrlValueOf`. The entries `inputType`, `multiple`, `timetype`, `dateformat`, `template` and `colname` are left out.
- RangeWidget.WidgetLabel: the translated texts are behind `translate`. The model fixes only which language key is chosen.
- Filters.IdsMatching: the SQL of `LessThan` and `GreaterThan` is replaced by comparisons on integers in memory, and ids come in record order where SQL gives no order. `formatValue`'s string-to-column conversion is the parameter `format`, and its concrete implementations are not part of this model.
- Php.Unique: PHP's `array_unique` keeps the original keys, so the array passed to `StaticIdList` may have gaps in its keys. The model keeps only the values, in order.
- RangeParameters.WidgetParamAndFilterUrl: an array parameter is taken to be indexed from 0. The widget keeps the raw array (line 232) and reads entries 0 and 1 by key (line 237), so arrays with other keys, such as `range[2]=10` where the code sees no entry 0 or 1, are not modelled.
- Filter url values: a value is `null`, a string or a flat list of strings. Nested arrays, and numbers that PHP would coerce, are not modelled.
- RangeWidget.PrepareWidgetOptions: option labels are strings. `strip_tags` and `trim` are opaque functions, so what they remove is not modelled. The `null === $mixOption` test cannot hold after `trim` and has no counterpart.
- The meaning of `StaticIdList(null)` to the host is not modelled; it is a distinct marker.
- Calling `prepareRules` twice appends two rules. The model is deterministic, so the two rules are equal; there is no separate idempotence property.
