/**
 * What the range setting contributes to its frontend widget: the label,
 * the number of input fields, and the option list with the entries whose
 * label is empty once markup and surrounding whitespace are removed taken
 * out.
 */
module RangeWidget {
  import opened Wrappers
  import opened Php
  import opened RangeTypes
  import opened RangeParameters

  /** The language key that completes the widget label. */
  datatype LabelKey = FromTo | From | To

  /**
   * The label suffix: "fromto" with both fields, "from" with only the
   * "from" field, and "to" in every other case (also with neither field).
   */
  function LabelSuffix(fromField: bool, toField: bool): (k: LabelKey)
    ensures k == FromTo <==> fromField && toField
    ensures k == From <==> fromField && !toField
    ensures k == To <==> !fromField
  {
    if fromField && toField then FromTo
    else if fromField && !toField then From
    else To
  }

  /**
   * `prepareWidgetLabel`: the configured label (or, when it is falsy, the
   * attribute's name) followed by a blank and the translation of the
   * chosen suffix; and "GET: " followed by the parameter name ("" for none).
   * `translate` stands for the language-string lookup.
   */
  function WidgetLabel(s: Settings, mm: MetaModel, attribute: Attribute, translate: LabelKey -> string): (r: (string, string))
    ensures var text := if Truthy(s.labelText) then s.labelText else attribute.name;
            |r.0| > |text| && r.0[..|text|] == text && r.0[|text|] == ' '
    ensures var text := if Truthy(s.labelText) then s.labelText else attribute.name;
            r.0[|text| + 1..] == translate(LabelSuffix(s.fromfield, s.tofield))
    ensures r.1 == "GET: " + KeyOf(ParamName(s, mm))
  {
    var text := if Truthy(s.labelText) then s.labelText else attribute.name;
    (text + " " + translate(LabelSuffix(s.fromfield, s.tofield)), "GET: " + KeyOf(ParamName(s, mm)))
  }

  /** The widget's `size`: two input fields with both the "from" and the "to" field, else one. */
  function WidgetSize(s: Settings): (n: nat)
    ensures n == 1 || n == 2
    ensures n == 2 <==> LabelSuffix(s.fromfield, s.tofield) == FromTo
  {
    if s.fromfield && s.tofield then 2 else 1
  }

  /** An option list as PHP keeps it: (key, label) pairs in order. */
  type OptionList = seq<(string, string)>

  /** Some entry of the list is under key `k`. */
  predicate HasKey(opts: OptionList, k: string) {
    exists i :: 0 <= i < |opts| && opts[i].0 == k
  }

  /** Every key occurs once, as in a PHP array. */
  predicate DistinctKeys(opts: OptionList) {
    forall i, j :: 0 <= i < j < |opts| ==> opts[i].0 != opts[j].0
  }

  /** A label is blank when nothing is left of it after `strip_tags` and then `trim`. */
  predicate Blank(text: string, stripTags: string -> string, trim: string -> string) {
    trim(stripTags(text)) == ""
  }

  /** `unset($opts[k])`: the list without the entry under key `k`. */
  function RemoveKey(opts: OptionList, k: string): (r: OptionList)
    ensures forall p :: p in r <==> p in opts && p.0 != k
    ensures |r| <= |opts|
  {
    if opts == [] then []
    else (if opts[0].0 == k then [] else [opts[0]]) + RemoveKey(opts[1..], k)
  }

  /** The options whose labels are not blank, unchanged and in their order. */
  function KeepLabelled(opts: OptionList, stripTags: string -> string, trim: string -> string): (r: OptionList)
    ensures forall p :: p in r <==> p in opts && !Blank(p.1, stripTags, trim)
    ensures |r| <= |opts|
  {
    if opts == [] then []
    else (if Blank(opts[0].1, stripTags, trim) then [] else [opts[0]]) + KeepLabelled(opts[1..], stripTags, trim)
  }

  /** `unset` distributes over concatenation. */
  lemma {:induction false} RemoveKeyAppend(a: OptionList, b: OptionList, k: string)
    ensures RemoveKey(a + b, k) == RemoveKey(a, k) + RemoveKey(b, k)
  {
    if a == [] {
      assert a + b == b;
    } else {
      assert (a + b)[0] == a[0];
      assert (a + b)[1..] == a[1..] + b;
      RemoveKeyAppend(a[1..], b, k);
    }
  }

  /** Unsetting a key the list does not hold changes nothing. */
  lemma {:induction false} RemoveAbsentKey(a: OptionList, k: string)
    requires forall p :: p in a ==> p.0 != k
    ensures RemoveKey(a, k) == a
  {
    if a != [] {
      assert a[0] in a;
      assert forall p :: p in a[1..] ==> p in a;
      RemoveAbsentKey(a[1..], k);
    }
  }

  /** Dropping the blank options keeps the relative order: it distributes over concatenation. */
  lemma {:induction false} KeepLabelledAppend(a: OptionList, b: OptionList, stripTags: string -> string, trim: string -> string)
    ensures KeepLabelled(a + b, stripTags, trim) == KeepLabelled(a, stripTags, trim) + KeepLabelled(b, stripTags, trim)
  {
    if a == [] {
      assert a + b == b;
    } else {
      assert (a + b)[0] == a[0];
      assert (a + b)[1..] == a[1..] + b;
      KeepLabelledAppend(a[1..], b, stripTags, trim);
    }
  }

  /**
   * The keys that survive are exactly the keys of the options whose label
   * is not blank, each with its original, unstripped label.
   */
  lemma KeepLabelledKeys(opts: OptionList, stripTags: string -> string, trim: string -> string, k: string)
    requires DistinctKeys(opts)
    ensures HasKey(KeepLabelled(opts, stripTags, trim), k) <==>
              exists i :: 0 <= i < |opts| && opts[i].0 == k && !Blank(opts[i].1, stripTags, trim)
    ensures DistinctKeys(KeepLabelled(opts, stripTags, trim))
  {
    var r := KeepLabelled(opts, stripTags, trim);
    if HasKey(r, k) {
      var j :| 0 <= j < |r| && r[j].0 == k;
      assert r[j] in r;
    }
    if exists i :: 0 <= i < |opts| && opts[i].0 == k && !Blank(opts[i].1, stripTags, trim) {
      var i :| 0 <= i < |opts| && opts[i].0 == k && !Blank(opts[i].1, stripTags, trim);
      assert opts[i] in opts;
      assert opts[i] in r;
    }
    KeepLabelledDistinct(opts, stripTags, trim);
  }

  /** Sanitising keeps the keys distinct. */
  lemma {:induction false} KeepLabelledDistinct(opts: OptionList, stripTags: string -> string, trim: string -> string)
    requires DistinctKeys(opts)
    ensures DistinctKeys(KeepLabelled(opts, stripTags, trim))
  {
    if opts != [] {
      var tail := opts[1..];
      assert DistinctKeys(tail) by {
        forall i, j | 0 <= i < j < |tail| ensures tail[i].0 != tail[j].0 {
          assert tail[i] == opts[i + 1] && tail[j] == opts[j + 1];
        }
      }
      KeepLabelledDistinct(tail, stripTags, trim);
      var kept := KeepLabelled(tail, stripTags, trim);
      forall p | p in kept ensures p.0 != opts[0].0 {
        var i :| 0 <= i < |tail| && tail[i] == p;
        assert tail[i] == opts[i + 1];
      }
    }
  }

  /** Unsetting the blank entry `i` extends the cleaned prefix by nothing. */
  lemma UnsetBlankStep(entries: OptionList, i: nat, stripTags: string -> string, trim: string -> string)
    requires DistinctKeys(entries) && i < |entries| && Blank(entries[i].1, stripTags, trim)
    ensures RemoveKey(KeepLabelled(entries[..i], stripTags, trim) + entries[i..], entries[i].0)
            == KeepLabelled(entries[..i + 1], stripTags, trim) + entries[i + 1..]
  {
    var key := entries[i].0;
    var done := KeepLabelled(entries[..i], stripTags, trim);
    var tail := entries[i + 1..];
    SplitAt(entries, i);
    assert KeepLabelled(entries[..i + 1], stripTags, trim) == done by {
      KeepLabelledAppend(entries[..i], [entries[i]], stripTags, trim);
      KeepSingle(entries[i], stripTags, trim);
      assert done + [] == done;
    }
    OtherKeys(entries, i);
    assert RemoveKey(done, key) == done by { RemoveAbsentKey(done, key); }
    assert RemoveKey(entries[i..], key) == tail by {
      RemoveKeyAppend([entries[i]], tail, key);
      assert [entries[i]][1..] == [];
      assert RemoveKey([entries[i]], key) == [];
      RemoveAbsentKey(tail, key);
    }
    RemoveKeyAppend(done, entries[i..], key);
  }

  /** With distinct keys, no entry before or after `i` has the key of entry `i`. */
  lemma OtherKeys(entries: OptionList, i: nat)
    requires DistinctKeys(entries) && i < |entries|
    ensures forall p :: p in entries[..i] ==> p.0 != entries[i].0
    ensures forall p :: p in entries[i + 1..] ==> p.0 != entries[i].0
  {
    forall p | p in entries[..i] ensures p.0 != entries[i].0 {
      var j :| 0 <= j < i && entries[..i][j] == p;
      assert entries[j] == p;
    }
    forall p | p in entries[i + 1..] ensures p.0 != entries[i].0 {
      var j :| 0 <= j < |entries| - i - 1 && entries[i + 1..][j] == p;
      assert entries[i + 1 + j] == p;
    }
  }

  /** Passing over the labelled entry `i` extends the cleaned prefix by that entry. */
  lemma KeepStep(entries: OptionList, i: nat, stripTags: string -> string, trim: string -> string)
    requires i < |entries| && !Blank(entries[i].1, stripTags, trim)
    ensures KeepLabelled(entries[..i], stripTags, trim) + entries[i..]
            == KeepLabelled(entries[..i + 1], stripTags, trim) + entries[i + 1..]
  {
    var done := KeepLabelled(entries[..i], stripTags, trim);
    SplitAt(entries, i);
    assert KeepLabelled(entries[..i + 1], stripTags, trim) == done + [entries[i]] by {
      KeepLabelledAppend(entries[..i], [entries[i]], stripTags, trim);
      KeepSingle(entries[i], stripTags, trim);
    }
    assert done + ([entries[i]] + entries[i + 1..]) == (done + [entries[i]]) + entries[i + 1..];
  }

  /** Sanitising a single entry keeps it exactly when its label is not blank. */
  lemma KeepSingle(e: (string, string), stripTags: string -> string, trim: string -> string)
    ensures KeepLabelled([e], stripTags, trim) == if Blank(e.1, stripTags, trim) then [] else [e]
  {
    assert [e][1..] == [];
  }

  /** The entry at `i` ends the prefix up to it and starts the suffix from it. */
  lemma SplitAt(entries: OptionList, i: nat)
    requires i < |entries|
    ensures entries[..i + 1] == entries[..i] + [entries[i]]
    ensures entries[i..] == [entries[i]] + entries[i + 1..]
  {
  }

  /**
   * `prepareWidgetOptions`: ask the attribute for its options (restricted
   * to `ids` when `onlypossible` is set, to used values when `onlyused` is
   * set; `getFilterOptions` stands for that query), then walk over them and
   * unset every entry whose label is blank.
   */
  method PrepareWidgetOptions(
    s: Settings,
    ids: seq<Id>,
    getFilterOptions: (Option<seq<Id>>, bool) -> OptionList,
    stripTags: string -> string,
    trim: string -> string)
    returns (r: OptionList)
    requires DistinctKeys(getFilterOptions(if s.onlypossible then Some(ids) else None, s.onlyused))
    ensures r == KeepLabelled(getFilterOptions(if s.onlypossible then Some(ids) else None, s.onlyused), stripTags, trim)
  {
    var options := getFilterOptions(if s.onlypossible then Some(ids) else None, s.onlyused);
    // foreach walks over a copy, while the entries are unset in `options` itself
    var entries := options;
    var i := 0;
    assert entries[..0] == [] && entries[0..] == entries;
    assert KeepLabelled([], stripTags, trim) == [];
    while i < |entries|
      invariant 0 <= i <= |entries|
      invariant options == KeepLabelled(entries[..i], stripTags, trim) + entries[i..]
    {
      var (key, caption) := entries[i];
      var cleaned := trim(stripTags(caption));
      if cleaned == "" {
        UnsetBlankStep(entries, i, stripTags, trim);
        options := RemoveKey(options, key);
      } else {
        KeepStep(entries, i, stripTags, trim);
      }
      i := i + 1;
    }
    assert entries[..i] == entries && entries[i..] == [];
    r := options;
  }
}
