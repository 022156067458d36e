/**
 * The filter reducer (`initFiltering(elements)`): the bracketed `filter[<name>]` keys of the
 * query, the `clear` button, resetting the filter form, reading its values, and refilling a
 * select's options from an index.
 */
module Filtering {
  import opened Wrappers
  import opened JsValues
  import JsStrings
  import Dict
  import opened Controls

  /** The filter form: element key to element, in `Object.keys` order. */
  type Elements = Dict.Dict<string, Control?>

  /** The state keys that may contribute a filter. */
  const FilterFields: seq<string> := ["searchByDate", "searchByCustomer", "searchBySeller", "totalFrom", "totalTo"]

  /** The allow-listed keys whose value is converted with `Number`. */
  predicate IsNumericField(key: string) {
    key == "totalFrom" || key == "totalTo"
  }

  function FilterKey(name: string): string {
    "filter[" + name + "]"
  }

  /** The controls of the form, without the `null` entries. */
  function Objects(elements: Elements): set<Control> {
    set i | 0 <= i < |elements| && elements[i].1 != null :: elements[i].1
  }

  /** What the reducers read of one element at one moment. */
  datatype View = Missing | Present(tag: Tag, name: string, value: string)

  function ViewOf(c: Control?): View
    reads if c == null then {} else {c}
  {
    if c == null then Missing else Present(c.tag, c.name, c.Value())
  }

  /** The form as the loop over `Object.keys(elements)` sees it. */
  function Views(elements: Elements): (vs: seq<(string, View)>)
    reads Objects(elements)
    ensures |vs| == |elements|
    ensures forall i :: 0 <= i < |elements| ==> vs[i] == (elements[i].0, ViewOf(elements[i].1))
  {
    seq(|elements|, i requires 0 <= i < |elements| reads Objects(elements) =>
      (elements[i].0, ViewOf(elements[i].1)))
  }

  /** An INPUT or a SELECT (`["INPUT", "SELECT"].includes(element.tagName)`). */
  predicate IsField(tag: Tag) {
    tag == Input || tag == Select
  }

  /** What the body of the loop does with the element stored under `key`. */
  function AddFilter(filter: Query, key: string, view: View, parse: string -> Option<int>): Query {
    if view.Present? && key in FilterFields && IsField(view.tag)
       && view.value != "" && JsStrings.Trim(view.value) != "" then
      if IsNumericField(key) then
        match parse(view.value)
        case Some(n) => Dict.Put(filter, FilterKey(view.name), Num(n))
        case None => filter
      else Dict.Put(filter, FilterKey(view.name), Str(JsStrings.Trim(view.value)))
    else filter
  }

  /** The `filter` object that the loop over the form builds. */
  function FilterOf(vs: seq<(string, View)>, parse: string -> Option<int>): Query {
    if vs == [] then []
    else AddFilter(FilterOf(vs[..|vs| - 1], parse), vs[|vs| - 1].0, vs[|vs| - 1].1, parse)
  }

  /** The element stored under `key` and seen as `view` contributes `x` under `k`: it is an
      allow-listed INPUT or SELECT with a non-blank value, `k` is `filter[<its name>]`, and `x`
      is the parsed number for the two total fields and the trimmed text for the others. */
  ghost predicate Emits(key: string, view: View, parse: string -> Option<int>, k: string, x: Value) {
    && view.Present? && key in FilterFields && IsField(view.tag)
    && JsStrings.Trim(view.value) != ""
    && k == FilterKey(view.name)
    && if IsNumericField(key) then x.Num? && parse(view.value) == Some(x.n)
       else x == Str(JsStrings.Trim(view.value))
  }

  /** One turn of the loop keeps every key and a valid object valid. */
  lemma AddFilterKeys(f: Query, key: string, view: View, parse: string -> Option<int>)
    ensures Dict.KeySet(f) <= Dict.KeySet(AddFilter(f, key, view, parse))
    ensures Dict.Valid(f) ==> Dict.Valid(AddFilter(f, key, view, parse))
  {
    if view.Present? && key in FilterFields && IsField(view.tag) && view.value != "" && JsStrings.Trim(view.value) != "" {
      var name := FilterKey(view.name);
      if IsNumericField(key) {
        if parse(view.value).Some? {
          Dict.PutShape(f, name, Num(parse(view.value).value));
        }
      } else {
        Dict.PutShape(f, name, Str(JsStrings.Trim(view.value)));
      }
    }
  }

  /** One turn of the loop sets at most the key the element emits, to the value it emits. */
  lemma AddFilterSound(f: Query, key: string, view: View, parse: string -> Option<int>, k: string, x: Value)
    requires Dict.Get(AddFilter(f, key, view, parse), k) == Some(x)
    ensures Dict.Get(f, k) == Some(x) || Emits(key, view, parse, k, x)
  {
    if view.Present? && key in FilterFields && IsField(view.tag) && view.value != "" && JsStrings.Trim(view.value) != "" {
      var name := FilterKey(view.name);
      if IsNumericField(key) {
        if parse(view.value).Some? {
          Dict.GetPut(f, name, Num(parse(view.value).value), k);
        }
      } else {
        Dict.GetPut(f, name, Str(JsStrings.Trim(view.value)), k);
      }
    }
  }

  /** The value an element emits is what one turn of the loop looks up under its key. */
  lemma AddFilterComplete(f: Query, key: string, view: View, parse: string -> Option<int>, k: string, x: Value)
    requires Emits(key, view, parse, k, x)
    ensures Dict.Get(AddFilter(f, key, view, parse), k) == Some(x)
  {
    JsStrings.BlankIffAllSpace(view.value);
    var name := FilterKey(view.name);
    if IsNumericField(key) {
      Dict.GetPut(f, name, Num(parse(view.value).value), k);
    } else {
      Dict.GetPut(f, name, Str(JsStrings.Trim(view.value)), k);
    }
  }

  /** One turn of the loop adds at most the key the element emits, with the value it emits. */
  lemma AddFilterStep(f: Query, key: string, view: View, parse: string -> Option<int>, k: string)
    ensures Dict.KeySet(f) <= Dict.KeySet(AddFilter(f, key, view, parse))
    ensures Dict.Valid(f) ==> Dict.Valid(AddFilter(f, key, view, parse))
    ensures forall x :: Dict.Get(AddFilter(f, key, view, parse), k) == Some(x) ==>
              Dict.Get(f, k) == Some(x) || Emits(key, view, parse, k, x)
    ensures forall x :: Emits(key, view, parse, k, x) ==> Dict.Get(AddFilter(f, key, view, parse), k) == Some(x)
  {
    AddFilterKeys(f, key, view, parse);
    forall x | Dict.Get(AddFilter(f, key, view, parse), k) == Some(x)
      ensures Dict.Get(f, k) == Some(x) || Emits(key, view, parse, k, x)
    {
      AddFilterSound(f, key, view, parse, k, x);
    }
    forall x | Emits(key, view, parse, k, x) ensures Dict.Get(AddFilter(f, key, view, parse), k) == Some(x) {
      AddFilterComplete(f, key, view, parse, k, x);
    }
  }

  /** The filter object is a valid object (no key twice). */
  lemma {:induction false} FilterOfValid(vs: seq<(string, View)>, parse: string -> Option<int>)
    ensures Dict.Valid(FilterOf(vs, parse))
  {
    if vs != [] {
      FilterOfValid(vs[..|vs| - 1], parse);
      AddFilterStep(FilterOf(vs[..|vs| - 1], parse), vs[|vs| - 1].0, vs[|vs| - 1].1, parse, "");
    }
  }

  /** Each entry of the filter object was emitted by some element of the form. */
  lemma {:induction false} FilterOfSound(vs: seq<(string, View)>, parse: string -> Option<int>, k: string, x: Value)
    requires Dict.Get(FilterOf(vs, parse), k) == Some(x)
    ensures exists i :: 0 <= i < |vs| && Emits(vs[i].0, vs[i].1, parse, k, x)
  {
    var pre := vs[..|vs| - 1];
    AddFilterStep(FilterOf(pre, parse), vs[|vs| - 1].0, vs[|vs| - 1].1, parse, k);
    if !Emits(vs[|vs| - 1].0, vs[|vs| - 1].1, parse, k, x) {
      FilterOfSound(pre, parse, k, x);
      var i :| 0 <= i < |pre| && Emits(pre[i].0, pre[i].1, parse, k, x);
      assert pre[i] == vs[i];
    }
  }

  /** Every key some element emits is in the filter object. */
  lemma {:induction false} FilterOfComplete(vs: seq<(string, View)>, parse: string -> Option<int>, i: int, k: string, x: Value)
    requires 0 <= i < |vs| && Emits(vs[i].0, vs[i].1, parse, k, x)
    ensures k in Dict.KeySet(FilterOf(vs, parse))
  {
    var pre := vs[..|vs| - 1];
    AddFilterStep(FilterOf(pre, parse), vs[|vs| - 1].0, vs[|vs| - 1].1, parse, k);
    if i < |vs| - 1 {
      assert pre[i] == vs[i];
      FilterOfComplete(pre, parse, i, k, x);
    }
  }

  /** The meaning of the filter object: it is a valid object; each of its entries is emitted by
      some element of the form; and each key some element emits is present. */
  lemma FilterOfSpec(vs: seq<(string, View)>, parse: string -> Option<int>)
    ensures Dict.Valid(FilterOf(vs, parse))
    ensures forall k, x :: Dict.Get(FilterOf(vs, parse), k) == Some(x) ==>
              exists i :: 0 <= i < |vs| && Emits(vs[i].0, vs[i].1, parse, k, x)
    ensures forall i, k, x :: 0 <= i < |vs| && Emits(vs[i].0, vs[i].1, parse, k, x) ==>
              k in Dict.KeySet(FilterOf(vs, parse))
  {
    FilterOfValid(vs, parse);
    forall k, x | Dict.Get(FilterOf(vs, parse), k) == Some(x)
      ensures exists i :: 0 <= i < |vs| && Emits(vs[i].0, vs[i].1, parse, k, x)
    {
      FilterOfSound(vs, parse, k, x);
    }
    forall i, k, x | 0 <= i < |vs| && Emits(vs[i].0, vs[i].1, parse, k, x)
      ensures k in Dict.KeySet(FilterOf(vs, parse))
    {
      FilterOfComplete(vs, parse, i, k, x);
    }
  }

  lemma FilterKeyInjective(a: string, b: string)
    requires FilterKey(a) == FilterKey(b)
    ensures a == b
  {
    assert FilterKey(a)[7..|FilterKey(a)| - 1] == a;
    assert FilterKey(b)[7..|FilterKey(b)| - 1] == b;
  }

  /** An unparsable total (`Number(value)` is NaN) is silently dropped: when every element of
      that name is such a total field, no `filter[<name>]` key appears. */
  lemma UnparsableTotalIsDropped(vs: seq<(string, View)>, parse: string -> Option<int>, name: string)
    requires forall i :: 0 <= i < |vs| && vs[i].1.Present? && vs[i].1.name == name ==>
               IsNumericField(vs[i].0) && parse(vs[i].1.value).None?
    ensures FilterKey(name) !in Dict.KeySet(FilterOf(vs, parse))
  {
    var k := FilterKey(name);
    if k in Dict.KeySet(FilterOf(vs, parse)) {
      var x := Dict.Get(FilterOf(vs, parse), k).value;
      FilterOfSound(vs, parse, k, x);
      var i :| 0 <= i < |vs| && Emits(vs[i].0, vs[i].1, parse, k, x);
      FilterKeyInjective(vs[i].1.name, name);
    }
  }

  /** Every key of the filter object is bracketed: `filter[<name>]`. */
  lemma FilterKeysAreBracketed(vs: seq<(string, View)>, parse: string -> Option<int>, k: string)
    requires k in Dict.KeySet(FilterOf(vs, parse))
    ensures exists name :: k == FilterKey(name)
  {
    FilterOfSpec(vs, parse);
    var x := Dict.Get(FilterOf(vs, parse), k).value;
    var i :| 0 <= i < |vs| && Emits(vs[i].0, vs[i].1, parse, k, x);
  }

  /** The filter object of a longer prefix of the form is one more turn of the loop. */
  lemma FilterOfSnoc(vs: seq<(string, View)>, i: int, parse: string -> Option<int>)
    requires 0 <= i < |vs|
    ensures FilterOf(vs[..i + 1], parse) == AddFilter(FilterOf(vs[..i], parse), vs[i].0, vs[i].1, parse)
  {
    assert vs[..i + 1][..i] == vs[..i];
  }

  /** The loop of `applyFiltering` that fills the `filter` object (one pass over the form). */
  method BuildFilter(elements: Elements, parse: string -> Option<int>) returns (filter: Query)
    ensures filter == FilterOf(Views(elements), parse)
  {
    ghost var vs := Views(elements);
    filter := [];
    var i := 0;
    while i < |elements|
      invariant 0 <= i <= |elements|
      invariant filter == FilterOf(vs[..i], parse)
    {
      filter := AddFilter(filter, elements[i].0, ViewOf(elements[i].1), parse);
      FilterOfSnoc(vs, i, parse);
      i := i + 1;
    }
    assert vs[..i] == vs;
    assert vs == Views(elements);
  }

  /** `Object.keys(filter).length ? Object.assign({}, query, filter) : query` */
  function MergeFilter(query: Query, filter: Query): (r: Query)
    requires Dict.Valid(filter)
    ensures filter == [] ==> r == query
    ensures forall k :: k in Dict.KeySet(filter) ==> Dict.Get(r, k) == Dict.Get(filter, k)
    ensures forall k :: k !in Dict.KeySet(filter) ==> Dict.Get(r, k) == Dict.Get(query, k)
    ensures Dict.KeySet(r) == Dict.KeySet(query) + Dict.KeySet(filter)
    ensures Dict.Valid(query) ==> Dict.Valid(r)
  {
    if filter == [] then query
    else
      assert forall k :: Dict.Get(Dict.Assign(query, filter), k) == if k in Dict.KeySet(filter) then Dict.Get(filter, k) else Dict.Get(query, k) by {
        forall k { Dict.GetAssign(query, filter, k); }
      }
      Dict.GetAssign(query, filter, "");
      Dict.AssignValid(query, filter);
      Dict.Assign(query, filter)
  }

  predicate IsClear(action: Option<Action>) {
    action.Some? && action.value.name == "clear"
  }

  /** The input a `clear` action empties: the first `input` of the button's `.filter-wrapper`. */
  function ClearTarget(action: Option<Action>): set<Control> {
    if IsClear(action) && action.value.wrapperInput.Some? then {action.value.wrapperInput.value} else {}
  }

  /** `applyFiltering(query, state, action)`. A `clear` action first empties the wrapper's input
      and `state[action.dataset.field]` (the state is returned, as the caller sees it after the
      call); the filter object is then built from the form as it is after clearing, and merged
      into a copy of the query, or the query itself comes back when it is empty. */
  method ApplyFiltering(elements: Elements, parse: string -> Option<int>,
                        query: Query, state: State, action: Option<Action>)
    returns (result: Query, newState: State)
    requires forall c :: c in ClearTarget(action) ==> c.tag == Input
    modifies ClearTarget(action)
    ensures forall c :: c in ClearTarget(action) ==>
              c.text == "" && c.options == old(c.options) && c.selectedIndex == old(c.selectedIndex)
    ensures newState == if ClearTarget(action) != {} then Dict.Put(state, action.value.field, Str("")) else state
    ensures Dict.Valid(FilterOf(Views(elements), parse))
    ensures result == MergeFilter(query, FilterOf(Views(elements), parse))
  {
    newState := state;
    if action.Some? && action.value.name == "clear" {
      var input := action.value.wrapperInput;
      if input.Some? {
        input.value.text := "";
        newState := Dict.Put(state, action.value.field, Str(""));
      }
    }
    var filter := BuildFilter(elements, parse);
    FilterOfSpec(Views(elements), parse);
    result := MergeFilter(query, filter);
  }

  /** A cleared input contributes nothing: an empty value never emits a filter. */
  lemma EmptyValueEmitsNothing(key: string, view: View, parse: string -> Option<int>, k: string, x: Value)
    requires view.Present? && view.value == ""
    ensures !Emits(key, view, parse, k, x)
  {
    assert JsStrings.Trim(view.value) == "";
  }

  /** The filter reducer writes only bracketed filter keys: every other key of the query,
      `search`, `sort`, `limit` and `page` among them, keeps its value. */
  lemma MergeFilterKeepsOtherKeys(query: Query, vs: seq<(string, View)>, parse: string -> Option<int>, k: string)
    requires forall name :: k != FilterKey(name)
    ensures Dict.Valid(FilterOf(vs, parse))
    ensures Dict.Get(MergeFilter(query, FilterOf(vs, parse)), k) == Dict.Get(query, k)
  {
    FilterOfSpec(vs, parse);
    if k in Dict.KeySet(FilterOf(vs, parse)) {
      FilterKeysAreBracketed(vs, parse, k);
    }
  }

  /** The body of the loop of `resetFilters` for one element. */
  method ResetControl(c: Control)
    requires c.Valid()
    modifies c
    ensures c.Valid() && c.options == old(c.options)
    ensures c.text == if c.tag == Input then "" else old(c.text)
    ensures c.selectedIndex == if c.tag == Select then (if |c.options| > 0 then 0 else -1) else old(c.selectedIndex)
  {
    if IsField(c.tag) {
      if c.tag == Select {
        c.SetSelectedIndex(0);
      } else {
        c.text := "";
      }
    }
  }

  lemma ObjectsSnoc(elements: Elements, i: int)
    requires 0 <= i < |elements|
    ensures Objects(elements[..i + 1]) == Objects(elements[..i]) + (if elements[i].1 == null then {} else {elements[i].1})
  {
    assert forall j :: 0 <= j < i ==> elements[..i + 1][j] == elements[..i][j];
  }

  /** `resetFilters()`: every SELECT gets `selectedIndex = 0`, every INPUT an empty value;
      other elements are left alone. */
  method ResetFilters(elements: Elements)
    requires forall c :: c in Objects(elements) ==> c.Valid()
    modifies Objects(elements)
    ensures forall c :: c in Objects(elements) ==>
              && c.Valid() && c.options == old(c.options)
              && c.text == (if c.tag == Input then "" else old(c.text))
              && c.selectedIndex == (if c.tag == Select then (if |c.options| > 0 then 0 else -1) else old(c.selectedIndex))
  {
    var i := 0;
    while i < |elements|
      invariant 0 <= i <= |elements|
      invariant forall c :: c in Objects(elements) ==> c.Valid() && c.options == old(c.options)
      invariant forall c :: c in Objects(elements) && c in Objects(elements[..i]) ==>
                  && c.text == (if c.tag == Input then "" else old(c.text))
                  && c.selectedIndex == (if c.tag == Select then (if |c.options| > 0 then 0 else -1) else old(c.selectedIndex))
      invariant forall c :: c in Objects(elements) && c !in Objects(elements[..i]) ==>
                  c.text == old(c.text) && c.selectedIndex == old(c.selectedIndex)
    {
      var element := elements[i].1;
      ObjectsSnoc(elements, i);
      if element != null {
        ResetControl(element);
      }
      i := i + 1;
    }
    assert elements[..i] == elements;
  }

  /** An element whose value `getFilterValues` reports. */
  predicate HasValue(c: Control?)
    reads if c == null then {} else {c}
  {
    c != null && IsField(c.tag) && c.Value() != ""
  }

  /** The element stored under `k`, or null. */
  function ElementAt(elements: Elements, k: string): (c: Control?)
    ensures c != null ==> c in Objects(elements)
  {
    match Dict.Get(elements, k)
    case Some(c) =>
      Dict.GetIsEntry(elements, k);
      ghost var i :| 0 <= i < |elements| && elements[i] == (k, c);
      c
    case None => null
  }

  /** `getFilterValues()`: exactly the INPUT and SELECT elements with a non-empty value, each
      reported under its element key with its value. */
  method GetFilterValues(elements: Elements) returns (values: Dict.Dict<string, string>)
    requires Dict.Valid(elements)
    ensures Dict.Valid(values)
    ensures forall k :: k in Dict.KeySet(values) <==> HasValue(ElementAt(elements, k))
    ensures forall k :: k in Dict.KeySet(values) ==>
              ElementAt(elements, k) != null && Dict.Get(values, k) == Some(ElementAt(elements, k).Value())
  {
    values := [];
    var i := 0;
    while i < |elements|
      invariant 0 <= i <= |elements|
      invariant Dict.Valid(values)
      invariant forall k :: k in Dict.KeySet(values) ==>
                  exists j :: 0 <= j < i && elements[j].0 == k && HasValue(elements[j].1)
      invariant forall j :: 0 <= j < i && HasValue(elements[j].1) ==>
                  Dict.Get(values, elements[j].0) == Some(elements[j].1.Value())
    {
      var key := elements[i].0;
      var element := elements[i].1;
      if element != null && IsField(element.tag) && element.Value() != "" {
        assert key !in Dict.KeySet(values);
        Dict.PutShape(values, key, element.Value());
        Dict.PutLookups(values, key, element.Value());
        values := Dict.Put(values, key, element.Value());
      }
      i := i + 1;
    }
    forall k ensures k in Dict.KeySet(values) <==> HasValue(ElementAt(elements, k)) {
      if k in Dict.KeySet(values) {
        var j :| 0 <= j < i && elements[j].0 == k && HasValue(elements[j].1);
        Dict.GetAt(elements, j);
      }
      if HasValue(ElementAt(elements, k)) {
        var j :| 0 <= j < |elements| && elements[j].0 == k;
        Dict.GetAt(elements, j);
      }
    }
    forall k | k in Dict.KeySet(values)
      ensures ElementAt(elements, k) != null && Dict.Get(values, k) == Some(ElementAt(elements, k).Value())
    {
      var j :| 0 <= j < i && elements[j].0 == k && HasValue(elements[j].1);
      Dict.GetAt(elements, j);
    }
  }

  /** The options `updateIndexes` appends for a list of index values: one per non-empty string,
      in order, with that string as both text and value; anything else is skipped. */
  function LabelChoices(names: seq<Value>): (cs: seq<Choice>)
    ensures |cs| <= |names|
  {
    if names == [] then []
    else
      var first := if names[0].Str? && names[0].s != "" then [Choice(names[0].s, names[0].s)] else [];
      first + LabelChoices(names[1..])
  }

  /** Each label shows its own value, a non-empty name of the index. */
  lemma {:induction false} LabelChoicesAreNames(names: seq<Value>, c: Choice)
    requires c in LabelChoices(names)
    ensures c.caption == c.value && c.value != "" && Str(c.value) in names
  {
    var first := if names[0].Str? && names[0].s != "" then [Choice(names[0].s, names[0].s)] else [];
    if c !in first {
      LabelChoicesAreNames(names[1..], c);
    }
  }

  /** The options of a select after refilling: its first option (if any), then the labels. */
  function Refilled(options: seq<Choice>, names: seq<Value>): seq<Choice> {
    options[..if |options| > 0 then 1 else 0] + LabelChoices(names)
  }

  lemma {:induction false} LabelChoicesAppend(names: seq<Value>, n: Value)
    ensures LabelChoices(names + [n]) == LabelChoices(names) + (if n.Str? && n.s != "" then [Choice(n.s, n.s)] else [])
  {
    if names != [] {
      assert (names + [n])[0] == names[0];
      assert (names + [n])[1..] == names[1..] + [n];
      LabelChoicesAppend(names[1..], n);
    } else {
      assert [n][1..] == [];
    }
  }

  /** The removal loop of `updateIndexes`: every option but the first goes. Removing from
      position 1 leaves the first option selected once a removal happened. */
  method RemoveAllButFirst(select: Control)
    requires select.Valid()
    modifies select
    ensures select.Valid() && select.text == old(select.text)
    ensures select.options == old(select.options)[..if |old(select.options)| > 0 then 1 else 0]
    ensures select.selectedIndex == if |old(select.options)| > 1 then 0 else old(select.selectedIndex)
  {
    ghost var original := select.options;
    while |select.options| > 1
      invariant select.Valid() && select.text == old(select.text)
      invariant |original| > 0 ==> 1 <= |select.options| && select.options == original[..1] + original[|original| - |select.options| + 1..]
      invariant |original| == 0 ==> select.options == []
      invariant select.options == original ==> select.selectedIndex == old(select.selectedIndex)
      invariant |original| > 1 && select.options != original ==> select.selectedIndex >= 0
      decreases |select.options|
    {
      select.Remove(1);
    }
    assert |original| > 1 ==> select.options != original;
  }

  /** The append loop of `updateIndexes`: one option per non-empty name, in order. The first
      append selects the first option when nothing was selected. */
  method AppendLabels(select: Control, names: seq<Value>)
    requires select.Valid()
    modifies select
    ensures select.Valid() && select.text == old(select.text)
    ensures select.options == old(select.options) + LabelChoices(names)
    ensures select.selectedIndex ==
              if old(select.selectedIndex) == -1 && LabelChoices(names) != [] then 0 else old(select.selectedIndex)
  {
    var j := 0;
    while j < |names|
      invariant 0 <= j <= |names|
      invariant select.Valid() && select.text == old(select.text)
      invariant select.options == old(select.options) + LabelChoices(names[..j])
      invariant select.selectedIndex ==
                  if old(select.selectedIndex) == -1 && LabelChoices(names[..j]) != [] then 0 else old(select.selectedIndex)
    {
      var name := names[j];
      assert names[..j + 1] == names[..j] + [name];
      LabelChoicesAppend(names[..j], name);
      if name.Str? && name.s != "" {
        select.Append(Choice(name.s, name.s));
      }
      j := j + 1;
    }
    assert names[..j] == names;
  }

  /** The work `updateIndexes` does on one select: remove every option but the first, then
      append the labels. The selection ends on the first option whenever a removal or an
      append happened, or it already was there. */
  method RefillOptions(select: Control, names: seq<Value>)
    requires select.Valid()
    modifies select
    ensures select.Valid() && select.text == old(select.text)
    ensures select.options == Refilled(old(select.options), names)
    ensures select.selectedIndex ==
              if select.options == [] || (old(select.selectedIndex) == -1 && |old(select.options)| == 1 && LabelChoices(names) == [])
              then -1 else 0
  {
    RemoveAllButFirst(select);
    AppendLabels(select, names);
  }

  /** The selected index a select with `options` and `selectedIndex` has once refilled with
      `names`: the first option, unless nothing is left, or only the kept first option is left
      while nothing was selected. */
  function RefilledSelection(options: seq<Choice>, selectedIndex: int, names: seq<Value>): int {
    if Refilled(options, names) == [] || (selectedIndex == -1 && |options| == 1 && LabelChoices(names) == []) then -1 else 0
  }

  /** `select` holds what refilling a select with `options` and `selectedIndex` from `names`
      leaves. */
  ghost predicate IsRefilled(select: Control, options: seq<Choice>, selectedIndex: int, names: seq<Value>)
    reads select
  {
    select.options == Refilled(options, names) && select.selectedIndex == RefilledSelection(options, selectedIndex, names)
  }

  /** The select refilled for index entry `name`: the element of that key, or null. */
  function TargetOf(elements: Elements, name: string): Control? {
    ElementAt(elements, name)
  }

  function TargetList(elements: Elements, indexes: Dict.Dict<string, seq<Value>>): (ts: seq<Control?>)
    ensures |ts| == |indexes|
    ensures forall j :: 0 <= j < |indexes| ==> ts[j] == TargetOf(elements, indexes[j].0)
    ensures forall j :: 0 <= j < |indexes| && ts[j] != null ==> ts[j] in Objects(elements)
  {
    if indexes == [] then [] else [TargetOf(elements, indexes[0].0)] + TargetList(elements, indexes[1..])
  }

  function Targets(elements: Elements, indexes: Dict.Dict<string, seq<Value>>): set<Control> {
    set i | 0 <= i < |indexes| && TargetOf(elements, indexes[i].0) != null :: TargetOf(elements, indexes[i].0)
  }

  /** `updateIndexes(elements, indexes)`: for each index entry whose key names an element of
      the form, that select's options become its first option followed by the entry's labels. */
  method UpdateIndexes(elements: Elements, indexes: Dict.Dict<string, seq<Value>>)
    requires forall c :: c in Targets(elements, indexes) ==> c.tag == Select && c.Valid()
    requires forall i, j :: 0 <= i < j < |indexes| && TargetOf(elements, indexes[i].0) != null ==>
               TargetOf(elements, indexes[i].0) != TargetOf(elements, indexes[j].0)
    modifies Targets(elements, indexes)
    ensures forall i :: 0 <= i < |indexes| && TargetOf(elements, indexes[i].0) != null ==>
              var select := TargetOf(elements, indexes[i].0);
              select.Valid() && IsRefilled(select, old(select.options), old(select.selectedIndex), indexes[i].1)
    ensures forall c :: c in Targets(elements, indexes) ==> c.text == old(c.text)
  {
    ghost var ts := TargetList(elements, indexes);
    var i := 0;
    while i < |indexes|
      invariant 0 <= i <= |indexes|
      invariant forall j :: 0 <= j < |indexes| && ts[j] != null ==> ts[j].Valid() && ts[j].text == old(ts[j].text)
      invariant forall j :: 0 <= j < i && ts[j] != null ==>
                  IsRefilled(ts[j], old(ts[j].options), old(ts[j].selectedIndex), indexes[j].1)
      invariant forall j :: i <= j < |indexes| && ts[j] != null ==>
                  ts[j].options == old(ts[j].options) && ts[j].selectedIndex == old(ts[j].selectedIndex)
    {
      var select := TargetOf(elements, indexes[i].0);
      if select != null {
        assert forall j :: 0 <= j < |indexes| && j != i && ts[j] != null ==> ts[j] != select;
        RefillOptions(select, indexes[i].1);
      }
      i := i + 1;
    }
  }
}
