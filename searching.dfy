/** The search reducer: it contributes the free-text `search` key to the query. */
module Searching {
  import opened Wrappers
  import opened JsValues
  import JsStrings
  import Dict
  import Controls

  const SearchKey := "search"

  /** The reducer `initSearching(searchField)` returns, applied to `(query, state, action)`.
      A non-blank `state[searchField]` is copied, untrimmed, under `search` into a copy of the
      query; otherwise the query itself comes back. The action plays no part. */
  function ApplySearching(searchField: string, query: Query, state: State, action: Option<Controls.Action>): (r: Query)
    requires TextWhenTruthy(Dict.Get(state, searchField))
    ensures var v := Dict.Get(state, searchField);
            Truthy(v) && JsStrings.Trim(v.value.s) != "" ==> Dict.Get(r, SearchKey) == v
    ensures var v := Dict.Get(state, searchField);
            !(Truthy(v) && JsStrings.Trim(v.value.s) != "") ==> r == query
    ensures forall k :: k != SearchKey ==> Dict.Get(r, k) == Dict.Get(query, k)
    ensures Dict.KeySet(r) <= Dict.KeySet(query) + {SearchKey}
    ensures Dict.Valid(query) ==> Dict.Valid(r)
  {
    var v := Dict.Get(state, searchField);
    if Truthy(v) && JsStrings.Trim(v.value.s) != "" then
      Dict.PutLookups(query, SearchKey, v.value);
      Dict.PutShape(query, SearchKey, v.value);
      assert Dict.Assign(query, [(SearchKey, v.value)]) == Dict.Put(query, SearchKey, v.value);
      assert Dict.Get(Dict.Put(query, SearchKey, v.value), SearchKey) == v;
      Dict.Assign(query, [(SearchKey, v.value)])
    else
      query
  }

  /** A blank search field (missing, empty or only white space) contributes nothing: the same
      query comes back, whatever it holds. */
  lemma BlankSearchIsIdentity(searchField: string, query: Query, state: State, action: Option<Controls.Action>, s: string)
    requires Dict.Get(state, searchField) == Some(Str(s))
    requires forall i :: 0 <= i < |s| ==> JsStrings.IsSpace(s[i])
    ensures ApplySearching(searchField, query, state, action) == query
  {
    JsStrings.BlankIffAllSpace(s);
  }

  /** Applying the reducer twice is the same as applying it once. */
  lemma SearchingIdempotent(searchField: string, query: Query, state: State, action: Option<Controls.Action>)
    requires TextWhenTruthy(Dict.Get(state, searchField))
    ensures var once := ApplySearching(searchField, query, state, action);
            forall k :: Dict.Get(ApplySearching(searchField, once, state, action), k) == Dict.Get(once, k)
  {
  }
}
