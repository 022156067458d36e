/**
 * One render cycle's query: starting from `{}`, the search, filter, sort and pagination
 * reducers are applied in that order to the form state and the triggering action. Each
 * reducer writes only its own keys, so each key of the final query is the one its owner
 * wrote.
 */
module Pipeline {
  import opened Wrappers
  import opened JsValues
  import JsStrings
  import Dict
  import Controls
  import Searching
  import Filtering
  import Pagination
  import Records

  const SortKey := "sort"

  /** The sort reducer (its module is not part of this model): a step that, for the action
      at hand, writes `sort` at most. */
  ghost predicate OwnsOnlySort(sortStep: (Query, State, Option<Controls.Action>) -> Query, action: Option<Controls.Action>) {
    forall q, s, k :: k != SortKey ==> Dict.Get(sortStep(q, s, action), k) == Dict.Get(q, k)
  }

  /** No bracketed filter key is one of the flat keys. */
  lemma FlatKeysAreNotFilterKeys(name: string)
    ensures Filtering.FilterKey(name) != Searching.SearchKey
    ensures Filtering.FilterKey(name) != SortKey
    ensures Filtering.FilterKey(name) != Pagination.LimitKey
    ensures Filtering.FilterKey(name) != Pagination.PageKey
  {
    assert Filtering.FilterKey(name)[0] == 'f';
    assert Filtering.FilterKey(name)[1] == 'i';
  }

  /** `render(action)` up to the request: the query the four reducers compose, and the state
      as the filter reducer leaves it. The `search` key is the search reducer's, every
      `filter[...]` key the filter object's, and `limit` and `page` the paginator's. */
  method ComposeQuery(searchField: string, elements: Filtering.Elements, parse: string -> Option<int>,
                      sortStep: (Query, State, Option<Controls.Action>) -> Query, paginator: Pagination.Paginator,
                      state: State, action: Option<Controls.Action>)
    returns (query: Query, newState: State)
    requires TextWhenTruthy(Dict.Get(state, searchField))
    requires forall c :: c in Filtering.ClearTarget(action) ==> c.tag == Controls.Input
    requires Filtering.ClearTarget(action) != {} ==> action.value.field != "rowsPerPage" && action.value.field != "page"
    requires Dict.Get(state, "rowsPerPage").Some? && Dict.Get(state, "page").Some?
    requires Dict.Get(state, "page").value.Num?
    requires OwnsOnlySort(sortStep, action)
    modifies Filtering.ClearTarget(action)
    ensures newState == if Filtering.ClearTarget(action) != {} then Dict.Put(state, action.value.field, Str("")) else state
    ensures var v := Dict.Get(state, searchField);
            Dict.Get(query, Searching.SearchKey)
            == if Truthy(v) && JsStrings.Trim(v.value.s) != "" then v else None
    ensures forall name :: Dict.Get(query, Filtering.FilterKey(name))
                           == Dict.Get(Filtering.FilterOf(Filtering.Views(elements), parse), Filtering.FilterKey(name))
    ensures Dict.Get(query, Pagination.LimitKey) == Dict.Get(state, "rowsPerPage")
    ensures Dict.Get(query, Pagination.PageKey)
            == Some(Num(Pagination.NextPage(Dict.Get(state, "page").value.n, paginator.pageCount, action)))
  {
    var searched := Searching.ApplySearching(searchField, [], state, action);
    var filtered;
    filtered, newState := Filtering.ApplyFiltering(elements, parse, searched, state, action);
    forall k | k == "rowsPerPage" || k == "page" ensures Dict.Get(newState, k) == Dict.Get(state, k) {
      if Filtering.ClearTarget(action) != {} {
        Dict.GetPut(state, action.value.field, Str(""), k);
      }
    }
    var sorted := sortStep(filtered, newState, action);
    query := paginator.ApplyPagination(sorted, newState, action);

    var f := Filtering.FilterOf(Filtering.Views(elements), parse);
    Filtering.FilterOfValid(Filtering.Views(elements), parse);
    forall name ensures Dict.Get(query, Filtering.FilterKey(name)) == Dict.Get(f, Filtering.FilterKey(name)) {
      FlatKeysAreNotFilterKeys(name);
      var k := Filtering.FilterKey(name);
      if k !in Dict.KeySet(f) {
        assert Dict.Get(searched, k) == None;
      }
    }
    SearchIsNoFilterKey();
    Filtering.MergeFilterKeepsOtherKeys(searched, Filtering.Views(elements), parse, Searching.SearchKey);
  }

  lemma SearchIsNoFilterKey()
    ensures forall name :: Searching.SearchKey != Filtering.FilterKey(name)
  {
    forall name ensures Searching.SearchKey != Filtering.FilterKey(name) {
      FlatKeysAreNotFilterKeys(name);
    }
  }

  /** On their own, the search and filter reducers commute: applied in either order they give
      queries that agree on every key. */
  lemma SearchAndFilterCommute(searchField: string, query: Query, state: State, action: Option<Controls.Action>,
                               vs: seq<(string, Filtering.View)>, parse: string -> Option<int>, k: string)
    requires TextWhenTruthy(Dict.Get(state, searchField))
    ensures Dict.Valid(Filtering.FilterOf(vs, parse))
    ensures var f := Filtering.FilterOf(vs, parse);
            Dict.Get(Filtering.MergeFilter(Searching.ApplySearching(searchField, query, state, action), f), k)
            == Dict.Get(Searching.ApplySearching(searchField, Filtering.MergeFilter(query, f), state, action), k)
  {
    Filtering.FilterOfSpec(vs, parse);
    var f := Filtering.FilterOf(vs, parse);
    if k in Dict.KeySet(f) {
      Filtering.FilterKeysAreBracketed(vs, parse, k);
      var name :| k == Filtering.FilterKey(name);
      FlatKeysAreNotFilterKeys(name);
    } else if k == Searching.SearchKey {
      SearchIsNoFilterKey();
      Filtering.MergeFilterKeepsOtherKeys(query, vs, parse, k);
    }
  }

  /** The status line agrees with the fallback page: for a query asking for page `page` of
      `limit` rows, the number of rows the fallback returns is the size of the range
      `fromRow..toRow` shown for its total, and a page past the end holds no rows. */
  lemma StatusMatchesFallbackPage(purchases: seq<Records.Purchase>, sellers: Records.Index, customers: Records.Index,
                                  query: Query, parse: string -> Option<int>, timeOf: string -> int,
                                  page: int, limit: int)
    requires Records.FilterableQuery(query) && TextWhenTruthy(Dict.Get(query, Records.SortKey))
    requires Dict.Get(query, Pagination.LimitKey) == Some(Num(limit)) && limit >= 1
    requires Dict.Get(query, Pagination.PageKey) == Some(Num(page)) && page >= 1
    ensures var r := Records.FallbackResult(purchases, sellers, customers, query, parse, timeOf);
            var status := Pagination.RowRangeFor(r.total, page, limit);
            ((page - 1) * limit < r.total ==> |r.items| == status.toRow - status.fromRow + 1)
            && ((page - 1) * limit >= r.total ==> r.items == [])
  {
    assert Records.PageLimit(query, parse) == limit;
    assert Records.PageNumber(query, parse) == page;
    Records.FallbackWindow(purchases, sellers, customers, query, parse, timeOf);
    var r := Records.FallbackResult(purchases, sellers, customers, query, parse, timeOf);
    assert page * limit == (page - 1) * limit + limit;
    assert (page - 1) * limit >= 0 by {
      Pagination.MulMonotone(0, page - 1, limit);
    }
  }
}
