/**
 * The pagination reducer (`initPagination`): a state machine over the current page, driven by
 * the `prev`/`next`/`first`/`last` buttons and the page count remembered from the last result.
 */
module Pagination {
  import opened Wrappers
  import opened JsValues
  import Dict
  import Controls

  const LimitKey := "limit"
  const PageKey := "page"

  /** `pageCount || 1`; a page count of 0 stands for one not computed yet (`undefined`). */
  function EffectivePageCount(pageCount: int): int {
    if pageCount == 0 then 1 else pageCount
  }

  /** The page after the action named `name` (the `switch` of `applyPagination`). */
  function NextPage(page: int, pageCount: int, action: Option<Controls.Action>): (r: int)
    ensures action.Some? && action.value.name == "prev" ==> r == (if page - 1 > 1 then page - 1 else 1)
    ensures action.Some? && action.value.name == "next" ==>
              r == (if page + 1 < EffectivePageCount(pageCount) then page + 1 else EffectivePageCount(pageCount))
    ensures action.Some? && action.value.name == "first" ==> r == 1
    ensures action.Some? && action.value.name == "last" ==> r == EffectivePageCount(pageCount)
    ensures (action.None? || action.value.name !in {"prev", "next", "first", "last"}) ==> r == page
  {
    if action.None? then page
    else match action.value.name
      case "prev" => if 1 > page - 1 then 1 else page - 1
      case "next" => if EffectivePageCount(pageCount) < page + 1 then EffectivePageCount(pageCount) else page + 1
      case "first" => 1
      case "last" => EffectivePageCount(pageCount)
      case _ => page
  }

  /** `prev` never goes below the first page, and `prev` on page 1 stays there. */
  lemma PrevClamps(page: int, pageCount: int, action: Controls.Action)
    requires action.name == "prev"
    ensures NextPage(page, pageCount, Some(action)) >= 1
    ensures page == 1 ==> NextPage(page, pageCount, Some(action)) == 1
    ensures page > 1 ==> NextPage(page, pageCount, Some(action)) == page - 1
  {
  }

  /** `next` on the last page stays there, and never passes the last page. */
  lemma NextClamps(page: int, pageCount: int, action: Controls.Action)
    requires action.name == "next"
    ensures NextPage(page, pageCount, Some(action)) <= EffectivePageCount(pageCount)
    ensures page == pageCount && pageCount >= 1 ==> NextPage(page, pageCount, Some(action)) == page
    ensures page < EffectivePageCount(pageCount) ==> NextPage(page, pageCount, Some(action)) == page + 1
  {
  }

  /** From any page between 1 and the page count, every action lands between 1 and the page count. */
  lemma NextPageStaysInRange(page: int, pageCount: int, action: Option<Controls.Action>)
    requires pageCount >= 1 && 1 <= page <= pageCount
    ensures 1 <= NextPage(page, pageCount, action) <= pageCount
  {
  }

  /** `Math.ceil(total / limit)` for a positive limit. */
  function CeilDiv(total: int, limit: int): (c: int)
    requires limit > 0
    ensures (c - 1) * limit < total <= c * limit
  {
    var q := (-total) / limit;
    assert (-total) == q * limit + (-total) % limit;
    -q
  }

  /** `Math.ceil(total / limit) || 1` */
  function PageCountFor(total: int, limit: int): (n: int)
    requires limit > 0
    ensures total > 0 ==> n >= 1 && (n - 1) * limit < total <= n * limit
    ensures total <= 0 && total > -limit ==> n == 1
    ensures total >= 0 ==> n >= 1
  {
    var c := CeilDiv(total, limit);
    if c == 0 then 1 else c
  }

  /** The status line: the first and last row shown, and the total. */
  datatype RowRange = RowRange(fromRow: int, toRow: int, totalRows: int)

  /** `fromRow = total ? (page - 1) * limit + 1 : 0`, `toRow = Math.min(page * limit, total)`. */
  function RowRangeFor(total: int, page: int, limit: int): (r: RowRange)
    ensures r.totalRows == total
    ensures total == 0 ==> r.fromRow == 0
    ensures total != 0 ==> r.fromRow == (page - 1) * limit + 1
    ensures r.toRow <= total && r.toRow <= page * limit
    ensures r.toRow == total || r.toRow == page * limit
  {
    RowRange(if total != 0 then (page - 1) * limit + 1 else 0,
             if page * limit < total then page * limit else total,
             total)
  }

  /** On a page that holds some rows, the range is non-empty and lies inside `1..total`;
      every page but the last is full. */
  lemma RowRangeInside(total: int, page: int, limit: int)
    requires limit > 0 && page >= 1 && (page - 1) * limit < total
    ensures var r := RowRangeFor(total, page, limit);
            1 <= r.fromRow <= r.toRow <= total && r.toRow - r.fromRow + 1 <= limit
    ensures page < PageCountFor(total, limit) ==>
            var r := RowRangeFor(total, page, limit); r.toRow - r.fromRow + 1 == limit
  {
    var base := (page - 1) * limit;
    assert page * limit == base + limit;
    MulMonotone(0, page - 1, limit);
    var n := PageCountFor(total, limit);
    if page < n {
      MulMonotone(page, n - 1, limit);
    }
  }

  lemma MulMonotone(a: int, b: int, m: int)
    requires a <= b && m >= 0
    ensures a * m <= b * m
  {
    assert b * m - a * m == (b - a) * m;
  }

  /** The two worked cases: no rows at all, and 25 rows on pages of 10 seen from page 3. */
  lemma StatusExamples()
    ensures PageCountFor(0, 10) == 1 && RowRangeFor(0, 1, 10) == RowRange(0, 0, 0)
    ensures PageCountFor(25, 10) == 3 && RowRangeFor(25, 3, 10) == RowRange(21, 25, 25)
  {
  }

  /** The paginator's closure state. */
  class Paginator {
    /** The page count from the last `updatePagination`; 0 stands for none yet. */
    var pageCount: int

    constructor ()
      ensures pageCount == 0
    {
      pageCount := 0;
    }

    /** `applyPagination(query, state, action)`: a copy of the query with `limit` set to
        `state.rowsPerPage` and `page` set to the page the action moves to. */
    function ApplyPagination(query: Query, state: State, action: Option<Controls.Action>): (r: Query)
      reads this
      requires Dict.Get(state, "rowsPerPage").Some? && Dict.Get(state, "page").Some?
      requires Dict.Get(state, "page").value.Num?
      ensures Dict.Get(r, LimitKey) == Dict.Get(state, "rowsPerPage")
      ensures Dict.Get(r, PageKey) == Some(Num(NextPage(Dict.Get(state, "page").value.n, pageCount, action)))
      ensures forall k :: k != LimitKey && k != PageKey ==> Dict.Get(r, k) == Dict.Get(query, k)
      ensures Dict.KeySet(r) == Dict.KeySet(query) + {LimitKey, PageKey}
      ensures Dict.Valid(query) ==> Dict.Valid(r)
    {
      var limit := Dict.Get(state, "rowsPerPage").value;
      var page := NextPage(Dict.Get(state, "page").value.n, pageCount, action);
      var withLimit := Dict.Put(query, LimitKey, limit);
      Dict.PutLookups(query, LimitKey, limit);
      Dict.PutShape(query, LimitKey, limit);
      Dict.PutLookups(withLimit, PageKey, Num(page));
      Dict.PutShape(withLimit, PageKey, Num(page));
      assert Dict.Assign(query, [(LimitKey, limit), (PageKey, Num(page))]) == Dict.Put(withLimit, PageKey, Num(page)) by {
        var e := [(LimitKey, limit), (PageKey, Num(page))];
        assert e[1..] == [(PageKey, Num(page))] && e[1..][1..] == [];
        assert Dict.Assign(query, e) == Dict.Assign(withLimit, e[1..]);
        assert Dict.Assign(withLimit, e[1..]) == Dict.Assign(Dict.Put(withLimit, PageKey, Num(page)), []);
      }
      Dict.Assign(query, [(LimitKey, limit), (PageKey, Num(page))])
    }

    /** `updatePagination(total, {page, limit})`: remembers the page count for the next
        `next`/`last`, and returns the row range the status line shows. */
    method UpdatePagination(total: int, page: int, limit: int) returns (status: RowRange)
      requires limit > 0
      modifies this
      ensures pageCount == PageCountFor(total, limit)
      ensures status == RowRangeFor(total, page, limit)
    {
      pageCount := PageCountFor(total, limit);
      status := RowRange(if total != 0 then (page - 1) * limit + 1 else 0,
                         if page * limit < total then page * limit else total,
                         total);
    }
  }

  /** After an update with a non-negative total, `next` and `last` stay within the pages that
      exist, and `last`, then `next`, stays on the last page. */
  lemma LastThenNextStays(total: int, limit: int, page: int, last: Controls.Action, next: Controls.Action)
    requires limit > 0 && total >= 0 && last.name == "last" && next.name == "next"
    ensures var n := PageCountFor(total, limit);
            NextPage(NextPage(page, n, Some(last)), n, Some(next)) == n
  {
  }
}
