# smart-table query pipeline, in Dafny

This project models the core of a browser data table of purchase records: the pipeline that
composes a query and resolves it.

On every render, four reducers fold the form state and the triggering button into a query
object, in a fixed order:

- **search** writes the `search` key;
- **filter** writes the bracketed `filter[<name>]` keys, and also handles the `clear` button;
- **sort** writes `sort`;
- **pagination** writes `limit` and `page`, and keeps the page count from the last result.

The data resolver then answers the query with these parts:

- a result cache keyed by the serialized query;
- seller and customer indexes from id to name, built once;
- a remote fetch whose results are mapped to table rows;
- when the fetch fails, a local fallback engine. It filters, sorts and slices the bundled
  purchases. The server's own code is not part of this model, so nothing here shows that
  the fallback and the server give the same answers.

Modules, leaf first:

- `Wrappers`: `Option`, and `Outcome`, the result of an awaited fetch.
- `JsStrings`: what the pipeline uses of JavaScript strings: `trim`, `toLowerCase`,
  `includes`, `split` and number-to-string.
- `JsValues`: the scalar values of a query or form state, and JavaScript truthiness and
  `Number(v) || d`.
- `Dict`: plain objects and `Map`s as ordered key/value sequences. Assigning an existing key
  replaces it in place, a new key is appended, `delete` removes, and `Object.assign` assigns
  in order.
- `Controls`: the form controls (INPUT/SELECT) as a class with mutable `text`, `options` and
  `selectedIndex`, and the triggering button.
- `Searching`, `Filtering`, `Pagination`: the three reducers in `src/components/`. The
  paginator's closure variable `pageCount` is a field of class `Paginator`.
- `Records`: index building, row mapping, `filterRecords`, `sortRecords`, the fallback page
  and the cache insertion rule of `src/data.js`.
- `Resolver`: the resolver's closure state (indexes, last query and result, cache) as
  class `Resolver`, with `getIndexes` and `getRecords` as methods that update it.
- `Pipeline`: one render cycle of `src/main.js` up to the request.

These stay abstract. Each is a parameter, so every property holds for all of its values:

- network answers are `Outcome` values;
- `Number(s)` on a string is `parse: string -> Option<int>`, with `None` for NaN;
- `new Date(s).getTime()` is `timeOf: string -> int`;
- the sort reducer is a step that writes at most `sort`.

The code behaves in four ways that a reader of its comments or of the project's description
might not expect. The model follows the code in each:

- **Cache cap.** The comment at `src/data.js:184` says the cache keeps the last 50 entries. The code evicts only on the
  remote-success path (`src/data.js:184-188`); the fallback path stores without evicting
  (`src/data.js:225`). `Records.FallbackStoreExceedsCap` shows a full cache growing to 51.
- **`next` and `last`.** These do not use the bare `pageCount`. The code uses
  `pageCount || 1` (`src/components/pagination.js:25`, `:31`), so before the first result
  `last` goes to page 1.
- **Equal queries.** Two queries with the same entries do not always share a cache entry. The cache key is `JSON.stringify(query)`, which depends on key order, so only a query
  with the same entries in the same order hits. The model keys the cache by the ordered query
  itself.
- **Option maps.** `getIndexes` does not return the same map objects on a second call. The
  code builds fresh option objects on every call, so the model proves the two results equal in
  content (`Resolver.IndexesAreMemoised`).

## Model

| member | source | states |
|---|---|---|
| Searching.ApplySearching | src/components/searching.js:8-21 | When the search field is truthy and not blank after trimming, `search` holds the field's untrimmed value. Otherwise the query comes back unchanged. No key other than `search` changes or appears. |
| Searching.BlankSearchIsIdentity | src/components/searching.js:12-20 | A search field of white space only returns the query unchanged, whatever it holds. |
| Searching.SearchingIdempotent | src/components/searching.js:12-16 | Applying the search reducer twice agrees with applying it once on every key. |
| JsStrings.TrimStart | src/components/searching.js:12 | The result is a suffix of the input. It does not start with white space, and everything cut off is white space. |
| JsStrings.TrimEnd | src/components/searching.js:12 | The result is a prefix of the input. It does not end with white space, and everything cut off is white space. |
| JsStrings.TrimCuts | src/components/searching.js:12 | `trim` returns `s[a..b]` with only white space before `a` and from `b` on. |
| JsStrings.TrimIsInfix | src/components/searching.js:12 | A trimmed string is a contiguous part of the input, surrounded only by white space, and it neither starts nor ends with white space. |
| JsStrings.BlankIffAllSpace | src/components/filtering.js:69-70 | A string trims to empty exactly when all its characters are white space. So a non-blank value is non-empty, which makes the `element.value &&` guard redundant. |
| JsStrings.Lower | src/data.js:236-238 | Lower-casing keeps the length and maps each character through ASCII lower-casing. |
| JsStrings.ContainsMeansOccurs | src/data.js:240-244 | `s.includes(t)` holds exactly when `t` occurs in `s` at some index. |
| JsStrings.ContainsEmpty | src/data.js:241 | Every string contains the empty string. |
| JsStrings.NatToString | src/data.js:244 | The decimal form of a natural number is non-empty and made of digits only. |
| JsStrings.NatToStringReadsBack | src/data.js:244 | The decimal form of `n` reads back as `n`. |
| JsStrings.Split | src/data.js:301 | `split` always yields at least one piece. |
| JsStrings.SplitOnceCuts | src/data.js:301 | The first cut at `sep` leaves a head without `sep`. The string is the head alone, or the head, `sep` and the rest. |
| JsStrings.SplitJoins | src/data.js:301 | No piece of `s.split(sep)` contains `sep`, and joining the pieces with `sep` gives back `s`. |
| JsStrings.SplitJoinedPair | src/data.js:301 | If neither `a` nor `b` contains `:`, then splitting `a:b` on `:` gives exactly `[a, b]`. |
| JsValues.NumberOr | src/data.js:211-212 | When `v` parses to a non-zero number, `Number(v) \|\| d` is that number. When it is NaN or 0, the result is `d`. |
| Dict.Get | src/components/searching.js:12 | A key reads a value exactly when it is one of the object's keys. |
| Dict.GetPut | src/components/filtering.js:76-79 | After `d[k] = v`, `k` reads `v` and every other key reads what it read before. |
| Dict.PutKeys | src/components/filtering.js:76-79 | Assignment adds exactly key `k`. The length grows only for a new key, and a new key goes to the end. |
| Dict.PutValid | src/data.js:182 | Assignment keeps the keys distinct. |
| Dict.GetDelete | src/data.js:187 | After `delete`, the key reads nothing, every other key is unaffected, and the key set loses exactly that key. |
| Dict.DeleteFirst | src/data.js:186-187 | With distinct keys, deleting the first key drops exactly the first entry. |
| Dict.GetAssign | src/components/filtering.js:91 | In `Object.assign({}, d, e)`, a key reads `e`'s value when `e` has it and `d`'s otherwise. The key set is the union. |
| Dict.AssignValid | src/components/filtering.js:91 | `Object.assign` keeps the keys distinct. |
| Controls.Control.Value | src/components/filtering.js:69 | An INPUT's value is its text. A SELECT's value is its selected option's value, or empty when none is selected. |
| Controls.Control.Remove | src/components/filtering.js:14 | `select.remove(i)` drops option `i` and shifts the later ones down. Removing the selected option, or any option while none is selected, selects the first remaining option. |
| Controls.Control.Append | src/components/filtering.js:24 | `appendChild` adds the option at the end, and a select with nothing selected selects its first option. |
| Controls.Control.SetSelectedIndex | src/components/filtering.js:101 | Setting `selectedIndex` selects that option when it exists, and nothing otherwise; the options stay. |
| Filtering.AddFilterKeys | src/components/filtering.js:66-81 | One turn of the filter loop loses no key and keeps the keys distinct. |
| Filtering.AddFilterSound | src/components/filtering.js:66-81 | One turn of the loop writes only the key the element emits, with the value it emits. |
| Filtering.AddFilterComplete | src/components/filtering.js:66-81 | An element that emits a value has that value under its key after its turn. |
| Filtering.AddFilterStep | src/components/filtering.js:66-81 | One turn of the loop combines the three facts above. |
| Filtering.FilterOfValid | src/components/filtering.js:53-83 | The filter object never holds a key twice. |
| Filtering.FilterOfSound | src/components/filtering.js:53-83 | Every entry of the filter object was emitted by some element of the form. |
| Filtering.FilterOfComplete | src/components/filtering.js:53-83 | Every key some element emits is in the filter object. |
| Filtering.FilterOfSpec | src/components/filtering.js:53-83 | The filter object has distinct keys, is sound, and is complete: its keys are exactly the emitted ones. |
| Filtering.FilterKeyInjective | src/components/filtering.js:76-79 | Different element names give different `filter[...]` keys. |
| Filtering.UnparsableTotalIsDropped | src/components/filtering.js:73-77 | When every element of a name is a total field whose value is not a number, no `filter[<name>]` key appears. |
| Filtering.FilterKeysAreBracketed | src/components/filtering.js:76-79 | Every key the filter reducer writes has the form `filter[<name>]`. |
| Filtering.BuildFilter | src/components/filtering.js:53-83 | The loop over the form computes the filter object `FilterOf` of the form as it is at that moment. |
| Filtering.MergeFilter | src/components/filtering.js:90-92 | An empty filter returns the query itself. Otherwise filter keys read the filter's values and all other keys read the query's. The key set is the union. |
| Filtering.ApplyFiltering | src/components/filtering.js:41-93 | A `clear` action empties the wrapper's input and sets `state[field]` to `""`. The result is the query merged with the filter object of the form after clearing. |
| Filtering.EmptyValueEmitsNothing | src/components/filtering.js:43-50 | An input that `clear` emptied contributes no filter key in the same cycle. |
| Filtering.MergeFilterKeepsOtherKeys | src/components/filtering.js:90-92 | The filter reducer leaves every key that is not `filter[...]`, such as `search`, `sort`, `limit` and `page`, as it was. |
| Filtering.ResetControl | src/components/filtering.js:98-105 | A SELECT is set to its first option, an INPUT is emptied, and other tags are left alone. |
| Filtering.ResetFilters | src/components/filtering.js:96-107 | Every control of the form is reset as `ResetControl` says. No options change. |
| Filtering.GetFilterValues | src/components/filtering.js:110-123 | The result's keys are exactly the element keys of the INPUTs and SELECTs with a non-empty value, each holding that value. |
| Filtering.LabelChoices | src/components/filtering.js:19-26 | At most one option per index value. |
| Filtering.LabelChoicesAreNames | src/components/filtering.js:19-26 | Each appended option shows its own value as text, and that value is a non-empty string of the index. |
| Filtering.LabelChoicesAppend | src/components/filtering.js:19-26 | One more index value adds its option at the end, or nothing when the value is empty or not a string. |
| Filtering.RemoveAllButFirst | src/components/filtering.js:13-15 | The removal loop leaves exactly the first option. The first option ends up selected once anything was removed. |
| Filtering.AppendLabels | src/components/filtering.js:19-26 | The options become the old options followed by the labels. The first append selects the first option when nothing was selected. |
| Filtering.RefillOptions | src/components/filtering.js:12-26 | A select's options become its first option followed by the labels. The selection ends on option 0, unless the select is empty or nothing was removed, appended or selected. |
| Filtering.UpdateIndexes | src/components/filtering.js:3-39 | Each select an index key names is refilled from its index entry as `RefillOptions` says. Its options become the first option followed by the labels. Its selection is on option 0, unless nothing is left, or only the first option is left and nothing was selected before. No text changes. |
| Pagination.NextPage | src/components/pagination.js:19-34 | `prev` gives `max(1, page-1)`, `next` gives `min(pageCount \|\| 1, page+1)`, `first` gives 1 and `last` gives `pageCount \|\| 1`. Any other action, or none, keeps the page. |
| Pagination.PrevClamps | src/components/pagination.js:21-23 | `prev` never goes below 1. On page 1 it stays; otherwise it steps back one page. |
| Pagination.NextClamps | src/components/pagination.js:24-26 | `next` never passes the last page, stays on the last page, and otherwise steps forward one page. |
| Pagination.NextPageStaysInRange | src/components/pagination.js:19-34 | From a page in `1..pageCount`, every action lands in `1..pageCount`. |
| Pagination.CeilDiv | src/components/pagination.js:43 | `Math.ceil(total / limit)` is the `c` with `(c-1)*limit < total <= c*limit`. |
| Pagination.PageCountFor | src/components/pagination.js:43 | The page count is at least 1. For a positive total it is the least number of pages that hold all rows. |
| Pagination.RowRangeFor | src/components/pagination.js:58-60 | `fromRow` is 0 for no rows and `(page-1)*limit+1` otherwise. `toRow` is the smaller of `page*limit` and the total. |
| Pagination.RowRangeInside | src/components/pagination.js:58-59 | On a page that has rows, `1 <= fromRow <= toRow <= total`, at most `limit` rows are shown, and every page before the last is full. |
| Pagination.StatusExamples | src/components/pagination.js:42-60 | With 0 rows, page 1 and 10 per page, the range is 0..0 and the page count is 1. With 25 rows, page 3 and 10 per page, the range is 21..25 and the page count is 3. |
| Pagination.Paginator.constructor | src/components/pagination.js:12 | The page count starts as not computed. |
| Pagination.Paginator.ApplyPagination | src/components/pagination.js:14-40 | A copy of the query where `limit` is `state.rowsPerPage` and `page` is `NextPage` of `state.page`. Every other key keeps its value, and the query's keys stay distinct. |
| Pagination.Paginator.UpdatePagination | src/components/pagination.js:42-60 | Remembers `PageCountFor(total, limit)` for later `next` and `last`, and returns the row range of the status line. |
| Pagination.LastThenNextStays | src/components/pagination.js:24-32 | After an update, `last` followed by `next` lands on the last page. |
| Records.CreateIndex | src/data.js:17-22 | The index's ids are exactly the ids of the list. |
| Records.CreateIndexLastWins | src/data.js:18-21 | An id maps to the full name of the last person carrying it. |
| Records.CreateIndexNamesFromPeople | src/data.js:17-22 | Every index entry is the full name of a person of the list with that id. |
| Records.Lookup | src/data.js:29-30 | An id the index does not know maps to `undefined`; a known one maps to its name. |
| Records.MapRecords | src/data.js:25-32 | One row per purchase, in order. Each row carries the receipt id, date and amount, with the seller and customer names looked up. |
| Records.MapRecordsAppend | src/data.js:25-32 | Mapping commutes with concatenation. |
| Records.FilterBy | src/data.js:233 | `filter` never lengthens its input. |
| Records.FilterByCounts | src/data.js:233 | A kept element occurs as often as in the input, and a rejected one does not occur. |
| Records.FilterByIsSubsequence | src/data.js:233 | `filter` keeps its input's order. |
| Records.FilterByAppend | src/data.js:233 | `filter` commutes with concatenation. |
| Records.FilterBySame | src/data.js:233 | Two predicates that agree everywhere filter alike. |
| Records.FilterRecords | src/data.js:232-295 | The records that pass all six checks (search, date, customer, seller, lower and upper bound), never more than the input. |
| Records.FilterRecordsCounts | src/data.js:232-295 | Each matching record is kept as often as it occurs, and no non-matching record is kept. |
| Records.FilterRecordsIsSubsequence | src/data.js:233-294 | The fallback filter keeps the order of the bundled records. |
| Records.FilterRecordsAppend | src/data.js:233-294 | Filtering two lists joined gives the two filtered lists joined. |
| Records.FilterRecordsReadsOnlyItsKeys | src/data.js:235-291 | Two queries that agree on `search` and the five `filter[...]` keys filter identically. The reducer-owned `sort`, `limit` and `page` keys play no part. |
| Records.ZeroLowerBoundIsNoBound | src/data.js:278-283 | A lower bound of 0 is falsy, so it filters exactly as no lower bound does, and negative amounts are kept. |
| Records.SellerOnlyQuery | src/data.js:269-275 | With only `filter[seller] = name` set, the result is exactly the records whose seller's name equals `name`, case-sensitively, with their multiplicities. |
| Records.InsertPermutes | src/data.js:303-321 | Inserting adds the element and loses nothing. |
| Records.InsertKeepsSorted | src/data.js:303-321 | Inserting into a sorted sequence keeps it sorted. |
| Records.SortByPermutes | src/data.js:303 | The sorted copy is a permutation of the input. |
| Records.SortBySorted | src/data.js:303-321 | Every pair of the sorted copy is in the comparator's order. |
| Records.InsertEqualAppends | src/data.js:312-313 | An element whose key equals every element's key is inserted at the end. |
| Records.SortByAllEqualIsIdentity | src/data.js:312-313 | When the comparator always answers 0, sorting returns the input order. |
| Records.InsertIsStable | src/data.js:303 | Insertion places the element after every element of its own key. |
| Records.SortByIsStable | src/data.js:303-321 | For every key, the records with that key come out in the order they went in, so the sort is stable. |
| Records.SortRecords | src/data.js:298-322 | A permutation of the input. `total:up` sorts amounts ascending and `total:<other>` descending, and likewise by `getTime` for `date`. Any other field keeps the input as it was. |
| Records.TotalUpSortsAscending | src/data.js:301-317 | `"total:up"` selects ascending order of amounts. |
| Records.SliceBound | src/data.js:216 | A bound of `slice` inside `0..length` is kept, one beyond the end becomes the length, and a negative one counts from the end, floored at 0. |
| Records.Slice | src/data.js:216 | For `0 <= start <= end`, `slice` is the subsequence between the clamped bounds. |
| Records.SortedMatches | src/data.js:203-208 | What the fallback sorts is a permutation of the filtered records. |
| Records.PageSlice | src/data.js:211-216 | For a page and a limit of at least 1, the slice is the `limit` elements from `(page-1)*limit`, cut at the end. A page past the end is empty. |
| Records.FallbackResult | src/data.js:203-222 | The fallback's total is the number of filtered records, not the page size. |
| Records.FallbackWindow | src/data.js:210-221 | The fallback's rows are the mapped page window of the sorted matches, selected by the query's `limit` and `page`. |
| Records.RemoteResult | src/data.js:176-179 | A missing total gives 0 and a missing items list gives no rows. Otherwise the total is the payload's, and row `i` is the mapping of item `i`. |
| Records.CacheInsertNew | src/data.js:182-188 | A new key goes to the end of the cache. If that makes more than 50 entries, the oldest entry leaves. The keys stay distinct and the key reads the result. |
| Records.CacheInsertBounded | src/data.js:182-188 | On the remote path, a cache of at most 50 entries stays at most 50, keeps distinct keys, and the key reads the new result. |
| Records.CacheInsertEvictsOldest | src/data.js:184-188 | A new key joining a full cache evicts exactly the oldest entry. Every other key reads what it read before. |
| Records.FallbackStoreExceedsCap | src/data.js:224-225 | The fallback path does not evict: a new key in a full cache makes 51 entries. |
| Resolver.NameOptions | src/data.js:69-75 | The option map's keys are exactly the index's names, each mapped to itself. |
| Resolver.NameOptionsUnique | src/data.js:64-81 | Two option maps of the same index are equal. |
| Resolver.Resolver.constructor | src/data.js:8-14 | No indexes, no last query or result, and an empty cache. |
| Resolver.Resolver.GetIndexes | src/data.js:62-152 | With both indexes present there is no request and no change. Otherwise both are built from the server's lists, or from the bundled lists when the fetch fails. The option maps list each name under itself, and the cache and last result are untouched. |
| Resolver.Resolver.AnswerMiss | src/data.js:166-228 | A success is mapped and inserted with eviction. A failure is answered by the fallback engine and stored without eviction. Either way the result becomes the last result and the query reads it. |
| Resolver.Resolver.GetRecords | src/data.js:155-229 | A query already in the cache returns the cached result with no request and no change. Otherwise the indexes are loaded if missing and the answer is computed as `AnswerMiss` says. Afterwards the query reads its result from the cache. |
| Resolver.RepeatedQueryIsCached | src/data.js:159-164 | Asking twice for the same query gives the same result. The second call makes no request, whatever the network would answer. |
| Resolver.IndexesAreMemoised | src/data.js:64-81 | Asking for the indexes again makes no request and gives equal option maps. |
| Pipeline.FlatKeysAreNotFilterKeys | src/main.js:46-49 | No `filter[...]` key is `search`, `sort`, `limit` or `page`. |
| Pipeline.ComposeQuery | src/main.js:41-49 | In the composed query, `search` is the search reducer's value, every `filter[...]` key is the filter object's value, and `limit` and `page` are the paginator's. A `clear` empties its field in the state. |
| Pipeline.SearchIsNoFilterKey | src/main.js:46-47 | The search key is no filter key. |
| Pipeline.SearchAndFilterCommute | src/main.js:46-47 | Search then filter and filter then search give queries that agree on every key. |
| Pipeline.StatusMatchesFallbackPage | src/main.js:52-55 | For a fallback answer, the number of rows returned equals the size of the status line's range `fromRow..toRow`. A page past the end has no rows. |

## Left out

- Network and URL building (`fetchFromServer`, `src/data.js:35-59`), `Promise.all`, `async`/`await` and console logging: each fetch is an `Outcome` parameter. The order of the purchase fetch and the index load on the success path does not affect any value the model computes.
- `lastQuery` is the query itself, not its `URLSearchParams` string.
- The `error` listener and the error option of `updateIndexes` (`src/components/filtering.js:7-10`, `27-36`): appending an option cannot fail here.
- `getPages` and the page buttons of `updatePagination` (`src/components/pagination.js:46-55`): `src/lib/utils.js` is not part of this model.
- `src/components/table.js`, `collectState` (`src/main.js:23-35`) and the rest of the render glue.
- `src/components/sorting.js` is not part of this model. The sort reducer is an abstract step that writes at most `sort`.
- Floating point: amounts and numbers are integers, and `Number`/`Date` parsing are the `parse` and `timeOf` parameters. NaN dates in the comparator are not modelled.
- Lower-casing covers ASCII letters only. The white space `trim` removes is the ECMAScript set, without Unicode normalisation.
- Enumeration order of the index and option objects: they are Dafny maps, so the order of options appended by `updateIndexes` from an index object is the order of the list handed to it.
- A `clear` button outside a `.filter-wrapper` makes the source throw at `src/components/filtering.js:45`. The model's action carries the wrapper's input as an `Option`, and only the case with a wrapper is modelled.
- Searching.ApplySearching: requires the search field to hold a string when truthy; on a truthy number, `trim` would throw a TypeError.
- Records.FilterRecords: requires `search` and `filter[customer]` to be strings when truthy, since `toLowerCase` is called on them. `Resolver.Resolver.GetRecords` asks the same of a query it must answer from the bundled data, together with `sort`, on which `split` is called.
- Pagination.Paginator.ApplyPagination: requires `rowsPerPage` and a numeric `page` in the state, which `collectState` always supplies (`src/main.js:27-28`).
- Pagination.Paginator.UpdatePagination: requires `limit > 0`. A zero or negative page size from the form is not modelled.
- Pipeline.ComposeQuery: requires the reducers' preconditions above, and a `clear` button whose field is not `rowsPerPage` or `page`.
- Filtering.UpdateIndexes: requires distinct index keys to name distinct selects, so that each select is refilled once.
- Filtering.UpdateIndexes: requires every element an index key names to be a SELECT. For an INPUT, `options` is undefined, and the source throws a TypeError when it reads `options.length` (`src/components/filtering.js:13`). That case is not modelled.
