/**
 * The record side of the data resolver (`initData`): the id-to-name indexes, the mapping of
 * purchase records to table rows, and the local fallback engine that filters, sorts and
 * slices the bundled purchases when the server cannot answer; also the result cache's
 * insertion rule.
 */
module Records {
  import opened Wrappers
  import opened JsValues
  import JsStrings
  import Dict

  /** A seller or a customer of the dataset. */
  datatype Person = Person(id: string, firstName: string, lastName: string)

  /** A purchase record as the dataset and the server deliver it; amounts are whole numbers. */
  datatype Purchase = Purchase(receiptId: string, date: string, sellerId: string, customerId: string,
                               totalAmount: int)

  /** A table row: the purchase with its seller and customer ids replaced by names
      (`None` is `undefined`, for an id the index does not know). */
  datatype Row = Row(id: string, date: string, seller: Option<string>, customer: Option<string>, total: int)

  /** What `getRecords` resolves to. */
  datatype Result = Result(total: int, items: seq<Row>)

  /** What the purchases endpoint answers; either field may be absent. */
  datatype Payload = Payload(total: Option<int>, items: Option<seq<Purchase>>)

  /** An index from id to display name. */
  type Index = map<string, string>

  /** The formatter both indexes use: first name, a space, last name. */
  function FullName(p: Person): string {
    p.firstName + " " + p.lastName
  }

  /** `createIndex(people, "id", FullName)`: a left fold assigning each person's name under
      their id. */
  function CreateIndex(people: seq<Person>): (index: Index)
    ensures index.Keys == set p | p in people :: p.id
    decreases |people|
  {
    if people == [] then map[]
    else
      var init := people[..|people| - 1];
      var last := people[|people| - 1];
      assert forall p :: p in people <==> p in init || p == last by {
        assert people == init + [last];
      }
      CreateIndex(init)[last.id := FullName(last)]
  }

  /** Every id maps to the name of the last person carrying it: later people win. */
  lemma {:induction false} CreateIndexLastWins(people: seq<Person>, j: int)
    requires 0 <= j < |people|
    requires forall m :: j < m < |people| ==> people[m].id != people[j].id
    ensures CreateIndex(people)[people[j].id] == FullName(people[j])
  {
    var n := |people| - 1;
    if j < n {
      CreateIndexLastWins(people[..n], j);
    }
  }

  /** Every name in the index is the name of someone in the list under that id. */
  lemma {:induction false} CreateIndexNamesFromPeople(people: seq<Person>, k: string)
    requires k in CreateIndex(people)
    ensures exists p :: p in people && p.id == k && CreateIndex(people)[k] == FullName(p)
  {
    var n := |people| - 1;
    if people[n].id != k {
      CreateIndexNamesFromPeople(people[..n], k);
      var p :| p in people[..n] && p.id == k && CreateIndex(people[..n])[k] == FullName(p);
      assert p in people;
    } else {
      assert people[n] in people;
    }
  }

  /** `index[id]`, with `None` for an unknown id. */
  function Lookup(index: Index, id: string): (r: Option<string>)
    ensures r.Some? <==> id in index
    ensures r.Some? ==> r.value == index[id]
  {
    if id in index then Some(index[id]) else None
  }

  /** The row one purchase maps to. */
  function MapRecord(p: Purchase, sellers: Index, customers: Index): Row {
    Row(p.receiptId, p.date, Lookup(sellers, p.sellerId), Lookup(customers, p.customerId), p.totalAmount)
  }

  /** `mapRecords(data)`: each purchase becomes its row, in the same order. */
  function MapRecords(data: seq<Purchase>, sellers: Index, customers: Index): (rows: seq<Row>)
    ensures |rows| == |data|
    ensures forall i :: 0 <= i < |data| ==> rows[i] == MapRecord(data[i], sellers, customers)
  {
    if data == [] then [] else [MapRecord(data[0], sellers, customers)] + MapRecords(data[1..], sellers, customers)
  }

  /** Mapping commutes with concatenation, so it maps a page of records to the page of rows. */
  lemma MapRecordsAppend(a: seq<Purchase>, b: seq<Purchase>, sellers: Index, customers: Index)
    ensures MapRecords(a + b, sellers, customers) == MapRecords(a, sellers, customers) + MapRecords(b, sellers, customers)
  {
    var l := MapRecords(a + b, sellers, customers);
    var r := MapRecords(a, sellers, customers) + MapRecords(b, sellers, customers);
    assert forall i :: 0 <= i < |l| ==> l[i] == r[i] by {
      forall i | 0 <= i < |l| ensures l[i] == r[i] {
        if i < |a| { assert (a + b)[i] == a[i]; } else { assert (a + b)[i] == b[i - |a|]; }
      }
    }
  }

  // ---- filterRecords -------------------------------------------------------------------

  const SearchKey := "search"
  const DateKey := "filter[date]"
  const CustomerKey := "filter[customer]"
  const SellerKey := "filter[seller]"
  const FromKey := "filter[totalFrom]"
  const ToKey := "filter[totalTo]"
  const SortKey := "sort"

  /** `index[id] || ""` */
  function NameOr(index: Index, id: string): string {
    if id in index then index[id] else ""
  }

  /** The query keys on which `filterRecords` calls string methods hold strings when truthy. */
  predicate FilterableQuery(query: Query) {
    TextWhenTruthy(Dict.Get(query, SearchKey)) && TextWhenTruthy(Dict.Get(query, CustomerKey))
  }

  /** A truthy `search` is found, lower-cased, in the date, the lower-cased seller or customer
      name, or the decimal amount. */
  predicate SearchOk(p: Purchase, sellers: Index, customers: Index, query: Query)
    requires FilterableQuery(query)
  {
    var v := Dict.Get(query, SearchKey);
    Truthy(v) ==>
      var term := JsStrings.Lower(v.value.s);
      JsStrings.Contains(p.date, term)
      || JsStrings.Contains(JsStrings.Lower(NameOr(sellers, p.sellerId)), term)
      || JsStrings.Contains(JsStrings.Lower(NameOr(customers, p.customerId)), term)
      || JsStrings.Contains(JsStrings.IntToString(p.totalAmount), term)
  }

  /** A truthy `filter[date]` occurs in the date. */
  predicate DateOk(p: Purchase, query: Query) {
    var v := Dict.Get(query, DateKey);
    Truthy(v) ==> JsStrings.Contains(p.date, TextOf(v.value))
  }

  /** A truthy `filter[customer]` occurs, case-insensitively, in the customer's name. */
  predicate CustomerOk(p: Purchase, customers: Index, query: Query)
    requires FilterableQuery(query)
  {
    var v := Dict.Get(query, CustomerKey);
    Truthy(v) ==> JsStrings.Contains(JsStrings.Lower(NameOr(customers, p.customerId)), JsStrings.Lower(v.value.s))
  }

  /** A truthy `filter[seller]` is, strictly, the seller's name (a number never is). */
  predicate SellerOk(p: Purchase, sellers: Index, query: Query) {
    var v := Dict.Get(query, SellerKey);
    Truthy(v) ==> v.value == Str(NameOr(sellers, p.sellerId))
  }

  /** A truthy lower bound that is a number keeps only amounts at or above it; a bound that is
      not a number (NaN) excludes nothing, since every comparison with NaN is false. */
  predicate FromOk(p: Purchase, query: Query, parse: string -> Option<int>) {
    var v := Dict.Get(query, FromKey);
    Truthy(v) && NumberOf(v, parse).Some? ==> p.totalAmount >= NumberOf(v, parse).value
  }

  /** The upper bound, likewise. */
  predicate ToOk(p: Purchase, query: Query, parse: string -> Option<int>) {
    var v := Dict.Get(query, ToKey);
    Truthy(v) && NumberOf(v, parse).Some? ==> p.totalAmount <= NumberOf(v, parse).value
  }

  /** The record predicate of `filterRecords`: the conjunction of all six checks. */
  predicate Matches(p: Purchase, sellers: Index, customers: Index, query: Query, parse: string -> Option<int>)
    requires FilterableQuery(query)
  {
    SearchOk(p, sellers, customers, query) && DateOk(p, query) && CustomerOk(p, customers, query)
    && SellerOk(p, sellers, query) && FromOk(p, query, parse) && ToOk(p, query, parse)
  }

  /** `records.filter(keep)` */
  function FilterBy(records: seq<Purchase>, keep: Purchase -> bool): (r: seq<Purchase>)
    ensures |r| <= |records|
  {
    if records == [] then []
    else (if keep(records[0]) then [records[0]] else []) + FilterBy(records[1..], keep)
  }

  lemma {:induction false} FilterByCounts(records: seq<Purchase>, keep: Purchase -> bool, x: Purchase)
    ensures multiset(FilterBy(records, keep))[x] == if keep(x) then multiset(records)[x] else 0
  {
    if records != [] {
      var head := records[0];
      var first := if keep(head) then [head] else [];
      var rest := FilterBy(records[1..], keep);
      FilterByCounts(records[1..], keep, x);
      assert FilterBy(records, keep) == first + rest;
      assert multiset(first + rest) == multiset(first) + multiset(rest);
      assert records == [head] + records[1..];
      assert multiset(records) == multiset([head]) + multiset(records[1..]);
    }
  }

  /** `a` is `b` with some elements left out, the rest in their order. */
  ghost predicate IsSubsequence<T>(a: seq<T>, b: seq<T>)
    decreases |b|
  {
    if a == [] then true
    else if b == [] then false
    else (a[0] == b[0] && IsSubsequence(a[1..], b[1..])) || IsSubsequence(a, b[1..])
  }

  lemma {:induction false} FilterByIsSubsequence(records: seq<Purchase>, keep: Purchase -> bool)
    ensures IsSubsequence(FilterBy(records, keep), records)
  {
    if records != [] {
      FilterByIsSubsequence(records[1..], keep);
      var r := FilterBy(records, keep);
      var rest := FilterBy(records[1..], keep);
      if keep(records[0]) {
        assert r == [records[0]] + rest;
        assert r[0] == records[0] && r[1..] == rest;
      } else {
        assert r == rest;
      }
    }
  }

  lemma {:induction false} FilterByAppend(a: seq<Purchase>, b: seq<Purchase>, keep: Purchase -> bool)
    ensures FilterBy(a + b, keep) == FilterBy(a, keep) + FilterBy(b, keep)
  {
    if a == [] {
      assert a + b == b;
    } else {
      var first := if keep(a[0]) then [a[0]] else [];
      var ab := a + b;
      assert ab != [] && ab[0] == a[0] && ab[1..] == a[1..] + b;
      FilterByAppend(a[1..], b, keep);
      assert FilterBy(ab, keep) == first + (FilterBy(a[1..], keep) + FilterBy(b, keep));
      assert FilterBy(a, keep) == first + FilterBy(a[1..], keep);
      assert first + (FilterBy(a[1..], keep) + FilterBy(b, keep)) == (first + FilterBy(a[1..], keep)) + FilterBy(b, keep);
    }
  }

  lemma {:induction false} FilterBySame(records: seq<Purchase>, k1: Purchase -> bool, k2: Purchase -> bool)
    requires forall p :: k1(p) == k2(p)
    ensures FilterBy(records, k1) == FilterBy(records, k2)
  {
    if records != [] {
      FilterBySame(records[1..], k1, k2);
    }
  }

  /** `filterRecords(records, query)`: the records satisfying every active check, in order. */
  function FilterRecords(records: seq<Purchase>, sellers: Index, customers: Index, query: Query,
                         parse: string -> Option<int>): (r: seq<Purchase>)
    requires FilterableQuery(query)
    ensures |r| <= |records|
  {
    FilterBy(records, p => Matches(p, sellers, customers, query, parse))
  }

  /** Each matching record is kept as often as it occurs, and no other record is kept. */
  lemma FilterRecordsCounts(records: seq<Purchase>, sellers: Index, customers: Index, query: Query,
                            parse: string -> Option<int>, x: Purchase)
    requires FilterableQuery(query)
    ensures multiset(FilterRecords(records, sellers, customers, query, parse))[x]
         == if Matches(x, sellers, customers, query, parse) then multiset(records)[x] else 0
  {
    FilterByCounts(records, p => Matches(p, sellers, customers, query, parse), x);
  }

  /** Filtering keeps the input's order. */
  lemma FilterRecordsIsSubsequence(records: seq<Purchase>, sellers: Index, customers: Index,
                                   query: Query, parse: string -> Option<int>)
    requires FilterableQuery(query)
    ensures IsSubsequence(FilterRecords(records, sellers, customers, query, parse), records)
  {
    FilterByIsSubsequence(records, p => Matches(p, sellers, customers, query, parse));
  }

  /** Filtering commutes with concatenation. */
  lemma FilterRecordsAppend(a: seq<Purchase>, b: seq<Purchase>, sellers: Index, customers: Index,
                            query: Query, parse: string -> Option<int>)
    requires FilterableQuery(query)
    ensures FilterRecords(a + b, sellers, customers, query, parse)
         == FilterRecords(a, sellers, customers, query, parse) + FilterRecords(b, sellers, customers, query, parse)
  {
    FilterByAppend(a, b, p => Matches(p, sellers, customers, query, parse));
  }

  /** Two queries that agree on the six keys `filterRecords` reads filter identically. */
  lemma FilterRecordsReadsOnlyItsKeys(records: seq<Purchase>, sellers: Index, customers: Index,
                                      q1: Query, q2: Query, parse: string -> Option<int>)
    requires forall k :: k in {SearchKey, DateKey, CustomerKey, SellerKey, FromKey, ToKey} ==> Dict.Get(q1, k) == Dict.Get(q2, k)
    requires FilterableQuery(q1)
    ensures FilterableQuery(q2)
    ensures FilterRecords(records, sellers, customers, q1, parse) == FilterRecords(records, sellers, customers, q2, parse)
  {
    assert Dict.Get(q1, SearchKey) == Dict.Get(q2, SearchKey) && Dict.Get(q1, CustomerKey) == Dict.Get(q2, CustomerKey);
    assert Dict.Get(q1, DateKey) == Dict.Get(q2, DateKey) && Dict.Get(q1, SellerKey) == Dict.Get(q2, SellerKey);
    assert Dict.Get(q1, FromKey) == Dict.Get(q2, FromKey) && Dict.Get(q1, ToKey) == Dict.Get(q2, ToKey);
    FilterBySame(records, p => Matches(p, sellers, customers, q1, parse), p => Matches(p, sellers, customers, q2, parse));
  }

  /** A lower bound of 0 is falsy, so it filters exactly as no lower bound does (negative
      amounts are kept). */
  lemma ZeroLowerBoundIsNoBound(records: seq<Purchase>, sellers: Index, customers: Index,
                                query: Query, parse: string -> Option<int>)
    requires FilterableQuery(query)
    ensures FilterableQuery(Dict.Put(query, FromKey, Num(0)))
    ensures FilterableQuery(Dict.Delete(query, FromKey))
    ensures FilterRecords(records, sellers, customers, Dict.Put(query, FromKey, Num(0)), parse)
         == FilterRecords(records, sellers, customers, Dict.Delete(query, FromKey), parse)
  {
    var withZero := Dict.Put(query, FromKey, Num(0));
    var without := Dict.Delete(query, FromKey);
    Dict.PutLookups(query, FromKey, Num(0));
    forall k ensures Dict.Get(without, k) == if k == FromKey then None else Dict.Get(query, k) {
      Dict.GetDelete(query, FromKey, k);
    }
    assert FilterableQuery(without);
    forall p ensures Matches(p, sellers, customers, withZero, parse) == Matches(p, sellers, customers, without, parse) {
    }
    FilterBySame(records, p => Matches(p, sellers, customers, withZero, parse), p => Matches(p, sellers, customers, without, parse));
  }

  /** With only `filter[seller] = name` set, a record matches exactly when its seller's name is
      `name`, so the result is exactly the records of that seller, in their order. */
  lemma SellerOnlyQuery(records: seq<Purchase>, sellers: Index, customers: Index, name: string,
                        parse: string -> Option<int>)
    requires name != ""
    ensures FilterableQuery([(SellerKey, Str(name))])
    ensures forall x :: multiset(FilterRecords(records, sellers, customers, [(SellerKey, Str(name))], parse))[x]
                        == if NameOr(sellers, x.sellerId) == name then multiset(records)[x] else 0
  {
    var q: Query := [(SellerKey, Str(name))];
    assert forall k :: Dict.Get(q, k) == if k == SellerKey then Some(Str(name)) else None;
    assert FilterableQuery(q);
    forall x ensures multiset(FilterRecords(records, sellers, customers, q, parse))[x]
                     == if NameOr(sellers, x.sellerId) == name then multiset(records)[x] else 0 {
      assert Matches(x, sellers, customers, q, parse) <==> NameOr(sellers, x.sellerId) == name;
      FilterRecordsCounts(records, sellers, customers, q, parse, x);
    }
  }

  // ---- sortRecords ---------------------------------------------------------------------

  /** The field a sort parameter names: `date`, `total`, or anything else. */
  datatype SortField = ByDate | ByTotal | Unsorted

  /** The value the comparator compares; an unknown field compares everything as equal. */
  function Key(field: SortField, timeOf: string -> int, p: Purchase): int {
    match field
    case ByDate => timeOf(p.date)
    case ByTotal => p.totalAmount
    case Unsorted => 0
  }

  /** `a` may stand before `b` in a result sorted up (ascending) or down (descending). */
  predicate InOrder(field: SortField, timeOf: string -> int, up: bool, a: Purchase, b: Purchase) {
    if up then Key(field, timeOf, a) <= Key(field, timeOf, b) else Key(field, timeOf, b) <= Key(field, timeOf, a)
  }

  ghost predicate Sorted(field: SortField, timeOf: string -> int, up: bool, s: seq<Purchase>) {
    forall i, j :: 0 <= i < j < |s| ==> InOrder(field, timeOf, up, s[i], s[j])
  }

  /** `x` inserted into `s` after every element it does not strictly precede: the step of a
      stable insertion sort. */
  function Insert(field: SortField, timeOf: string -> int, up: bool, x: Purchase, s: seq<Purchase>): seq<Purchase> {
    if s == [] then [x]
    else if !InOrder(field, timeOf, up, s[0], x) then [x] + s
    else [s[0]] + Insert(field, timeOf, up, x, s[1..])
  }

  /** Inserting adds `x` and loses nothing. */
  lemma {:induction false} InsertPermutes(field: SortField, timeOf: string -> int, up: bool, x: Purchase, s: seq<Purchase>)
    ensures multiset(Insert(field, timeOf, up, x, s)) == multiset(s) + multiset{x}
  {
    if s != [] && InOrder(field, timeOf, up, s[0], x) {
      InsertPermutes(field, timeOf, up, x, s[1..]);
      assert s == [s[0]] + s[1..];
    }
  }

  /** Every element of the result is `x` or an element of `s`. */
  lemma {:induction false} InsertMembers(field: SortField, timeOf: string -> int, up: bool, x: Purchase, s: seq<Purchase>, y: Purchase)
    requires y in Insert(field, timeOf, up, x, s)
    ensures y == x || y in s
  {
    if s != [] && InOrder(field, timeOf, up, s[0], x) && y != s[0] {
      InsertMembers(field, timeOf, up, x, s[1..], y);
    }
  }

  /** An element in order with every element of a sorted sequence may head it. */
  lemma ConsSorted(field: SortField, timeOf: string -> int, up: bool, a: Purchase, r: seq<Purchase>)
    requires Sorted(field, timeOf, up, r)
    requires forall j :: 0 <= j < |r| ==> InOrder(field, timeOf, up, a, r[j])
    ensures Sorted(field, timeOf, up, [a] + r)
  {
    var t := [a] + r;
    forall i, j | 0 <= i < j < |t| ensures InOrder(field, timeOf, up, t[i], t[j]) {
      if i > 0 { assert t[i] == r[i - 1] && t[j] == r[j - 1]; } else { assert t[j] == r[j - 1]; }
    }
  }

  /** Inserting into a sorted sequence keeps it sorted. */
  lemma {:induction false} InsertKeepsSorted(field: SortField, timeOf: string -> int, up: bool, x: Purchase, s: seq<Purchase>)
    requires Sorted(field, timeOf, up, s)
    ensures Sorted(field, timeOf, up, Insert(field, timeOf, up, x, s))
  {
    if s == [] {
    } else if !InOrder(field, timeOf, up, s[0], x) {
      forall j | 0 <= j < |s| ensures InOrder(field, timeOf, up, x, s[j]) {
        if j > 0 { assert InOrder(field, timeOf, up, s[0], s[j]); }
      }
      ConsSorted(field, timeOf, up, x, s);
    } else {
      var tail := Insert(field, timeOf, up, x, s[1..]);
      assert Sorted(field, timeOf, up, tail) by {
        assert Sorted(field, timeOf, up, s[1..]) by {
          forall i, j | 0 <= i < j < |s[1..]| ensures InOrder(field, timeOf, up, s[1..][i], s[1..][j]) {
            assert s[1..][i] == s[i + 1] && s[1..][j] == s[j + 1];
          }
        }
        InsertKeepsSorted(field, timeOf, up, x, s[1..]);
      }
      forall j | 0 <= j < |tail| ensures InOrder(field, timeOf, up, s[0], tail[j]) {
        InsertMembers(field, timeOf, up, x, s[1..], tail[j]);
        if tail[j] != x {
          var m :| 0 <= m < |s[1..]| && s[1..][m] == tail[j];
          assert s[m + 1] == tail[j];
          assert InOrder(field, timeOf, up, s[0], s[m + 1]);
        }
      }
      ConsSorted(field, timeOf, up, s[0], tail);
    }
  }

  /** `[...records].sort(cmp)`: a stable insertion sort of a copy of the input. */
  function SortBy(field: SortField, timeOf: string -> int, up: bool, s: seq<Purchase>): seq<Purchase>
    decreases |s|
  {
    if s == [] then []
    else Insert(field, timeOf, up, s[|s| - 1], SortBy(field, timeOf, up, s[..|s| - 1]))
  }

  /** Sorting loses and adds nothing. */
  lemma {:induction false} SortByPermutes(field: SortField, timeOf: string -> int, up: bool, s: seq<Purchase>)
    ensures multiset(SortBy(field, timeOf, up, s)) == multiset(s)
  {
    if s != [] {
      var n := |s| - 1;
      SortByPermutes(field, timeOf, up, s[..n]);
      InsertPermutes(field, timeOf, up, s[n], SortBy(field, timeOf, up, s[..n]));
      assert s == s[..n] + [s[n]];
    }
  }

  /** Sorting puts every pair in order. */
  lemma {:induction false} SortBySorted(field: SortField, timeOf: string -> int, up: bool, s: seq<Purchase>)
    ensures Sorted(field, timeOf, up, SortBy(field, timeOf, up, s))
  {
    if s != [] {
      var n := |s| - 1;
      SortBySorted(field, timeOf, up, s[..n]);
      InsertKeepsSorted(field, timeOf, up, s[n], SortBy(field, timeOf, up, s[..n]));
    }
  }

  /** When every element has the key of `x`, inserting appends. */
  lemma {:induction false} InsertEqualAppends(field: SortField, timeOf: string -> int, up: bool, x: Purchase, s: seq<Purchase>)
    requires forall j :: 0 <= j < |s| ==> Key(field, timeOf, s[j]) == Key(field, timeOf, x)
    ensures Insert(field, timeOf, up, x, s) == s + [x]
  {
    if s != [] {
      InsertEqualAppends(field, timeOf, up, x, s[1..]);
    }
  }

  /** A comparator that always answers 0 (every key is `c`) leaves the order as it was: the
      sort is stable. */
  lemma {:induction false} SortByAllEqualIsIdentity(field: SortField, timeOf: string -> int, up: bool, c: int, s: seq<Purchase>)
    requires forall j :: 0 <= j < |s| ==> Key(field, timeOf, s[j]) == c
    ensures SortBy(field, timeOf, up, s) == s
  {
    if s != [] {
      var n := |s| - 1;
      var init := s[..n];
      assert forall j :: 0 <= j < |init| ==> Key(field, timeOf, init[j]) == c by {
        forall j | 0 <= j < |init| ensures Key(field, timeOf, init[j]) == c {
          assert init[j] == s[j];
        }
      }
      SortByAllEqualIsIdentity(field, timeOf, up, c, init);
      InsertEqualAppends(field, timeOf, up, s[n], init);
      assert init + [s[n]] == s;
    }
  }

  /** The records of `s` whose sort key is `c`, in their order. */
  function WithKey(field: SortField, timeOf: string -> int, c: int, s: seq<Purchase>): seq<Purchase> {
    FilterBy(s, p => Key(field, timeOf, p) == c)
  }

  lemma WithKeyAppend(field: SortField, timeOf: string -> int, c: int, a: seq<Purchase>, b: seq<Purchase>)
    ensures WithKey(field, timeOf, c, a + b) == WithKey(field, timeOf, c, a) + WithKey(field, timeOf, c, b)
  {
    FilterByAppend(a, b, p => Key(field, timeOf, p) == c);
  }

  lemma {:induction false} WithKeyNone(field: SortField, timeOf: string -> int, c: int, s: seq<Purchase>)
    requires forall j :: 0 <= j < |s| ==> Key(field, timeOf, s[j]) != c
    ensures WithKey(field, timeOf, c, s) == []
  {
    if s != [] {
      WithKeyNone(field, timeOf, c, s[1..]);
    }
  }

  /** An element strictly before the head of a sorted sequence has a key no element of it has. */
  lemma InsertFrontIsStable(field: SortField, timeOf: string -> int, up: bool, x: Purchase, s: seq<Purchase>, c: int)
    requires Sorted(field, timeOf, up, s) && s != [] && !InOrder(field, timeOf, up, s[0], x)
    ensures WithKey(field, timeOf, c, [x] + s) == WithKey(field, timeOf, c, s) + (if Key(field, timeOf, x) == c then [x] else [])
  {
    if Key(field, timeOf, x) == c {
      forall j | 0 <= j < |s| ensures Key(field, timeOf, s[j]) != c {
        if j > 0 { assert InOrder(field, timeOf, up, s[0], s[j]); }
      }
      WithKeyNone(field, timeOf, c, s);
    }
    assert ([x] + s)[1..] == s;
  }

  /** The records of key `c` in `[a] + t`: `a` if it has that key, then those of `t`. */
  lemma WithKeyCons(field: SortField, timeOf: string -> int, c: int, a: Purchase, t: seq<Purchase>)
    ensures WithKey(field, timeOf, c, [a] + t) == (if Key(field, timeOf, a) == c then [a] else []) + WithKey(field, timeOf, c, t)
  {
    assert ([a] + t)[0] == a && ([a] + t)[1..] == t;
  }

  lemma SortedTail(field: SortField, timeOf: string -> int, up: bool, s: seq<Purchase>)
    requires Sorted(field, timeOf, up, s) && s != []
    ensures Sorted(field, timeOf, up, s[1..])
  {
    forall i, j | 0 <= i < j < |s[1..]| ensures InOrder(field, timeOf, up, s[1..][i], s[1..][j]) {
      assert s[1..][i] == s[i + 1] && s[1..][j] == s[j + 1];
    }
  }

  /** Inserting `x` puts it after every element of its own key. */
  lemma {:induction false} InsertIsStable(field: SortField, timeOf: string -> int, up: bool, x: Purchase,
                                          s: seq<Purchase>, c: int)
    requires Sorted(field, timeOf, up, s)
    ensures WithKey(field, timeOf, c, Insert(field, timeOf, up, x, s))
         == WithKey(field, timeOf, c, s) + (if Key(field, timeOf, x) == c then [x] else [])
  {
    var mine := if Key(field, timeOf, x) == c then [x] else [];
    if s == [] {
      WithKeyCons(field, timeOf, c, x, []);
    } else if !InOrder(field, timeOf, up, s[0], x) {
      assert Insert(field, timeOf, up, x, s) == [x] + s;
      InsertFrontIsStable(field, timeOf, up, x, s, c);
    } else {
      var t := Insert(field, timeOf, up, x, s[1..]);
      var head := if Key(field, timeOf, s[0]) == c then [s[0]] else [];
      var rest := WithKey(field, timeOf, c, s[1..]);
      assert Insert(field, timeOf, up, x, s) == [s[0]] + t;
      WithKeyCons(field, timeOf, c, s[0], t);
      SortedTail(field, timeOf, up, s);
      InsertIsStable(field, timeOf, up, x, s[1..], c);
      WithKeyCons(field, timeOf, c, s[0], s[1..]);
      assert [s[0]] + s[1..] == s;
      assert head + (rest + mine) == (head + rest) + mine;
    }
  }

  lemma WithKeySnoc(field: SortField, timeOf: string -> int, c: int, s: seq<Purchase>)
    requires s != []
    ensures WithKey(field, timeOf, c, s)
         == WithKey(field, timeOf, c, s[..|s| - 1]) + (if Key(field, timeOf, s[|s| - 1]) == c then [s[|s| - 1]] else [])
  {
    var n := |s| - 1;
    WithKeyAppend(field, timeOf, c, s[..n], [s[n]]);
    assert s[..n] + [s[n]] == s;
    assert [s[n]][1..] == [];
  }

  /** The sort is stable: for every key, the records carrying it come out in the order they
      went in. */
  lemma {:induction false} SortByIsStable(field: SortField, timeOf: string -> int, up: bool, s: seq<Purchase>, c: int)
    ensures WithKey(field, timeOf, c, SortBy(field, timeOf, up, s)) == WithKey(field, timeOf, c, s)
    decreases |s|
  {
    if s != [] {
      var n := |s| - 1;
      var t := SortBy(field, timeOf, up, s[..n]);
      SortByIsStable(field, timeOf, up, s[..n], c);
      SortBySorted(field, timeOf, up, s[..n]);
      InsertIsStable(field, timeOf, up, s[n], t, c);
      WithKeySnoc(field, timeOf, c, s);
    }
  }

  /** The field named before the first `:` of a sort parameter. */
  function FieldOf(sortParam: string): SortField {
    var name := JsStrings.Split(sortParam, ':')[0];
    if name == "date" then ByDate else if name == "total" then ByTotal else Unsorted
  }

  /** The order after the first `:` is exactly `up`. */
  predicate Ascending(sortParam: string) {
    var parts := JsStrings.Split(sortParam, ':');
    |parts| > 1 && parts[1] == "up"
  }

  /** `sortRecords(records, sortParam)`: a sorted copy, a permutation of the input, ascending for
      the order `up` and descending for any other; for an unknown field, the input as it was. */
  function SortRecords(records: seq<Purchase>, sortParam: string, timeOf: string -> int): (r: seq<Purchase>)
    ensures multiset(r) == multiset(records)
    ensures FieldOf(sortParam) == ByTotal && Ascending(sortParam) ==>
              forall i, j :: 0 <= i < j < |r| ==> r[i].totalAmount <= r[j].totalAmount
    ensures FieldOf(sortParam) == ByTotal && !Ascending(sortParam) ==>
              forall i, j :: 0 <= i < j < |r| ==> r[i].totalAmount >= r[j].totalAmount
    ensures FieldOf(sortParam) == ByDate && Ascending(sortParam) ==>
              forall i, j :: 0 <= i < j < |r| ==> timeOf(r[i].date) <= timeOf(r[j].date)
    ensures FieldOf(sortParam) == ByDate && !Ascending(sortParam) ==>
              forall i, j :: 0 <= i < j < |r| ==> timeOf(r[i].date) >= timeOf(r[j].date)
    ensures FieldOf(sortParam) == Unsorted ==> r == records
  {
    var field := FieldOf(sortParam);
    var up := Ascending(sortParam);
    var r := SortBy(field, timeOf, up, records);
    SortByPermutes(field, timeOf, up, records);
    SortBySorted(field, timeOf, up, records);
    assert forall i, j :: 0 <= i < j < |r| ==> InOrder(field, timeOf, up, r[i], r[j]);
    assert field == Unsorted ==> r == records by {
      if field == Unsorted { SortByAllEqualIsIdentity(field, timeOf, up, 0, records); }
    }
    r
  }

  /** `"total:up"` sorts by amount, ascending. */
  lemma TotalUpSortsAscending(records: seq<Purchase>, timeOf: string -> int)
    ensures var r := SortRecords(records, "total:up", timeOf);
            forall i, j :: 0 <= i < j < |r| ==> r[i].totalAmount <= r[j].totalAmount
  {
    JsStrings.SplitJoinedPair("total", "up", ':');
    assert "total:up" == "total" + [':'] + "up";
  }

  // ---- the fallback page ---------------------------------------------------------------

  /** How `slice` reads one of its bounds: negative counts from the end, then clamped. */
  function SliceBound(i: int, n: nat): (b: nat)
    ensures b <= n
    ensures 0 <= i <= n ==> b == i
    ensures i > n ==> b == n
    ensures i < 0 ==> b == if n + i < 0 then 0 else n + i
  {
    if i < 0 then (if n + i < 0 then 0 else n + i) else if i > n then n else i
  }

  /** `s.slice(start, end)` */
  function Slice<T>(s: seq<T>, start: int, end: int): (r: seq<T>)
    ensures 0 <= start <= end ==> r == s[SliceBound(start, |s|)..SliceBound(end, |s|)]
  {
    var a := SliceBound(start, |s|);
    var b := SliceBound(end, |s|);
    if a < b then s[a..b] else []
  }

  /** `Number(query.limit) || 10` */
  function PageLimit(query: Query, parse: string -> Option<int>): int {
    NumberOr(Dict.Get(query, "limit"), parse, 10)
  }

  /** `Number(query.page) || 1` */
  function PageNumber(query: Query, parse: string -> Option<int>): int {
    NumberOr(Dict.Get(query, "page"), parse, 1)
  }

  /** What the fallback branch sorts: the filtered records, sorted when `query.sort` is truthy. */
  function SortedMatches(purchases: seq<Purchase>, sellers: Index, customers: Index, query: Query,
                         parse: string -> Option<int>, timeOf: string -> int): (r: seq<Purchase>)
    requires FilterableQuery(query) && TextWhenTruthy(Dict.Get(query, SortKey))
    ensures multiset(r) == multiset(FilterRecords(purchases, sellers, customers, query, parse))
    ensures |r| == |FilterRecords(purchases, sellers, customers, query, parse)|
  {
    var filtered := FilterRecords(purchases, sellers, customers, query, parse);
    var sort := Dict.Get(query, SortKey);
    var r := if Truthy(sort) then SortRecords(filtered, sort.value.s, timeOf) else filtered;
    assert |multiset(r)| == |multiset(filtered)|;
    r
  }

  /** `s.slice((page - 1) * limit, (page - 1) * limit + limit)`: for a page and a limit of at
      least 1, the `limit` elements from position `(page - 1) * limit`, cut at the end. */
  function PageSlice<T>(s: seq<T>, page: int, limit: int): (r: seq<T>)
    ensures page >= 1 && limit >= 1 ==>
              var start := (page - 1) * limit;
              (start < |s| ==> r == s[start..if start + limit < |s| then start + limit else |s|])
              && (start >= |s| ==> r == [])
  {
    var start := (page - 1) * limit;
    if page >= 1 && limit >= 1 then
      ProductNonNegative(page - 1, limit);
      Slice(s, start, start + limit)
    else
      Slice(s, start, start + limit)
  }

  /** The fallback branch's result: the filtered count, and the rows of the page of the
      sorted matches that `limit` and `page` select. */
  function FallbackResult(purchases: seq<Purchase>, sellers: Index, customers: Index, query: Query,
                          parse: string -> Option<int>, timeOf: string -> int): (r: Result)
    requires FilterableQuery(query) && TextWhenTruthy(Dict.Get(query, SortKey))
    ensures r.total == |FilterRecords(purchases, sellers, customers, query, parse)|
  {
    var sorted := SortedMatches(purchases, sellers, customers, query, parse, timeOf);
    Result(|sorted|, MapRecords(PageSlice(sorted, PageNumber(query, parse), PageLimit(query, parse)), sellers, customers))
  }

  /** For a limit and a page of at least 1, the fallback's rows are the mapped window of
      `limit` sorted matches from position `(page - 1) * limit`, cut at the end; a page past
      the end has no rows. */
  lemma FallbackWindow(purchases: seq<Purchase>, sellers: Index, customers: Index, query: Query,
                       parse: string -> Option<int>, timeOf: string -> int)
    requires FilterableQuery(query) && TextWhenTruthy(Dict.Get(query, SortKey))
    requires PageLimit(query, parse) >= 1 && PageNumber(query, parse) >= 1
    ensures (PageNumber(query, parse) - 1) * PageLimit(query, parse) >= 0
    ensures var r := FallbackResult(purchases, sellers, customers, query, parse, timeOf);
            var sorted := SortedMatches(purchases, sellers, customers, query, parse, timeOf);
            var start := (PageNumber(query, parse) - 1) * PageLimit(query, parse);
            var stop := if start + PageLimit(query, parse) < |sorted| then start + PageLimit(query, parse) else |sorted|;
            (start < |sorted| ==> r.items == MapRecords(sorted[start..stop], sellers, customers))
            && (start >= |sorted| ==> r.items == [])
  {
    var page, limit := PageNumber(query, parse), PageLimit(query, parse);
    var sorted := SortedMatches(purchases, sellers, customers, query, parse, timeOf);
    ProductNonNegative(page - 1, limit);
    var w := PageSlice(sorted, page, limit);
    assert FallbackResult(purchases, sellers, customers, query, parse, timeOf).items == MapRecords(w, sellers, customers);
  }

  lemma ProductNonNegative(a: int, b: int)
    requires a >= 0 && b >= 0
    ensures a * b >= 0
  {
  }

  /** `{ total: response.total || 0, items: response.items ? mapRecords(response.items) : [] }` */
  function RemoteResult(payload: Payload, sellers: Index, customers: Index): (r: Result)
    ensures payload.total.None? ==> r.total == 0
    ensures payload.total.Some? ==> r.total == payload.total.value
    ensures payload.items.None? ==> r.items == []
    ensures payload.items.Some? ==> |r.items| == |payload.items.value|
                                    && forall i :: 0 <= i < |r.items| ==> r.items[i] == MapRecord(payload.items.value[i], sellers, customers)
  {
    Result(if payload.total.Some? && payload.total.value != 0 then payload.total.value else 0,
           if payload.items.Some? then MapRecords(payload.items.value, sellers, customers) else [])
  }

  // ---- the result cache ----------------------------------------------------------------

  /** `JSON.stringify(query)` of a flat object is determined by, and determines, its entries in
      order, so the cache is keyed by the query itself. */
  type Cache = Dict.Dict<Query, Result>

  const MaxCache := 50

  /** `queryCache.set(key, result)`, then, over 50 entries, the deletion of the oldest key. */
  function CacheInsert(cache: Cache, key: Query, result: Result): Cache {
    var c := Dict.Put(cache, key, result);
    if |c| > MaxCache then Dict.Delete(c, c[0].0) else c
  }

  /** A new key goes to the end; once that makes more than 50 entries, the first (oldest)
      entry leaves. The keys stay distinct and the new key looks up the new result. */
  lemma CacheInsertNew(cache: Cache, key: Query, result: Result)
    requires Dict.Valid(cache) && key !in Dict.KeySet(cache)
    ensures CacheInsert(cache, key, result)
         == if |cache| >= MaxCache then cache[1..] + [(key, result)] else cache + [(key, result)]
    ensures Dict.Valid(CacheInsert(cache, key, result))
    ensures Dict.Get(CacheInsert(cache, key, result), key) == Some(result)
  {
    Dict.PutShape(cache, key, result);
    var c := Dict.Put(cache, key, result);
    assert c == cache + [(key, result)];
    if |cache| >= MaxCache {
      assert c[0] == cache[0];
      Dict.DeleteFirst(c);
      assert c[1..] == cache[1..] + [(key, result)];
      var d := c[1..];
      assert Dict.Valid(d) by {
        forall i, j | 0 <= i < j < |d| ensures d[i].0 != d[j].0 {
          assert d[i] == c[i + 1] && d[j] == c[j + 1];
        }
      }
      Dict.GetAt(d, |d| - 1);
    } else {
      Dict.GetAt(c, |c| - 1);
    }
  }

  /** From a cache of at most 50 entries, an insertion leaves at most 50, keeps the keys distinct
      and makes the key look up the new result. */
  lemma CacheInsertBounded(cache: Cache, key: Query, result: Result)
    requires Dict.Valid(cache) && |cache| <= MaxCache
    ensures var c := CacheInsert(cache, key, result);
            |c| <= MaxCache && Dict.Valid(c) && Dict.Get(c, key) == Some(result)
  {
    if key in Dict.KeySet(cache) {
      Dict.PutShape(cache, key, result);
      Dict.PutLookups(cache, key, result);
    } else {
      CacheInsertNew(cache, key, result);
    }
  }

  /** When a new key joins a full cache, exactly the oldest entry leaves and every other key
      looks up what it did before. */
  lemma CacheInsertEvictsOldest(cache: Cache, key: Query, result: Result)
    requires Dict.Valid(cache) && |cache| == MaxCache && key !in Dict.KeySet(cache)
    ensures |CacheInsert(cache, key, result)| == MaxCache
    ensures Dict.Get(CacheInsert(cache, key, result), cache[0].0) == None
    ensures forall k :: k != cache[0].0 && k != key ==> Dict.Get(CacheInsert(cache, key, result), k) == Dict.Get(cache, k)
  {
    CacheInsertNew(cache, key, result);
    Dict.PutShape(cache, key, result);
    var c := Dict.Put(cache, key, result);
    assert c[0] == cache[0];
    Dict.DeleteFirst(c);
    forall k ensures Dict.Get(Dict.Delete(c, c[0].0), k) == if k == cache[0].0 then None else Dict.Get(c, k) {
      Dict.GetDelete(c, c[0].0, k);
    }
    Dict.PutLookups(cache, key, result);
  }

  /** The fallback branch stores without evicting: from a full cache, a new key makes 51. */
  lemma FallbackStoreExceedsCap(cache: Cache, key: Query, result: Result)
    requires |cache| == MaxCache && key !in Dict.KeySet(cache)
    ensures |Dict.Put(cache, key, result)| == MaxCache + 1
  {
    Dict.PutShape(cache, key, result);
  }
}
