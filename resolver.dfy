/**
 * The data resolver's state: the memoised seller and customer indexes, the last query and
 * result, and the result cache. `getIndexes` and `getRecords` update it one step at a time;
 * the network answers are parameters, as successes with a payload or failures.
 */
module Resolver {
  import opened Wrappers
  import opened JsValues
  import Dict
  import opened Records

  /** The dataset bundled with the application, used whenever the server fails. */
  datatype Dataset = Dataset(sellers: seq<Person>, customers: seq<Person>, purchases: seq<Purchase>)

  /** An option map of the filter selects: every name of the index, keyed by itself. */
  ghost predicate IsNameOptions(index: Index, options: map<string, string>) {
    options.Keys == index.Values && forall n :: n in options ==> options[n] == n
  }

  /** `Object.values(index).forEach((name) => { options[name] = name; })` */
  method NameOptions(index: Index) returns (options: map<string, string>)
    ensures options.Keys == index.Values
    ensures forall n :: n in options ==> options[n] == n
  {
    options := map[];
    var pending := index.Values;
    while pending != {}
      invariant pending <= index.Values
      invariant options.Keys == index.Values - pending
      invariant forall n :: n in options ==> options[n] == n
      decreases pending
    {
      var name :| name in pending;
      options := options[name := name];
      pending := pending - {name};
    }
  }

  /** Two option maps of the same index are the same map. */
  lemma NameOptionsUnique(index: Index, a: map<string, string>, b: map<string, string>)
    requires IsNameOptions(index, a) && IsNameOptions(index, b)
    ensures a == b
  {
    assert a.Keys == b.Keys;
    assert forall n :: n in a ==> a[n] == b[n];
  }

  class Resolver {
    const local: Dataset
    /** `Number` on a string, `None` for NaN. */
    const parse: string -> Option<int>
    /** `new Date(s).getTime()` */
    const timeOf: string -> int

    var sellers: Option<Index>
    var customers: Option<Index>
    /** The query of the last result computed (its URL encoding in the source). */
    var lastQuery: Option<Query>
    var lastResult: Option<Result>
    /** The result cache, oldest insertion first. */
    var cache: Cache

    /** The cache's keys are distinct, as a `Map`'s are. */
    ghost predicate Valid()
      reads this
    {
      Dict.Valid(cache)
    }

    constructor (local: Dataset, parse: string -> Option<int>, timeOf: string -> int)
      ensures this.local == local && this.parse == parse && this.timeOf == timeOf
      ensures sellers.None? && customers.None? && lastQuery.None? && lastResult.None? && cache == []
      ensures Valid()
    {
      this.local := local;
      this.parse := parse;
      this.timeOf := timeOf;
      sellers := None;
      customers := None;
      lastQuery := None;
      lastResult := None;
      cache := [];
    }

    /** `getIndexes()`. With both indexes present, no request is made and nothing changes.
        Otherwise both are built from the server's answer `answer`, or, when it fails, from the
        bundled dataset. Either way the option maps list each name under itself. */
    method GetIndexes(answer: Outcome<(seq<Person>, seq<Person>)>)
      returns (sellerOptions: map<string, string>, customerOptions: map<string, string>, requested: bool)
      modifies this
      ensures requested == !(old(sellers).Some? && old(customers).Some?)
      ensures !requested ==> sellers == old(sellers) && customers == old(customers)
      ensures requested && answer.Success? ==>
                sellers == Some(CreateIndex(answer.payload.0)) && customers == Some(CreateIndex(answer.payload.1))
      ensures requested && answer.Failure? ==>
                sellers == Some(CreateIndex(local.sellers)) && customers == Some(CreateIndex(local.customers))
      ensures sellers.Some? && customers.Some?
      ensures IsNameOptions(sellers.value, sellerOptions) && IsNameOptions(customers.value, customerOptions)
      ensures lastQuery == old(lastQuery) && lastResult == old(lastResult) && cache == old(cache)
    {
      requested := !(sellers.Some? && customers.Some?);
      if requested {
        match answer
        case Success((sellerData, customerData)) =>
          sellers := Some(CreateIndex(sellerData));
          customers := Some(CreateIndex(customerData));
        case Failure =>
          sellers := Some(CreateIndex(local.sellers));
          customers := Some(CreateIndex(local.customers));
      }
      sellerOptions := NameOptions(sellers.value);
      customerOptions := NameOptions(customers.value);
    }

    /** What `getRecords` needs of a query it has to answer from the bundled data: the keys it
        calls string methods on hold strings when truthy. */
    predicate CanFallBack(query: Query) {
      FilterableQuery(query) && TextWhenTruthy(Dict.Get(query, SortKey))
    }

    /** The part of `getRecords` after the indexes are loaded, for a query not in the cache: a
        successful answer is mapped and inserted with eviction, a failed one is answered by the
        fallback engine over the bundled purchases and inserted without eviction. */
    method AnswerMiss(query: Query, answer: Outcome<Payload>) returns (result: Result)
      requires Valid() && Dict.Get(cache, query).None?
      requires sellers.Some? && customers.Some?
      requires answer.Failure? ==> CanFallBack(query)
      modifies this
      ensures Valid()
      ensures sellers == old(sellers) && customers == old(customers)
      ensures lastQuery == Some(query) && lastResult == Some(result)
      ensures answer.Success? ==>
                result == RemoteResult(answer.payload, sellers.value, customers.value)
                && cache == CacheInsert(old(cache), query, result)
      ensures answer.Failure? ==>
                result == FallbackResult(local.purchases, sellers.value, customers.value, query, parse, timeOf)
                && cache == Dict.Put(old(cache), query, result)
      ensures Dict.Get(cache, query) == Some(result)
    {
      match answer
      case Success(payload) =>
        result := RemoteResult(payload, sellers.value, customers.value);
        lastQuery := Some(query);
        lastResult := Some(result);
        CacheInsertNew(cache, query, result);
        cache := Dict.Put(cache, query, result);
        if |cache| > MaxCache {
          cache := Dict.Delete(cache, cache[0].0);
        }
      case Failure =>
        result := FallbackResult(local.purchases, sellers.value, customers.value, query, parse, timeOf);
        lastQuery := Some(query);
        lastResult := Some(result);
        Dict.PutShape(cache, query, result);
        Dict.PutLookups(cache, query, result);
        cache := Dict.Put(cache, query, result);
    }

    /** `getRecords(query)`. A cached query is answered from the cache with no request and no
        change. Otherwise the indexes are loaded if missing and the answer is computed and
        stored as `AnswerMiss` says. Afterwards the query looks up its result. */
    method GetRecords(query: Query, answer: Outcome<Payload>, indexAnswer: Outcome<(seq<Person>, seq<Person>)>)
      returns (result: Result, requested: bool)
      requires Valid()
      requires Dict.Get(cache, query).None? && answer.Failure? ==> CanFallBack(query)
      modifies this
      ensures Valid()
      ensures requested == Dict.Get(old(cache), query).None?
      ensures !requested ==>
                Some(result) == Dict.Get(old(cache), query) && cache == old(cache)
                && lastQuery == old(lastQuery) && lastResult == old(lastResult)
                && sellers == old(sellers) && customers == old(customers)
      ensures requested ==> sellers.Some? && customers.Some?
                            && lastQuery == Some(query) && lastResult == Some(result)
      ensures requested && old(sellers).Some? && old(customers).Some? ==>
                sellers == old(sellers) && customers == old(customers)
      ensures requested && !(old(sellers).Some? && old(customers).Some?) && indexAnswer.Success? ==>
                sellers == Some(CreateIndex(indexAnswer.payload.0)) && customers == Some(CreateIndex(indexAnswer.payload.1))
      ensures requested && !(old(sellers).Some? && old(customers).Some?) && indexAnswer.Failure? ==>
                sellers == Some(CreateIndex(local.sellers)) && customers == Some(CreateIndex(local.customers))
      ensures requested && answer.Success? ==>
                result == RemoteResult(answer.payload, sellers.value, customers.value)
                && cache == CacheInsert(old(cache), query, result)
      ensures requested && answer.Failure? ==>
                result == FallbackResult(local.purchases, sellers.value, customers.value, query, parse, timeOf)
                && cache == Dict.Put(old(cache), query, result)
      ensures Dict.Get(cache, query) == Some(result)
    {
      var cached := Dict.Get(cache, query);
      if cached.Some? {
        return cached.value, false;
      }
      requested := true;
      if sellers.None? || customers.None? {
        var _, _, _ := GetIndexes(indexAnswer);
      }
      result := AnswerMiss(query, answer);
    }
  }

  /** Asking twice for the same query: the second call is a cache hit, makes no request and
      returns the first call's result, whatever the network would answer. */
  method RepeatedQueryIsCached(r: Resolver, query: Query, first: Outcome<Payload>, second: Outcome<Payload>,
                               indexAnswer: Outcome<(seq<Person>, seq<Person>)>)
    returns (a: Result, b: Result, requestedAgain: bool)
    requires r.Valid()
    requires first.Failure? ==> r.CanFallBack(query)
    modifies r
    ensures a == b && !requestedAgain
  {
    var requested;
    a, requested := r.GetRecords(query, first, indexAnswer);
    b, requestedAgain := r.GetRecords(query, second, indexAnswer);
  }

  /** Once the indexes are loaded, asking for them again makes no request and yields the same
      option maps. */
  method IndexesAreMemoised(r: Resolver, first: Outcome<(seq<Person>, seq<Person>)>,
                            second: Outcome<(seq<Person>, seq<Person>)>)
    returns (sameSellers: bool, sameCustomers: bool, requestedAgain: bool)
    modifies r
    ensures sameSellers && sameCustomers && !requestedAgain
  {
    var s1, c1, _ := r.GetIndexes(first);
    var s2, c2, again := r.GetIndexes(second);
    NameOptionsUnique(r.sellers.value, s1, s2);
    NameOptionsUnique(r.customers.value, c1, c2);
    sameSellers, sameCustomers, requestedAgain := s1 == s2, c1 == c2, again;
  }
}
