/**
 * Ordered dictionaries with the semantics of JavaScript plain objects and `Map`s:
 * entries keep insertion order, assigning an existing key replaces its value in place,
 * assigning a new key appends it, and deleting removes the entry.
 */
module Dict {
  import opened Wrappers

  type Dict<K(==), V> = seq<(K, V)>

  /** No key occurs twice: the shape every object and `Map` has. */
  ghost predicate Valid<K, V>(d: Dict<K, V>) {
    forall i, j :: 0 <= i < j < |d| ==> d[i].0 != d[j].0
  }

  function KeySet<K(==), V>(d: Dict<K, V>): set<K> {
    set i | 0 <= i < |d| :: d[i].0
  }

  /** `d[k]`, with `None` for a missing key. */
  function Get<K(==), V>(d: Dict<K, V>, k: K): (r: Option<V>)
    ensures r.Some? <==> k in KeySet(d)
  {
    if d == [] then None
    else if d[0].0 == k then Some(d[0].1)
    else Get(d[1..], k)
  }

  /** `d[k] = v` */
  function Put<K(==), V>(d: Dict<K, V>, k: K, v: V): Dict<K, V> {
    if d == [] then [(k, v)]
    else if d[0].0 == k then [(k, v)] + d[1..]
    else [d[0]] + Put(d[1..], k, v)
  }

  /** `delete d[k]` (`map.delete(k)`) */
  function Delete<K(==), V>(d: Dict<K, V>, k: K): Dict<K, V> {
    if d == [] then []
    else if d[0].0 == k then Delete(d[1..], k)
    else [d[0]] + Delete(d[1..], k)
  }

  /** `Object.assign({}, d, e)`: the entries of `e` assigned, in order, onto a copy of `d`. */
  function Assign<K(==), V>(d: Dict<K, V>, e: Dict<K, V>): Dict<K, V>
    decreases |e|
  {
    if e == [] then d else Assign(Put(d, e[0].0, e[0].1), e[1..])
  }

  lemma {:induction false} KeySetTail<K, V>(d: Dict<K, V>)
    requires d != []
    ensures KeySet(d) == {d[0].0} + KeySet(d[1..])
  {
    forall k | k in KeySet(d) ensures k in {d[0].0} + KeySet(d[1..]) {
      var i :| 0 <= i < |d| && d[i].0 == k;
      if i > 0 { assert d[1..][i - 1].0 == k; }
    }
    forall k | k in KeySet(d[1..]) ensures k in KeySet(d) {
      var i :| 0 <= i < |d[1..]| && d[1..][i].0 == k;
      assert d[i + 1].0 == k;
    }
  }

  /** Reading after writing: the written key has the new value, every other key keeps its own. */
  lemma {:induction false} GetPut<K, V>(d: Dict<K, V>, k: K, v: V, k': K)
    ensures Get(Put(d, k, v), k') == if k' == k then Some(v) else Get(d, k')
  {
    if d != [] && d[0].0 != k {
      GetPut(d[1..], k, v, k');
    }
  }

  lemma PutLookups<K, V>(d: Dict<K, V>, k: K, v: V)
    ensures forall k' :: Get(Put(d, k, v), k') == if k' == k then Some(v) else Get(d, k')
  {
    forall k' { GetPut(d, k, v, k'); }
  }

  /** In a valid dictionary, the key of each entry looks up that entry's value. */
  lemma {:induction false} GetAt<K, V>(d: Dict<K, V>, j: int)
    requires Valid(d) && 0 <= j < |d|
    ensures Get(d, d[j].0) == Some(d[j].1)
  {
    if j > 0 {
      assert Valid(d[1..]);
      GetAt(d[1..], j - 1);
    }
  }

  /** A value found under a key is the value of an entry with that key. */
  lemma {:induction false} GetIsEntry<K, V>(d: Dict<K, V>, k: K)
    requires Get(d, k).Some?
    ensures (k, Get(d, k).value) in d
  {
    if d[0].0 != k { GetIsEntry(d[1..], k); }
  }

  /** A valid dictionary's tail is valid and does not hold its first key. */
  lemma ValidTail<K, V>(d: Dict<K, V>)
    requires Valid(d) && d != []
    ensures Valid(d[1..]) && d[0].0 !in KeySet(d[1..])
  {
    forall m | 0 <= m < |d[1..]| ensures d[1..][m].0 != d[0].0 {
      assert d[1..][m] == d[m + 1];
    }
  }

  /** An entry with a fresh key may head a valid dictionary. */
  lemma ConsValid<K, V>(x: (K, V), r: Dict<K, V>)
    requires Valid(r) && x.0 !in KeySet(r)
    ensures Valid([x] + r)
  {
    var p := [x] + r;
    forall i, j | 0 <= i < j < |p| ensures p[i].0 != p[j].0 {
      assert p[j] == r[j - 1];
      if i > 0 { assert p[i] == r[i - 1]; }
    }
  }

  /** Writing adds exactly the written key, replacing in place when it is already there. */
  lemma {:induction false} PutKeys<K, V>(d: Dict<K, V>, k: K, v: V)
    ensures KeySet(Put(d, k, v)) == KeySet(d) + {k}
    ensures |Put(d, k, v)| == if k in KeySet(d) then |d| else |d| + 1
    ensures k !in KeySet(d) ==> Put(d, k, v) == d + [(k, v)]
  {
    if d == [] {
      assert Put(d, k, v)[0].0 == k;
    } else {
      KeySetTail(d);
      KeySetTail(Put(d, k, v));
      if d[0].0 != k {
        PutKeys(d[1..], k, v);
      } else {
        assert KeySet(d) == KeySet(Put(d, k, v)) by {
          assert forall i :: 0 <= i < |d| ==> Put(d, k, v)[i].0 == d[i].0;
        }
      }
    }
  }

  /** Writing keeps a dictionary valid. */
  lemma {:induction false} PutValid<K, V>(d: Dict<K, V>, k: K, v: V)
    requires Valid(d)
    ensures Valid(Put(d, k, v))
  {
    if d != [] {
      ValidTail(d);
      if d[0].0 != k {
        PutValid(d[1..], k, v);
        PutKeys(d[1..], k, v);
        ConsValid(d[0], Put(d[1..], k, v));
      } else {
        ConsValid((k, v), d[1..]);
      }
    }
  }

  lemma PutShape<K, V>(d: Dict<K, V>, k: K, v: V)
    ensures KeySet(Put(d, k, v)) == KeySet(d) + {k}
    ensures |Put(d, k, v)| == if k in KeySet(d) then |d| else |d| + 1
    ensures k !in KeySet(d) ==> Put(d, k, v) == d + [(k, v)]
    ensures Valid(d) ==> Valid(Put(d, k, v))
  {
    PutKeys(d, k, v);
    if Valid(d) { PutValid(d, k, v); }
  }

  lemma {:induction false} GetDelete<K, V>(d: Dict<K, V>, k: K, k': K)
    ensures Get(Delete(d, k), k') == if k' == k then None else Get(d, k')
    ensures KeySet(Delete(d, k)) == KeySet(d) - {k}
  {
    if d != [] {
      GetDelete(d[1..], k, k');
      KeySetTail(d);
      if d[0].0 != k { KeySetTail(Delete(d, k)); }
    }
  }

  /** In a valid dictionary, deleting the first key drops exactly the first entry. */
  lemma DeleteFirst<K, V>(d: Dict<K, V>)
    requires Valid(d) && d != []
    ensures Delete(d, d[0].0) == d[1..]
  {
    DeleteAbsent(d[1..], d[0].0);
  }

  lemma {:induction false} DeleteAbsent<K, V>(d: Dict<K, V>, k: K)
    requires forall i :: 0 <= i < |d| ==> d[i].0 != k
    ensures Delete(d, k) == d
  {
    if d != [] {
      DeleteAbsent(d[1..], k);
    }
  }

  /** The lookup `Object.assign({}, d, e)[k]`: `e`'s value when `e` has `k`, otherwise `d`'s. */
  lemma {:induction false} GetAssign<K, V>(d: Dict<K, V>, e: Dict<K, V>, k: K)
    requires Valid(e)
    ensures Get(Assign(d, e), k) == if k in KeySet(e) then Get(e, k) else Get(d, k)
    ensures KeySet(Assign(d, e)) == KeySet(d) + KeySet(e)
    decreases |e|
  {
    if e != [] {
      assert Valid(e[1..]);
      GetAssign(Put(d, e[0].0, e[0].1), e[1..], k);
      GetPut(d, e[0].0, e[0].1, k);
      PutShape(d, e[0].0, e[0].1);
      KeySetTail(e);
      if k in KeySet(e[1..]) {
        var m :| 0 <= m < |e[1..]| && e[1..][m].0 == k;
        assert e[m + 1].0 == k;
      }
    }
  }

  lemma {:induction false} AssignValid<K, V>(d: Dict<K, V>, e: Dict<K, V>)
    ensures Valid(d) ==> Valid(Assign(d, e))
    decreases |e|
  {
    if e != [] {
      PutShape(d, e[0].0, e[0].1);
      AssignValid(Put(d, e[0].0, e[0].1), e[1..]);
    }
  }
}
