/** Python dictionaries keep their keys in insertion order, and the resolver
    depends on that order. A dictionary is modelled as a list of key/value
    pairs whose keys are distinct. */
module Assoc {
  import opened Results

  type Dict<K, V> = seq<(K, V)>

  ghost predicate KeysDistinct<K, V>(d: Dict<K, V>) {
    forall i, j | 0 <= i < j < |d| :: d[i].0 != d[j].0
  }

  /** The keys, in insertion order (`list(d)`). */
  function Keys<K, V>(d: Dict<K, V>): (ks: seq<K>)
    ensures |ks| == |d|
    ensures forall i | 0 <= i < |d| :: ks[i] == d[i].0
  {
    if |d| == 0 then [] else [d[0].0] + Keys(d[1..])
  }

  /** `d.get(k)`: the value stored under `k`, if any. */
  function Get<K(==), V>(d: Dict<K, V>, k: K): (r: Option<V>)
    ensures r.None? <==> forall i | 0 <= i < |d| :: d[i].0 != k
    ensures r.Some? ==> exists i | 0 <= i < |d| :: d[i] == (k, r.value)
  {
    if |d| == 0 then None
    else if d[0].0 == k then Some(d[0].1)
    else Get(d[1..], k)
  }

  /** In a dictionary with distinct keys, each key finds its own entry. */
  lemma {:induction false} GetAt<K, V>(d: Dict<K, V>, i: nat)
    requires KeysDistinct(d) && i < |d|
    ensures Get(d, d[i].0) == Some(d[i].1)
  {
    if i > 0 {
      assert d[0].0 != d[i].0;
      GetAt(d[1..], i - 1);
    }
  }

  /** `k in d`: the key is among the keys. */
  lemma GetKeys<K, V>(d: Dict<K, V>, k: K)
    ensures Get(d, k).Some? <==> k in Keys(d)
  {
    if Get(d, k).Some? {
      var i :| 0 <= i < |d| && d[i] == (k, Get(d, k).value);
      assert Keys(d)[i] == k;
    }
  }

  /** `d[k] = v`: replaces the value in place when `k` is present, and
      appends a new last entry otherwise. */
  function Put<K(==), V>(d: Dict<K, V>, k: K, v: V): (r: Dict<K, V>)
    ensures |r| >= 1
    ensures forall i | 0 <= i < |r| :: r[i] == (k, v) || r[i] in d
  {
    if |d| == 0 then [(k, v)]
    else if d[0].0 == k then [(k, v)] + d[1..]
    else [d[0]] + Put(d[1..], k, v)
  }

  /** After `d[k] = v`, `k` holds `v` and every other key keeps its value. */
  lemma {:induction false} PutGet<K, V>(d: Dict<K, V>, k: K, v: V, j: K)
    ensures Get(Put(d, k, v), j) == if j == k then Some(v) else Get(d, j)
  {
    if |d| > 0 && d[0].0 != k {
      PutGet(d[1..], k, v, j);
    }
  }

  /** `d[k] = v` keeps the keys in their order, appending `k` when it is new. */
  lemma {:induction false} PutKeys<K, V>(d: Dict<K, V>, k: K, v: V)
    ensures Get(d, k).Some? ==> Keys(Put(d, k, v)) == Keys(d)
    ensures Get(d, k).None? ==> Keys(Put(d, k, v)) == Keys(d) + [k]
  {
    if |d| > 0 && d[0].0 != k {
      PutKeys(d[1..], k, v);
      assert Keys(Put(d, k, v)) == [d[0].0] + Keys(Put(d[1..], k, v));
      assert Keys(d) == [d[0].0] + Keys(d[1..]);
    } else if |d| > 0 {
      assert Keys(Put(d, k, v)) == [k] + Keys(d[1..]);
      assert Keys(d) == [k] + Keys(d[1..]);
    }
  }

  /** `d[k] = v` keeps the keys distinct. */
  lemma PutDistinct<K, V>(d: Dict<K, V>, k: K, v: V)
    requires KeysDistinct(d)
    ensures KeysDistinct(Put(d, k, v))
  {
    var r := Put(d, k, v);
    PutKeys(d, k, v);
    var ks := Keys(r);
    forall i, j | 0 <= i < j < |r|
      ensures r[i].0 != r[j].0
    {
      assert ks[i] == r[i].0 && ks[j] == r[j].0;
      if Get(d, k).Some? {
        assert ks == Keys(d);
        assert Keys(d)[i] == d[i].0 && Keys(d)[j] == d[j].0;
      } else if j < |d| {
        assert ks[..|d|] == Keys(d);
        assert Keys(d)[i] == d[i].0 && Keys(d)[j] == d[j].0;
      } else {
        assert ks[j] == k;
        assert Keys(d)[i] == d[i].0;
      }
    }
  }
}
