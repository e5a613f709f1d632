/**
 * The part of `indexmap::IndexMap` the aggregator uses: a map that keeps
 * its entries in insertion order. It is modelled as the sequence of its
 * (key, value) entries in that order.
 */
module IndexMaps {
  import opened Wrappers

  type IndexMap<K, V> = seq<(K, V)>

  /** The value stored under `k`, if any. */
  function Get<K(==), V>(m: IndexMap<K, V>, k: K): (r: Option<V>)
    ensures r.Some? <==> exists i :: 0 <= i < |m| && m[i].0 == k
    ensures r.Some? ==> exists i :: 0 <= i < |m| && m[i] == (k, r.value)
    decreases |m|
  {
    if m == [] then None
    else if m[0].0 == k then Some(m[0].1)
    else Get(m[1..], k)
  }

  /**
   * `IndexMap::insert`: a key already present keeps its position and gets the
   * new value; a new key is appended at the end.
   */
  function Insert<K(==, !new), V>(m: IndexMap<K, V>, k: K, v: V): (r: IndexMap<K, V>)
    ensures Get(m, k).None? ==> r == m + [(k, v)]
    ensures Get(m, k).Some? ==> |r| == |m| && forall i :: 0 <= i < |m| ==> r[i].0 == m[i].0
    ensures Get(r, k) == Some(v)
    ensures forall k' :: k' != k ==> Get(r, k') == Get(m, k')
    decreases |m|
  {
    if m == [] then [(k, v)]
    else if m[0].0 == k then [(k, v)] + m[1..]
    else [m[0]] + Insert(m[1..], k, v)
  }

  /** Looking up a key in a map extended by one entry at its end. */
  lemma {:induction false} GetAppend<K, V>(m: IndexMap<K, V>, k: K, v: V, key: K)
    ensures Get(m + [(k, v)], key)
         == if Get(m, key).Some? then Get(m, key) else if key == k then Some(v) else None
    decreases |m|
  {
    if m != [] {
      assert (m + [(k, v)])[1..] == m[1..] + [(k, v)];
      GetAppend(m[1..], k, v, key);
    }
  }
}
