/** The typed wrapper around `sync.Map` in sync_map.go, as operations on an
    immutable map. Concurrency is not modelled: each operation is one atomic
    step from the map before to the map after. */
module SyncMaps {
  import opened Base

  /** `Load`: the value under `k`, if any. */
  function Load<K(==, !new), V(==)>(m: map<K, V>, k: K): (r: Option<V>)
    ensures r.Some? <==> k in m
    ensures r.Some? ==> r.value == m[k]
  {
    if k in m then Some(m[k]) else None
  }

  /** `Store`: `k` now holds `v`; every other key keeps its value. */
  function Store<K(==, !new), V(==)>(m: map<K, V>, k: K, v: V): (m': map<K, V>)
    ensures Load(m', k) == Some(v)
    ensures forall j :: j != k ==> Load(m', j) == Load(m, j)
  {
    m[k := v]
  }

  /** `Delete`: `k` is gone; every other key keeps its value. */
  function Delete<K(==, !new), V(==)>(m: map<K, V>, k: K): (m': map<K, V>)
    ensures Load(m', k) == None
    ensures forall j :: j != k ==> Load(m', j) == Load(m, j)
  {
    m - {k}
  }

  /** The two results of `LoadOrStore` and the map it leaves. */
  datatype Stored<K, V> = Stored(actual: V, loaded: bool, m: map<K, V>)

  /** `LoadOrStore`: a present key keeps its value, which is returned with
      `loaded` set; an absent key receives `v`, which is returned. */
  function LoadOrStore<K(==, !new), V(==)>(m: map<K, V>, k: K, v: V): (r: Stored<K, V>)
    ensures r.loaded <==> k in m
    ensures r.loaded ==> r.actual == m[k] && r.m == m
    ensures !r.loaded ==> r.actual == v && r.m == Store(m, k, v)
  {
    if k in m then Stored(m[k], true, m) else Stored(v, false, m[k := v])
  }

  /** `LoadAndDelete`: the value `Load` would have given, and the map with
      `k` deleted. */
  function LoadAndDelete<K(==, !new), V(==)>(m: map<K, V>, k: K): (r: (Option<V>, map<K, V>))
    ensures r.0 == Load(m, k)
    ensures r.1 == Delete(m, k)
  {
    if k in m then (Some(m[k]), m - {k}) else (None, m)
  }

  /** Deleting twice is deleting once. */
  lemma DeleteIdempotent<K(!new), V>(m: map<K, V>, k: K)
    ensures Delete(Delete(m, k), k) == Delete(m, k)
  {
  }

  /** A second `LoadOrStore` of the same key finds what the first one left,
      whatever value it offers, and changes nothing. */
  lemma LoadOrStoreTwice<K(!new), V>(m: map<K, V>, k: K, v: V, w: V)
    ensures var first := LoadOrStore(m, k, v);
      var second := LoadOrStore(first.m, k, w);
      second.loaded && second.actual == first.actual && second.m == first.m
  {
  }

  /** `Store` overwrites: the later of two stores to one key wins. */
  lemma StoreOverwrites<K(!new), V>(m: map<K, V>, k: K, v: V, w: V)
    ensures Store(Store(m, k, v), k, w) == Store(m, k, w)
  {
  }

  /** Deleting a key that a fresh `LoadOrStore` has just added gives back
      the map from before it. */
  lemma DeleteUndoesStore<K(!new), V>(m: map<K, V>, k: K, v: V)
    requires k !in m
    ensures Delete(LoadOrStore(m, k, v).m, k) == m
  {
  }

  /** `LoadAndDelete` leaves nothing to load, and reports a value exactly
      when the key was present. */
  lemma LoadAndDeleteThenLoad<K(!new), V>(m: map<K, V>, k: K)
    ensures Load(LoadAndDelete(m, k).1, k) == None
    ensures LoadAndDelete(m, k).0.Some? <==> k in m
  {
  }
}
