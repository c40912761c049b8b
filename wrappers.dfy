/** Optional values: `None` stands for the Java `null` that the hash map
    returns for an absent key. */
module Wrappers {

  datatype Option<+T> = None | Some(value: T)

  /** Dafny's map lookup, as an `Option`. */
  function MapGet<K, V>(m: map<K, V>, k: K): (r: Option<V>)
    ensures r.Some? <==> k in m
    ensures r.Some? ==> r.value == m[k]
  {
    if k in m then Some(m[k]) else None
  }
}
