/** Optional values: a configuration variable that may be unset. */
module Wrappers {

  datatype Option<+T> = None | Some(value: T)

  /** The entry of `m` at `k`, or None when `k` is not a key of `m`. */
  function Get<K, V>(m: map<K, V>, k: K): Option<V> {
    if k in m then Some(m[k]) else None
  }
}
