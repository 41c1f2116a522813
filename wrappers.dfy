/** Option and Result, the shapes of Rust's `Option<T>` and `Result<T>`,
    and a lookup on maps that mirrors `HashMap::get`. */
module Wrappers {

  datatype Option<+T> = None | Some(value: T)

  datatype Result<+T, +E> = Ok(value: T) | Err(error: E)

  /** The value stored under `k`, if any. */
  function Find<K, V>(m: map<K, V>, k: K): (r: Option<V>)
    ensures r.Some? <==> k in m
    ensures r.Some? ==> r.value == m[k]
  {
    if k in m then Some(m[k]) else None
  }
}
