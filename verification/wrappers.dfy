/** Option and Result values shared by the logging model. */
module Wrappers {

  /** An optional value; stands in for a Java reference that may be null. */
  datatype Option<+T> = None | Some(value: T)

  /** The outcome of an operation that may throw: a value or the exception raised. */
  datatype Result<+T, +E> = Success(value: T) | Failure(error: E)

  /** Looks a key up in a map, as `Map.get` does (absent keys give None). */
  function Get<K, V>(m: map<K, V>, k: K): (r: Option<V>)
    ensures r.Some? <==> k in m
    ensures r.Some? ==> m[k] == r.value
  {
    if k in m then Some(m[k]) else None
  }
}
