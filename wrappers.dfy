/** The optional value used for JavaScript's `undefined` (an absent dictionary entry). */
module Wrappers {

  datatype Option<+T> = None | Some(value: T)

  /** `m[k]` on a JavaScript object: the entry, or `undefined` when there is none. */
  function Get<K, V>(m: map<K, V>, k: K): (r: Option<V>)
    ensures r.Some? <==> k in m
    ensures r.Some? ==> r.value == m[k]
  {
    if k in m then Some(m[k]) else None
  }
}
