/** The optional-value type used for JavaScript's `undefined` and for
    operations that can throw. */
module Wrappers {

  datatype Option<+T> = None | Some(value: T)

  /** Looking a key up in a map the way a JavaScript object lookup does:
      a missing key yields `undefined`. */
  function Get<K, V>(m: map<K, V>, k: K): Option<V>
  {
    if k in m then Some(m[k]) else None
  }
}
