/** A value that may be absent: the model's stand-in for a C pointer that may be NULL. */
module Optional {

  datatype Option<+T> = None | Some(value: T)

  /** The lookup of `key` in `m`, as an Option. */
  function MapGet<K, V>(m: map<K, V>, key: K): Option<V>
  {
    if key in m then Some(m[key]) else None
  }
}
