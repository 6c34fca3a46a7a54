module Options {
  datatype Option<+T> = None | Some(value: T)

  function Lookup<K, V>(m: map<K, V>, key: K): (r: Option<V>) {
    if key in m then Some(m[key]) else None
  }

  lemma Missing<K, V>(m: map<K, V>, key: K)
    requires key !in m
    ensures Lookup(m, key) == None
  {}
}
