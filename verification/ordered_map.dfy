/** A Python `dict` as the scheduler sees it: a finite map that also
    remembers the order in which keys were first inserted. Assigning to an
    existing key replaces its value but keeps its position. */
module OrderedMap {
  import opened Common

  datatype OMap<K, V> = OMap(keys: seq<K>, values: map<K, V>)

  /** Every key appears once in the order, and the order lists exactly the map's keys. */
  ghost predicate Valid<K(!new), V>(m: OMap<K, V>) {
    NoDup(m.keys) && (forall k :: k in m.values <==> k in m.keys)
  }

  function Empty<K(==,!new), V>(): (m: OMap<K, V>)
    ensures Valid(m) && m.keys == [] && m.values == map[]
  {
    OMap([], map[])
  }

  /** `d[k] = v`. */
  function Put<K(==,!new), V>(m: OMap<K, V>, k: K, v: V): (r: OMap<K, V>)
    requires Valid(m)
    ensures Valid(r)
    ensures r.values == m.values[k := v]
    ensures k in m.values ==> r.keys == m.keys
    ensures k !in m.values ==> r.keys == m.keys + [k]
  {
    if k in m.values then OMap(m.keys, m.values[k := v])
    else OMap(m.keys + [k], m.values[k := v])
  }
}
