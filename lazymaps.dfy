/** The lazily filled dictionaries of the window: the expand state per part
    and the per-module scratch values of the editors. A read that misses
    stores the caller's default and returns it, so every later read sees
    the same value until it is overwritten. */
module LazyMaps {
  import opened Host

  /** A dictionary read with a default: the dictionary afterwards and the
      value returned. A miss stores the default. */
  function GetOrAdd<K, V>(m: map<K, V>, k: K, dflt: V): (r: (map<K, V>, V))
    ensures k in r.0 && r.0[k] == r.1
    ensures r.0.Keys == m.Keys + {k}
    ensures forall j :: j in m ==> r.0[j] == m[j]
  {
    if k in m then (m, m[k]) else (m[k := dflt], dflt)
  }

  /** A hit returns the stored value and leaves the dictionary alone; a
      miss returns the default. */
  lemma GetOrAddHitMiss<K, V>(m: map<K, V>, k: K, dflt: V)
    ensures k in m ==> GetOrAdd(m, k, dflt) == (m, m[k])
    ensures k !in m ==> GetOrAdd(m, k, dflt).1 == dflt
  {
  }

  /** A second read returns the first read's value whatever its default,
      and changes nothing. */
  lemma GetOrAddStable<K, V>(m: map<K, V>, k: K, dflt: V, dflt2: V)
    ensures var (m1, v1) := GetOrAdd(m, k, dflt);
            GetOrAdd(m1, k, dflt2) == (m1, v1)
  {
  }

  /** A read after a write returns the written value. */
  lemma GetOrAddAfterSet<K, V>(m: map<K, V>, k: K, v: V, dflt: V)
    ensures GetOrAdd(m[k := v], k, dflt) == (m[k := v], v)
  {
  }

  // ---------------------------------------------------------------------
  // Per-module dictionaries keyed by the module's hash code
  // ---------------------------------------------------------------------

  /** The outer key of a module's scratch values: its hash code, 0 for null. */
  function TempId(module_: Option<PartModule>): int32 {
    if module_.Some? then module_.value.hashCode else 0
  }

  /** The value stored under (`id`, `key`), if any. */
  function Lookup2<V>(mm: map<int32, map<string, V>>, id: int32, key: string): Option<V> {
    if id in mm && key in mm[id] then Some(mm[id][key]) else None
  }

  /** The inner dictionary for `id`, empty when there is none yet. */
  function Bucket<V>(mm: map<int32, map<string, V>>, id: int32): map<string, V> {
    if id in mm then mm[id] else map[]
  }

  /** `GetTempString` / `GetTempFloat`: creates the inner dictionary on a
      miss, then reads `key` in it with a default. */
  function GetOrAdd2<V>(mm: map<int32, map<string, V>>, id: int32, key: string, dflt: V): (r: (map<int32, map<string, V>>, V))
    ensures Lookup2(r.0, id, key) == Some(r.1)
    ensures Lookup2(mm, id, key).Some? ==> r.1 == Lookup2(mm, id, key).value
    ensures Lookup2(mm, id, key).None? ==> r.1 == dflt
    ensures forall i: int32, k: string :: (i, k) != (id, key) ==> Lookup2(r.0, i, k) == Lookup2(mm, i, k)
  {
    var inner := GetOrAdd(Bucket(mm, id), key, dflt);
    (mm[id := inner.0], inner.1)
  }

  /** `SetTempString` / `SetTempFloat`: creates the inner dictionary on a
      miss, then stores `value` under `key` in it. */
  function Put2<V>(mm: map<int32, map<string, V>>, id: int32, key: string, value: V): (r: map<int32, map<string, V>>)
    ensures Lookup2(r, id, key) == Some(value)
    ensures forall i: int32, k: string :: (i, k) != (id, key) ==> Lookup2(r, i, k) == Lookup2(mm, i, k)
  {
    mm[id := Bucket(mm, id)[key := value]]
  }

  /** A read after a write returns the written value, whatever the default. */
  lemma GetOrAdd2AfterPut2<V>(mm: map<int32, map<string, V>>, id: int32, key: string, value: V, dflt: V)
    ensures GetOrAdd2(Put2(mm, id, key, value), id, key, dflt).1 == value
  {
  }

  /** A second read returns the first read's value whatever its default. */
  lemma GetOrAdd2Stable<V>(mm: map<int32, map<string, V>>, id: int32, key: string, dflt: V, dflt2: V)
    ensures var (mm1, v1) := GetOrAdd2(mm, id, key, dflt);
            GetOrAdd2(mm1, id, key, dflt2).1 == v1
  {
  }
}
