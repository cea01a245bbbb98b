/** Java's `LinkedHashMap<String, V>`, the map type every index and result of the
    duplicate finder uses: lookups by key, iteration in insertion order. */
module LinkedMaps {
  import opened Seqs

  datatype Option<T> = None | Some(value: T)

  /** `keys` is the iteration order; `values` holds the non-null values. A key
      listed in `keys` but absent from `values` is mapped to null. */
  datatype LinkedMap<V> = LinkedMap(keys: seq<string>, values: map<string, V>)
  {
    /** What every Java map satisfies: each key listed once, and values only for
        listed keys. */
    ghost predicate Valid()
    {
      Distinct(keys) && forall k :: k in values ==> k in keys
    }

    /** `get`: null (None) both for an absent key and for a key mapped to null. */
    function Get(k: string): Option<V>
    {
      if k in values then Some(values[k]) else None
    }

    /** `put`: a new key goes to the end of the iteration order; an existing key keeps
        its place and gets the new value. Every other key is unaffected. */
    function Put(k: string, v: V): (r: LinkedMap<V>)
      ensures r.Get(k) == Some(v)
      ensures forall j :: j != k ==> r.Get(j) == Get(j)
      ensures k in keys ==> r.keys == keys
      ensures k !in keys ==> r.keys == keys + [k]
      ensures Valid() ==> r.Valid()
    {
      if k in keys then LinkedMap(keys, values[k := v])
      else
        assert Distinct(keys) ==> Distinct(keys + [k]) by {
          if Distinct(keys) {
            DistinctConcat(keys, [k]);
          }
        }
        LinkedMap(keys + [k], values[k := v])
    }
  }
}
