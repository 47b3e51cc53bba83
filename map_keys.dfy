/** `get_keys`: the set of keys of a map, ordered or hashed. */
module MapKeys {

  /** `get_keys(m)`: every key of `m`, each once. */
  function GetKeys<K(!new), V>(m: map<K, V>): (ks: set<K>)
    ensures forall k :: k in ks <==> k in m
    ensures |ks| == |m|
  {
    m.Keys
  }

  /** Keys inserted one by one into an empty map come back as that set of keys. */
  lemma GetKeysOfFilledMap<K(!new), V>(keys: set<K>, v: V)
    ensures GetKeys(map k | k in keys :: v) == keys
  {
  }

  /** The key sets of the map tests, with string and with integer keys. */
  lemma GetMapKeys()
    ensures GetKeys(map["a" := "value", "b" := "value", "c" := "value", "d" := "value"])
         == {"a", "b", "c", "d"}
    ensures GetKeys(map[1 := "value", 2 := "value", 3 := "value", 4 := "value"]) == {1, 2, 3, 4}
  {
  }
}
