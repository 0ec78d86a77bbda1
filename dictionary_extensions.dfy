/** Lookups with a fallback on dictionaries (`DictionaryExtensions`). An
    `IDictionary<TKey, TValue>` that may be null is an
    `Option<map<K, V>>`; both lookups only read it. */
module DictionaryExtensions {
  import opened Wrappers

  /** `IDictionary.TryGetValue`: the value stored under `key`, if any. */
  function TryGetValue<K, V>(dictionary: map<K, V>, key: K): (r: Option<V>)
    ensures r.Some? <==> key in dictionary
    ensures r.Some? ==> r.value == dictionary[key]
  {
    if key in dictionary then Some(dictionary[key]) else None
  }

  /** `ValueOrDefault(src, key, defaultValue)`: a null dictionary gives
      `defaultValue`; otherwise `ContainsKey` decides between the stored
      value and `defaultValue`. */
  function ValueOrDefault<K, V>(src: Option<map<K, V>>, key: K, defaultValue: V): (r: V)
    ensures src.Some? && key in src.value ==> r == src.value[key]
    ensures src.None? || key !in src.value ==> r == defaultValue
  {
    if src.None? then defaultValue
    else if key in src.value then src.value[key]
    else defaultValue
  }

  /** `TryGetValueOrDefault(src, key, defaultValue)`: the same lookup in a
      single `TryGetValue` probe. */
  function TryGetValueOrDefault<K, V>(src: Option<map<K, V>>, key: K, defaultValue: V): (r: V)
    ensures src.Some? && key in src.value ==> r == src.value[key]
    ensures src.None? || key !in src.value ==> r == defaultValue
  {
    if src.None? then defaultValue
    else TryGetValue(src.value, key).GetOr(defaultValue)
  }

  /** The two lookups agree on every input. */
  lemma LookupsAgree<K, V>(src: Option<map<K, V>>, key: K, defaultValue: V)
    ensures ValueOrDefault(src, key, defaultValue) == TryGetValueOrDefault(src, key, defaultValue)
  {
  }

  /** The default is returned unchanged whenever the key is missing, and a
      stored value is returned whatever the default. */
  lemma DefaultOnlyWhenMissing<K, V>(src: Option<map<K, V>>, key: K, d1: V, d2: V)
    ensures src.Some? && key in src.value ==> ValueOrDefault(src, key, d1) == ValueOrDefault(src, key, d2)
    ensures !(src.Some? && key in src.value) ==> ValueOrDefault(src, key, d1) == d1
  {
  }

  lemma DictionaryExamples()
    ensures ValueOrDefault(Some(map["some text" := 1]), "some text", 99) == 1
    ensures ValueOrDefault(Some(map["some text" := 1]), "some text", 0) == 1
    ensures ValueOrDefault(Some(map["some text" := 1]), "something", 99) == 99
    ensures ValueOrDefault(None, "something", 99) == 99
    ensures TryGetValueOrDefault(Some(map[1 := 100]), 1, 99) == 100
    ensures TryGetValueOrDefault(Some(map[1 := 100]), 9, 99) == 99
    ensures TryGetValueOrDefault(None, 9, 99) == 99
  {
  }
}
