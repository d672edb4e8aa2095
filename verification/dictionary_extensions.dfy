/** `GetValueOrDefault` of `src/KingUtils/DictionaryExtensions.cs`. An
    `IDictionary` is modelled as the finite map it holds; a null reference
    is `None`. A map is a value, so a lookup cannot change the dictionary. */
module DictionaryExtensions {
  import opened Wrappers

  /** `dictionary.TryGetValue(key, out value)`: the value when the key is
      present. */
  function TryGetValue<K, V>(dictionary: map<K, V>, key: K): (r: Option<V>)
    ensures r.Some? <==> key in dictionary
    ensures r.Some? ==> r.value == dictionary[key]
  {
    if key in dictionary then Some(dictionary[key]) else None
  }

  /** `dictionary.GetValueOrDefault(key, defaultValue)`. */
  function GetValueOrDefault<K, V>(dictionary: Option<map<K, V>>, key: K, defaultValue: V): (r: Result<V, Exception>)
    ensures dictionary.None? <==> r == Failure(ArgumentNull("dictionary"))
    ensures dictionary.Some? && key in dictionary.value ==> r == Success(dictionary.value[key])
    ensures dictionary.Some? && key !in dictionary.value ==> r == Success(defaultValue)
  {
    if dictionary.None? then Failure(ArgumentNull("dictionary"))
    else
      match TryGetValue(dictionary.value, key)
      case Some(value) => Success(value)
      case None => Success(defaultValue)
  }

  /** `dictionary.GetValueOrDefault(key)`: the same with `default(TValue)`,
      which the caller passes as `typeDefault` since a generic Dafny type
      has no default value to name. */
  function GetValueOrTypeDefault<K, V>(dictionary: Option<map<K, V>>, key: K, typeDefault: V): (r: Result<V, Exception>)
    ensures dictionary.None? <==> r == Failure(ArgumentNull("dictionary"))
    ensures dictionary.Some? && key in dictionary.value ==> r == Success(dictionary.value[key])
    ensures dictionary.Some? && key !in dictionary.value ==> r == Success(typeDefault)
  {
    GetValueOrDefault(dictionary, key, typeDefault)
  }

  /** A key just stored is found, whatever the default; every other key
      reads as before the store. */
  lemma LookupAfterStore<K, V>(dictionary: map<K, V>, key: K, value: V, other: K, defaultValue: V)
    ensures GetValueOrDefault(Some(dictionary[key := value]), key, defaultValue) == Success(value)
    ensures other != key ==>
      GetValueOrDefault(Some(dictionary[key := value]), other, defaultValue) ==
      GetValueOrDefault(Some(dictionary), other, defaultValue)
  {
  }
}
