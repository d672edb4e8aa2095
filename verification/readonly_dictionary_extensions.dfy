/** `GetValueOrDefault` of `src/KingUtils/ReadOnlyDictionaryExtensions.cs`,
    the same lookup on an `IReadOnlyDictionary`, again modelled as a finite
    map. */
module ReadOnlyDictionaryExtensions {
  import opened Wrappers
  import DictionaryExtensions

  /** `dictionary.GetValueOrDefault(key, defaultValue)`. */
  function GetValueOrDefault<K, V>(dictionary: Option<map<K, V>>, key: K, defaultValue: V): (r: Result<V, Exception>)
    ensures dictionary.None? <==> r == Failure(ArgumentNull("dictionary"))
    ensures dictionary.Some? && key in dictionary.value ==> r == Success(dictionary.value[key])
    ensures dictionary.Some? && key !in dictionary.value ==> r == Success(defaultValue)
  {
    if dictionary.None? then Failure(ArgumentNull("dictionary"))
    else
      match DictionaryExtensions.TryGetValue(dictionary.value, key)
      case Some(value) => Success(value)
      case None => Success(defaultValue)
  }

  /** `dictionary.GetValueOrDefault(key)`, with `default(TValue)` passed as
      `typeDefault`. */
  function GetValueOrTypeDefault<K, V>(dictionary: Option<map<K, V>>, key: K, typeDefault: V): (r: Result<V, Exception>)
    ensures dictionary.None? <==> r == Failure(ArgumentNull("dictionary"))
    ensures dictionary.Some? && key in dictionary.value ==> r == Success(dictionary.value[key])
    ensures dictionary.Some? && key !in dictionary.value ==> r == Success(typeDefault)
  {
    GetValueOrDefault(dictionary, key, typeDefault)
  }

  /** Both interfaces answer every lookup alike. */
  lemma AgreesWithDictionary<K, V>(dictionary: Option<map<K, V>>, key: K, defaultValue: V)
    ensures GetValueOrDefault(dictionary, key, defaultValue) ==
      DictionaryExtensions.GetValueOrDefault(dictionary, key, defaultValue)
  {
  }
}
