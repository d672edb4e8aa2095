/** `Truncate` of `src/KingUtils/StringExtensions.cs`. */
module StringExtensions {
  import opened Wrappers

  /** `value.Truncate(length, suffix)`. The argument checks come first and
      in this order: a null value, a negative length, then a suffix that
      would not leave room for any of the value, which is refused even when
      the value is short enough to be returned unchanged. A value longer
      than `length` is cut to exactly `length` characters, the suffix
      replacing its end. */
  function Truncate(value: Option<string>, length: int, suffix: Option<string>): (r: Result<string, Exception>)
    ensures value.None? ==> r == Failure(ArgumentNull("value"))
    ensures value.Some? && length < 0 ==> r == Failure(ArgumentOutOfRange("length"))
    ensures value.Some? && length >= 0 && suffix.Some? && |suffix.value| >= length ==>
      r == Failure(ArgumentOutOfRange("suffix"))
    ensures r.Success? <==> value.Some? && length >= 0 && (suffix.Some? ==> |suffix.value| < length)
    ensures r.Success? && |value.value| <= length ==> r.value == value.value
    ensures r.Success? && |value.value| > length ==> |r.value| == length
    ensures r.Success? && |value.value| > length && suffix.None? ==> r.value == value.value[..length]
    ensures r.Success? && |value.value| > length && suffix.Some? ==>
      && r.value[..length - |suffix.value|] == value.value[..length - |suffix.value|]
      && r.value[length - |suffix.value|..] == suffix.value
  {
    if value.None? then Failure(ArgumentNull("value"))
    else if length < 0 then Failure(ArgumentOutOfRange("length"))
    else if suffix.Some? && |suffix.value| >= length then Failure(ArgumentOutOfRange("suffix"))
    else
      var v := value.value;
      if |v| > length then
        if suffix.None? then Success(v[..length])
        else
          var keep := v[..length - |suffix.value|];
          assert (keep + suffix.value)[..|keep|] == keep;
          Success(keep + suffix.value)
      else Success(v)
  }

  /** `value.Truncate(length)`: the same with no suffix. */
  function TruncateNoSuffix(value: Option<string>, length: int): (r: Result<string, Exception>)
    ensures r.Success? <==> value.Some? && length >= 0
    ensures r.Success? ==> r.value == value.value[..if |value.value| <= length then |value.value| else length]
  {
    Truncate(value, length, None)
  }

  /** The result is as long as the value or `length`, whichever is shorter. */
  lemma TruncatedLength(value: string, length: int, suffix: Option<string>)
    requires Truncate(Some(value), length, suffix).Success?
    ensures |Truncate(Some(value), length, suffix).value| == if |value| <= length then |value| else length
  {
  }

  /** Truncating a second time with the same arguments changes nothing. */
  lemma TruncateIdempotent(value: string, length: int, suffix: Option<string>)
    requires Truncate(Some(value), length, suffix).Success?
    ensures var once := Truncate(Some(value), length, suffix).value;
      Truncate(Some(once), length, suffix) == Success(once)
  {
  }
}
