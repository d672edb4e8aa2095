/** `ToHexString` of `src/KingUtils/ByteArrayExtensions.cs`: the lower-case
    twin of `Base16.Encode`. */
module ByteArrayExtensions {
  import opened Wrappers
  import opened Bits
  import Base16

  /** `bytes.ToHexString()`: a null array is rejected; otherwise each byte
      is written as two lower-case hex digits, in order. */
  function ToHexString(bytes: Option<seq<byte>>): (r: Result<string, Exception>)
    ensures bytes.None? <==> r == Failure(ArgumentNull("bytes"))
    ensures bytes.Some? ==> r.Success? && |r.value| == 2 * |bytes.value|
    ensures bytes.Some? ==> forall i :: 0 <= i < |bytes.value| ==>
      && Base16.LowerHexDigit(r.value[2 * i])
      && Base16.DigitValue(r.value[2 * i]) == Some(bytes.value[i] / 16)
      && Base16.LowerHexDigit(r.value[2 * i + 1])
      && Base16.DigitValue(r.value[2 * i + 1]) == Some(bytes.value[i] % 16)
  {
    if bytes.None? then Failure(ArgumentNull("bytes"))
    else
      var s := Base16.Hex(bytes.value, false);
      forall i | 0 <= i < |bytes.value|
        ensures s[2 * i] == Base16.Digit(bytes.value[i] / 16, false)
        ensures s[2 * i + 1] == Base16.Digit(bytes.value[i] % 16, false)
      {
        Base16.HexAt(bytes.value, false, i);
        assert s[2 * i] == s[2 * i .. 2 * i + 2][0] && s[2 * i + 1] == s[2 * i .. 2 * i + 2][1];
      }
      Success(s)
  }

  /** The upper-case hex letter's lower-case form; other characters stay. */
  function ToLower(c: char): (l: char)
  {
    if 'A' <= c <= 'Z' then (c as int - 'A' as int + 'a' as int) as char else c
  }

  /** `ToHexString(b)` is `Base16.Encode(b)` in lower case, wherever the
      latter's capacity does not wrap. */
  lemma LowerCaseOfBase16(bytes: seq<byte>)
    requires |bytes| < 0x4000_0000
    ensures Base16.Encode(Some(bytes)).Success?
    ensures var upper := Base16.Encode(Some(bytes)).value;
      ToHexString(Some(bytes)).value == seq(|upper|, k requires 0 <= k < |upper| => ToLower(upper[k]))
  {
    var upper, lower := Base16.Encode(Some(bytes)).value, ToHexString(Some(bytes)).value;
    forall k | 0 <= k < |upper|
      ensures lower[k] == ToLower(upper[k])
    {
      var i := k / 2;
      assert k == 2 * i || k == 2 * i + 1;
    }
  }

  /** `Base16.Decode` reads lower-case digits too, so it undoes `ToHexString`. */
  lemma DecodeToHexString(bytes: seq<byte>)
    ensures Base16.Decode(Some(ToHexString(Some(bytes)).value)) == Success(bytes)
  {
    Base16.HexRoundTrip(bytes, false);
  }
}
