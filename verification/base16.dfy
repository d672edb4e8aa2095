/** The hex codecs: `Base16` in `src/KingUtils/Base16.cs` (upper-case, the
    encoding of section 8 of RFC 4648) and `ToHexString` in
    `src/KingUtils/ByteArrayExtensions.cs` (lower-case). Both write every
    byte as two hex digits, high nibble first. */
module Base16 {
  import opened Wrappers
  import opened Bits

  /** The hex digit for `n`, upper- or lower-case, as `{0:X2}` and
      `{0:x2}` write it. */
  function Digit(n: nat, upper: bool): (c: char)
    requires n < 16
  {
    if n < 10 then ('0' as int + n) as char
    else if upper then ('A' as int + n - 10) as char
    else ('a' as int + n - 10) as char
  }

  /** The value of a hex digit in either case, for `byte.Parse` with
      `NumberStyles.HexNumber`. */
  function DigitValue(c: char): (r: Option<nat>)
    ensures r.Some? ==> r.value < 16
  {
    if '0' <= c <= '9' then Some(c as int - '0' as int)
    else if 'A' <= c <= 'F' then Some(c as int - 'A' as int + 10)
    else if 'a' <= c <= 'f' then Some(c as int - 'a' as int + 10)
    else None
  }

  /** Each digit reads back as its value, in both cases. */
  lemma DigitValueOfDigit(n: nat, upper: bool)
    requires n < 16
    ensures DigitValue(Digit(n, upper)) == Some(n)
  {
  }

  /** A character is a hex digit exactly when some nibble is written as it. */
  lemma DigitValueExact(c: char)
    ensures DigitValue(c).Some? <==> exists n: nat, upper: bool :: n < 16 && Digit(n, upper) == c
  {
    if DigitValue(c).Some? {
      var n := DigitValue(c).value;
      var upper := 'A' <= c <= 'F';
      assert Digit(n, upper) == c;
    }
  }

  predicate UpperHexDigit(c: char) {
    '0' <= c <= '9' || 'A' <= c <= 'F'
  }

  predicate LowerHexDigit(c: char) {
    '0' <= c <= '9' || 'a' <= c <= 'f'
  }

  /** The two digits of one byte. */
  function ByteDigits(b: byte, upper: bool): (s: string)
  {
    [Digit(b / 16, upper), Digit(b % 16, upper)]
  }

  /** Every byte of `bytes` as two digits, in order. */
  function Hex(bytes: seq<byte>, upper: bool): (s: string)
    ensures |s| == 2 * |bytes|
  {
    if |bytes| == 0 then ""
    else Hex(bytes[..|bytes| - 1], upper) + ByteDigits(bytes[|bytes| - 1], upper)
  }

  /** Byte `i` is written at positions `2i` and `2i + 1`. */
  lemma {:induction false} HexAt(bytes: seq<byte>, upper: bool, i: nat)
    requires i < |bytes|
    ensures Hex(bytes, upper)[2 * i .. 2 * i + 2] == ByteDigits(bytes[i], upper)
    decreases |bytes|
  {
    var init := bytes[..|bytes| - 1];
    if i < |init| {
      HexAt(init, upper, i);
      assert Hex(bytes, upper)[2 * i .. 2 * i + 2] == Hex(init, upper)[2 * i .. 2 * i + 2];
    }
  }

  /** The white space `NumberStyles.HexNumber` skips before and after the
      digits: U+0009 to U+000D and the space. */
  predicate IsWhite(c: char) {
    c == ' ' || '\t' <= c <= '\r'
  }

  /** `byte.Parse(pair, NumberStyles.HexNumber)` on two characters. Two
      digits read as a byte; one digit read alone when white space comes
      before it, or white space or NUL (which the parser drops at the end)
      after it; anything else is a `FormatException`. */
  function ParsePair(hi: char, lo: char): (r: Result<byte, Exception>)
    ensures DigitValue(hi).Some? && DigitValue(lo).Some? ==>
      r == Success(16 * DigitValue(hi).value + DigitValue(lo).value)
    ensures r.Success? <==>
      && (DigitValue(hi).Some? || IsWhite(hi))
      && (DigitValue(lo).Some? || IsWhite(lo) || lo == '\0')
      && (DigitValue(hi).Some? || DigitValue(lo).Some?)
    ensures r.Success? && DigitValue(hi).None? ==> r.value == DigitValue(lo).value
    ensures r.Success? && DigitValue(lo).None? ==> r.value == DigitValue(hi).value
    ensures r.Failure? ==> r.error == Format
  {
    match (DigitValue(hi), DigitValue(lo))
    case (Some(h), Some(l)) => Success(16 * h + l)
    case (Some(h), None) => if IsWhite(lo) || lo == '\0' then Success(h) else Failure(Format)
    case (None, Some(l)) => if IsWhite(hi) then Success(l) else Failure(Format)
    case (None, None) => Failure(Format)
  }

  /** A lone digit parses with white space in front, or white space or NUL
      behind, and with nothing else in front; a pair holding no digit never
      parses. */
  lemma LoneDigit(n: nat, upper: bool, pad: char)
    requires n < 16
    ensures ParsePair(' ', Digit(n, upper)) == Success(n)
    ensures ParsePair(Digit(n, upper), '\0') == Success(n)
    ensures ParsePair(pad, Digit(n, upper)).Success? <==> IsWhite(pad) || DigitValue(pad).Some?
    ensures DigitValue(pad).None? ==> ParsePair(pad, pad).Failure?
  {
    DigitValueOfDigit(n, upper);
  }

  /** The pairs of an even-length string parsed in order; the first pair
      that is not two hex digits makes the whole fail. */
  function ParsePairs(s: string): (r: Result<seq<byte>, Exception>)
    requires |s| % 2 == 0
    ensures r.Success? ==> |r.value| == |s| / 2
    decreases |s|
  {
    if |s| == 0 then Success([])
    else
      var init :- ParsePairs(s[..|s| - 2]);
      var b :- ParsePair(s[|s| - 2], s[|s| - 1]);
      Success(init + [b])
  }

  /** Parsing succeeds exactly when every pair is two hex digits, and then
      byte `i` is the value of pair `i`. */
  lemma {:induction false} ParsePairsSpec(s: string)
    requires |s| % 2 == 0
    ensures ParsePairs(s).Success? <==>
      forall i :: 0 <= i < |s| / 2 ==> ParsePair(s[2 * i], s[2 * i + 1]).Success?
    ensures ParsePairs(s).Success? ==>
      forall i :: 0 <= i < |s| / 2 ==> ParsePairs(s).value[i] == ParsePair(s[2 * i], s[2 * i + 1]).value
    ensures ParsePairs(s).Failure? ==> ParsePairs(s).error == Format
    decreases |s|
  {
    if |s| > 0 {
      var init, n := s[..|s| - 2], |s| / 2 - 1;
      ParsePairsSpec(init);
      assert |init| / 2 == n && s[|s| - 2] == s[2 * n] && s[|s| - 1] == s[2 * n + 1];
      assert forall i :: 0 <= i < n ==> init[2 * i] == s[2 * i] && init[2 * i + 1] == s[2 * i + 1];
    }
  }

  /** `Base16.Encode`: a null array is rejected, and so is an array of
      2^30 bytes or more, whose doubled length wraps to a negative
      `StringBuilder` capacity (arrays stop short of 2^31 elements). */
  function Encode(bytes: Option<seq<byte>>): (r: Result<string, Exception>)
    ensures bytes.None? <==> r == Failure(ArgumentNull("bytes"))
    ensures bytes.Some? && 0x4000_0000 <= |bytes.value| < 0x8000_0000 ==>
      r == Failure(ArgumentOutOfRange("capacity"))
    ensures bytes.Some? && |bytes.value| < 0x4000_0000 ==> r.Success?
    ensures bytes.Some? && r.Success? ==> |r.value| == 2 * |bytes.value|
    ensures bytes.Some? && r.Success? ==> forall i :: 0 <= i < |bytes.value| ==>
      && UpperHexDigit(r.value[2 * i]) && DigitValue(r.value[2 * i]) == Some(bytes.value[i] / 16)
      && UpperHexDigit(r.value[2 * i + 1]) && DigitValue(r.value[2 * i + 1]) == Some(bytes.value[i] % 16)
  {
    if bytes.None? then Failure(ArgumentNull("bytes"))
    else if DoubledLength(|bytes.value|) < 0 then Failure(ArgumentOutOfRange("capacity"))
    else
      var s := Hex(bytes.value, true);
      forall i | 0 <= i < |bytes.value|
        ensures s[2 * i] == Digit(bytes.value[i] / 16, true) && s[2 * i + 1] == Digit(bytes.value[i] % 16, true)
      {
        HexAt(bytes.value, true, i);
        assert s[2 * i] == s[2 * i .. 2 * i + 2][0];
      }
      Success(s)
  }

  /** `bytes.Length * 2` in C# `int`: negative from 2^30 up to the
      largest array. */
  function DoubledLength(n: nat): (d: int)
    ensures n < 0x4000_0000 ==> d == 2 * n
    ensures 0x4000_0000 <= n < 0x8000_0000 ==> d < 0
  {
    assert 0x8000_0000 <= 2 * n < 0x1_0000_0000 ==> Wrap32(2 * n) == 2 * n - 0x1_0000_0000;
    Wrap32(2 * n)
  }

  /** The `StringBuilder` loop of `Base16.Encode`, one byte per turn. */
  method EncodeLoop(bytes: seq<byte>) returns (s: string)
    requires DoubledLength(|bytes|) >= 0
    ensures |s| == 2 * |bytes|
    ensures Encode(Some(bytes)) == Success(s)
  {
    s := "";
    for i := 0 to |bytes|
      invariant s == Hex(bytes[..i], true)
    {
      // Two upper-case digits per byte, zero-padded.
      s := s + ByteDigits(bytes[i], true);
      assert bytes[..i + 1][..i] == bytes[..i];
    }
    assert bytes[..|bytes|] == bytes;
  }

  /** `Base16.Decode`: null is rejected, then an odd length, and only then
      does the empty string give no bytes; otherwise every pair is parsed. */
  function Decode(base16String: Option<string>): (r: Result<seq<byte>, Exception>)
    ensures base16String.None? ==> r == Failure(ArgumentNull("base16String"))
    ensures base16String.Some? && |base16String.value| % 2 != 0 ==>
      r == Failure(Argument("base16String"))
    ensures base16String.Some? && |base16String.value| == 0 ==> r == Success([])
    ensures r.Success? ==> |r.value| == |base16String.value| / 2
  {
    match base16String
    case None => Failure(ArgumentNull("base16String"))
    case Some(s) =>
      if |s| % 2 != 0 then Failure(Argument("base16String"))
      else if |s| == 0 then Success([])
      else ParsePairs(s)
  }

  /** Decoding two digits written for a byte gives the byte, in either case. */
  lemma PairRoundTrip(b: byte, upper: bool)
    ensures ParsePair(Digit(b / 16, upper), Digit(b % 16, upper)) == Success(b)
  {
    DigitValueOfDigit(b / 16, upper);
    DigitValueOfDigit(b % 16, upper);
  }

  /** Decoding what was written, in upper or lower case, gives the bytes. */
  lemma HexRoundTrip(bytes: seq<byte>, upper: bool)
    ensures Decode(Some(Hex(bytes, upper))) == Success(bytes)
  {
    var s := Hex(bytes, upper);
    forall i | 0 <= i < |bytes|
      ensures ParsePair(s[2 * i], s[2 * i + 1]) == Success(bytes[i])
    {
      PairOfHex(bytes, upper, i);
    }
    ParsePairsSpec(s);
    assert |s| / 2 == |bytes|;
    if |bytes| > 0 {
      var r := ParsePairs(s).value;
      assert forall i :: 0 <= i < |bytes| ==> r[i] == bytes[i];
      assert r == bytes;
    }
  }

  /** Pair `i` of the digits written for `bytes` parses as byte `i`. */
  lemma PairOfHex(bytes: seq<byte>, upper: bool, i: nat)
    requires i < |bytes|
    ensures 2 * i + 1 < |Hex(bytes, upper)|
    ensures ParsePair(Hex(bytes, upper)[2 * i], Hex(bytes, upper)[2 * i + 1]) == Success(bytes[i])
  {
    var s := Hex(bytes, upper);
    HexAt(bytes, upper, i);
    assert s[2 * i] == s[2 * i .. 2 * i + 2][0] && s[2 * i + 1] == s[2 * i .. 2 * i + 2][1];
    PairRoundTrip(bytes[i], upper);
  }

  /** `Base16.Decode(Base16.Encode(b)) == b` for every array `Encode`
      accepts. */
  lemma RoundTrip(bytes: seq<byte>)
    requires |bytes| < 0x4000_0000
    ensures Encode(Some(bytes)).Success?
    ensures Decode(Some(Encode(Some(bytes)).value)) == Success(bytes)
  {
    HexRoundTrip(bytes, true);
  }

  /** A pair that does not parse fails the whole decode. */
  lemma BadPairFails(s: string, i: nat)
    requires |s| % 2 == 0 && i < |s| / 2
    requires ParsePair(s[2 * i], s[2 * i + 1]).Failure?
    ensures Decode(Some(s)) == Failure(Format)
  {
    ParsePairsSpec(s);
  }
}
