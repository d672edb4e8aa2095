/** What the Base32 codec promises as a whole: decoding undoes encoding
    under any alphabet of distinct symbols. */
module Base32Laws {
  import opened Wrappers
  import opened Bits
  import opened Base32Encoder
  import opened Base32Alphabet

  /** Decoding what was encoded gives the bytes back. */
  lemma RoundTrip(e: Encoder, bytes: seq<byte>)
    requires e.Valid() && Distinct(e.alphabet)
    ensures Decoding(e, Encoding(e.alphabet, bytes)) == Success(bytes)
  {
    var g := Groups(bytes);
    SpelledValues(e, bytes);
    GroupsRepack(bytes);
    PaddingShort(|bytes|);
    Pow2Constants();
    UnpackPack(bytes, 8, Zeros(|PaddedBits(bytes)| - 8 * |bytes|));
  }

  /** The round trip through the code's `int` sizes: below 2^28 bytes
      neither the capacity nor the byte count wraps, so `Encode` then
      `Decode` gives the bytes back. */
  lemma CheckedRoundTrip(e: Encoder, bytes: seq<byte>)
    requires e.Valid() && Distinct(e.alphabet) && |bytes| < 0x1000_0000
    ensures EncodeChecked(e.alphabet, bytes).Success?
    ensures DecodeChecked(e, EncodeChecked(e.alphabet, bytes).value) == Success(bytes)
  {
    RoundTrip(e, bytes);
  }

  /** At 2^29 bytes the capacity wraps to 4 and encoding succeeds, but the
      decoder's byte count wraps to 0, so its first write is past the end. */
  lemma RoundTripOverflow(e: Encoder, bytes: seq<byte>)
    requires e.Valid() && |bytes| == 0x2000_0000
    ensures EncodeChecked(e.alphabet, bytes) == Success(Encoding(e.alphabet, bytes))
    ensures DecodeChecked(e, Encoding(e.alphabet, bytes)) == Failure(IndexOutOfRange)
  {
    var s := Encoding(e.alphabet, bytes);
    assert |s| == 858993460;
    assert Wrap32(|s| * 5) == 4;
    assert ByteCount(|s|) == 0 && WriteAt(0) == 2;
    EncodingSymbols(e.alphabet, bytes);
    SymbolMapDomain(e.alphabet);
    assert s[..2] == [s[0], s[1]];
  }

  /** Every symbol of an encoding is a symbol of the alphabet. */
  lemma EncodingSymbols(alphabet: string, bytes: seq<byte>)
    requires |alphabet| == 32
    ensures forall c :: c in Encoding(alphabet, bytes) ==> c in alphabet
  {
    var s := Encoding(alphabet, bytes);
    forall c | c in s
      ensures c in alphabet
    {
      var k :| 0 <= k < |s| && s[k] == c;
      assert s[k] == alphabet[Groups(bytes)[k]];
    }
  }

  /** The symbols written map back to the groups they were written for. */
  lemma SpelledValues(e: Encoder, bytes: seq<byte>)
    requires e.Valid() && Distinct(e.alphabet)
    ensures SymbolValues(e.alphabetMap, Encoding(e.alphabet, bytes)) == Success(Groups(bytes))
  {
    var s, g := Encoding(e.alphabet, bytes), Groups(bytes);
    forall k | 0 <= k < |s|
      ensures s[k] in e.alphabetMap && e.alphabetMap[s[k]] == g[k]
    {
      SymbolMapInverts(e.alphabet, g[k]);
    }
    var r := SymbolValues(e.alphabetMap, s);
    assert r.value == g;
  }

  /** Packing the groups again gives the padded bits. */
  lemma GroupsRepack(bytes: seq<byte>)
    ensures Pack(Groups(bytes), 5) == PaddedBits(bytes)
  {
    var p := PaddedBits(bytes);
    assert |p| % 5 == 0;
    PackUnpack(p, 5);
  }

  /** The padding is shorter than a byte. */
  lemma PaddingShort(n: nat)
    ensures 5 * EncodedLength(n) - 8 * n < 8
  {
  }

  /** Symbol lookup is exact: a lowercase letter is not an RFC 4648 symbol. */
  lemma CaseMatters()
    ensures Decoding(Rfc4648Encoder(), "A").Success?
    ensures Decoding(Rfc4648Encoder(), "a") == Failure(InvalidCharacter("base32String", 'a'))
  {
    Rfc4648Layout();
    assert Rfc4648[0] == 'A';
  }

  /** Decoding drops the bits after the last whole byte without looking at
      them: "AB" and "AA" both decode to one zero byte, which encodes back
      to "AA" only. */
  lemma LossyDecode()
    ensures Decoding(Rfc4648Encoder(), "AB") == Success([0])
    ensures Decoding(Rfc4648Encoder(), "AA") == Success([0])
    ensures Encoding(Rfc4648, [0]) == "AA"
  {
    var m := Rfc4648Encoder().alphabetMap;
    SymbolsAB(m);
    TwoSymbolsOneByte(0);
    TwoSymbolsOneByte(1);
    ZeroByteEncoding();
  }

  lemma ZeroByteEncoding()
    ensures Encoding(Rfc4648, [0]) == "AA"
  {
    var s := Encoding(Rfc4648, [0]);
    ZeroByteGroups();
    Rfc4648Layout();
    assert |s| == 2 && s[0] == Rfc4648[0] && s[1] == Rfc4648[0];
  }

  lemma SymbolsAB(m: map<char, nat>)
    requires m == Rfc4648Encoder().alphabetMap
    ensures SymbolValues(m, "AA") == Success([0, 0])
    ensures SymbolValues(m, "AB") == Success([0, 1])
  {
    Rfc4648Layout();
    assert Rfc4648[0] == 'A' && Rfc4648[1] == 'B';
    SymbolMapInverts(Rfc4648, 0);
    SymbolMapInverts(Rfc4648, 1);
    TwoSymbols(m, 'A', 'A');
    TwoSymbols(m, 'A', 'B');
  }

  lemma TwoSymbols(m: map<char, nat>, a: char, b: char)
    requires a in m && b in m
    ensures SymbolValues(m, [a, b]) == Success([m[a], m[b]])
  {
    var r := SymbolValues(m, [a, b]);
    assert r.Success?;
    assert r.value == [m[a], m[b]];
  }

  /** A zero symbol followed by one below 4 leaves a zero first byte. */
  lemma TwoSymbolsOneByte(v: nat)
    requires v < 4
    ensures Unpack(Pack([0, v], 5), 8) == [0]
  {
    var w := Pack([0, v], 5);
    Pow2Constants();
    PackCons(0, [v], 5);
    PackCons(v, [], 5);
    assert w == FromNat(0, 5) + FromNat(v, 5);
    BitsValueAppend(FromNat(0, 5), FromNat(v, 5));
    FromNatValue(0, 5);
    FromNatValue(v, 5);
    BitsValueSplit(w, 8);
    UnpackLength(w, 8);
    UnpackAt(w, 8, 0);
  }

  /** One zero byte is two zero groups. */
  lemma ZeroByteGroups()
    ensures Groups([0]) == [0, 0]
  {
    var p, g := PaddedBits([0]), Groups([0]);
    ZeroPadded();
    Pow2Constants();
    BitsValueSplit(p, 5);
    assert BitsValue(p[..5]) == 0 && BitsValue(p[5..]) == 0;
    assert p[..5] == p[5 * 0 .. 5 * 0 + 5];
    assert p[5..] == p[5 * 1 .. 5 * 1 + 5];
    UnpackAt(p, 5, 0);
    UnpackAt(p, 5, 1);
    assert |g| == 2 && g[0] == 0 && g[1] == 0;
  }

  lemma ZeroPadded()
    ensures |PaddedBits([0])| == 10 && BitsValue(PaddedBits([0])) == 0
  {
    Pow2Constants();
    PackCons(0, [], 8);
    assert [0] + [] == [0];
    assert PaddedBits([0]) == FromNat(0, 8) + Zeros(2);
    BitsValueAppend(FromNat(0, 8), Zeros(2));
    FromNatValue(0, 8);
    ZerosValue(2);
  }
}
