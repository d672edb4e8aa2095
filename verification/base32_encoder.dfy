/** The Base32 codec of `src/KingUtils/Base32Encoder.cs`.

    An encoder is built from any 32-character alphabet. Encoding reads the
    input as one bit string, most-significant bit of the first byte first,
    and writes one alphabet symbol per 5-bit group; the last group is padded
    with zero bits on the right and no `=` padding is written (the grouping
    of section 6 of RFC 4648, without its padding). Decoding maps every
    symbol back to 5 bits and keeps only whole bytes. */
module Base32Encoder {
  import opened Wrappers
  import opened Bits
  import opened Division

  /** An encoder: the alphabet handed to the constructor and the
      symbol-to-value map the constructor builds from it. */
  datatype Encoder = Encoder(alphabet: string, alphabetMap: map<char, nat>) {
    predicate Valid() {
      |alphabet| == 32 && alphabetMap == SymbolMap(alphabet)
    }
  }

  predicate Distinct(a: string) {
    forall i, j :: 0 <= i < j < |a| ==> a[i] != a[j]
  }

  /** The map the constructor's loop builds, symbol by symbol: each symbol
      maps to the index of its LAST occurrence, since a later index
      overwrites an earlier one. */
  function SymbolMap(alphabet: string): (m: map<char, nat>)
  {
    if |alphabet| == 0 then map[]
    else SymbolMap(alphabet[..|alphabet| - 1])[alphabet[|alphabet| - 1] := |alphabet| - 1]
  }

  /** A symbol is in the map exactly when it occurs in the alphabet, and
      then it maps to its last occurrence. */
  lemma {:induction false} SymbolMapAt(alphabet: string, c: char)
    ensures c in SymbolMap(alphabet) <==> c in alphabet
    ensures c in SymbolMap(alphabet) ==>
      && SymbolMap(alphabet)[c] < |alphabet|
      && alphabet[SymbolMap(alphabet)[c]] == c
      && forall j :: SymbolMap(alphabet)[c] < j < |alphabet| ==> alphabet[j] != c
    decreases |alphabet|
  {
    if |alphabet| > 0 {
      var init := alphabet[..|alphabet| - 1];
      SymbolMapAt(init, c);
      assert alphabet == init + [alphabet[|alphabet| - 1]];
    }
  }

  lemma SymbolMapDomain(alphabet: string)
    ensures forall c :: c in SymbolMap(alphabet) <==> c in alphabet
    ensures forall c :: c in SymbolMap(alphabet) ==> SymbolMap(alphabet)[c] < |alphabet|
  {
    forall c
      ensures c in SymbolMap(alphabet) <==> c in alphabet
      ensures c in SymbolMap(alphabet) ==> SymbolMap(alphabet)[c] < |alphabet|
    {
      SymbolMapAt(alphabet, c);
    }
  }

  /** The constructor: a missing alphabet or one whose length is not 32 is
      rejected; nothing checks that the symbols are distinct. The second
      check passes the word "alphabet" as the exception's message, so no
      parameter is named. */
  function NewEncoder(alphabet: Option<string>): (r: Result<Encoder, Exception>)
    ensures alphabet.None? ==> r == Failure(ArgumentNull("alphabet"))
    ensures alphabet.Some? && |alphabet.value| != 32 ==> r == Failure(ArgumentMessage("alphabet"))
    ensures alphabet.Some? && |alphabet.value| == 32 ==>
      r.Success? && r.value.Valid() && r.value.alphabet == alphabet.value
  {
    match alphabet
    case None => Failure(ArgumentNull("alphabet"))
    case Some(a) =>
      if |a| != 32 then Failure(ArgumentMessage("alphabet"))
      else Success(Encoder(a, SymbolMap(a)))
  }

  /** With distinct symbols the map is the inverse of indexing. */
  lemma SymbolMapInverts(alphabet: string, i: nat)
    requires Distinct(alphabet) && i < |alphabet|
    ensures alphabet[i] in SymbolMap(alphabet) && SymbolMap(alphabet)[alphabet[i]] == i
  {
    SymbolMapAt(alphabet, alphabet[i]);
  }

  // ---------------------------------------------------------------------
  // What the codec computes.
  // ---------------------------------------------------------------------

  /** ceil(8n / 5): the number of symbols written for n bytes. */
  function EncodedLength(n: nat): nat {
    (8 * n + 4) / 5
  }

  /** The input's bits, zero-padded on the right to whole 5-bit groups. */
  function PaddedBits(bytes: seq<byte>): (p: seq<bit>)
    ensures |p| == 5 * EncodedLength(|bytes|)
    ensures p == Pack(bytes, 8) + Zeros(|p| - 8 * |bytes|)
  {
    var b := Pack(bytes, 8);
    b + Zeros(5 * EncodedLength(|bytes|) - |b|)
  }

  /** The 5-bit group values, one per output symbol. */
  function Groups(bytes: seq<byte>): (g: seq<nat>)
    ensures |g| == EncodedLength(|bytes|)
    ensures forall k :: 0 <= k < |g| ==> g[k] < 32
  {
    Pow2Constants();
    UnpackLength(PaddedBits(bytes), 5);
    Unpack(PaddedBits(bytes), 5)
  }

  function Encoding(alphabet: string, bytes: seq<byte>): (s: string)
    requires |alphabet| == 32
    ensures |s| == EncodedLength(|bytes|)
  {
    var g := Groups(bytes);
    seq(|g|, k requires 0 <= k < |g| => alphabet[g[k]])
  }

  /** The symbols' values in input order, or the error for the first symbol
      that is not in the map. */
  function SymbolValues(m: map<char, nat>, s: string): (r: Result<seq<nat>, Exception>)
    ensures r.Success? <==> forall i :: 0 <= i < |s| ==> s[i] in m
    ensures r.Success? ==> |r.value| == |s| && forall i :: 0 <= i < |s| ==> r.value[i] == m[s[i]]
    ensures r.Failure? ==> exists i :: (0 <= i < |s| && s[i] !in m
      && r.error == InvalidCharacter("base32String", s[i])
      && forall j :: 0 <= j < i ==> s[j] in m)
  {
    if |s| == 0 then Success([])
    else
      var init := SymbolValues(m, s[..|s| - 1]);
      var c := s[|s| - 1];
      assert forall i :: 0 <= i < |s| - 1 ==> s[..|s| - 1][i] == s[i];
      if init.Failure? then init
      else if c in m then Success(init.value + [m[c]])
      else Failure(InvalidCharacter("base32String", c))
  }

  function Decoding(e: Encoder, s: string): (r: Result<seq<byte>, Exception>)
    requires e.Valid()
    ensures r.Success? <==> forall i :: 0 <= i < |s| ==> s[i] in e.alphabet
    ensures r.Success? ==> |r.value| == |s| * 5 / 8
    ensures r.Failure? ==> exists i :: (0 <= i < |s| && s[i] !in e.alphabet
      && r.error == InvalidCharacter("base32String", s[i])
      && forall j :: 0 <= j < i ==> s[j] in e.alphabet)
  {
    SymbolMapDomain(e.alphabet);
    DecodingWith(e.alphabetMap, s)
  }

  /** Decoding through a symbol map: the symbols' 5-bit values, read as one
      bit string, cut into whole bytes. */
  function DecodingWith(m: map<char, nat>, s: string): (r: Result<seq<byte>, Exception>)
    ensures r.Success? ==> |r.value| == |s| * 5 / 8
    ensures r.Failure? ==> r.error.InvalidCharacter?
  {
    var values :- SymbolValues(m, s);
    Pow2Constants();
    UnpackLength(Pack(values, 5), 8);
    var bytes: seq<byte> := Unpack(Pack(values, 5), 8);
    Success(bytes)
  }

  // ---------------------------------------------------------------------
  // The sizes, computed in C# `int`.
  // ---------------------------------------------------------------------

  /** `bytes.Length * 8 + Shift - 1` divided by `Shift`: the capacity handed
      to the `StringBuilder`. The sum wraps at 32 bits and `/` truncates. */
  function OutputCapacity(n: nat): int {
    TruncatedQuotient(Wrap32(n * 8 + 4), 5)
  }

  /** The lengths whose capacity wraps to a negative number: four windows of
      2^28 - 1 lengths below the largest array, starting at 2^28 bytes. */
  predicate CapacityWraps(n: nat) {
    0x1000_0000 <= n % 0x2000_0000 <= 0x1FFF_FFFE
  }

  lemma CapacityNegative(n: nat)
    ensures OutputCapacity(n) < 0 <==> CapacityWraps(n)
  {
    var M := 0x1_0000_0000;
    var low := n % 0x2000_0000;
    var x := 8 * low + 4 + 0x8000_0000;
    assert n * 8 + 4 + 0x8000_0000 == x + M * (n / 0x2000_0000);
    ModAddMultiple(x, M, n / 0x2000_0000);
    Wrap32Value(n * 8 + 4);
    if low < 0x1000_0000 {
      DivModUnique(x, M, 0, x);
      assert Wrap32(n * 8 + 4) == 8 * low + 4;
    } else {
      DivModUnique(x, M, 1, x - M);
      assert Wrap32(n * 8 + 4) == 8 * low + 4 - M;
    }
  }

  /** Below 2^28 bytes the capacity is the number of symbols written. */
  lemma OutputCapacityFits(n: nat)
    requires n < 0x1000_0000
    ensures OutputCapacity(n) == EncodedLength(n)
  {
  }

  /** `base32String.Length * Shift / 8`: the length of the array the
      decoder fills. The product wraps at 32 bits and `/` truncates. */
  function ByteCount(n: nat): int {
    TruncatedQuotient(Wrap32(n * 5), 8)
  }

  /** The count never exceeds the whole bytes the symbols carry, and it is
      exactly that count while `5n` fits an `int`. */
  lemma ByteCountBound(n: nat)
    ensures ByteCount(n) <= n * 5 / 8
    ensures n * 5 < 0x8000_0000 ==> ByteCount(n) == n * 5 / 8
  {
    Wrap32Value(n * 5);
  }

  /** The number of symbols read when byte `k` of the output is written:
      the first count whose five-bit groups reach `8(k + 1)` bits. */
  function WriteAt(k: nat): (count: nat)
    ensures 5 * count >= 8 * (k + 1) > 5 * (count - 1)
  {
    (8 * k + 12) / 5
  }

  /** Decoding into an array of `capacity` bytes: writing byte `capacity`
      fails with `IndexOutOfRangeException`, unless a symbol outside the
      map stops the loop first. Any other outcome is the plain decoding. */
  function DecodingWithin(m: map<char, nat>, s: string, capacity: nat): (r: Result<seq<byte>, Exception>)
    ensures |s| < WriteAt(capacity) ==> r == DecodingWith(m, s)
    ensures r != DecodingWith(m, s) ==> r == Failure(IndexOutOfRange)
    ensures r == Failure(IndexOutOfRange) <==>
      |s| >= WriteAt(capacity) && SymbolValues(m, s[..WriteAt(capacity)]).Success?
  {
    if |s| < WriteAt(capacity) then DecodingWith(m, s)
    else
      var at := WriteAt(capacity);
      var prefix := SymbolValues(m, s[..at]);
      if prefix.Failure? then
        PrefixFailure(m, s, at);
        Failure(prefix.error)
      else Failure(IndexOutOfRange)
  }

  /** What `Encode` returns for an array that is not null: no symbols for
      no bytes, `ArgumentOutOfRangeException` for the `StringBuilder`'s
      parameter `capacity` when that wrapped negative, and otherwise the
      encoding. */
  function EncodeChecked(alphabet: string, bytes: seq<byte>): (r: Result<string, Exception>)
    requires |alphabet| == 32
    ensures r.Failure? <==> CapacityWraps(|bytes|)
    ensures r.Failure? ==> r.error == ArgumentOutOfRange("capacity")
    ensures r.Success? ==> r.value == Encoding(alphabet, bytes)
  {
    CapacityNegative(|bytes|);
    if |bytes| == 0 then Success("")
    else if OutputCapacity(|bytes|) < 0 then Failure(ArgumentOutOfRange("capacity"))
    else Success(Encoding(alphabet, bytes))
  }

  /** What `Decode` returns for a string that is not null: no bytes for the
      empty string, `OverflowException` when the byte count wrapped
      negative, and otherwise decoding into an array of that many bytes.
      It differs from the plain decoding only by those two failures, and
      not at all while `5|s|` fits an `int`. */
  function DecodeChecked(e: Encoder, s: string): (r: Result<seq<byte>, Exception>)
    requires e.Valid()
    ensures |s| == 0 ==> r == Success([])
    ensures |s| > 0 && ByteCount(|s|) < 0 ==> r == Failure(Overflow)
    ensures r != Decoding(e, s) ==> r == Failure(Overflow) || r == Failure(IndexOutOfRange)
    ensures |s| * 5 < 0x8000_0000 ==> r == Decoding(e, s)
    ensures r.Success? && |s| > 0 ==> |r.value| == ByteCount(|s|)
  {
    ByteCountBound(|s|);
    if |s| == 0 then
      assert DecodingWith(e.alphabetMap, s) == Success([]);
      Success([])
    else if ByteCount(|s|) < 0 then Failure(Overflow)
    else DecodingWithin(e.alphabetMap, s, ByteCount(|s|))
  }

  // ---------------------------------------------------------------------
  // The encoder's methods, following the code's buffer loops.
  // ---------------------------------------------------------------------

  /** `Encode(byte[])`: a null array is rejected; the rest is the span
      overload's code. */
  method Encode(e: Encoder, bytes: Option<seq<byte>>) returns (r: Result<string, Exception>)
    requires e.Valid()
    ensures bytes.None? ==> r == Failure(ArgumentNull("bytes"))
    ensures bytes.Some? && CapacityWraps(|bytes.value|) ==> r == Failure(ArgumentOutOfRange("capacity"))
    ensures bytes.Some? && !CapacityWraps(|bytes.value|) ==> r == Success(Encoding(e.alphabet, bytes.value))
  {
    if bytes.None? {
      return Failure(ArgumentNull("bytes"));
    }
    r := EncodeSpan(e, bytes.value);
  }

  /** `Encode(Span<byte>)`, which cannot be null: the empty span encodes to
      no symbols, the `StringBuilder` rejects a capacity that wrapped
      negative, and otherwise the bit-buffer loop runs. */
  method EncodeSpan(e: Encoder, bytes: seq<byte>) returns (r: Result<string, Exception>)
    requires e.Valid()
    ensures CapacityWraps(|bytes|) ==> r == Failure(ArgumentOutOfRange("capacity"))
    ensures !CapacityWraps(|bytes|) ==> r == Success(Encoding(e.alphabet, bytes))
  {
    if |bytes| == 0 {
      return Success("");
    }
    CapacityNegative(|bytes|);
    if OutputCapacity(|bytes|) < 0 {
      return Failure(ArgumentOutOfRange("capacity"));
    }
    var s := EncodeBytes(e.alphabet, bytes);
    return Success(s);
  }

  /** The bit-buffer loop both `Encode` overloads run. `buffer` is the C#
      `int`: shifting wraps at 32 bits, and only its low `bitsLeft` bits are
      ever read. */
  method EncodeBytes(alphabet: string, bytes: seq<byte>) returns (s: string)
    requires |alphabet| == 32
    ensures s == Encoding(alphabet, bytes)
  {
    if |bytes| == 0 {
      return "";
    }
    ghost var p, g := PaddedBits(bytes), Groups(bytes);
    LayoutOf(bytes);
    var offset := 0;
    var last := |bytes|;
    var buffer: int := bytes[offset];
    offset := offset + 1;
    var bitsLeft: nat := 8;
    s := "";
    FirstByteHeld(alphabet, bytes, p, g);
    while bitsLeft > 0 || offset < last
      invariant last == |bytes| && EncodeState(alphabet, p, g, last, s, buffer, offset, bitsLeft)
      decreases 8 * (last - offset) + bitsLeft
    {
      buffer, offset, bitsLeft := Refill(alphabet, bytes, p, g, s, buffer, offset, bitsLeft);
      EmitStep(alphabet, p, g, last, s, buffer, offset, bitsLeft);
      // The mask keeps the top five of the held bits.
      var index := LowBits(ShiftRight(buffer, bitsLeft - 5), 5);
      bitsLeft := bitsLeft - 5;
      s := s + [alphabet[index]];
    }
    EncodeDone(alphabet, bytes, p, g, s, buffer);
  }

  /** How the padded bits `p` and the groups `g` of the input are laid out:
      byte `i` fills bits [8i, 8i + 8), the padding is zeros, and group `k`
      is read from bits [5k, 5k + 5). */
  ghost predicate Layout(bytes: seq<byte>, p: seq<bit>, g: seq<nat>) {
    && |g| == EncodedLength(|bytes|)
    && |p| == 5 * |g|
    && 8 * |bytes| <= |p|
    && (forall i :: 0 <= i < |bytes| ==> p[8 * i .. 8 * i + 8] == FromNat(bytes[i], 8))
    && (forall j :: 8 * |bytes| <= j < |p| ==> p[j] == 0)
    && (forall k :: 0 <= k < |g| ==> g[k] < 32 && g[k] == BitsValue(p[5 * k .. 5 * k + 5]))
  }

  lemma LayoutOf(bytes: seq<byte>)
    ensures Layout(bytes, PaddedBits(bytes), Groups(bytes))
  {
    var p, g := PaddedBits(bytes), Groups(bytes);
    var n := |bytes|;
    forall i | 0 <= i < n
      ensures p[8 * i .. 8 * i + 8] == FromNat(bytes[i], 8)
    {
      PackSlice(bytes, 8, i);
      SliceOfPrefix(Pack(bytes, 8), Zeros(|p| - 8 * n), 8 * i, 8 * i + 8);
    }
    forall j | 8 * n <= j < |p|
      ensures p[j] == 0
    {
      assert p[j] == Zeros(|p| - 8 * n)[j - 8 * n];
    }
    forall k | 0 <= k < |g|
      ensures g[k] == BitsValue(p[5 * k .. 5 * k + 5])
    {
      UnpackAt(p, 5, k);
    }
  }

  /** The loop's invariant: `s` holds the first |s| symbols of the encoding
      and the low `bitsLeft` bits of `buffer` are the padded bits that come
      next. Once the input is used up and every group is written, nothing
      is held. */
  ghost predicate EncodeState(alphabet: string, p: seq<bit>, g: seq<nat>, n: nat,
                              s: string, buffer: int, offset: nat, bitsLeft: nat)
  {
    && |alphabet| == 32
    && |p| == 5 * |g|
    && 1 <= offset <= n
    && bitsLeft <= 8
    && (5 * |s| + bitsLeft == 8 * offset
        || (bitsLeft == 0 && offset == n && |s| == |g|))
    && 5 * |s| + bitsLeft <= |p|
    && Holds(buffer, p[5 * |s| .. 5 * |s| + bitsLeft])
    && Spelled(alphabet, g, s)
  }

  /** Each symbol written is the alphabet's symbol for its group. */
  ghost predicate Spelled(alphabet: string, g: seq<nat>, s: string) {
    && |s| <= |g|
    && forall k :: 0 <= k < |s| ==> g[k] < |alphabet| && s[k] == alphabet[g[k]]
  }

  /** The state in which the next symbol is read: at least five bits are
      held and they start with group |s|. */
  ghost predicate Ready(alphabet: string, p: seq<bit>, g: seq<nat>, n: nat,
                        s: string, buffer: int, offset: nat, bitsLeft: nat)
  {
    && |alphabet| == 32
    && |p| == 5 * |g|
    && 1 <= offset <= n
    && 5 <= bitsLeft < 13
    && (5 * |s| + bitsLeft == 8 * offset
        || (bitsLeft == 5 && offset == n && |s| + 1 == |g|))
    && 5 * |s| + bitsLeft <= |p|
    && Holds(buffer, p[5 * |s| .. 5 * |s| + bitsLeft])
    && Spelled(alphabet, g, s)
    && |s| < |g| && g[|s|] < 32 && g[|s|] == BitsValue(p[5 * |s| .. 5 * |s| + 5])
  }

  lemma FirstByteHeld(alphabet: string, bytes: seq<byte>, p: seq<bit>, g: seq<nat>)
    requires |alphabet| == 32 && |bytes| > 0 && Layout(bytes, p, g)
    ensures EncodeState(alphabet, p, g, |bytes|, "", bytes[0], 1, 8)
  {
    Pow2Constants();
    HoldsFromNat(bytes[0], 8);
    assert p[0 .. 8] == p[8 * 0 .. 8 * 0 + 8];
  }

  /** Group |s| is the next one read once five or more bits are held. */
  lemma NextGroup(bytes: seq<byte>, p: seq<bit>, g: seq<nat>, k: nat)
    requires Layout(bytes, p, g) && 5 * k + 5 <= |p|
    ensures k < |g| && g[k] < 32 && g[k] == BitsValue(p[5 * k .. 5 * k + 5])
  {
  }

  /** Topping the buffer up when fewer than five bits are held: the next
      byte if one is left, otherwise zero bits up to a whole group. With
      five or more bits held nothing changes. */
  method Refill(ghost alphabet: string, bytes: seq<byte>, ghost p: seq<bit>, ghost g: seq<nat>,
                ghost s: string, buffer: int, offset: nat, bitsLeft: nat)
    returns (buffer': int, offset': nat, bitsLeft': nat)
    requires Layout(bytes, p, g)
    requires EncodeState(alphabet, p, g, |bytes|, s, buffer, offset, bitsLeft)
    requires 0 < bitsLeft || offset < |bytes|
    ensures Ready(alphabet, p, g, |bytes|, s, buffer', offset', bitsLeft')
    ensures 8 * (|bytes| - offset') + bitsLeft' < 8 * (|bytes| - offset) + bitsLeft + 5
  {
    var k := |s|;
    if bitsLeft >= 5 {
      buffer', offset', bitsLeft' := buffer, offset, bitsLeft;
    } else if offset < |bytes| {
      // Shifting by eight clears the low bits, so or-ing the byte in adds it.
      ReadByte(bytes, p, g, k, buffer, offset, bitsLeft);
      buffer' := ShiftLeft(buffer, 8) + bytes[offset];
      offset' := offset + 1;
      bitsLeft' := bitsLeft + 8;
    } else {
      var pad := 5 - bitsLeft;
      PadGroup(bytes, p, g, k, buffer, offset, bitsLeft);
      buffer' := ShiftLeft(buffer, pad);
      offset' := offset;
      bitsLeft' := bitsLeft + pad;
    }
    NextGroup(bytes, p, g, k);
  }

  /** Shifting the next byte in appends its eight bits to those held. */
  lemma ReadByte(bytes: seq<byte>, p: seq<bit>, g: seq<nat>, k: nat,
                 buffer: int, offset: nat, held: nat)
    requires Layout(bytes, p, g)
    requires offset < |bytes| && held < 5 && 5 * k + held == 8 * offset
    requires Holds(buffer, p[5 * k .. 5 * k + held])
    ensures 5 * k + held + 8 <= |p|
    ensures Holds(ShiftLeft(buffer, 8) + bytes[offset], p[5 * k .. 5 * k + held + 8])
  {
    Pow2Constants();
    assert p[5 * k + held .. 5 * k + held + 8] == FromNat(bytes[offset], 8);
    ShiftInAt(buffer, p, 5 * k, held, 8, bytes[offset]);
  }

  /** Past the last byte, zero bits complete the last group. */
  lemma PadGroup(bytes: seq<byte>, p: seq<bit>, g: seq<nat>, k: nat,
                 buffer: int, offset: nat, held: nat)
    requires Layout(bytes, p, g)
    requires offset == |bytes| && 0 < held < 5 && 5 * k + held == 8 * offset
    requires Holds(buffer, p[5 * k .. 5 * k + held])
    ensures k + 1 == |g| && 5 * k + 5 <= |p|
    ensures Holds(ShiftLeft(buffer, 5 - held), p[5 * k .. 5 * k + held + (5 - held)])
  {
    var pad := 5 - held;
    LastGroup(|bytes|, k, held);
    PadZeros(p, 5 * k + held, pad);
    ShiftInAt(buffer, p, 5 * k, held, pad, 0);
  }

  /** When the input ends inside group `k`, that group is the last. */
  lemma LastGroup(n: nat, k: nat, held: nat)
    requires 0 < held < 5 && 5 * k + held == 8 * n
    ensures k + 1 == EncodedLength(n)
  {
    DivModUnique(8 * n + 4, 5, k + 1, held - 1);
  }

  /** A run of zero bits spells zero in any width. */
  lemma PadZeros(p: seq<bit>, from: nat, len: nat)
    requires from + len <= |p|
    requires forall j :: from <= j < from + len ==> p[j] == 0
    ensures p[from .. from + len] == FromNat(0, len)
  {
    FromNatZero(len);
    assert p[from .. from + len] == Zeros(len);
  }

  /** Reading the top five held bits yields the next group, and the bits
      below them are what is held afterwards. */
  lemma EmitStep(alphabet: string, p: seq<bit>, g: seq<nat>, n: nat, s: string,
                 buffer: int, offset: nat, held: nat)
    requires Ready(alphabet, p, g, n, s, buffer, offset, held)
    ensures LowBits(ShiftRight(buffer, held - 5), 5) < 32
    ensures EncodeState(alphabet, p, g, n, s + [alphabet[LowBits(ShiftRight(buffer, held - 5), 5)]],
                        buffer, offset, held - 5)
  {
    var s' := s + [alphabet[g[|s|]]];
    TakeGroup(buffer, p, |s|, held, |s'|);
    SpelledStep(alphabet, g, s);
  }

  /** One more symbol spelled from the next group. */
  lemma SpelledStep(alphabet: string, g: seq<nat>, s: string)
    requires Spelled(alphabet, g, s) && |s| < |g| && g[|s|] < |alphabet|
    ensures Spelled(alphabet, g, s + [alphabet[g[|s|]]])
  {
  }

  /** The top five of `held` bits starting at group `k`, and the window of
      the bits below them, which starts at group `k'`, the next one. */
  lemma TakeGroup(buffer: int, p: seq<bit>, k: nat, held: nat, k': nat)
    requires 5 <= held && 5 * k + held <= |p| && k' == k + 1
    requires Holds(buffer, p[5 * k .. 5 * k + held])
    ensures LowBits(ShiftRight(buffer, held - 5), 5) == BitsValue(p[5 * k .. 5 * k + 5])
    ensures Holds(buffer, p[5 * k' .. 5 * k' + (held - 5)])
  {
    TakeTopAt(buffer, p, 5 * k, held, 5);
    HoldsWindow(buffer, p, 5 * k + 5, 5 * k + held, 5 * k', 5 * k' + (held - 5));
  }

  lemma EncodeDone(alphabet: string, bytes: seq<byte>, p: seq<bit>, g: seq<nat>, s: string, buffer: int)
    requires g == Groups(bytes) && Layout(bytes, p, g)
    requires EncodeState(alphabet, p, g, |bytes|, s, buffer, |bytes|, 0)
    ensures s == Encoding(alphabet, bytes)
  {
    var n := |bytes|;
    if 5 * |s| == 8 * n {
      DivModUnique(8 * n + 4, 5, |s|, 4);
    }
    var t := Encoding(alphabet, bytes);
    assert |s| == |t|;
    forall k | 0 <= k < |s|
      ensures s[k] == t[k]
    {
    }
  }

  /** `Decode(string)`: a null string is rejected, the empty string
      decodes to no bytes, and an array of negative length cannot be
      allocated; only then does the symbol loop run. */
  method Decode(e: Encoder, base32String: Option<string>) returns (r: Result<seq<byte>, Exception>)
    requires e.Valid()
    ensures base32String.None? ==> r == Failure(ArgumentNull("base32String"))
    ensures base32String.Some? ==> r == DecodeChecked(e, base32String.value)
  {
    if base32String.None? {
      return Failure(ArgumentNull("base32String"));
    }
    var s := base32String.value;
    if |s| == 0 {
      return Success([]);
    }
    if ByteCount(|s|) < 0 {
      return Failure(Overflow);
    }
    SymbolMapDomain(e.alphabet);
    r := DecodeSymbols(e.alphabetMap, s);
  }

  /** The symbol loop, shifting 5 bits in per symbol and writing a byte
      whenever 8 bits are held. The code fills an array of `ByteCount(|s|)`
      bytes front to back, and a write past its end throws; the model
      appends to a sequence no longer than that. */
  method DecodeSymbols(m: map<char, nat>, s: string) returns (r: Result<seq<byte>, Exception>)
    requires forall c :: c in m ==> m[c] < 32
    requires ByteCount(|s|) >= 0
    ensures r == DecodingWithin(m, s, ByteCount(|s|))
  {
    var capacity: nat := ByteCount(|s|);
    var bytes: seq<byte> := [];
    var buffer: int := 0;
    var bitsLeft: nat := 0;
    ghost var values: seq<nat> := [];
    DecodeStart(m, s);
    for i := 0 to |s|
      invariant Decoded(m, s, i, values, bytes, buffer, bitsLeft) && bitsLeft < 8
      invariant |bytes| <= capacity
    {
      var stop;
      stop, values, bytes, buffer, bitsLeft := DecodeStep(m, s, i, values, bytes, buffer, bitsLeft, capacity);
      if stop.Some? {
        return stop.value;
      }
    }
    DecodeDone(m, s, values, bytes, buffer, bitsLeft, capacity);
    return Success(bytes);
  }

  /** One turn of the symbol loop: symbol `i` is looked up and shifted in,
      and a byte is written once eight bits are held. A symbol outside the
      map, or a byte due when the array is full, stops decoding with the
      outcome of the whole. */
  method DecodeStep(m: map<char, nat>, s: string, i: nat, ghost values: seq<nat>,
                    bytes: seq<byte>, buffer: int, bitsLeft: nat, capacity: nat)
    returns (stop: Option<Result<seq<byte>, Exception>>, ghost values': seq<nat>,
             bytes': seq<byte>, buffer': int, bitsLeft': nat)
    requires forall c :: c in m ==> m[c] < 32
    requires i < |s| && Decoded(m, s, i, values, bytes, buffer, bitsLeft) && bitsLeft < 8
    requires |bytes| <= capacity
    ensures stop.Some? ==> stop.value == DecodingWithin(m, s, capacity)
    ensures stop.None? ==> Decoded(m, s, i + 1, values', bytes', buffer', bitsLeft') && bitsLeft' < 8
    ensures stop.None? ==> |bytes'| <= capacity
  {
    var c := s[i];
    if c !in m {
      DecodeInvalid(m, s, i, values, bytes, buffer, bitsLeft, capacity);
      return Some(Failure(InvalidCharacter("base32String", c))), values, bytes, buffer, bitsLeft;
    }
    var value := m[c];
    ShiftSymbol(m, s, i, values, bytes, buffer, bitsLeft);
    values' := values + [value];
    // The shift leaves the low five bits clear, so or-ing the value in adds it.
    buffer' := ShiftLeft(buffer, 5) + value;
    stop, bytes', bitsLeft' := Flush(m, s, i + 1, values', bytes, buffer', bitsLeft + 5, capacity);
  }

  /** Writes the next byte once eight bits are held; a byte due when the
      array is full stops decoding with `IndexOutOfRangeException`. */
  method Flush(m: map<char, nat>, s: string, i: nat, ghost values: seq<nat>,
               bytes: seq<byte>, buffer: int, bitsLeft: nat, capacity: nat)
    returns (stop: Option<Result<seq<byte>, Exception>>, bytes': seq<byte>, bitsLeft': nat)
    requires Decoded(m, s, i, values, bytes, buffer, bitsLeft) && bitsLeft < 13
    requires |bytes| <= capacity
    ensures stop.Some? ==> stop.value == DecodingWithin(m, s, capacity)
    ensures stop.None? ==> Decoded(m, s, i, values, bytes', buffer, bitsLeft') && bitsLeft' < 8
    ensures stop.None? ==> |bytes'| <= capacity
  {
    if bitsLeft < 8 {
      return None, bytes, bitsLeft;
    }
    if |bytes| == capacity {
      WritePastEnd(m, s, i, values, bytes, buffer, bitsLeft);
      return Some(Failure(IndexOutOfRange)), bytes, bitsLeft;
    }
    EmitByte(m, s, i, values, bytes, buffer, bitsLeft);
    return None, bytes + [LowBits(ShiftRight(buffer, bitsLeft - 8), 8)], bitsLeft - 8;
  }

  /** The loop's state after `i` symbols: their values are `values`, the
      bytes written are the whole bytes of their bits, and the low `bitsLeft`
      bits of `buffer` are the bits after those bytes. */
  ghost predicate Decoded(m: map<char, nat>, s: string, i: nat, values: seq<nat>,
                          bytes: seq<byte>, buffer: int, bitsLeft: nat)
  {
    && i <= |s|
    && SymbolValues(m, s[..i]) == Success(values)
    && |Pack(values, 5)| == 8 * |bytes| + bitsLeft == 5 * i
    && Holds(buffer, Pack(values, 5)[8 * |bytes| ..])
    && BytesOf(values, bytes)
  }

  /** Each byte written is the matching whole byte of the values' bits. */
  ghost predicate BytesOf(values: seq<nat>, bytes: seq<byte>) {
    && 8 * |bytes| <= |Pack(values, 5)|
    && forall j :: 0 <= j < |bytes| ==> bytes[j] == BitsValue(Pack(values, 5)[8 * j .. 8 * j + 8])
  }

  lemma DecodeStart(m: map<char, nat>, s: string)
    ensures Decoded(m, s, 0, [], [], 0, 0)
  {
    assert s[..0] == [];
  }

  /** Shifting symbol `i` in extends the values and the held bits. */
  lemma ShiftSymbol(m: map<char, nat>, s: string, i: nat, values: seq<nat>,
                    bytes: seq<byte>, buffer: int, bitsLeft: nat)
    requires forall c :: c in m ==> m[c] < 32
    requires Decoded(m, s, i, values, bytes, buffer, bitsLeft) && bitsLeft < 8
    requires i < |s| && s[i] in m
    ensures Decoded(m, s, i + 1, values + [m[s[i]]], bytes, ShiftLeft(buffer, 5) + m[s[i]], bitsLeft + 5)
  {
    var value := m[s[i]];
    ValuesStep(m, s, i, values);
    ShiftValue(values, value, |bytes|, bitsLeft, buffer);
    BytesOfStep(values, value, bytes);
  }

  lemma ValuesStep(m: map<char, nat>, s: string, i: nat, values: seq<nat>)
    requires i < |s| && s[i] in m && SymbolValues(m, s[..i]) == Success(values)
    ensures SymbolValues(m, s[..i + 1]) == Success(values + [m[s[i]]])
  {
    assert s[..i + 1][..i] == s[..i];
  }

  /** The five bits of the next value join the held bits. */
  lemma ShiftValue(values: seq<nat>, value: nat, done: nat, held: nat, buffer: int)
    requires value < 32 && held < 8 && |Pack(values, 5)| == 8 * done + held
    requires Holds(buffer, Pack(values, 5)[8 * done ..])
    ensures Holds(ShiftLeft(buffer, 5) + value, Pack(values + [value], 5)[8 * done ..])
  {
    PackAppend(values, value, 5);
    ShiftFive(buffer, Pack(values, 5), Pack(values + [value], 5), 8 * done, value);
  }

  /** `(buffer << 5) | value` appends the value's five bits to the held
      tail `bits[from ..]`. */
  lemma ShiftFive(buffer: int, bits: seq<bit>, bits': seq<bit>, from: nat, value: nat)
    requires from <= |bits| && |bits| - from + 5 <= 32 && value < 32
    requires bits' == bits + FromNat(value, 5)
    requires Holds(buffer, bits[from ..])
    ensures Holds(ShiftLeft(buffer, 5) + value, bits'[from ..])
  {
    Pow2Constants();
    ShiftInTail(buffer, bits, bits', from, 5, value);
  }

  /** Bytes already written stay whole bytes of the longer bit string. */
  lemma BytesOfStep(values: seq<nat>, value: nat, bytes: seq<byte>)
    requires BytesOf(values, bytes)
    ensures BytesOf(values + [value], bytes)
  {
    PackAppend(values, value, 5);
    forall j | 0 <= j < |bytes|
      ensures bytes[j] == BitsValue(Pack(values + [value], 5)[8 * j .. 8 * j + 8])
    {
      SliceOfPrefix(Pack(values, 5), FromNat(value, 5), 8 * j, 8 * j + 8);
    }
  }

  /** Writing the top eight held bits as the next byte. */
  lemma EmitByte(m: map<char, nat>, s: string, i: nat, values: seq<nat>,
                 bytes: seq<byte>, buffer: int, held: nat)
    requires Decoded(m, s, i, values, bytes, buffer, held) && 8 <= held < 13
    ensures Decoded(m, s, i, values, bytes + [LowBits(ShiftRight(buffer, held - 8), 8)], buffer, held - 8)
  {
    var b := LowBits(ShiftRight(buffer, held - 8), 8);
    TakeByte(buffer, Pack(values, 5), 8 * |bytes|, held, 8 * |bytes + [b]|);
    BytesOfAppend(values, bytes, b);
  }

  /** `(byte)(buffer >> (held - 8))` is the top byte of the held tail
      `bits[from ..]`, and the tail after it stays held. */
  lemma TakeByte(buffer: int, bits: seq<bit>, from: nat, held: nat, from': nat)
    requires 8 <= held && from + held == |bits| && from' == from + 8
    requires Holds(buffer, bits[from ..])
    ensures LowBits(ShiftRight(buffer, held - 8), 8) < 256
    ensures LowBits(ShiftRight(buffer, held - 8), 8) == BitsValue(bits[from .. from + 8])
    ensures Holds(buffer, bits[from' ..])
  {
    Pow2Constants();
    TakeTopTail(buffer, bits, from, held, 8, from');
  }

  lemma BytesOfAppend(values: seq<nat>, bytes: seq<byte>, b: byte)
    requires BytesOf(values, bytes) && 8 * |bytes| + 8 <= |Pack(values, 5)|
    requires b == BitsValue(Pack(values, 5)[8 * |bytes| .. 8 * |bytes| + 8])
    ensures BytesOf(values, bytes + [b])
  {
    var bytes' := bytes + [b];
    forall j | 0 <= j < |bytes'|
      ensures bytes'[j] == BitsValue(Pack(values, 5)[8 * j .. 8 * j + 8])
    {
      if j < |bytes| {
        assert bytes'[j] == bytes[j];
      }
    }
  }

  /** A symbol outside the map ends decoding with the error for it; no
      write past the array's end came first. */
  lemma DecodeInvalid(m: map<char, nat>, s: string, i: nat, values: seq<nat>,
                      bytes: seq<byte>, buffer: int, bitsLeft: nat, capacity: nat)
    requires Decoded(m, s, i, values, bytes, buffer, bitsLeft) && bitsLeft < 8
    requires |bytes| <= capacity
    requires i < |s| && s[i] !in m
    ensures DecodingWithin(m, s, capacity) == Failure(InvalidCharacter("base32String", s[i]))
  {
    assert s[..i + 1][..i] == s[..i];
    PrefixFailure(m, s, i + 1);
    var at := WriteAt(capacity);
    if at <= |s| {
      assert s[..at][..i + 1] == s[..i + 1];
      PrefixFailure(m, s[..at], i + 1);
    }
  }

  /** A byte due once the array is full: the symbols read so far are all
      in the map and reach the write at index `|bytes|`. */
  lemma WritePastEnd(m: map<char, nat>, s: string, i: nat, values: seq<nat>,
                     bytes: seq<byte>, buffer: int, held: nat)
    requires Decoded(m, s, i, values, bytes, buffer, held) && 8 <= held
    ensures DecodingWithin(m, s, |bytes|) == Failure(IndexOutOfRange)
  {
    var at := WriteAt(|bytes|);
    assert s[..at] == s[..i][..at];
  }

  /** After the last symbol the bytes written are the decoding. */
  lemma DecodeDone(m: map<char, nat>, s: string, values: seq<nat>,
                   bytes: seq<byte>, buffer: int, bitsLeft: nat, capacity: nat)
    requires Decoded(m, s, |s|, values, bytes, buffer, bitsLeft) && bitsLeft < 8
    requires |bytes| <= capacity
    ensures DecodingWithin(m, s, capacity) == Success(bytes)
  {
    assert s[..|s|] == s;
    WholeBytes(values, bytes, bitsLeft);
  }

  lemma WholeBytes(values: seq<nat>, bytes: seq<byte>, bitsLeft: nat)
    requires BytesOf(values, bytes) && |Pack(values, 5)| == 8 * |bytes| + bitsLeft && bitsLeft < 8
    ensures Unpack(Pack(values, 5), 8) == bytes
  {
    var packed := Pack(values, 5);
    var u := Unpack(packed, 8);
    DivModUnique(|packed|, 8, |bytes|, bitsLeft);
    UnpackLength(packed, 8);
    forall j | 0 <= j < |bytes|
      ensures u[j] == bytes[j]
    {
      UnpackAt(packed, 8, j);
    }
  }

  /** A symbol missing from the map makes the whole string fail the same way. */
  lemma {:induction false} PrefixFailure(m: map<char, nat>, s: string, i: nat)
    requires i <= |s| && SymbolValues(m, s[..i]).Failure?
    ensures SymbolValues(m, s) == SymbolValues(m, s[..i])
    decreases |s| - i
  {
    if i < |s| {
      assert s[..i + 1][..i] == s[..i];
      PrefixFailure(m, s, i + 1);
    } else {
      assert s[..i] == s;
    }
  }


}
