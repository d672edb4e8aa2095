/** The password envelope of `src/KingUtils/CryptoHelper.cs`.

    `EncryptBytes` derives 48 bytes from the password, salt and iteration
    count with PBKDF2, uses the first 32 as an AES key and the last 16 as the
    IV, and writes the ciphertext, the salt and the iteration count, each in
    Crockford's Base32, joined by the letter 'L', which that alphabet never
    uses. `DecryptBytes` splits on 'L' and undoes each step.

    The primitives themselves (PBKDF2, AES-CBC, the random salt) are not
    modelled: they are passed in as functions, and the salt is an argument. */
module CryptoHelper {
  import opened Wrappers
  import opened Bits
  import opened Base32Encoder
  import opened Base32Alphabet
  import opened Base32Laws

  /** Separates the three fields of an envelope. */
  const Delimiter: char := 'L'

  /** The name of the hash PBKDF2 runs with; the envelope does not record
      it, so the caller supplies it again when decrypting. */
  datatype HashAlgorithmName = HashAlgorithmName(name: string)

  /** What PBKDF2 is asked for: 48 bytes of key material. */
  type Material = s: seq<byte> | |s| == 48 witness Zeros48()

  function Zeros48(): (z: seq<byte>)
    ensures |z| == 48
  {
    seq(48, _ => 0)
  }

  /** The cryptographic primitives the helper calls. A failure inside one
      (an iteration count PBKDF2 refuses, a ciphertext whose padding does not
      check) is a `Failure`. */
  datatype Primitives = Primitives(
    pbkdf2: (string, seq<byte>, int32, HashAlgorithmName) -> Result<Material, Exception>,
    encryptCbc: (seq<byte>, seq<byte>, seq<byte>) -> seq<byte>,
    decryptCbc: (seq<byte>, seq<byte>, seq<byte>) -> Result<seq<byte>, Exception>)
  {
    /** AES-CBC decryption undoes encryption of `data` under the key and
        IV cut from `material`. */
    predicate DecryptInvertsAt(material: Material, data: seq<byte>) {
      decryptCbc(material[..32], material[32..], encryptCbc(material[..32], material[32..], data)) == Success(data)
    }
  }

  // ---------------------------------------------------------------------
  // Key and IV.
  // ---------------------------------------------------------------------

  /** `GetKeyAndIV`: the key is bytes [0, 32) of the derived material and
      the IV bytes [32, 48). */
  function GetKeyAndIV(p: Primitives, password: string, salt: seq<byte>, iterations: int32,
                       hash: HashAlgorithmName): (r: Result<(seq<byte>, seq<byte>), Exception>)
    ensures r.Success? <==> p.pbkdf2(password, salt, iterations, hash).Success?
    ensures r.Success? ==>
      var (key, iv) := r.value;
      && |key| == 32 && |iv| == 16
      && key + iv == p.pbkdf2(password, salt, iterations, hash).value
  {
    var material :- p.pbkdf2(password, salt, iterations, hash);
    assert material == material[0..32] + material[32..48];
    Success((material[0..32], material[32..48]))
  }

  // ---------------------------------------------------------------------
  // The iteration count as bytes.
  // ---------------------------------------------------------------------

  const Word: int := 0x1_0000_0000

  /** `BitConverter.GetBytes(int)` on a little-endian machine: the value's
      two's-complement bits, least significant byte first. The code reverses
      the bytes on a big-endian machine, so the result is the same on both. */
  function LittleEndian(v: int32): (b: seq<byte>)
    ensures |b| == 4
  {
    var u: int := if v < 0 then v + Word else v;
    [u % 256, u / 256 % 256, u / 0x1_0000 % 256, u / 0x100_0000 % 256]
  }

  /** `BitConverter.ToInt32` on four little-endian bytes. */
  function FromLittleEndian(b: seq<byte>): (v: int32)
    requires |b| == 4
  {
    var u := Unsigned(b);
    if u >= 0x8000_0000 then u - Word else u
  }

  /** Four little-endian bytes read as an unsigned number. */
  function Unsigned(b: seq<byte>): (u: int)
    requires |b| == 4
    ensures 0 <= u < Word
  {
    var b0, b1, b2, b3: int := b[0], b[1], b[2], b[3];
    b0 + 256 * b1 + 0x1_0000 * b2 + 0x100_0000 * b3
  }

  /** Reading back the four bytes of a value gives the value. */
  lemma LittleEndianRoundTrip(v: int32)
    ensures FromLittleEndian(LittleEndian(v)) == v
  {
    var u: int := if v < 0 then v + Word else v;
    Digits(u);
  }

  /** A word is the sum of its four bytes. */
  lemma Digits(u: int)
    requires 0 <= u < Word
    ensures u == u % 256 + 256 * (u / 256 % 256) + 0x1_0000 * (u / 0x1_0000 % 256)
                 + 0x100_0000 * (u / 0x100_0000 % 256)
  {
    var q1, q2, q3 := u / 256, u / 0x1_0000, u / 0x100_0000;
    DivThenMod(u, 256, 256);
    DivThenMod(u, 0x1_0000, 256);
    assert q3 < 256;
    assert u == u % 256 + 256 * q1;
    assert q1 == q1 % 256 + 256 * q2;
    assert q2 == q2 % 256 + 256 * q3;
  }

  /** `Array.FindLastIndex(bytes, b => b != 0)`: the index of the last
      non-zero byte, or -1 when there is none. */
  function LastNonZero(b: seq<byte>): (k: int)
    ensures -1 <= k < |b|
    ensures k >= 0 ==> b[k] != 0
    ensures forall j :: k < j < |b| ==> b[j] == 0
  {
    if |b| == 0 then -1
    else if b[|b| - 1] != 0 then |b| - 1
    else LastNonZero(b[..|b| - 1])
  }

  /** `ConvertIntToByteArrayEndianAgnostic`: the four little-endian bytes
      with the trailing zero bytes dropped; zero keeps all four. */
  function IntToBytes(v: int32): (b: seq<byte>)
    ensures 1 <= |b| <= 4
    ensures b == LittleEndian(v)[..|b|]
    ensures forall j :: |b| <= j < 4 ==> LittleEndian(v)[j] == 0
    ensures v == 0 <==> b == [0, 0, 0, 0]
    ensures v != 0 ==> b[|b| - 1] != 0
  {
    var bytes := LittleEndian(v);
    var length := LastNonZero(bytes) + 1;
    if length <= 0 then bytes else bytes[..length]
  }

  /** `ConvertByteArrayToIntEndianAgnostic`: the bytes are copied into a
      four-byte array, so a shorter array is zero-extended and a longer one
      makes `Array.Copy` throw. */
  function BytesToInt(b: seq<byte>): (r: Result<int32, Exception>)
    ensures |b| > 4 <==> r == Failure(Argument("destinationArray"))
    ensures r.Success? ==> LittleEndian(r.value) == b + seq(4 - |b|, _ => 0)
  {
    if |b| > 4 then Failure(Argument("destinationArray"))
    else
      var working := b + seq(4 - |b|, _ => 0);
      ToInt32Inverts(working);
      Success(FromLittleEndian(working))
  }

  /** Every four bytes are the little-endian bytes of the value they spell. */
  lemma ToInt32Inverts(b: seq<byte>)
    requires |b| == 4
    ensures LittleEndian(FromLittleEndian(b)) == b
  {
    var u := Unsigned(b);
    assert (if FromLittleEndian(b) < 0 then FromLittleEndian(b) + Word else FromLittleEndian(b)) == u;
    UnsignedBytes(b[0], b[1], b[2], b[3]);
    assert b == [b[0], b[1], b[2], b[3]];
  }

  /** The bytes of `b0 + 256 b1 + 65536 b2 + 16777216 b3`. */
  lemma UnsignedBytes(b0: byte, b1: byte, b2: byte, b3: byte)
    ensures var u: int := b0 + 256 * b1 + 0x1_0000 * b2 + 0x100_0000 * b3;
      && u % 256 == b0 && u / 256 % 256 == b1
      && u / 0x1_0000 % 256 == b2 && u / 0x100_0000 % 256 == b3
  {
    var u: int := b0 + 256 * b1 + 0x1_0000 * b2 + 0x100_0000 * b3;
    var hi: int := b1 + 256 * b2 + 0x1_0000 * b3;
    var top: int := b2 + 256 * b3;
    DivModUnique(u, 256, hi, b0);
    DivModUnique(hi, 256, top, b1);
    DivModUnique(top, 256, b3, b2);
    DivThenMod(u, 256, 256);
    DivThenMod(u, 0x1_0000, 256);
  }

  /** The iteration count survives the trip through its bytes. */
  lemma IterationsRoundTrip(v: int32)
    ensures BytesToInt(IntToBytes(v)) == Success(v)
  {
    var b, le := IntToBytes(v), LittleEndian(v);
    assert b + seq(4 - |b|, _ => 0) == le;
    LittleEndianRoundTrip(v);
  }

  // ---------------------------------------------------------------------
  // `string.Split` and `string.Join` on one character.
  // ---------------------------------------------------------------------

  /** `s.Split(d)`: the pieces between occurrences of `d`, empty ones
      included; there is always at least one. */
  function Split(s: string, d: char): (parts: seq<string>)
    ensures |parts| >= 1
    decreases |s|
  {
    if |s| == 0 then [""]
    else
      var rest := Split(s[1..], d);
      if s[0] == d then [""] + rest else [[s[0]] + rest[0]] + rest[1..]
  }

  /** `string.Join(d, parts)`. */
  function Join(parts: seq<string>, d: char): (s: string)
    requires |parts| >= 1
    decreases |parts|
  {
    if |parts| == 1 then parts[0] else parts[0] + [d] + Join(parts[1..], d)
  }

  /** No piece of a split contains the delimiter. */
  lemma {:induction false} SplitPieces(s: string, d: char)
    ensures forall i :: 0 <= i < |Split(s, d)| ==> d !in Split(s, d)[i]
    decreases |s|
  {
    if |s| > 0 {
      SplitPieces(s[1..], d);
    }
  }

  /** Joining the pieces of a split gives the string back. */
  lemma {:induction false} JoinSplit(s: string, d: char)
    ensures Join(Split(s, d), d) == s
    decreases |s|
  {
    if |s| > 0 {
      var rest := Split(s[1..], d);
      JoinSplit(s[1..], d);
      if s[0] != d && |rest| > 1 {
        assert ([[s[0]] + rest[0]] + rest[1..])[1..] == rest[1..];
        assert rest[1..][1..] == rest[2..];
        assert Join(rest, d) == rest[0] + [d] + Join(rest[1..], d);
      }
    }
  }

  /** Splitting pieces joined by a delimiter none of them contains gives
      the pieces back. */
  lemma {:induction false} SplitJoin(parts: seq<string>, d: char)
    requires |parts| >= 1
    requires forall i :: 0 <= i < |parts| ==> d !in parts[i]
    ensures Split(Join(parts, d), d) == parts
    decreases |parts|
  {
    if |parts| == 1 {
      SplitPlain(parts[0], d);
    } else {
      SplitJoin(parts[1..], d);
      SplitAfterPiece(parts[0], Join(parts[1..], d), d);
      assert [parts[0]] + parts[1..] == parts;
    }
  }

  /** A string without the delimiter splits into itself. */
  lemma {:induction false} SplitPlain(s: string, d: char)
    requires d !in s
    ensures Split(s, d) == [s]
    decreases |s|
  {
    if |s| > 0 {
      SplitPlain(s[1..], d);
      assert [s[0]] + s[1..] == s;
    }
  }

  /** A piece without the delimiter, the delimiter, then the rest. */
  lemma {:induction false} SplitAfterPiece(piece: string, rest: string, d: char)
    requires d !in piece
    ensures Split(piece + [d] + rest, d) == [piece] + Split(rest, d)
    decreases |piece|
  {
    var s := piece + [d] + rest;
    if |piece| == 0 {
      assert s[1..] == rest;
    } else {
      assert s[1..] == piece[1..] + [d] + rest;
      SplitAfterPiece(piece[1..], rest, d);
      assert [piece[0]] + piece[1..] == piece;
    }
  }

  // ---------------------------------------------------------------------
  // The envelope.
  // ---------------------------------------------------------------------

  /** `Base32.Crockford.Encode(bytes)`: it fails only where the encoder's
      capacity wraps, and it never writes the delimiter. */
  function Crockford32(bytes: seq<byte>): (r: Result<string, Exception>)
    ensures r.Failure? <==> CapacityWraps(|bytes|)
    ensures r.Failure? ==> r.error == ArgumentOutOfRange("capacity")
    ensures r.Success? ==> r.value == Encoding(Crockford, bytes) && Delimiter !in r.value
  {
    CrockfordLayout();
    EncodingSymbols(Crockford, bytes);
    EncodeChecked(CrockfordEncoder().alphabet, bytes)
  }

  /** The three fields of an envelope, encoded in the order they are
      written; the iteration count's four bytes at most never fail. */
  function Fields(encrypted: seq<byte>, salt: seq<byte>, iterations: int32): (r: Result<seq<string>, Exception>)
    ensures r.Success? <==> !CapacityWraps(|encrypted|) && !CapacityWraps(|salt|)
    ensures r.Failure? ==> r.error == ArgumentOutOfRange("capacity")
    ensures r.Success? ==> var fields := r.value;
      && fields == [Encoding(Crockford, encrypted), Encoding(Crockford, salt),
                    Encoding(Crockford, IntToBytes(iterations))]
      && forall i :: 0 <= i < 3 ==> Delimiter !in fields[i]
  {
    var data :- Crockford32(encrypted);
    var salt :- Crockford32(salt);
    var iterationsBytes := IntToBytes(iterations);
    var count :- Crockford32(iterationsBytes);
    Success([data, salt, count])
  }

  /** `EncryptBytes` with the random salt supplied: it fails when PBKDF2
      does, or else when a field is too long to encode; otherwise the
      string splits on the delimiter into exactly the encoded fields. */
  function EncryptBytes(p: Primitives, data: seq<byte>, password: string, salt: seq<byte>,
                        iterations: int32, hash: HashAlgorithmName): (r: Result<string, Exception>)
    ensures p.pbkdf2(password, salt, iterations, hash).Failure? ==>
      r == Failure(p.pbkdf2(password, salt, iterations, hash).error)
    ensures p.pbkdf2(password, salt, iterations, hash).Success? ==>
      var material := p.pbkdf2(password, salt, iterations, hash).value;
      var fields := Fields(p.encryptCbc(material[..32], material[32..], data), salt, iterations);
      && (r.Success? <==> fields.Success?)
      && (r.Failure? ==> r.error == ArgumentOutOfRange("capacity"))
      && (r.Success? ==> Split(r.value, Delimiter) == fields.value)
  {
    var keyAndIV :- GetKeyAndIV(p, password, salt, iterations, hash);
    var encrypted := p.encryptCbc(keyAndIV.0, keyAndIV.1, data);
    var fields :- Fields(encrypted, salt, iterations);
    SplitJoin(fields, Delimiter);
    Success(Join(fields, Delimiter))
  }

  /** `Base32.Crockford.Decode(segments[i])`, which fails with
      `IndexOutOfRangeException` when there are not that many segments
      (and, for a segment whose byte count wraps, from the decoder). */
  function DecodeSegment(segments: seq<string>, i: nat): (r: Result<seq<byte>, Exception>)
    ensures i >= |segments| ==> r == Failure(IndexOutOfRange)
    ensures i < |segments| ==> r == DecodeChecked(CrockfordEncoder(), segments[i])
  {
    if i >= |segments| then Failure(IndexOutOfRange)
    else DecodeChecked(CrockfordEncoder(), segments[i])
  }

  /** `DecryptBytes`: the value is split on the delimiter and its segments
      are read. A value needs at least two delimiters to decrypt. */
  function DecryptBytes(p: Primitives, value: string, password: string,
                        hash: HashAlgorithmName): (r: Result<seq<byte>, Exception>)
    ensures Delimiter !in value ==> r.Failure?
    ensures r.Success? ==> |Split(value, Delimiter)| >= 3
  {
    assert Delimiter !in value ==> Split(value, Delimiter) == [value] by {
      if Delimiter !in value {
        SplitPlain(value, Delimiter);
      }
    }
    DecryptSegments(p, Split(value, Delimiter), password, hash)
  }

  /** The fields are read in order: data, salt, then the iteration bytes.
      The first segment that is missing or does not decode decides the
      error; then a count of more than four bytes, then a PBKDF2 failure;
      otherwise the data segment is decrypted under the key and IV derived
      from the salt and count read back. */
  function DecryptSegments(p: Primitives, segments: seq<string>, password: string,
                           hash: HashAlgorithmName): (r: Result<seq<byte>, Exception>)
    ensures DecodeSegment(segments, 0).Failure? ==> r == Failure(DecodeSegment(segments, 0).error)
    ensures DecodeSegment(segments, 0).Success? && DecodeSegment(segments, 1).Failure? ==>
      r == Failure(DecodeSegment(segments, 1).error)
    ensures DecodeSegment(segments, 0).Success? && DecodeSegment(segments, 1).Success? &&
            DecodeSegment(segments, 2).Failure? ==>
      r == Failure(DecodeSegment(segments, 2).error)
    ensures DecodeSegment(segments, 0).Success? && DecodeSegment(segments, 1).Success? &&
            DecodeSegment(segments, 2).Success? ==>
      var data, salt, count := DecodeSegment(segments, 0).value, DecodeSegment(segments, 1).value,
                               DecodeSegment(segments, 2).value;
      && (|count| > 4 ==> r == Failure(Argument("destinationArray")))
      && (|count| <= 4 ==>
            var derived := p.pbkdf2(password, salt, BytesToInt(count).value, hash);
            && (derived.Failure? ==> r == Failure(derived.error))
            && (derived.Success? ==>
                  r == p.decryptCbc(derived.value[..32], derived.value[32..], data)))
  {
    var data :- DecodeSegment(segments, 0);
    var salt :- DecodeSegment(segments, 1);
    var iterationsBytes :- DecodeSegment(segments, 2);
    var iterations :- BytesToInt(iterationsBytes);
    var keyAndIV :- GetKeyAndIV(p, password, salt, iterations, hash);
    p.decryptCbc(keyAndIV.0, keyAndIV.1, data)
  }

  /** Decrypting an envelope gives the data back, whenever AES decryption
      undoes encryption under the derived key and IV and the salt and the
      ciphertext are shorter than 2^28 bytes: the salt and the iteration
      count are recovered exactly, so the same key and IV are derived
      again. */
  lemma EnvelopeRoundTrip(p: Primitives, data: seq<byte>, password: string, salt: seq<byte>,
                          iterations: int32, hash: HashAlgorithmName)
    requires p.pbkdf2(password, salt, iterations, hash).Success?
    requires p.DecryptInvertsAt(p.pbkdf2(password, salt, iterations, hash).value, data)
    requires |salt| < 0x1000_0000
    requires var material := p.pbkdf2(password, salt, iterations, hash).value;
      |p.encryptCbc(material[..32], material[32..], data)| < 0x1000_0000
    ensures EncryptBytes(p, data, password, salt, iterations, hash).Success?
    ensures DecryptBytes(p, EncryptBytes(p, data, password, salt, iterations, hash).value,
                         password, hash) == Success(data)
  {
    var material := p.pbkdf2(password, salt, iterations, hash).value;
    var encrypted := p.encryptCbc(material[..32], material[32..], data);
    FieldsDecrypt(p, encrypted, salt, iterations, password, hash);
  }

  /** Reading the fields back decodes each one exactly and derives the key
      and IV from the same salt and iteration count. */
  lemma FieldsDecrypt(p: Primitives, encrypted: seq<byte>, salt: seq<byte>, iterations: int32,
                      password: string, hash: HashAlgorithmName)
    requires p.pbkdf2(password, salt, iterations, hash).Success?
    requires |encrypted| < 0x1000_0000 && |salt| < 0x1000_0000
    ensures Fields(encrypted, salt, iterations).Success?
    ensures var material := p.pbkdf2(password, salt, iterations, hash).value;
      DecryptSegments(p, Fields(encrypted, salt, iterations).value, password, hash)
        == p.decryptCbc(material[..32], material[32..], encrypted)
  {
    var fields := Fields(encrypted, salt, iterations).value;
    FieldDecodes(fields, 0, encrypted);
    FieldDecodes(fields, 1, salt);
    FieldDecodes(fields, 2, IntToBytes(iterations));
    IterationsRoundTrip(iterations);
  }

  /** A field written from fewer than 2^28 bytes decodes to those bytes. */
  lemma FieldDecodes(fields: seq<string>, i: nat, bytes: seq<byte>)
    requires |bytes| < 0x1000_0000
    requires i < |fields| && fields[i] == Encoding(Crockford, bytes)
    ensures DecodeSegment(fields, i) == Success(bytes)
  {
    CrockfordLayout();
    CheckedRoundTrip(CrockfordEncoder(), bytes);
  }

  /** Segments after the third are never read. */
  lemma ExtraSegmentsIgnored(p: Primitives, segments: seq<string>, password: string,
                             hash: HashAlgorithmName)
    requires |segments| >= 3
    ensures DecryptSegments(p, segments, password, hash) ==
            DecryptSegments(p, segments[..3], password, hash)
  {
  }

  /** With fewer than three segments decryption fails: with the error of
      the first segment that does not decode, or else with
      `IndexOutOfRangeException`. */
  lemma TooFewSegments(p: Primitives, segments: seq<string>, password: string,
                       hash: HashAlgorithmName)
    requires |segments| < 3
    ensures DecryptSegments(p, segments, password, hash).Failure?
    ensures (forall i :: 0 <= i < |segments| ==> DecodeChecked(CrockfordEncoder(), segments[i]).Success?)
              ==> (DecryptSegments(p, segments, password, hash) == Failure(IndexOutOfRange))
  {
  }
}
