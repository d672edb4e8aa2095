# KingUtils core, modelled in Dafny

This project models the core of KingUtils, a small .NET utility library. It covers:

- **Base32.** The `Base32Encoder` class is built from any 32-symbol alphabet. The `Base32Alphabet` presets are RFC 4648, Crockford and word-safe, and `Base32` caches one encoder per preset.
- **Base16.** `Base16` (upper case) and the lower-case `ToHexString` extension.
- **The password envelope of `CryptoHelper`.**
  - PBKDF2 derives a 48-byte key and IV.
  - AES-CBC encrypts the data.
  - The ciphertext, the salt and the iteration count are each written in Crockford Base32 and joined by `L`.
- **Collection and string helpers.** `StringExtensions.Truncate`, `EnumerableExtensions.Chunk` and its iterator, and `GetValueOrDefault` on `IDictionary` and `IReadOnlyDictionary`.
- **Human-readable durations.**
  - `TimeUnit`.
  - `HumanReadableDateAndTimeExtensions.ToHumanReadableString(TimeSpan, precision, minUnit, maxUnit)`, its `IsInRange` helper, and the "ago" / "from now" suffixes of `ToRelativeHumanReadableString`.
  - The older `TimeSpanExtensions.ToHumanReadableString(TimeSpan, maxGranularity)`.

How the C# is modelled:

- A nullable reference argument is an `Option`.
- A thrown exception is the `Failure` case of a `Result`, whose `Exception` value names the exception type and the `ParamName` it carries. The one `ArgumentException` the code builds from a message alone (`Base32Encoder`'s length check) carries that message instead.
- Byte arrays are `seq<byte>`.
- Dictionaries are `map`s.
- `IEnumerable` sources are sequences.

The loops of the code are modelled as methods with loop invariants that follow the code's own buffer arithmetic: the Base32 bit buffer, the `StringBuilder` loop of `Base16.Encode`, and the `do`/`while` loops of `ChunkIterator`. Each method is proved equal to a functional definition. The laws are then stated about those definitions:

- decoding undoes encoding;
- chunks concatenate back to the source;
- a duration's parts add up to the whole.

The two duration formatters share one greedy walk over the units, `Durations.Greedy`. `Durations.Size` holds the seconds-per-unit constants of `HumanReadableDateAndTimeExtensions` and the minutes-per-unit constants of `TimeSpanExtensions`.

The envelope that `CryptoHelper.EncryptBytes` writes:

- It has three fields: the ciphertext, the salt and the iteration bytes, each in Crockford Base32, joined by `L`.
- The hash algorithm is not recorded; the reader passes it in again.
- A zero iteration count is written as four zero bytes.

The C# sizes are `int`s. The model computes them with 32-bit wrap-around where the code multiplies a length:

- `Base32Encoder.Encode` asks for a `StringBuilder` capacity of `(8n + 4) / 5`. That wraps negative for 2^28 to 2^29 - 2 bytes, and the constructor throws `ArgumentOutOfRangeException`.
- `Base32Encoder.Decode` allocates `5n / 8` bytes. When `5n` wraps negative, the allocation throws `OverflowException`. When `5n` wraps to a small positive number, the array is too short and the loop's first write past its end throws `IndexOutOfRangeException`. So 2^29 bytes encode, but the text does not decode (`Base32Laws.RoundTripOverflow`).
- `Base16.Encode` asks for a capacity of `2n`, which wraps negative from 2^30 bytes on.

## Model

| member | source | states |
|---|---|---|
| Base32Encoder.NewEncoder | src/KingUtils/Base32Encoder.cs:20-39 | a null alphabet is `ArgumentNullException("alphabet")`; a length other than 32 is an `ArgumentException` whose message is "alphabet" and whose `ParamName` is null; otherwise the encoder keeps the alphabet and its symbol map |
| Base32Encoder.SymbolMapAt | src/KingUtils/Base32Encoder.cs:34-38 | a character is in the map built by the constructor's loop exactly when it occurs in the alphabet, and it maps to the last position where it occurs |
| Base32Encoder.SymbolMapInverts | src/KingUtils/Base32Encoder.cs:34-38 | with distinct symbols the map sends symbol `i` back to `i` |
| Base32Encoder.Encode | src/KingUtils/Base32Encoder.cs:93-106 | a null array is `ArgumentNullException("bytes")`; a length whose capacity wraps negative is `ArgumentOutOfRangeException("capacity")`, and only such a length; otherwise the result is the encoding: the input's bits, zero-padded to whole 5-bit groups, each group spelled by the alphabet |
| Base32Encoder.EncodeSpan | src/KingUtils/Base32Encoder.cs:47-55 | the span overload fails exactly where the capacity wraps, with the same exception, and otherwise computes the same encoding |
| Base32Encoder.EncodeBytes | src/KingUtils/Base32Encoder.cs:108-133 | the 32-bit shifting buffer loop, including the final padding shift, writes the encoding, one symbol per 5-bit group of the zero-padded bits |
| Base32Encoder.Decode | src/KingUtils/Base32Encoder.cs:143-180 | a null string is `ArgumentNullException("base32String")`; otherwise the result is what the checked decoding gives, with the code's `int` byte count |
| Base32Encoder.DecodeSymbols | src/KingUtils/Base32Encoder.cs:155-179 | the shift-in loop, filling an array of the computed byte count, gives the decoding within that array: the first symbol outside the alphabet stops it with the invalid-character `ArgumentException`, and a write past the end is `IndexOutOfRangeException` |
| Base32Encoder.DecodeStep | src/KingUtils/Base32Encoder.cs:162-177 | one turn of the loop either keeps the loop's state (the bytes written are the whole bytes of the symbols read, fewer than 8 bits held, no write past the end) or stops with the outcome of the whole decoding |
| Base32Encoder.Flush | src/KingUtils/Base32Encoder.cs:172-176 | with 8 or more bits held the top byte is written, unless the array is full, which is the `IndexOutOfRangeException` of the whole decoding |
| Base32Encoder.Decoding | src/KingUtils/Base32Encoder.cs:158-179 | with an array large enough, decoding succeeds exactly when every symbol is in the alphabet, then gives `len * 5 / 8` bytes; otherwise it fails on the first symbol not in the alphabet, and every earlier symbol is in it |
| Base32Encoder.SymbolValues | src/KingUtils/Base32Encoder.cs:162-170 | the values of the symbols in order, or the error for the first symbol missing from the map |
| Base32Encoder.PrefixFailure | src/KingUtils/Base32Encoder.cs:162-167 | once a prefix fails, the whole string fails with the same error |
| Base32Encoder.CapacityNegative | src/KingUtils/Base32Encoder.cs:54-55 | the `int` capacity `(8n + 4) / 5` is negative exactly for the lengths 2^28 to 2^29 - 2 modulo 2^29 (the window repeats because the sum wraps at 32 bits, and at 2^29 - 1 the wrapped sum is -4, whose quotient truncates to 0) |
| Base32Encoder.OutputCapacityFits | src/KingUtils/Base32Encoder.cs:105 | below 2^28 bytes the capacity does not wrap and is the number of symbols written |
| Base32Encoder.ByteCountBound | src/KingUtils/Base32Encoder.cs:155 | the `int` byte count never exceeds the whole bytes the symbols carry, and is exactly that count while `5n` fits an `int` |
| Base32Encoder.WriteAt | src/KingUtils/Base32Encoder.cs:169-174 | the symbol count at which byte `k` is written: the first whose 5-bit groups reach `8(k + 1)` bits |
| Base32Encoder.DecodingWithin | src/KingUtils/Base32Encoder.cs:156-179 | filling an array of a given size: a string too short to reach a write past the end decodes as usual; otherwise it is `IndexOutOfRangeException` exactly when every symbol before that write is in the alphabet; no other outcome differs from the plain decoding |
| Base32Encoder.EncodeChecked | src/KingUtils/Base32Encoder.cs:100-106 | a non-null array fails exactly where the capacity wraps, with `ArgumentOutOfRangeException("capacity")`, and otherwise gives the encoding |
| Base32Encoder.DecodeChecked | src/KingUtils/Base32Encoder.cs:150-156 | a non-null string: empty gives no bytes; a negative byte count is `OverflowException`; any difference from the plain decoding is one of those two failures, and there is none while `5n` fits an `int`; a success has the byte count's length |
| Base32Encoder.WritePastEnd | src/KingUtils/Base32Encoder.cs:172-174 | a byte due when the array is full is the `IndexOutOfRangeException` of the decoding within that array |
| Base32Encoder.DecodeInvalid | src/KingUtils/Base32Encoder.cs:164-167 | a symbol outside the alphabet, met before the array is full, ends the decoding with the invalid-character error for it |
| Base32Laws.RoundTrip | src/KingUtils/Base32Encoder.cs:93-180 | for an encoder with distinct symbols, decoding the encoding of any bytes gives the bytes back |
| Base32Laws.CheckedRoundTrip | src/KingUtils/Base32Encoder.cs:93-180 | below 2^28 bytes `Encode` succeeds with the code's `int` sizes, and `Decode` gives the bytes back |
| Base32Laws.RoundTripOverflow | src/KingUtils/Base32Encoder.cs:155 | at 2^29 bytes `Encode` succeeds, but the byte count of its text wraps to 0, so `Decode` fails with `IndexOutOfRangeException` |
| Base32Laws.SpelledValues | src/KingUtils/Base32Encoder.cs:130-132 | the symbols written map back to the 5-bit groups they were written for |
| Base32Laws.GroupsRepack | src/KingUtils/Base32Encoder.cs:112-133 | the groups written, packed back together, are the zero-padded input bits |
| Base32Laws.PaddingShort | src/KingUtils/Base32Encoder.cs:105 | the padding added to reach ceil(8n/5) symbols is less than one byte, so decoding drops it |
| Base32Laws.CaseMatters | src/KingUtils/Base32Encoder.cs:164-167 | symbol lookup is exact: `"a"` is refused by the RFC 4648 encoder with an invalid-character error, while `"A"` is accepted |
| Base32Laws.LossyDecode | src/KingUtils/Base32Encoder.cs:169-176 | trailing bits that do not make a byte are ignored: `"AB"` and `"AA"` both decode to one zero byte, although only `"AA"` is the encoding of it |
| Base32Alphabet.Rfc4648Layout | src/KingUtils/Base32Alphabet.cs:11 | the RFC 4648 alphabet is 32 distinct symbols: `A`-`Z`, then `2`-`7` |
| Base32Alphabet.CrockfordLayout | src/KingUtils/Base32Alphabet.cs:16 | Crockford's alphabet is 32 distinct symbols and omits `I`, `L`, `O` and `U` |
| Base32Alphabet.WordSafeLayout | src/KingUtils/Base32Alphabet.cs:21 | the word-safe alphabet is 32 distinct symbols |
| Base32Alphabet.PresetEncoder | src/KingUtils/Base32.cs:26-36 | each preset's constructor call succeeds and yields a valid encoder over that alphabet |
| Base32Alphabet.Rfc4648Encoder | src/KingUtils/Base32.cs:11 | the cached RFC 4648 encoder is valid and has distinct symbols |
| Base32Alphabet.CrockfordEncoder | src/KingUtils/Base32.cs:16 | the cached Crockford encoder is valid and has distinct symbols |
| Base32Alphabet.WordSafeEncoder | src/KingUtils/Base32.cs:21 | the cached word-safe encoder is valid and has distinct symbols |
| Base16.Encode | src/KingUtils/Base16.cs:16-30 | a null array is `ArgumentNullException("bytes")`, and only null; from 2^30 bytes the doubled capacity is negative and `ArgumentOutOfRangeException("capacity")`; below that it succeeds, with two upper-case hex digits per byte, high nibble first, whose values are the byte's nibbles |
| Base16.EncodeLoop | src/KingUtils/Base16.cs:23-29 | the `StringBuilder` loop, one `{0:X2}` per byte, gives the same text as `Encode` |
| Base16.Decode | src/KingUtils/Base16.cs:37-62 | null is `ArgumentNullException`; an odd length is `ArgumentException`, checked before the empty case; empty gives no bytes; success gives half as many bytes as characters |
| Base16.ParsePair | src/KingUtils/Base16.cs:57-58 | `byte.Parse` with `HexNumber` of two characters: two hex digits in either case give 16·hi + lo; it succeeds exactly when each side is a digit or white space (or, behind, a NUL) and at least one is a digit, a lone digit giving its own value; every failure is a `FormatException` |
| Base16.LoneDigit | src/KingUtils/Base16.cs:57-58 | a lone digit parses with a space in front or a NUL behind, and with any other non-digit in front only when it is white space; two non-digits never parse |
| Base16.DoubledLength | src/KingUtils/Base16.cs:23 | `bytes.Length * 2` in `int`: twice the length below 2^30, negative from 2^30 to the largest array |
| Base16.ParsePairsSpec | src/KingUtils/Base16.cs:54-59 | decoding succeeds exactly when every pair is two hex digits, and then byte `i` is the value of pair `i`; a failure is a `FormatException` |
| Base16.BadPairFails | src/KingUtils/Base16.cs:55-58 | one pair that is not hex fails the whole decode with `FormatException` |
| Base16.HexRoundTrip | src/KingUtils/Base16.cs:16-62 | decoding the digits written for any bytes, in upper or lower case, gives the bytes back |
| Base16.RoundTrip | src/KingUtils/Base16.cs:16-62 | below 2^30 bytes `Encode` succeeds and `Decode(Encode(b)) == b` |
| Base16.DigitValueExact | src/KingUtils/Base16.cs:58 | a character parses as a hex digit exactly when some nibble is written as it |
| ByteArrayExtensions.ToHexString | src/KingUtils/ByteArrayExtensions.cs:16-34 | a null array is `ArgumentNullException("bytes")`; otherwise there are two lower-case hex digits per byte, high nibble first |
| ByteArrayExtensions.LowerCaseOfBase16 | src/KingUtils/ByteArrayExtensions.cs:27-30 | wherever `Base16.Encode` succeeds, `ToHexString` is its text with the letters in lower case |
| ByteArrayExtensions.DecodeToHexString | src/KingUtils/ByteArrayExtensions.cs:16-34 | `Base16.Decode` undoes `ToHexString` |
| CryptoHelper.GetKeyAndIV | src/KingUtils/CryptoHelper.cs:107-113 | succeeds exactly when PBKDF2 does; the 32-byte key followed by the 16-byte IV is the 48 derived bytes |
| CryptoHelper.IntToBytes | src/KingUtils/CryptoHelper.cs:188-207 | the little-endian bytes of the count without trailing zeros; zero keeps all four zero bytes |
| CryptoHelper.BytesToInt | src/KingUtils/CryptoHelper.cs:175-186 | more than four bytes is an `ArgumentException` from `Array.Copy`; otherwise the bytes, zero-extended to four, are the little-endian bytes of the result |
| CryptoHelper.IterationsRoundTrip | src/KingUtils/CryptoHelper.cs:175-207 | any `int` iteration count, negative included, survives the trip through its bytes |
| CryptoHelper.LittleEndianRoundTrip | src/KingUtils/CryptoHelper.cs:185-190 | `ToInt32(GetBytes(v)) == v` |
| CryptoHelper.LastNonZero | src/KingUtils/CryptoHelper.cs:196 | `FindLastIndex(b != 0)`: -1 or the index of a non-zero byte with only zeros after it |
| CryptoHelper.SplitJoin | src/KingUtils/CryptoHelper.cs:33-36 | splitting pieces joined by a delimiter none of them contains gives the pieces back |
| CryptoHelper.JoinSplit | src/KingUtils/CryptoHelper.cs:64 | joining the pieces of a split gives the string back |
| CryptoHelper.Crockford32 | src/KingUtils/CryptoHelper.cs:14-16 | Crockford Base32 fails exactly where the capacity wraps, and its text never contains the delimiter `L` |
| CryptoHelper.Fields | src/KingUtils/CryptoHelper.cs:33-36 | the three fields are encoded exactly when neither the ciphertext's nor the salt's capacity wraps; they are the Base32 of the ciphertext, the salt and the iteration bytes, in that order, none containing the delimiter |
| CryptoHelper.EncryptBytes | src/KingUtils/CryptoHelper.cs:27-39 | a key derivation failure is returned as is; otherwise it succeeds exactly when the fields encode, and the text splits on `L` into the Base32 of the ciphertext, of the salt and of the iteration bytes |
| CryptoHelper.DecodeSegment | src/KingUtils/CryptoHelper.cs:64-67 | a missing segment is `IndexOutOfRangeException`; otherwise the segment is decoded by the Crockford encoder, with its `int` byte count |
| CryptoHelper.DecryptSegments | src/KingUtils/CryptoHelper.cs:65-73 | the errors come in the code's order: the first of segments 0, 1, 2 that is missing (`IndexOutOfRangeException`) or does not decode; then `ArgumentException("destinationArray")` for a count of more than four bytes; then a PBKDF2 failure; otherwise AES decryption of segment 0 under the key and IV derived from the salt and count read back |
| CryptoHelper.DecryptBytes | src/KingUtils/CryptoHelper.cs:62-74 | a value without the delimiter never decrypts, and a value that decrypts splits into at least three segments |
| CryptoHelper.EnvelopeRoundTrip | src/KingUtils/CryptoHelper.cs:27-74 | when key derivation succeeds, AES decryption undoes encryption of the data under the derived key and IV, and the salt and ciphertext are below 2^28 bytes, encryption succeeds, and decrypting the envelope with the same password and hash gives the data back |
| CryptoHelper.FieldsDecrypt | src/KingUtils/CryptoHelper.cs:62-74 | reading the three fields back re-derives the same key and IV and decrypts the ciphertext with them |
| CryptoHelper.ExtraSegmentsIgnored | src/KingUtils/CryptoHelper.cs:64-67 | segments after the third are never read |
| CryptoHelper.TooFewSegments | src/KingUtils/CryptoHelper.cs:64-67 | fewer than three segments always fails; when every present segment decodes, the failure is `IndexOutOfRangeException` |
| StringExtensions.Truncate | src/KingUtils/StringExtensions.cs:27-59 | the error checks come in order: null value, then negative length, then a suffix at least as long as `length` (even for a short value); success exactly otherwise; a short value is unchanged; a long one becomes exactly `length` characters, the value's prefix followed by the suffix |
| StringExtensions.TruncateNoSuffix | src/KingUtils/StringExtensions.cs:14-17 | with no suffix, succeeds for any non-null value and non-negative length, and is the value's first `min(len, length)` characters |
| StringExtensions.TruncatedLength | src/KingUtils/StringExtensions.cs:44-58 | the result's length is the shorter of the value's and `length` |
| StringExtensions.TruncateIdempotent | src/KingUtils/StringExtensions.cs:44-58 | truncating the result again with the same arguments changes nothing |
| EnumerableExtensions.Chunk | src/KingUtils/EnumerableExtensions.cs:27-40 | null source is `ArgumentNullException("source")`; size below 1 is `ArgumentOutOfRangeException("size")`; otherwise the chunks concatenate to the source, every chunk but the last holds exactly `size` elements, the last is not empty, and there are ceil(n/size) of them |
| EnumerableExtensions.ChunkIterator | src/KingUtils/EnumerableExtensions.cs:52-77 | the enumerator loop yields exactly the front-to-back chunking of the source |
| EnumerableExtensions.FillChunk | src/KingUtils/EnumerableExtensions.cs:61-65 | the inner `do`/`while` copies the elements from the current one on, stopping when the chunk holds `size` or the source ends |
| EnumerableExtensions.ConcatChunks | src/KingUtils/EnumerableExtensions.cs:52-77 | concatenating the chunks gives the source |
| EnumerableExtensions.ChunksWellChunked | src/KingUtils/EnumerableExtensions.cs:61-72 | every chunk but the last holds exactly `size` elements, and the last is not empty and holds at most `size` |
| EnumerableExtensions.ChunkCount | src/KingUtils/EnumerableExtensions.cs:56-72 | there are ceil(n/size) chunks, none at all exactly when the source is empty |
| EnumerableExtensions.ChunksUnique | src/KingUtils/EnumerableExtensions.cs:52-77 | any chunking with those properties that concatenates to the source is the iterator's |
| DictionaryExtensions.TryGetValue | src/KingUtils/DictionaryExtensions.cs:51 | a value exactly when the key is present, and it is the stored one |
| DictionaryExtensions.GetValueOrDefault | src/KingUtils/DictionaryExtensions.cs:44-52 | null is `ArgumentNullException("dictionary")`, and only null; a present key gives its value; an absent key gives `defaultValue` |
| DictionaryExtensions.GetValueOrTypeDefault | src/KingUtils/DictionaryExtensions.cs:25-28 | the same with the type's default value |
| DictionaryExtensions.LookupAfterStore | src/KingUtils/DictionaryExtensions.cs:44-52 | a key just stored is found whatever the default; every other key reads as before the store |
| ReadOnlyDictionaryExtensions.GetValueOrDefault | src/KingUtils/ReadOnlyDictionaryExtensions.cs:40-48 | null is `ArgumentNullException("dictionary")`, and only null; a present key gives its value; an absent key gives `defaultValue` |
| ReadOnlyDictionaryExtensions.GetValueOrTypeDefault | src/KingUtils/ReadOnlyDictionaryExtensions.cs:21-24 | the same with the type's default value |
| ReadOnlyDictionaryExtensions.AgreesWithDictionary | src/KingUtils/ReadOnlyDictionaryExtensions.cs:40-48 | the read-only overload returns what the `IDictionary` one returns for every input |
| TimeUnits.RangeBounds | src/KingUtils/HumanReadableDateAndTimeExtensions.cs:200-203 | a range with `max < min` holds no unit; `Second`..`Year` holds every unit |
| TimeUnits.Name | src/KingUtils/HumanReadableDateAndTimeExtensions.cs:154-187 | the singular unit words written, none ending in `s` and none holding a space, so a phrase's first space ends its count |
| TimeUnits.NamesDistinct | src/KingUtils/HumanReadableDateAndTimeExtensions.cs:154-187 | two units share a word exactly when they are the same unit |
| Division.TruncatedQuotient | src/KingUtils/HumanReadableDateAndTimeExtensions.cs:148 | the `(int)` cast of a total rounds toward zero: its magnitude is the magnitude's floor quotient, and its sign is the total's |
| Division.TruncatedQuotientNegate | src/KingUtils/HumanReadableDateAndTimeExtensions.cs:148 | negating the total negates the truncated quotient |
| Durations.Take | src/KingUtils/HumanReadableDateAndTimeExtensions.cs:190 | LINQ `Take`: the prefix of length `count` clamped to 0..n |
| Durations.Decimal | src/KingUtils/HumanReadableDateAndTimeExtensions.cs:154 | `{n}` is decimal digits without a leading zero |
| Durations.DecimalRoundTrip | src/KingUtils/HumanReadableDateAndTimeExtensions.cs:154 | the digits read back as the number |
| Durations.PhraseShape | src/KingUtils/HumanReadableDateAndTimeExtensions.cs:154-187 | a phrase is the count, a space and the unit name, plural exactly when the count is not 1 |
| Durations.PhraseInjective | src/KingUtils/HumanReadableDateAndTimeExtensions.cs:154-187 | two parts are written as the same phrase exactly when they are the same part |
| Durations.Size | src/KingUtils/HumanReadableDateAndTimeExtensions.cs:8-12 | a unit's length in the scale's base unit, using the seconds-per-unit constants here and the minutes-per-unit constants of `TimeSpanExtensions`; every unit the walks divide by has a positive size |
| Durations.Divide | src/KingUtils/HumanReadableDateAndTimeExtensions.cs:152-153 | `amount = count * size + remaining` with count ≥ 1 and remaining < size, given `amount > size` |
| Durations.GreedySum | src/KingUtils/HumanReadableDateAndTimeExtensions.cs:150-183 | the written items plus what is left add up to the amount |
| Durations.GreedyCounted | src/KingUtils/HumanReadableDateAndTimeExtensions.cs:150-183 | every written count is at least 1 |
| Durations.GreedyInRange | src/KingUtils/HumanReadableDateAndTimeExtensions.cs:150-183 | only units inside `minUnit`..`maxUnit` are written |
| Durations.GreedyAmong | src/KingUtils/HumanReadableDateAndTimeExtensions.cs:150-183 | only listed units are written |
| Durations.GreedyTight | src/KingUtils/HumanReadableDateAndTimeExtensions.cs:150-183 | each unit was written because strictly more than one of it remained, and what followed is strictly less than one of it |
| Durations.GreedyLeft | src/KingUtils/HumanReadableDateAndTimeExtensions.cs:150-183 | the leftover is at most the amount and at most one of any unit in range |
| Durations.GreedyBetween | src/KingUtils/HumanReadableDateAndTimeExtensions.cs:150-183 | the written units lie within the bounds of the listed ones |
| Durations.GreedyDescending | src/KingUtils/HumanReadableDateAndTimeExtensions.cs:150-183 | the items come strictly largest unit first |
| Durations.GreedyZero | src/KingUtils/HumanReadableDateAndTimeExtensions.cs:150-183 | nothing is written for zero |
| Durations.GreedySplit | src/KingUtils/HumanReadableDateAndTimeExtensions.cs:150-183 | the walk splits at any unit: the items of the units before it, then the items the rest write from what those left |
| Durations.GreedyComplete | src/KingUtils/HumanReadableDateAndTimeExtensions.cs:150-183 | a unit in range that the walk reaches with strictly more than one of it left is written, as the whole number of it that fits, right after the items of the larger units; over units listed largest first it is written only then |
| Durations.TightAppend | src/KingUtils/HumanReadableDateAndTimeExtensions.cs:185-188 | appending the remainder as a count of the unit-sized last unit keeps the sum and leaves nothing over |
| Durations.DecomposeSum | src/KingUtils/HumanReadableDateAndTimeExtensions.cs:150-188 | the items plus the leftover add up to the amount; the leftover is 0 when the last unit is in range |
| Durations.DecomposeItems | src/KingUtils/HumanReadableDateAndTimeExtensions.cs:150-188 | the items are strictly descending, each counts at least 1, and each is a listed unit in range |
| Durations.DecomposeTight | src/KingUtils/HumanReadableDateAndTimeExtensions.cs:150-188 | every item but the smallest unit's was written because more than one of that unit remained |
| Durations.DecomposeComplete | src/KingUtils/HumanReadableDateAndTimeExtensions.cs:150-183 | each larger unit is among the parts exactly when it is in range and the larger units before it leave strictly more than one of it, and then with the whole number of it that fits |
| Durations.DecomposeLast | src/KingUtils/HumanReadableDateAndTimeExtensions.cs:185-188 | the smallest unit is among the parts exactly when it is in range and the larger units leave anything, and then it is the last part, holding all that is left |
| HumanReadableDateAndTimeExtensions.LargerOrdered | src/KingUtils/HumanReadableDateAndTimeExtensions.cs:150-183 | the walk tries year, month, day, hour, minute in that order, all above a second, one second being the base unit |
| HumanReadableDateAndTimeExtensions.AllItems | src/KingUtils/HumanReadableDateAndTimeExtensions.cs:146-188 | the parts sum to at most the whole seconds of the span's magnitude, and to exactly that when seconds are in range; a span under one second gives no parts |
| HumanReadableDateAndTimeExtensions.AllItemsOrdered | src/KingUtils/HumanReadableDateAndTimeExtensions.cs:150-188 | the parts are largest first, each at least 1 of a unit in range |
| HumanReadableDateAndTimeExtensions.AllItemsTight | src/KingUtils/HumanReadableDateAndTimeExtensions.cs:150-188 | each part above seconds was written because strictly more than one of its unit remained |
| HumanReadableDateAndTimeExtensions.AllItemsLeaveLittle | src/KingUtils/HumanReadableDateAndTimeExtensions.cs:150-188 | what is not written is at most one of any unit in range |
| HumanReadableDateAndTimeExtensions.Fits | src/KingUtils/HumanReadableDateAndTimeExtensions.cs:152 | the whole number of a unit that fits in an amount of seconds |
| HumanReadableDateAndTimeExtensions.AllItemsComplete | src/KingUtils/HumanReadableDateAndTimeExtensions.cs:150-183 | a year, month, day, hour or minute is written exactly when it is in range and what the larger units leave strictly exceeds one of it, and then as the whole number of it that fits |
| HumanReadableDateAndTimeExtensions.AllItemsSeconds | src/KingUtils/HumanReadableDateAndTimeExtensions.cs:185-188 | seconds are written exactly when they are in range and the larger units leave any, and then last, as all that is left |
| HumanReadableDateAndTimeExtensions.AllItemsExample | src/KingUtils/HumanReadableDateAndTimeExtensions.cs:146-188 | 5,000,000 seconds with every unit in range is 1 month, 27 days, 10 hours, 53 minutes and 20 seconds |
| HumanReadableDateAndTimeExtensions.Items | src/KingUtils/HumanReadableDateAndTimeExtensions.cs:134-191 | `null` exactly when the precision is 0, the unit range is reversed, or nothing was written; otherwise the first `precision` parts of a non-zero span |
| HumanReadableDateAndTimeExtensions.ToHumanReadableString | src/KingUtils/HumanReadableDateAndTimeExtensions.cs:134-191 | `null` in the same cases; otherwise the joined phrases of the kept parts |
| HumanReadableDateAndTimeExtensions.ToRelativeHumanReadableString | src/KingUtils/HumanReadableDateAndTimeExtensions.cs:72-89 | `null` exactly when the span's text is; a past value gets " ago", a future one " from now"; any text implies the value is not the current instant |
| HumanReadableDateAndTimeExtensions.NeverNow | src/KingUtils/HumanReadableDateAndTimeExtensions.cs:82-88 | the `"now"` arm is unreachable: a zero span has no text, so the result is `null` |
| HumanReadableDateAndTimeExtensions.SignIgnored | src/KingUtils/HumanReadableDateAndTimeExtensions.cs:148 | a span and its negation give the same parts |
| HumanReadableDateAndTimeExtensions.WholeUnitsStepDown | src/KingUtils/HumanReadableDateAndTimeExtensions.cs:178-188 | the thresholds are strict: 60 seconds is written "60 seconds", and one hour "60 minutes" |
| TimeSpanExtensions.LargerOrdered | src/KingUtils/TimeSpanExtensions.cs:16-19 | the walk tries year, month, day, hour in that order, all above a minute, one minute being the base unit |
| TimeSpanExtensions.AllItems | src/KingUtils/TimeSpanExtensions.cs:21-52 | the parts sum to exactly the whole minutes of the span's magnitude, and there are none exactly when that is 0 |
| TimeSpanExtensions.AllItemsOrdered | src/KingUtils/TimeSpanExtensions.cs:25-52 | the parts are largest first, each at least 1, and each unit above minutes was written because more than one of it remained |
| TimeSpanExtensions.Fits | src/KingUtils/TimeSpanExtensions.cs:27 | the whole number of a unit that fits in an amount of minutes |
| TimeSpanExtensions.AllItemsComplete | src/KingUtils/TimeSpanExtensions.cs:25-52 | a year, month, day or hour is written exactly when what the larger units leave strictly exceeds one of it, and then as the whole number of it that fits; minutes are written exactly when anything is left after the hours, and then last, as all that is left |
| TimeSpanExtensions.Items | src/KingUtils/TimeSpanExtensions.cs:54 | LINQ `Take(maxGranularity)` of the parts: exactly the first `maxGranularity` of them, none when it is not positive, all when it is large enough |
| TimeSpanExtensions.ToHumanReadableString | src/KingUtils/TimeSpanExtensions.cs:14-55 | the joined phrases of the kept parts, followed by " from now" exactly when the span is positive and " ago" otherwise, zero included |
| TimeSpanExtensions.SignIgnored | src/KingUtils/TimeSpanExtensions.cs:24 | a span and its negation give the same parts |
| TimeSpanExtensions.WholeUnitsStepDown | src/KingUtils/TimeSpanExtensions.cs:43-52 | the thresholds are strict: one hour is written "60 minutes", and one day "24 hours" |

## Left out

- The cryptographic primitives are not modelled. PBKDF2 and AES-CBC encryption and decryption are fields of a `Primitives` value. The round trip assumes, as a precondition, that decryption undoes encryption of the data under the derived key and IV.
- `GetRandomSalt` is left out because it uses a random number generator. The salt is an argument of `EncryptBytes`.
- `EncryptString` and `DecryptString` are left out. They only add UTF-8 conversion, and text encodings are not modelled.
- The `NETSTANDARD2_0` branch of `GetKeyAndIV` (SHA-1 only, `NotSupportedException`) is left out. The model follows the `NET6_0_OR_GREATER` branch: one 48-byte derivation.
- Big-endian machines are left out. `BitConverter` is modelled on a little-endian machine, where the `Array.Reverse` calls do not run.
- Base16.ParsePair: only the white space and trailing NUL a two-character pair can hold are modelled. `HexNumber` parsing of longer strings, signs and culture data never reaches this code.
- The `Lazy<Base32Encoder>` caching in `Base32` is not modelled. Each preset is the encoder its constructor call builds.
- `Base32Crockford.cs`, `IBase32.cs`, `GuidExtensions.cs`, `TaskExtensions.cs` and `KeyValuePairExtensions.cs` are not part of this model.
- `ToJoinedString("and", true)` is not part of this model. Both formatters take the joining function as the parameter `join`, so the contracts speak of the phrases passed to it.
- `TimeSpan.TotalSeconds` and `TotalMinutes` are doubles in the code. Casting them to `int` is modelled as exact division of the tick count, rounded toward zero; floating-point rounding of very large tick counts is not modelled.
- HumanReadableDateAndTimeExtensions.Items: requires the whole-second count to fit an `int` with room for `Math.Abs`. This leaves out the cast overflow and the `OverflowException` of `Math.Abs(int.MinValue)`.
- HumanReadableDateAndTimeExtensions.AllItems: the same requirement, for the same reason.
- HumanReadableDateAndTimeExtensions.ToHumanReadableString: the same requirement, for the same reason.
- HumanReadableDateAndTimeExtensions.ToRelativeHumanReadableString: the same requirement on the span between the value and `now`.
- TimeSpanExtensions.Items: the same requirement applies to the whole-minute count.
- TimeSpanExtensions.AllItems: the same requirement on the whole-minute count.
- TimeSpanExtensions.ToHumanReadableString: the same requirement on the whole-minute count.
- `ToRelativeHumanReadableString` reads `DateTimeOffset.UtcNow`. The clock is the parameter `now`.
- The `NaN` arm of the suffix switch is left out. It cannot arise from a tick difference.
- The settable defaults `PrecisionDefault`, `MinUnitDefault` and `MaxUnitDefault` are left out, and so are the overloads that only pass them on. Those overloads are the no-argument and one-argument `ToHumanReadableString` and `ToRelativeHumanReadableString`.
- DictionaryExtensions.GetValueOrTypeDefault: `default(TValue)` is passed in as an argument, because a generic Dafny type has no default value.
- ReadOnlyDictionaryExtensions.GetValueOrTypeDefault: the same.
- EnumerableExtensions.Chunk: the lazy `yield` iteration is modelled eagerly as the whole list of chunks. The code checks its arguments on the call, before any element is read, and the model keeps that order.
- The `IDictionary` and `IReadOnlyDictionary` interfaces are finite maps. A user-supplied implementation whose `TryGetValue` disagrees with its contents is not modelled.
- DictionaryExtensions.GetValueOrDefault: keys are never null here. A null key makes `Dictionary<,>.TryGetValue` throw `ArgumentNullException("key")`, and that is not modelled.
- ReadOnlyDictionaryExtensions.GetValueOrDefault: the same.
- CryptoHelper.EncryptBytes: the data and the password are never null here. A null argument fails inside the .NET primitives, which are not modelled.
- CryptoHelper.DecryptBytes: the value is never null here. A null value throws `NullReferenceException` at `value.Split` (CryptoHelper.cs line 64), and that is not modelled.
- CryptoHelper.EnvelopeRoundTrip: holds only for salt and ciphertext below 2^28 bytes. From 2^28 bytes on, either the encoder's capacity wraps and encryption fails, or the text encodes but the decoder's byte count wraps and decryption fails (`Base32Laws.RoundTripOverflow` shows the second case at 2^29 bytes).
- Base16.RoundTrip: holds only below 2^30 bytes, where `Encode` succeeds.
- ByteArrayExtensions.LowerCaseOfBase16: states the relation only below 2^30 bytes, where `Base16.Encode` succeeds; `ToHexString` has no capacity argument and succeeds for every array.
- The largest string .NET can allocate (just under 2^30 characters) is not modelled. Text longer than that would throw `OutOfMemoryException` in the code and succeeds here.
- Strings are Dafny strings, which count Unicode scalar values; C# `Length`, `Substring` and `foreach` count UTF-16 code units. The model agrees with the code only on text without surrogate pairs (characters above U+FFFF). The lines below name the members this affects.
- StringExtensions.Truncate: lengths are counted in scalar values, so text holding surrogate pairs is cut at a different place than in C#, and never inside a pair.
- StringExtensions.TruncateNoSuffix: the same.
- StringExtensions.TruncatedLength: the length bound is in scalar values, not UTF-16 units.
- StringExtensions.TruncateIdempotent: the same.
- Base16.Decode: the odd-length check counts scalar values, so a character above U+FFFF is an odd length here and a `FormatException` in C#.
- Base32Encoder.NewEncoder: the 32-symbol check counts scalar values, so an alphabet holding a character above U+FFFF is accepted here and rejected by the code.
- Base32Encoder.Decode: a character above U+FFFF is read as one symbol, where the code reads its two surrogates and rejects the first.
- Base32Encoder.DecodeSymbols: the same.
- Base32Encoder.Decoding: the same; and its byte count `5n / 8` is exact, which is the code's only while `5n` fits an `int` (`DecodeChecked` has the code's count).
- `Durations.Size` gives a second in the minutes scale the size 0. `TimeSpanExtensions` never visits that unit.
