/** The preset alphabets of `src/KingUtils/Base32Alphabet.cs` and the
    encoders built from them.

    The string constants are written in eight-character pieces; each is the
    same string as in the source. That every preset has 32 distinct symbols
    is shown by walking it once: a string whose symbols rise strictly from
    left to right repeats none of them. */
module Base32Alphabet {
  import opened Wrappers
  import opened Base32Encoder

  /** The alphabet of section 6 of RFC 4648: 'A' to 'Z', then '2' to '7'. */
  const Rfc4648: string := "ABCDEFGH" + "IJKLMNOP" + "QRSTUVWX" + "YZ" + "234567"

  /** Crockford's Base32: the digits, then the capital letters without
      I, L, O and U. */
  const Crockford: string := "01234567" + "89ABCDEF" + "GHJKMNPQ" + "RSTVWXYZ"

  /** Eight digits, then twelve consonants in upper case and the same
      twelve in lower case. */
  const WordSafe: string := "23456789" + "CFGHJMPQ" + "RVWXcfgh" + "jmpqrvwx"

  /** Symbols `i`, `i + 1`, ... of `s` rise strictly. */
  predicate IncreasingFrom(s: string, i: nat)
    decreases |s| - i
  {
    i + 1 >= |s| || (s[i] < s[i + 1] && IncreasingFrom(s, i + 1))
  }

  /** Rising step by step means rising between any two positions. */
  lemma {:induction false} Ascending(s: string, i: nat)
    requires IncreasingFrom(s, i)
    ensures forall j, k :: i <= j < k < |s| ==> s[j] < s[k]
    decreases |s| - i
  {
    if i + 1 < |s| {
      Ascending(s, i + 1);
    }
  }

  /** A character strictly between two neighbours of a rising string is
      not in it. */
  lemma Skipped(s: string, k: nat, c: char)
    requires IncreasingFrom(s, 0) && k + 1 < |s| && s[k] < c < s[k + 1]
    ensures c !in s
  {
    Ascending(s, 0);
  }

  /** Symbols `i`, `i + 1`, ... of `s` are consecutive characters. */
  predicate ConsecutiveFrom(s: string, i: nat)
    decreases |s| - i
  {
    i + 1 >= |s| || (s[i + 1] as int == s[i] as int + 1 && ConsecutiveFrom(s, i + 1))
  }

  lemma {:induction false} Consecutive(s: string, i: nat)
    requires i < |s| && ConsecutiveFrom(s, i)
    ensures forall j :: i <= j < |s| ==> s[j] as int == s[i] as int + (j - i)
    decreases |s| - i
  {
    if i + 1 < |s| {
      Consecutive(s, i + 1);
    }
  }

  /** Each symbol below the next one, from `i` on, is a rise from `i`. */
  lemma {:induction false} RisingSteps(s: string, i: nat)
    requires forall j :: i <= j < |s| - 1 ==> s[j] < s[j + 1]
    ensures IncreasingFrom(s, i)
    decreases |s| - i
  {
    if i + 1 < |s| {
      RisingSteps(s, i + 1);
    }
  }

  /** Each symbol one above the one before, from `i` on, is a run from `i`. */
  lemma {:induction false} UnitSteps(s: string, i: nat)
    requires forall j :: i <= j < |s| - 1 ==> s[j + 1] as int == s[j] as int + 1
    ensures ConsecutiveFrom(s, i)
    decreases |s| - i
  {
    if i + 1 < |s| {
      UnitSteps(s, i + 1);
    }
  }

  lemma RfcLettersRise()
    ensures IncreasingFrom(Rfc4648[..26], 0) && ConsecutiveFrom(Rfc4648[..26], 0)
  {
    var s := Rfc4648[..26];
    RisingSteps(s, 0);
    UnitSteps(s, 0);
  }

  lemma RfcDigitsRise()
    ensures IncreasingFrom(Rfc4648[26..], 0) && ConsecutiveFrom(Rfc4648[26..], 0)
  {
    var s := Rfc4648[26..];
    RisingSteps(s, 0);
    UnitSteps(s, 0);
  }

  /** The RFC 4648 alphabet is the 26 capital letters in order followed by
      the digits '2' to '7'; its symbols are distinct. */
  lemma Rfc4648Layout()
    ensures |Rfc4648| == 32 && Distinct(Rfc4648)
    ensures forall i :: 0 <= i < 26 ==> Rfc4648[i] as int == 'A' as int + i
    ensures forall i :: 26 <= i < 32 ==> Rfc4648[i] as int == '2' as int + (i - 26)
  {
    var letters, digits := Rfc4648[..26], Rfc4648[26..];
    RfcLettersRise();
    RfcDigitsRise();
    Consecutive(letters, 0);
    Consecutive(digits, 0);
    assert forall i :: 0 <= i < 26 ==> Rfc4648[i] == letters[i];
    assert forall i :: 26 <= i < 32 ==> Rfc4648[i] == digits[i - 26];
  }

  lemma CrockfordRises()
    ensures IncreasingFrom(Crockford, 0)
  {
    RisingSteps(Crockford, 0);
  }

  /** Crockford's alphabet rises strictly, so its symbols are distinct, and
      it has no 'I', 'L', 'O' or 'U'. */
  lemma CrockfordLayout()
    ensures |Crockford| == 32 && Distinct(Crockford)
    ensures 'I' !in Crockford && 'L' !in Crockford && 'O' !in Crockford && 'U' !in Crockford
  {
    CrockfordRises();
    Ascending(Crockford, 0);
    Skipped(Crockford, 17, 'I');
    Skipped(Crockford, 19, 'L');
    Skipped(Crockford, 21, 'O');
    Skipped(Crockford, 26, 'U');
  }

  lemma WordSafeRises()
    ensures IncreasingFrom(WordSafe, 0)
  {
    RisingSteps(WordSafe, 0);
  }

  lemma WordSafeLayout()
    ensures |WordSafe| == 32 && Distinct(WordSafe)
  {
    WordSafeRises();
    Ascending(WordSafe, 0);
  }

  /** The encoder the code builds for each preset: the constructor accepts
      it, and its symbols are distinct. */
  function PresetEncoder(alphabet: string): (e: Encoder)
    requires |alphabet| == 32
    ensures e.Valid() && e.alphabet == alphabet
    ensures NewEncoder(Some(alphabet)) == Success(e)
  {
    NewEncoder(Some(alphabet)).value
  }

  function Rfc4648Encoder(): (e: Encoder)
    ensures e.Valid() && e.alphabet == Rfc4648 && Distinct(e.alphabet)
  {
    Rfc4648Layout();
    PresetEncoder(Rfc4648)
  }

  function CrockfordEncoder(): (e: Encoder)
    ensures e.Valid() && e.alphabet == Crockford && Distinct(e.alphabet)
  {
    CrockfordLayout();
    PresetEncoder(Crockford)
  }

  function WordSafeEncoder(): (e: Encoder)
    ensures e.Valid() && e.alphabet == WordSafe && Distinct(e.alphabet)
  {
    WordSafeLayout();
    PresetEncoder(WordSafe)
  }
}
