/** Bytes, bit strings and the C# `int` arithmetic the codec loops use.

    A bit string is written most-significant bit first, which is the order in
    which the Base32 codec consumes its input. `Pack` lays fixed-width values
    end to end as bits and `Unpack` reads them back in groups of a given
    width; Base32 encoding is `Unpack(Pack(bytes, 8) + padding, 5)` and
    decoding is `Unpack(Pack(symbols, 5), 8)`. */
module Bits {

  type byte = x: int | 0 <= x < 256

  type bit = x: int | 0 <= x < 2

  /** The range of a C# `int`. */
  type int32 = x: int | -0x8000_0000 <= x < 0x8000_0000

  function Pow2(n: nat): (p: nat)
    ensures p >= 1
  {
    if n == 0 then 1 else 2 * Pow2(n - 1)
  }

  lemma {:induction false} Pow2Add(a: nat, b: nat)
    ensures Pow2(a + b) == Pow2(a) * Pow2(b)
    decreases b
  {
    if b > 0 {
      Pow2Add(a, b - 1);
      assert Pow2(a + b) == 2 * Pow2(a + b - 1);
    }
  }

  /** The group widths the codec uses. */
  lemma Pow2Constants()
    ensures Pow2(5) == 32 && Pow2(8) == 256
  {
  }

  /** The modulus of C# `int` arithmetic. */
  lemma Pow2Word()
    ensures Pow2(32) == 0x1_0000_0000
  {
    Pow2Add(8, 8);
    assert Pow2(16) == 0x1_0000;
    Pow2Add(16, 16);
  }

  // ---------------------------------------------------------------------
  // Division facts. Dafny's `/` and `%` are Euclidean; for a positive
  // divisor they agree with C#'s arithmetic right shift and with the
  // low-bit masks `& 31` and `(byte)` casts the code applies.
  // ---------------------------------------------------------------------

  lemma MulLe(a: int, x: int, y: int)
    requires a >= 0
    ensures x <= y ==> a * x <= a * y
  {
    if x <= y {
      assert a * y - a * x == a * (y - x);
    }
  }

  lemma DivModUnique(x: int, d: int, q: int, r: int)
    requires d > 0 && 0 <= r < d && x == d * q + r
    ensures x / d == q && x % d == r
  {
    var q0, r0 := x / d, x % d;
    assert x == d * q0 + r0;
    assert d * (q - q0) == r0 - r;
    MulLe(d, 1, q - q0);
    MulLe(d, 1, q0 - q);
    assert d * (q0 - q) == r - r0;
  }

  lemma ModAddMultiple(x: int, m: int, k: int)
    requires m > 0
    ensures (x + m * k) % m == x % m
  {
    assert x == m * (x / m) + x % m;
    assert x + m * k == m * (x / m + k) + x % m;
    DivModUnique(x + m * k, m, x / m + k, x % m);
  }

  /** Reading `b` units above the low `a` units of `x`. */
  lemma DivThenMod(x: int, a: int, b: int)
    requires a > 0 && b > 0
    ensures (x / a) % b == (x % (a * b)) / a
    ensures (x % (a * b)) % a == x % a
    ensures (x / a) / b == x / (a * b)
  {
    var ab := a * b;
    var q, r := x / ab, x % ab;
    assert x == ab * q + r;
    var s, t := r / a, r % a;
    assert r == a * s + t;
    MulLe(a, b, s);
    assert s < b;
    assert x == a * (b * q + s) + t;
    DivModUnique(x, a, b * q + s, t);
    DivModUnique(x / a, b, q, s);
  }

  /** Shifting `x` up by the width of `a` and filling the gap with `y`. */
  lemma ShiftAdd(x: int, a: int, m: int, y: int)
    requires a > 0 && m > 0 && 0 <= y < a
    ensures (x * a + y) % (m * a) == (x % m) * a + y
  {
    var q, r := x / m, x % m;
    assert x == m * q + r;
    assert x * a + y == (m * a) * q + (r * a + y);
    MulLe(a, r + 1, m);
    assert r * a + y < m * a;
    DivModUnique(x * a + y, m * a, q, r * a + y);
  }

  // ---------------------------------------------------------------------
  // 32-bit two's-complement wrap-around of C# `int` arithmetic.
  // ---------------------------------------------------------------------

  /** The `int` value C# keeps of the mathematical value `x` (unchecked):
      the one value in range that differs from `x` by a multiple of 2^32. */
  function Wrap32(x: int): int32
    decreases if x < 0 then -2 * x else 2 * x + 1
  {
    if x < -0x8000_0000 then Wrap32(x + 0x1_0000_0000)
    else if x < 0x8000_0000 then x
    else Wrap32(x - 0x1_0000_0000)
  }

  lemma {:induction false} Wrap32Value(x: int)
    ensures Wrap32(x) == (x + 0x8000_0000) % 0x1_0000_0000 - 0x8000_0000
    decreases if x < 0 then -2 * x else 2 * x + 1
  {
    var m := 0x1_0000_0000;
    if x < -0x8000_0000 {
      Wrap32Value(x + m);
      ModAddMultiple(x + 0x8000_0000, m, 1);
    } else if x < 0x8000_0000 {
      DivModUnique(x + 0x8000_0000, m, 0, x + 0x8000_0000);
    } else {
      Wrap32Value(x - m);
      ModAddMultiple(x + 0x8000_0000, m, -1);
    }
  }

  /** `x << n` on a C# `int`: one doubling per bit, wrapped to 32 bits. */
  function ShiftLeft(x: int, n: nat): int32
    decreases n
  {
    if n == 0 then Wrap32(x) else ShiftLeft(2 * x, n - 1)
  }

  /** The shift is multiplication by 2^n, wrapped. */
  lemma {:induction false} ShiftLeftValue(x: int, n: nat)
    ensures ShiftLeft(x, n) == Wrap32(x * Pow2(n))
    decreases n
  {
    if n > 0 {
      ShiftLeftValue(2 * x, n - 1);
      assert 2 * x * Pow2(n - 1) == x * Pow2(n);
    }
  }

  /** `x >> n` on a C# `int`: an arithmetic shift, one halving (rounding
      toward negative infinity) per bit. */
  function ShiftRight(x: int, n: nat): int
    decreases n
  {
    if n == 0 then x else ShiftRight(x / 2, n - 1)
  }

  /** `x & (2^n - 1)`, the low `n` bits of `x` in two's complement; with n
      being 8 it is also the cast `(byte)x`. */
  function LowBits(x: int, n: nat): (r: nat)
    ensures r < Pow2(n)
    decreases n
  {
    if n == 0 then 0 else 2 * LowBits(x / 2, n - 1) + x % 2
  }

  /** The shift and the mask are Euclidean division and remainder by 2^n. */
  lemma {:induction false} ShiftRightLowBits(x: int, n: nat)
    ensures ShiftRight(x, n) == x / Pow2(n)
    ensures LowBits(x, n) == x % Pow2(n)
    decreases n
  {
    if n > 0 {
      ShiftRightLowBits(x / 2, n - 1);
      var p := Pow2(n - 1);
      DivThenMod(x, 2, p);
      assert x % (2 * p) == 2 * ((x % (2 * p)) / 2) + (x % (2 * p)) % 2;
    }
  }

  /** Wrapping changes only bits at position 32 and above. */
  lemma Wrap32LowBits(x: int, n: nat)
    requires n <= 32
    ensures Wrap32(x) % Pow2(n) == x % Pow2(n)
  {
    Wrap32Value(x);
    var m := 0x1_0000_0000;
    var k := (x + 0x8000_0000) / m;
    assert x + 0x8000_0000 == m * k + (x + 0x8000_0000) % m;
    assert Wrap32(x) == x + m * -k;
    ModAddMultiple(x, m, -k);
    Pow2Word();
    Pow2Add(n, 32 - n);
    DivThenMod(Wrap32(x), Pow2(n), Pow2(32 - n));
    DivThenMod(x, Pow2(n), Pow2(32 - n));
  }

  // ---------------------------------------------------------------------
  // Bit strings.
  // ---------------------------------------------------------------------

  /** The unsigned value of a bit string read most-significant bit first. */
  function BitsValue(s: seq<bit>): (v: nat)
    ensures v < Pow2(|s|)
  {
    if |s| == 0 then 0 else 2 * BitsValue(s[..|s| - 1]) + s[|s| - 1]
  }

  /** A buffer whose low |w| bits spell `w`: its lowest bit is the last bit
      of `w`, and the rest of `w` is held one position up. */
  predicate Holds(buffer: int, w: seq<bit>)
    decreases |w|
  {
    if |w| == 0 then true
    else buffer % 2 == w[|w| - 1] && Holds(buffer / 2, w[..|w| - 1])
  }

  /** Holding `w` is having the value of `w` in the low |w| bits. */
  lemma {:induction false} HoldsValue(buffer: int, w: seq<bit>)
    ensures Holds(buffer, w) <==> buffer % Pow2(|w|) == BitsValue(w)
    decreases |w|
  {
    if |w| > 0 {
      var w' := w[..|w| - 1];
      HoldsValue(buffer / 2, w');
      var p := Pow2(|w'|);
      DivThenMod(buffer, 2, p);
      assert buffer % (2 * p) == 2 * ((buffer % (2 * p)) / 2) + (buffer % (2 * p)) % 2;
    }
  }

  lemma {:induction false} BitsValueAppend(a: seq<bit>, b: seq<bit>)
    ensures BitsValue(a + b) == BitsValue(a) * Pow2(|b|) + BitsValue(b)
    decreases |b|
  {
    if |b| == 0 {
      assert a + b == a;
    } else {
      var b' := b[..|b| - 1];
      assert (a + b)[..|a + b| - 1] == a + b';
      BitsValueAppend(a, b');
      var A: int, P: int, B: int, c: int := BitsValue(a), Pow2(|b'|), BitsValue(b'), b[|b| - 1];
      assert BitsValue(a + b) == 2 * (A * P + B) + c;
      AppendArith(A, P, B, c);
    }
  }

  lemma AppendArith(A: int, P: int, B: int, c: int)
    ensures 2 * (A * P + B) + c == A * (2 * P) + (2 * B + c)
  {
  }

  /** The low `w` bits of `x`, most-significant first. */
  function FromNat(x: nat, w: nat): (r: seq<bit>)
    ensures |r| == w
  {
    if w == 0 then [] else FromNat(x / 2, w - 1) + [x % 2]
  }

  lemma {:induction false} FromNatValue(x: nat, w: nat)
    requires x < Pow2(w)
    ensures BitsValue(FromNat(x, w)) == x
  {
    if w > 0 {
      FromNatValue(x / 2, w - 1);
      var r := FromNat(x, w);
      assert r[..|r| - 1] == FromNat(x / 2, w - 1);
    }
  }

  lemma {:induction false} ValueFromNat(s: seq<bit>)
    ensures FromNat(BitsValue(s), |s|) == s
  {
    if |s| > 0 {
      var s' := s[..|s| - 1];
      ValueFromNat(s');
      assert BitsValue(s) / 2 == BitsValue(s');
      assert s == s' + [s[|s| - 1]];
    }
  }

  function Zeros(n: nat): (z: seq<bit>)
    ensures |z| == n
  {
    seq(n, _ => 0)
  }

  lemma {:induction false} ZerosValue(n: nat)
    ensures BitsValue(Zeros(n)) == 0
  {
    if n > 0 {
      ZerosValue(n - 1);
      assert Zeros(n)[..n - 1] == Zeros(n - 1);
    }
  }

  lemma {:induction false} FromNatZero(n: nat)
    ensures FromNat(0, n) == Zeros(n)
  {
    if n > 0 {
      FromNatZero(n - 1);
      assert Zeros(n) == Zeros(n - 1) + [0];
    }
  }

  // ---------------------------------------------------------------------
  // Packing fixed-width values into bits and back.
  // ---------------------------------------------------------------------

  /** The values laid end to end, each as its low `w` bits. */
  function Pack(vals: seq<nat>, w: nat): (r: seq<bit>)
    ensures |r| == w * |vals|
  {
    if |vals| == 0 then []
    else
      MulSucc(w, |vals| - 1);
      FromNat(vals[0], w) + Pack(vals[1..], w)
  }

  /** The bits read back in groups of `w`; a short tail is dropped. */
  function Unpack(bits: seq<bit>, w: nat): (r: seq<nat>)
    requires w > 0
    ensures forall j :: 0 <= j < |r| ==> r[j] < Pow2(w)
    decreases |bits|
  {
    if |bits| < w then [] else [BitsValue(bits[..w])] + Unpack(bits[w..], w)
  }

  lemma PackCons(v: nat, vals: seq<nat>, w: nat)
    ensures Pack([v] + vals, w) == FromNat(v, w) + Pack(vals, w)
  {
    assert ([v] + vals)[1..] == vals;
  }

  lemma {:induction false} PackAppend(vals: seq<nat>, v: nat, w: nat)
    ensures Pack(vals + [v], w) == Pack(vals, w) + FromNat(v, w)
    decreases |vals|
  {
    if |vals| == 0 {
      assert vals + [v] == [v] + [];
      PackCons(v, [], w);
    } else {
      var rest := vals[1..];
      assert vals + [v] == [vals[0]] + (rest + [v]);
      assert vals == [vals[0]] + rest;
      PackCons(vals[0], rest + [v], w);
      PackCons(vals[0], rest, w);
      PackAppend(rest, v, w);
    }
  }

  /** Value `j` occupies bits [w j, w j + w). */
  lemma {:induction false} PackSlice(vals: seq<nat>, w: nat, j: nat)
    requires j < |vals|
    ensures 0 <= w * j && w * j + w <= |Pack(vals, w)|
    ensures Pack(vals, w)[w * j .. w * j + w] == FromNat(vals[j], w)
    decreases j
  {
    var head := FromNat(vals[0], w);
    var rest := vals[1..];
    assert Pack(vals, w) == head + Pack(rest, w);
    if j == 0 {
      Halves(head, Pack(rest, w));
    } else {
      PackSlice(rest, w, j - 1);
      MulSucc(w, j - 1);
      SliceAfter(head, Pack(rest, w), w * (j - 1), w * (j - 1) + w);
    }
  }

  /** Group `k` is read from bits [w k, w k + w). */
  lemma {:induction false} UnpackAt(bits: seq<bit>, w: nat, k: nat)
    requires w > 0 && 0 <= w * k && w * k + w <= |bits|
    ensures k < |Unpack(bits, w)| && Unpack(bits, w)[k] == BitsValue(bits[w * k .. w * k + w])
    decreases k
  {
    if k > 0 {
      MulSucc(w, k - 1);
      UnpackAt(bits[w..], w, k - 1);
      SliceOfSuffix(bits, w, w * (k - 1), w * (k - 1) + w);
    }
  }

  lemma {:induction false} UnpackLength(bits: seq<bit>, w: nat)
    requires w > 0
    ensures |Unpack(bits, w)| == |bits| / w
    decreases |bits|
  {
    if |bits| < w {
      DivModUnique(|bits|, w, 0, |bits|);
    } else {
      UnpackLength(bits[w..], w);
      DivNext(|bits|, w);
    }
  }

  lemma DivNext(n: int, w: int)
    requires w > 0 && n >= w
    ensures n / w == (n - w) / w + 1
  {
    var q, r := (n - w) / w, (n - w) % w;
    assert n - w == w * q + r;
    MulSucc(w, q);
    DivModUnique(n, w, q + 1, r);
  }

  /** Unpacking whole groups of packed values, followed by fewer than `w`
      extra bits, gives the values back. */
  lemma {:induction false} UnpackPack(vals: seq<nat>, w: nat, extra: seq<bit>)
    requires w > 0 && |extra| < w
    requires forall j :: 0 <= j < |vals| ==> vals[j] < Pow2(w)
    ensures Unpack(Pack(vals, w) + extra, w) == vals
    decreases |vals|
  {
    if |vals| > 0 {
      var head, rest := FromNat(vals[0], w), vals[1..];
      var tail := Pack(rest, w) + extra;
      assert Pack(vals, w) + extra == head + tail;
      Halves(head, tail);
      UnpackPack(rest, w, extra);
      FromNatValue(vals[0], w);
      assert vals == [vals[0]] + rest;
    }
  }

  /** Packing the groups of a string of whole groups gives it back. */
  lemma {:induction false} PackUnpack(bits: seq<bit>, w: nat)
    requires w > 0 && |bits| % w == 0
    ensures Pack(Unpack(bits, w), w) == bits
    decreases |bits|
  {
    if |bits| > 0 {
      WholeGroups(|bits|, w);
      PackUnpack(bits[w..], w);
      PackCons(BitsValue(bits[..w]), Unpack(bits[w..], w), w);
      ValueFromNat(bits[..w]);
      assert bits == bits[..w] + bits[w..];
    }
  }

  lemma WholeGroups(n: nat, w: nat)
    requires w > 0 && n > 0 && n % w == 0
    ensures n >= w && (n - w) % w == 0
  {
    var q := n / w;
    assert n == w * q;
    MulLe(w, 1, q);
    MulSucc(w, q - 1);
    DivModUnique(n - w, w, q - 1, 0);
  }

  lemma Halves<T>(a: seq<T>, b: seq<T>)
    ensures (a + b)[..|a|] == a && (a + b)[|a|..] == b
  {
  }

  /** A slice inside the first part of a concatenation. */
  lemma SliceOfPrefix<T>(a: seq<T>, b: seq<T>, i: nat, j: nat)
    requires i <= j <= |a|
    ensures (a + b)[i .. j] == a[i .. j]
  {
  }

  /** A slice inside the second part of a concatenation. */
  lemma SliceAfter<T>(a: seq<T>, b: seq<T>, i: nat, j: nat)
    requires i <= j <= |b|
    ensures (a + b)[|a| + i .. |a| + j] == b[i .. j]
  {
  }

  /** A slice of a suffix. */
  lemma SliceOfSuffix<T>(s: seq<T>, d: nat, i: nat, j: nat)
    requires d + i <= d + j <= |s|
    ensures s[d..][i .. j] == s[d + i .. d + j]
  {
  }

  lemma MulSucc(w: int, n: int)
    ensures w * (n + 1) == w * n + w
  {
  }

  // ---------------------------------------------------------------------
  // An `int` used as a bit buffer: only its low bits are meaningful.
  // ---------------------------------------------------------------------

  /** `(buffer << n) | y` keeps the buffered bits `w` and appends `y`. */
  lemma ShiftIn(buffer: int, w: seq<bit>, n: nat, y: nat)
    requires |w| + n <= 32 && y < Pow2(n)
    requires Holds(buffer, w)
    ensures Holds(ShiftLeft(buffer, n) + y, w + FromNat(y, n))
  {
    HoldsValue(buffer, w);
    HoldsValue(ShiftLeft(buffer, n) + y, w + FromNat(y, n));
    ShiftInMod(buffer, w, n, y);
  }

  lemma ShiftInMod(buffer: int, w: seq<bit>, n: nat, y: nat)
    requires |w| + n <= 32 && y < Pow2(n)
    requires buffer % Pow2(|w|) == BitsValue(w)
    ensures (ShiftLeft(buffer, n) + y) % Pow2(|w| + n) == BitsValue(w + FromNat(y, n))
  {
    var a, m := Pow2(n), Pow2(|w|);
    var x := buffer * a;
    ShiftLeftValue(buffer, n);
    Pow2Add(|w|, n);
    assert Pow2(|w| + n) == m * a;
    Wrap32LowBits(x, |w| + n);
    ModCongruentAdd(ShiftLeft(buffer, n), x, y, m * a);
    assert (ShiftLeft(buffer, n) + y) % (m * a) == (x + y) % (m * a);
    ShiftAdd(buffer, a, m, y);
    assert (x + y) % (m * a) == BitsValue(w) * a + y;
    FromNatValue(y, n);
    BitsValueAppend(w, FromNat(y, n));
  }

  /** The same window, named by other index expressions. */
  lemma HoldsWindow(buffer: int, bits: seq<bit>, a: nat, b: nat, a': nat, b': nat)
    requires a == a' && b == b' && a <= b <= |bits|
    requires Holds(buffer, bits[a .. b])
    ensures Holds(buffer, bits[a' .. b'])
  {
  }

  /** A value below 2^n held alone spells its own n bits. */
  lemma HoldsFromNat(x: nat, n: nat)
    requires x < Pow2(n)
    ensures Holds(x, FromNat(x, n))
  {
    HoldsValue(x, FromNat(x, n));
    FromNatValue(x, n);
    DivModUnique(x, Pow2(n), 0, x);
  }

  /** `ShiftIn` for a window `bits[at .. at + held]` of a longer string,
      followed in it by the `n` bits of `y`. */
  lemma ShiftInAt(buffer: int, bits: seq<bit>, at: nat, held: nat, n: nat, y: nat)
    requires held + n <= 32 && y < Pow2(n) && at + held + n <= |bits|
    requires bits[at + held .. at + held + n] == FromNat(y, n)
    requires Holds(buffer, bits[at .. at + held])
    ensures Holds(ShiftLeft(buffer, n) + y, bits[at .. at + held + n])
  {
    ShiftIn(buffer, bits[at .. at + held], n, y);
    assert bits[at .. at + held + n] == bits[at .. at + held] + FromNat(y, n);
  }

  /** `ShiftIn` for the tail `bits[from ..]` of a string, which grows into
      `bits'` by the `n` bits of `y`. */
  lemma ShiftInTail(buffer: int, bits: seq<bit>, bits': seq<bit>, from: nat, n: nat, y: nat)
    requires from <= |bits| && |bits| - from + n <= 32 && y < Pow2(n)
    requires bits' == bits + FromNat(y, n)
    requires Holds(buffer, bits[from ..])
    ensures Holds(ShiftLeft(buffer, n) + y, bits'[from ..])
  {
    ShiftIn(buffer, bits[from ..], n, y);
    assert bits'[from ..] == bits[from ..] + FromNat(y, n);
  }

  lemma ModCongruentAdd(a: int, b: int, y: int, m: int)
    requires m > 0 && a % m == b % m
    ensures (a + y) % m == (b + y) % m
  {
    assert a == m * (a / m) + a % m;
    assert b == m * (b / m) + b % m;
    assert a + y == (b + y) + m * (a / m - b / m);
    ModAddMultiple(b + y, m, a / m - b / m);
  }

  /** `(buffer >> (|w| - g))`, masked to `g` bits, is the top `g` buffered
      bits; the bits below them stay buffered. */
  lemma TakeTop(buffer: int, w: seq<bit>, g: nat)
    requires g <= |w|
    requires Holds(buffer, w)
    ensures LowBits(ShiftRight(buffer, |w| - g), g) == BitsValue(w[..g])
    ensures Holds(buffer, w[g..])
  {
    HoldsValue(buffer, w);
    HoldsValue(buffer, w[g..]);
    ShiftRightLowBits(buffer, |w| - g);
    ShiftRightLowBits(ShiftRight(buffer, |w| - g), g);
    TakeTopMod(buffer, w, g);
  }

  lemma TakeTopMod(buffer: int, w: seq<bit>, g: nat)
    requires g <= |w|
    requires buffer % Pow2(|w|) == BitsValue(w)
    ensures (buffer / Pow2(|w| - g)) % Pow2(g) == BitsValue(w[..g])
    ensures buffer % Pow2(|w| - g) == BitsValue(w[g..])
  {
    Pow2Add(|w| - g, g);
    BitsValueSplit(w, g);
    TopAndRest(buffer, Pow2(|w| - g), Pow2(g), BitsValue(w[..g]), BitsValue(w[g..]));
  }

  /** The value of a bit string from the values of its two parts. */
  lemma BitsValueSplit(w: seq<bit>, g: nat)
    requires g <= |w|
    ensures BitsValue(w) == BitsValue(w[..g]) * Pow2(|w| - g) + BitsValue(w[g..])
  {
    assert w == w[..g] + w[g..];
    BitsValueAppend(w[..g], w[g..]);
  }

  /** Reading a value `top * low + rest` held in the low bits of `x`. */
  lemma TopAndRest(x: int, low: int, high: int, top: int, rest: int)
    requires low > 0 && high > 0 && 0 <= top < high && 0 <= rest < low
    requires x % (low * high) == top * low + rest
    ensures (x / low) % high == top && x % low == rest
  {
    DivThenMod(x, low, high);
    DivModUnique(top * low + rest, low, top, rest);
  }

  /** `TakeTop` for a window `bits[at .. at + held]` of a longer string. */
  lemma TakeTopAt(buffer: int, bits: seq<bit>, at: nat, held: nat, g: nat)
    requires g <= held && at + held <= |bits|
    requires Holds(buffer, bits[at .. at + held])
    ensures LowBits(ShiftRight(buffer, held - g), g) == BitsValue(bits[at .. at + g])
    ensures Holds(buffer, bits[at + g .. at + held])
  {
    var window := bits[at .. at + held];
    TakeTop(buffer, window, g);
    assert window[..g] == bits[at .. at + g];
    assert window[g..] == bits[at + g .. at + held];
  }

  /** `TakeTop` for the tail `bits[from ..]` of a string, `held` bits long;
      the bits below the top `g` are the tail from `from'`. */
  lemma TakeTopTail(buffer: int, bits: seq<bit>, from: nat, held: nat, g: nat, from': nat)
    requires g <= held && from + held == |bits| && from' == from + g
    requires Holds(buffer, bits[from ..])
    ensures LowBits(ShiftRight(buffer, held - g), g) == BitsValue(bits[from .. from + g])
    ensures Holds(buffer, bits[from' ..])
  {
    var tail := bits[from ..];
    TakeTop(buffer, tail, g);
    assert tail[..g] == bits[from .. from + g];
    assert tail[g..] == bits[from' ..];
  }
}
