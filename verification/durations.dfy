/** What the two human-readable duration formatters share: a `TimeSpan` and
    its truncation to whole units, the phrase for one item ("1 year",
    "3 days"), `Take`, and the greedy walk over the units from the largest
    down that both of them write out unit by unit. */
module Durations {
  import opened Division
  import opened TimeUnits

  /** A `TimeSpan`, as its count of 100-nanosecond ticks. */
  datatype TimeSpan = TimeSpan(ticks: int)

  /** A `DateTimeOffset`, as its UTC ticks; subtracting two of them gives
      the span between their UTC instants. */
  datatype DateTimeOffset = DateTimeOffset(utcTicks: int)

  function Subtract(value: DateTimeOffset, other: DateTimeOffset): (span: TimeSpan)
    ensures span.ticks + other.utcTicks == value.utcTicks
  {
    TimeSpan(value.utcTicks - other.utcTicks)
  }

  const TicksPerSecond: nat := 10_000_000
  const TicksPerMinute: nat := 600_000_000

  /** `(int)timespan.TotalSeconds`. */
  function WholeSeconds(span: TimeSpan): int
  {
    TruncatedQuotient(span.ticks, TicksPerSecond)
  }

  /** `(int)timespan.TotalMinutes`. */
  function WholeMinutes(span: TimeSpan): int
  {
    TruncatedQuotient(span.ticks, TicksPerMinute)
  }

  /** LINQ `Take(count)`: the first `count` elements, all of them when
      there are fewer, none when `count` is not positive. */
  function Take<T>(s: seq<T>, count: int): (r: seq<T>)
    ensures |r| == if count <= 0 then 0 else if count < |s| then count else |s|
    ensures r == s[..|r|]
  {
    if count <= 0 then [] else if count < |s| then s[..count] else s
  }

  /** The decimal digits of `n`, as `$"{n}"` writes a non-negative int. */
  function Decimal(n: nat): (s: string)
    ensures |s| >= 1 && (|s| > 1 ==> s[0] != '0')
    ensures forall i :: 0 <= i < |s| ==> '0' <= s[i] <= '9'
  {
    if n < 10 then [('0' as int + n) as char]
    else Decimal(n / 10) + [('0' as int + n % 10) as char]
  }

  /** The number a string of decimal digits stands for. */
  function DigitsValue(s: string): (n: nat)
    requires forall i :: 0 <= i < |s| ==> '0' <= s[i] <= '9'
  {
    if |s| == 0 then 0 else 10 * DigitsValue(s[..|s| - 1]) + (s[|s| - 1] as int - '0' as int)
  }

  /** Reading the digits back gives the number. */
  lemma {:induction false} DecimalRoundTrip(n: nat)
    ensures DigitsValue(Decimal(n)) == n
  {
    if n >= 10 {
      DecimalRoundTrip(n / 10);
      var s := Decimal(n);
      assert s[..|s| - 1] == Decimal(n / 10);
    }
  }

  /** One part of the output: a count of one unit. */
  datatype Item = Item(quantity: nat, unit: TimeUnit)

  /** `"1 year"` for a single unit and `"{n} years"` otherwise. */
  function Phrase(item: Item): (s: string)
  {
    Decimal(item.quantity) + " " + Name(item.unit) + if item.quantity == 1 then "" else "s"
  }

  /** The phrase is the count, a space and the unit's name, and the name is
      plural exactly when the count is not one. */
  lemma PhraseShape(item: Item)
    ensures var s, d := Phrase(item), Decimal(item.quantity);
      && s[..|d|] == d && s[|d|] == ' '
      && (s[|s| - 1] == 's' <==> item.quantity != 1)
      && DigitsValue(s[..|d|]) == item.quantity
  {
    DecimalRoundTrip(item.quantity);
    var d, name := Decimal(item.quantity), Name(item.unit);
    if item.quantity == 1 {
      assert Phrase(item) == d + " " + name + "";
    }
  }

  /** Distinct items are written as distinct phrases: the first space ends
      the count's digits, the optional `s` is fixed by the count, and the
      word between names one unit. */
  lemma PhraseInjective(a: Item, b: Item)
    ensures Phrase(a) == Phrase(b) <==> a == b
  {
    if Phrase(a) == Phrase(b) {
      var da, db := Decimal(a.quantity), Decimal(b.quantity);
      var ta := Name(a.unit) + if a.quantity == 1 then "" else "s";
      var tb := Name(b.unit) + if b.quantity == 1 then "" else "s";
      assert Phrase(a) == da + " " + ta && Phrase(b) == db + " " + tb;
      CountFirst(da, ta, db, tb);
      DecimalRoundTrip(a.quantity);
      DecimalRoundTrip(b.quantity);
      assert Name(a.unit) == ta[..|Name(a.unit)|] && Name(b.unit) == tb[..|Name(b.unit)|];
      NamesDistinct(a.unit, b.unit);
    }
  }

  /** Digits, a space, then anything: the space after the digits is the
      first, so equal strings of this shape have equal digits and rests. */
  lemma CountFirst(da: string, ta: string, db: string, tb: string)
    requires forall i :: 0 <= i < |da| ==> '0' <= da[i] <= '9'
    requires forall i :: 0 <= i < |db| ==> '0' <= db[i] <= '9'
    requires da + " " + ta == db + " " + tb
    ensures da == db && ta == tb
  {
    var s := da + " " + ta;
    SpaceAfter(da, ta);
    SpaceAfter(db, tb);
    assert |da| == |db|;
    assert da == s[..|da|] == db;
    assert ta == s[|da| + 1..] == tb;
  }

  /** In `digits + " " + rest` the first space is the one after the digits. */
  lemma SpaceAfter(digits: string, rest: string)
    requires forall i :: 0 <= i < |digits| ==> '0' <= digits[i] <= '9'
    ensures (digits + " " + rest)[|digits|] == ' '
    ensures forall i :: 0 <= i < |digits| ==> (digits + " " + rest)[i] != ' '
  {
  }

  function Phrases(items: seq<Item>): (r: seq<string>)
    ensures |r| == |items|
    ensures forall i :: 0 <= i < |items| ==> r[i] == Phrase(items[i])
  {
    seq(|items|, i requires 0 <= i < |items| => Phrase(items[i]))
  }

  /** What the items stand for in the scale's unit. */
  function Sum(scale: Scale, items: seq<Item>): nat
  {
    if |items| == 0 then 0 else items[0].quantity * Size(scale, items[0].unit) + Sum(scale, items[1..])
  }

  lemma {:induction false} SumAppend(scale: Scale, a: seq<Item>, b: seq<Item>)
    ensures Sum(scale, a + b) == Sum(scale, a) + Sum(scale, b)
    decreases |a|
  {
    if |a| > 0 {
      SumAppend(scale, a[1..], b);
      assert (a + b)[1..] == a[1..] + b;
    } else {
      assert a + b == b;
    }
  }

  /** The two formatters' tables: how many seconds, or how many minutes,
      one of each unit counts. A year is 365 days and a month 365/12 days.
      A second is not a whole number of minutes; the minute table has no
      use for it and gives it no size. */
  datatype Scale = Seconds | Minutes

  function Size(scale: Scale, unit: TimeUnit): (n: nat)
    ensures unit != Second || scale == Seconds ==> n > 0
  {
    match (scale, unit)
    case (Seconds, Year) => 31_536_000
    case (Seconds, Month) => 2_628_000
    case (Seconds, Day) => 86_400
    case (Seconds, Hour) => 3_600
    case (Seconds, Minute) => 60
    case (Seconds, Second) => 1
    case (Minutes, Year) => 525_600
    case (Minutes, Month) => 43_800
    case (Minutes, Day) => 1_440
    case (Minutes, Hour) => 60
    case (Minutes, Minute) => 1
    case (Minutes, Second) => 0
  }

  /** Strictly largest first. */
  predicate Descending(units: seq<TimeUnit>)
  {
    forall i, j :: 0 <= i < j < |units| ==> Value(units[i]) > Value(units[j])
  }

  predicate ItemsDescending(items: seq<Item>)
  {
    forall i, j :: 0 <= i < j < |items| ==> Value(items[i].unit) > Value(items[j].unit)
  }

  /** Items and what is left over. */
  datatype Decomposition = Decomposition(items: seq<Item>, left: nat)

  /** Whole units of `size` in `amount` and what remains, as
      `n = amount / size; amount -= n * size` computes them. */
  function Divide(amount: nat, size: nat): (r: (nat, nat))
    requires 0 < size < amount
    ensures r.0 >= 1 && r.1 < size && r.0 * size + r.1 == amount
  {
    var count := amount / size;
    assert amount == size * count + amount % size;
    (count, amount - count * size)
  }

  /** Every listed unit has a size. */
  predicate Sized(scale: Scale, units: seq<TimeUnit>)
  {
    forall i :: 0 <= i < |units| ==> Size(scale, units[i]) > 0
  }

  /** Every item counts at least one. */
  predicate Counted(items: seq<Item>)
  {
    forall i :: 0 <= i < |items| ==> items[i].quantity >= 1
  }

  /** Some item is of `unit`. */
  predicate HasUnit(items: seq<Item>, unit: TimeUnit)
  {
    exists i :: 0 <= i < |items| && items[i].unit == unit
  }

  predicate UnitsAmong(items: seq<Item>, units: seq<TimeUnit>)
  {
    forall i :: 0 <= i < |items| ==> items[i].unit in units
  }

  predicate UnitsInRange(items: seq<Item>, min: TimeUnit, max: TimeUnit)
  {
    forall i :: 0 <= i < |items| ==> IsInRange(items[i].unit, min, max)
  }

  predicate UnitsBetween(items: seq<Item>, low: int, high: int)
  {
    forall i :: 0 <= i < |items| ==> low < Value(items[i].unit) < high
  }

  /** What is left over is at most one of any listed unit in range. */
  predicate LeftWithin(scale: Scale, units: seq<TimeUnit>, left: nat, min: TimeUnit, max: TimeUnit)
  {
    forall i :: 0 <= i < |units| && IsInRange(units[i], min, max) ==> left <= Size(scale, units[i])
  }

  /** Each item but those of unit `last` was written because more than one
      of its unit remained, and leaves less than one of it behind. */
  predicate Tight(scale: Scale, items: seq<Item>, left: nat, last: TimeUnit)
    decreases |items|
  {
    || |items| == 0
    || (&& (items[0].unit != last ==>
             Sum(scale, items[1..]) + left < Size(scale, items[0].unit) < Sum(scale, items) + left)
        && Tight(scale, items[1..], left, last))
  }

  /** The walk over `units`: a unit in range is written when what remains
      strictly exceeds one of it, as the whole number of it that fits. */
  function Greedy(scale: Scale, units: seq<TimeUnit>, amount: nat, min: TimeUnit, max: TimeUnit): (r: Decomposition)
    requires Sized(scale, units)
    decreases |units|
  {
    if |units| == 0 then Decomposition([], amount)
    else
      var unit, size := units[0], Size(scale, units[0]);
      if IsInRange(unit, min, max) && amount > size then
        var (count, remaining) := Divide(amount, size);
        var rest := Greedy(scale, units[1..], remaining, min, max);
        Decomposition([Item(count, unit)] + rest.items, rest.left)
      else Greedy(scale, units[1..], amount, min, max)
  }

  /** The items and the leftover add up to the amount. */
  lemma {:induction false} GreedySum(scale: Scale, units: seq<TimeUnit>, amount: nat, min: TimeUnit, max: TimeUnit)
    requires Sized(scale, units)
    ensures Sum(scale, Greedy(scale, units, amount, min, max).items) + Greedy(scale, units, amount, min, max).left == amount
    decreases |units|
  {
    if |units| > 0 {
      var unit, size := units[0], Size(scale, units[0]);
      if IsInRange(unit, min, max) && amount > size {
        var (count, remaining) := Divide(amount, size);
        GreedySum(scale, units[1..], remaining, min, max);
        var r := Greedy(scale, units, amount, min, max);
        assert r.items[1..] == Greedy(scale, units[1..], remaining, min, max).items;
      } else {
        assert Greedy(scale, units, amount, min, max) == Greedy(scale, units[1..], amount, min, max);
        GreedySum(scale, units[1..], amount, min, max);
      }
    }
  }

  /** Every item counts at least one. */
  lemma {:induction false} GreedyCounted(scale: Scale, units: seq<TimeUnit>, amount: nat, min: TimeUnit, max: TimeUnit)
    requires Sized(scale, units)
    ensures Counted(Greedy(scale, units, amount, min, max).items)
    decreases |units|
  {
    if |units| > 0 {
      var unit, size := units[0], Size(scale, units[0]);
      var next := if IsInRange(unit, min, max) && amount > size then Divide(amount, size).1 else amount;
      GreedyCounted(scale, units[1..], next, min, max);
      var rest := Greedy(scale, units[1..], next, min, max);
      var r := Greedy(scale, units, amount, min, max);
      if IsInRange(unit, min, max) && amount > size {
        assert r.items == [Item(Divide(amount, size).0, unit)] + rest.items;
        assert forall i :: 1 <= i < |r.items| ==> r.items[i] == rest.items[i - 1];
      } else {
        assert r == rest;
      }
    }
  }

  /** Every item is of a unit in range. */
  lemma {:induction false} GreedyInRange(scale: Scale, units: seq<TimeUnit>, amount: nat, min: TimeUnit, max: TimeUnit)
    requires Sized(scale, units)
    ensures UnitsInRange(Greedy(scale, units, amount, min, max).items, min, max)
    decreases |units|
  {
    if |units| > 0 {
      var unit, size := units[0], Size(scale, units[0]);
      var next := if IsInRange(unit, min, max) && amount > size then Divide(amount, size).1 else amount;
      GreedyInRange(scale, units[1..], next, min, max);
      var rest := Greedy(scale, units[1..], next, min, max);
      var r := Greedy(scale, units, amount, min, max);
      if IsInRange(unit, min, max) && amount > size {
        assert r.items == [Item(Divide(amount, size).0, unit)] + rest.items;
        assert forall i :: 1 <= i < |r.items| ==> r.items[i] == rest.items[i - 1];
      } else {
        assert r == rest;
      }
    }
  }

  /** Every item is of a listed unit. */
  lemma {:induction false} GreedyAmong(scale: Scale, units: seq<TimeUnit>, amount: nat, min: TimeUnit, max: TimeUnit)
    requires Sized(scale, units)
    ensures UnitsAmong(Greedy(scale, units, amount, min, max).items, units)
    decreases |units|
  {
    if |units| > 0 {
      var unit, size := units[0], Size(scale, units[0]);
      var next := if IsInRange(unit, min, max) && amount > size then Divide(amount, size).1 else amount;
      GreedyAmong(scale, units[1..], next, min, max);
      var rest := Greedy(scale, units[1..], next, min, max);
      var r := Greedy(scale, units, amount, min, max);
      assert r.items == rest.items || r.items == [Item(Divide(amount, size).0, unit)] + rest.items;
      assert forall u :: u in units[1..] ==> u in units;
    }
  }

  /** The walk writes every unit tightly. */
  lemma {:induction false} GreedyTight(scale: Scale, units: seq<TimeUnit>, amount: nat, min: TimeUnit, max: TimeUnit, last: TimeUnit)
    requires Sized(scale, units)
    ensures Tight(scale, Greedy(scale, units, amount, min, max).items, Greedy(scale, units, amount, min, max).left, last)
    decreases |units|
  {
    if |units| > 0 {
      SizedSlices(scale, units, 1);
      var next := After(scale, units[0], amount, min, max);
      var rest := Greedy(scale, units[1..], next, min, max);
      var r := Greedy(scale, units, amount, min, max);
      GreedyHead(scale, units, amount, min, max);
      GreedyTight(scale, units[1..], next, min, max, last);
      if IsInRange(units[0], min, max) && amount > Size(scale, units[0]) {
        GreedySum(scale, units[1..], next, min, max);
        GreedySum(scale, units, amount, min, max);
        assert r.items[1..] == rest.items && r.left == rest.left;
        TightCons(scale, r.items, r.left, last);
      } else {
        assert r == rest;
      }
    }
  }

  /** An item written because more than one of its unit remained, leaving
      less than one behind, in front of tight items. */
  lemma TightCons(scale: Scale, items: seq<Item>, left: nat, last: TimeUnit)
    requires |items| > 0 && Tight(scale, items[1..], left, last)
    requires Sum(scale, items[1..]) + left < Size(scale, items[0].unit) < Sum(scale, items) + left
    ensures Tight(scale, items, left, last)
  {
  }

  /** Both parts of a list of sized units are sized. */
  lemma SizedSlices(scale: Scale, units: seq<TimeUnit>, k: nat)
    requires Sized(scale, units) && k <= |units|
    ensures Sized(scale, units[..k]) && Sized(scale, units[k..])
  {
    assert forall i :: 0 <= i < k ==> units[..k][i] == units[i];
    assert forall i :: 0 <= i < |units| - k ==> units[k..][i] == units[k + i];
  }

  /** What is left over is no more than the amount, and at most one of any
      listed unit in range. */
  lemma {:induction false} GreedyLeft(scale: Scale, units: seq<TimeUnit>, amount: nat, min: TimeUnit, max: TimeUnit)
    requires Sized(scale, units)
    ensures Greedy(scale, units, amount, min, max).left <= amount
    ensures LeftWithin(scale, units, Greedy(scale, units, amount, min, max).left, min, max)
    decreases |units|
  {
    if |units| > 0 {
      var unit, size := units[0], Size(scale, units[0]);
      var r := Greedy(scale, units, amount, min, max);
      var next := if IsInRange(unit, min, max) && amount > size then Divide(amount, size).1 else amount;
      assert r == Greedy(scale, units[1..], next, min, max) || r.left == Greedy(scale, units[1..], next, min, max).left;
      GreedyLeft(scale, units[1..], next, min, max);
      assert r.left <= next <= amount;
      assert IsInRange(unit, min, max) ==> next <= size;
      forall i | 0 <= i < |units| && IsInRange(units[i], min, max)
        ensures r.left <= Size(scale, units[i])
      {
        if i > 0 {
          assert units[i] == units[1..][i - 1];
        }
      }
    }
  }

  /** Items only use units whose values lie strictly between `low` and
      `high` when the listed units all do. */
  lemma {:induction false} GreedyBetween(scale: Scale, units: seq<TimeUnit>, amount: nat, min: TimeUnit, max: TimeUnit, low: int, high: int)
    requires Sized(scale, units)
    requires forall i :: 0 <= i < |units| ==> low < Value(units[i]) < high
    ensures UnitsBetween(Greedy(scale, units, amount, min, max).items, low, high)
    decreases |units|
  {
    if |units| > 0 {
      var unit, size := units[0], Size(scale, units[0]);
      if IsInRange(unit, min, max) && amount > size {
        var (count, remaining) := Divide(amount, size);
        GreedyBetween(scale, units[1..], remaining, min, max, low, high);
        var rest := Greedy(scale, units[1..], remaining, min, max);
        var r := Greedy(scale, units, amount, min, max);
        assert r.items == [Item(count, unit)] + rest.items;
        assert forall i :: 1 <= i < |r.items| ==> r.items[i] == rest.items[i - 1];
      } else {
        assert Greedy(scale, units, amount, min, max) == Greedy(scale, units[1..], amount, min, max);
        GreedyBetween(scale, units[1..], amount, min, max, low, high);
      }
    }
  }

  /** Over units listed largest first, the items come largest first. */
  lemma {:induction false} GreedyDescending(scale: Scale, units: seq<TimeUnit>, amount: nat, min: TimeUnit, max: TimeUnit)
    requires Sized(scale, units)
    requires Descending(units)
    ensures ItemsDescending(Greedy(scale, units, amount, min, max).items)
    decreases |units|
  {
    if |units| > 0 {
      SizedSlices(scale, units, 1);
      assert Descending(units[1..]);
      var next := After(scale, units[0], amount, min, max);
      var rest := Greedy(scale, units[1..], next, min, max);
      var r := Greedy(scale, units, amount, min, max);
      GreedyHead(scale, units, amount, min, max);
      GreedyDescending(scale, units[1..], next, min, max);
      if IsInRange(units[0], min, max) && amount > Size(scale, units[0]) {
        GreedyBetween(scale, units[1..], next, min, max, -1, Value(units[0]));
        assert forall j :: 1 <= j < |r.items| ==> r.items[j] == rest.items[j - 1];
      } else {
        assert r == rest;
      }
    }
  }

  /** The whole of one formatter's walk: the `larger` units by `Greedy`,
      then the smallest unit `last`, which is written whenever it is in
      range and anything at all remains. */
  function Decompose(scale: Scale, larger: seq<TimeUnit>, last: TimeUnit, amount: nat, min: TimeUnit, max: TimeUnit): (r: Decomposition)
    requires Sized(scale, larger)
  {
    var g := Greedy(scale, larger, amount, min, max);
    if IsInRange(last, min, max) && g.left > 0 then Decomposition(g.items + [Item(g.left, last)], 0)
    else g
  }

  /** Appending what is left as a count of the smallest unit keeps every
      earlier item tight. */
  lemma {:induction false} TightAppend(scale: Scale, items: seq<Item>, left: nat, last: TimeUnit)
    requires Size(scale, last) == 1 && Tight(scale, items, left, last)
    ensures Sum(scale, items + [Item(left, last)]) == Sum(scale, items) + left
    ensures Tight(scale, items + [Item(left, last)], 0, last)
    decreases |items|
  {
    var tail := [Item(left, last)];
    assert Sum(scale, tail) == left by {
      assert tail[1..] == [];
    }
    SumAppend(scale, items, tail);
    if |items| > 0 {
      TightAppend(scale, items[1..], left, last);
      assert (items + tail)[1..] == items[1..] + tail;
    } else {
      assert items + tail == tail;
    }
  }

  /** The items of `Decompose` and what it leaves over add up to the
      amount, and nothing is left over when the smallest unit is in range. */
  lemma DecomposeSum(scale: Scale, larger: seq<TimeUnit>, last: TimeUnit, amount: nat, min: TimeUnit, max: TimeUnit)
    requires Sized(scale, larger) && Size(scale, last) == 1
    ensures Sum(scale, Decompose(scale, larger, last, amount, min, max).items) +
      Decompose(scale, larger, last, amount, min, max).left == amount
    ensures IsInRange(last, min, max) ==> Decompose(scale, larger, last, amount, min, max).left == 0
  {
    var g := Greedy(scale, larger, amount, min, max);
    GreedySum(scale, larger, amount, min, max);
    if IsInRange(last, min, max) && g.left > 0 {
      var tail := [Item(g.left, last)];
      assert Sum(scale, tail) == g.left by {
        assert tail[1..] == [];
      }
      SumAppend(scale, g.items, tail);
    }
  }

  /** The items of `Decompose` each count at least one of a listed unit in
      range, largest first, when the larger units are listed largest first
      and all exceed the smallest. */
  lemma DecomposeItems(scale: Scale, larger: seq<TimeUnit>, last: TimeUnit, amount: nat, min: TimeUnit, max: TimeUnit)
    requires Sized(scale, larger)
    requires Descending(larger) && forall i :: 0 <= i < |larger| ==> Value(larger[i]) > Value(last)
    ensures ItemsDescending(Decompose(scale, larger, last, amount, min, max).items)
    ensures Counted(Decompose(scale, larger, last, amount, min, max).items)
    ensures UnitsAmong(Decompose(scale, larger, last, amount, min, max).items, larger + [last])
    ensures UnitsInRange(Decompose(scale, larger, last, amount, min, max).items, min, max)
  {
    var g := Greedy(scale, larger, amount, min, max);
    GreedyCounted(scale, larger, amount, min, max);
    GreedyInRange(scale, larger, amount, min, max);
    GreedyDescending(scale, larger, amount, min, max);
    DecomposeAmong(scale, larger, last, amount, min, max);
    if IsInRange(last, min, max) && g.left > 0 {
      GreedyBetween(scale, larger, amount, min, max, Value(last), 6);
      var items := g.items + [Item(g.left, last)];
      assert forall i :: 0 <= i < |g.items| ==> items[i] == g.items[i];
    }
  }

  /** Every item of `Decompose` is of a listed unit. */
  lemma DecomposeAmong(scale: Scale, larger: seq<TimeUnit>, last: TimeUnit, amount: nat, min: TimeUnit, max: TimeUnit)
    requires Sized(scale, larger)
    ensures UnitsAmong(Decompose(scale, larger, last, amount, min, max).items, larger + [last])
  {
    var g := Greedy(scale, larger, amount, min, max);
    GreedyAmong(scale, larger, amount, min, max);
    assert forall u :: u in larger ==> u in larger + [last];
    if IsInRange(last, min, max) && g.left > 0 {
      var items := g.items + [Item(g.left, last)];
      assert forall i :: 0 <= i < |g.items| ==> items[i] == g.items[i];
    }
  }

  /** Every item of `Decompose` but the smallest unit's was written because
      more than one of its unit remained, and leaves less than one of it. */
  lemma DecomposeTight(scale: Scale, larger: seq<TimeUnit>, last: TimeUnit, amount: nat, min: TimeUnit, max: TimeUnit)
    requires Sized(scale, larger) && Size(scale, last) == 1
    ensures Tight(scale, Decompose(scale, larger, last, amount, min, max).items,
      Decompose(scale, larger, last, amount, min, max).left, last)
  {
    var g := Greedy(scale, larger, amount, min, max);
    GreedyTight(scale, larger, amount, min, max, last);
    if IsInRange(last, min, max) && g.left > 0 {
      TightAppend(scale, g.items, g.left, last);
    }
  }

  /** What the walk writes for one unit from `amount`, and what it leaves. */
  function Written(scale: Scale, unit: TimeUnit, amount: nat, min: TimeUnit, max: TimeUnit): (items: seq<Item>)
    requires Size(scale, unit) > 0
  {
    if IsInRange(unit, min, max) && amount > Size(scale, unit) then [Item(amount / Size(scale, unit), unit)] else []
  }

  function After(scale: Scale, unit: TimeUnit, amount: nat, min: TimeUnit, max: TimeUnit): (left: nat)
    requires Size(scale, unit) > 0
  {
    if IsInRange(unit, min, max) && amount > Size(scale, unit) then Divide(amount, Size(scale, unit)).1 else amount
  }

  /** One step of the walk. */
  lemma GreedyHead(scale: Scale, units: seq<TimeUnit>, amount: nat, min: TimeUnit, max: TimeUnit)
    requires Sized(scale, units) && |units| > 0
    ensures var rest := Greedy(scale, units[1..], After(scale, units[0], amount, min, max), min, max);
      Greedy(scale, units, amount, min, max) ==
        Decomposition(Written(scale, units[0], amount, min, max) + rest.items, rest.left)
  {
    var rest := Greedy(scale, units[1..], After(scale, units[0], amount, min, max), min, max);
    if !(IsInRange(units[0], min, max) && amount > Size(scale, units[0])) {
      assert [] + rest.items == rest.items;
    }
  }

  /** The walk splits at any unit: the first `k` units from the amount,
      then the rest from what those left. */
  lemma {:induction false} GreedySplit(scale: Scale, units: seq<TimeUnit>, amount: nat, min: TimeUnit, max: TimeUnit, k: nat)
    requires Sized(scale, units) && k <= |units|
    ensures Sized(scale, units[..k]) && Sized(scale, units[k..])
    ensures var pre := Greedy(scale, units[..k], amount, min, max);
      var post := Greedy(scale, units[k..], pre.left, min, max);
      Greedy(scale, units, amount, min, max) == Decomposition(pre.items + post.items, post.left)
    decreases k
  {
    SizedSlices(scale, units, k);
    if k == 0 {
      assert units[..0] == [] && units[0..] == units;
      var post := Greedy(scale, units, amount, min, max);
      assert [] + post.items == post.items;
    } else {
      var tail, front := units[1..], units[..k];
      assert front[0] == units[0];
      assert tail[..k - 1] == front[1..];
      assert tail[k - 1..] == units[k..];
      var next := After(scale, units[0], amount, min, max);
      var head := Written(scale, units[0], amount, min, max);
      SizedSlices(scale, units, 1);
      GreedySplit(scale, tail, next, min, max, k - 1);
      GreedyHead(scale, units, amount, min, max);
      GreedyHead(scale, front, amount, min, max);
      var pre' := Greedy(scale, front[1..], next, min, max);
      var post := Greedy(scale, units[k..], pre'.left, min, max);
      assert Greedy(scale, front, amount, min, max) == Decomposition(head + pre'.items, pre'.left);
      assert Greedy(scale, tail, next, min, max) == Decomposition(pre'.items + post.items, post.left);
      assert (head + pre'.items) + post.items == head + (pre'.items + post.items);
    }
  }

  /** The walk writes unit `k` exactly when it is in range and what the
      units before it left strictly exceeds one of it: then as the whole
      number of it that fits, right after the items of those units.
      Over units listed largest first no item has that unit otherwise. */
  lemma GreedyComplete(scale: Scale, units: seq<TimeUnit>, amount: nat, min: TimeUnit, max: TimeUnit, k: nat)
    requires Sized(scale, units) && k < |units|
    ensures Sized(scale, units[..k])
    ensures var reach := Greedy(scale, units[..k], amount, min, max);
      var g := Greedy(scale, units, amount, min, max);
      var size := Size(scale, units[k]);
      IsInRange(units[k], min, max) && reach.left > size ==>
        |reach.items| < |g.items| && g.items[|reach.items|] == Item(reach.left / size, units[k])
    ensures Descending(units) ==>
      var reach := Greedy(scale, units[..k], amount, min, max);
      var g := Greedy(scale, units, amount, min, max);
      (HasUnit(g.items, units[k]) <==>
        IsInRange(units[k], min, max) && reach.left > Size(scale, units[k]))
  {
    GreedySplit(scale, units, amount, min, max, k);
    var pre := Greedy(scale, units[..k], amount, min, max);
    var unit, size := units[k], Size(scale, units[k]);
    var post := Greedy(scale, units[k..], pre.left, min, max);
    var g := Greedy(scale, units, amount, min, max);
    assert units[k..][0] == unit && units[k..][1..] == units[k + 1..];
    var take := IsInRange(unit, min, max) && pre.left > size;
    var next := if take then Divide(pre.left, size).1 else pre.left;
    var rest := Greedy(scale, units[k + 1..], next, min, max);
    if take {
      assert post.items == [Item(pre.left / size, unit)] + rest.items;
      assert g.items[|pre.items|] == post.items[0];
    } else if Descending(units) {
      assert post == rest;
      GreedyBetween(scale, units[..k], amount, min, max, Value(unit), 6);
      GreedyBetween(scale, units[k + 1..], next, min, max, -1, Value(unit));
      forall i | 0 <= i < |g.items|
        ensures g.items[i].unit != unit
      {
        if i < |pre.items| {
          assert g.items[i] == pre.items[i];
        } else {
          assert g.items[i] == rest.items[i - |pre.items|];
        }
      }
    }
  }

  /** For a formatter's walk: each larger unit is written exactly when the
      walk over the units before it leaves strictly more than one of it, and
      then as the whole number of it that fits. */
  lemma DecomposeComplete(scale: Scale, larger: seq<TimeUnit>, last: TimeUnit, amount: nat,
                          min: TimeUnit, max: TimeUnit, k: nat)
    requires Sized(scale, larger) && k < |larger|
    requires Descending(larger) && forall i :: 0 <= i < |larger| ==> Value(larger[i]) > Value(last)
    ensures Sized(scale, larger[..k])
    ensures var reach := Greedy(scale, larger[..k], amount, min, max).left;
      var size, items := Size(scale, larger[k]), Decompose(scale, larger, last, amount, min, max).items;
      && (HasUnit(items, larger[k]) <==>
            IsInRange(larger[k], min, max) && reach > size)
      && (IsInRange(larger[k], min, max) && reach > size ==> Item(reach / size, larger[k]) in items)
  {
    GreedyComplete(scale, larger, amount, min, max, k);
    var g := Greedy(scale, larger, amount, min, max);
    var items := Decompose(scale, larger, last, amount, min, max).items;
    var unit := larger[k];
    assert unit != last;
    assert |g.items| <= |items|;
    assert forall i :: 0 <= i < |g.items| ==> items[i] == g.items[i];
    assert forall i :: |g.items| <= i < |items| ==> items[i].unit == last;
    if HasUnit(items, unit) {
      var i :| 0 <= i < |items| && items[i].unit == unit;
      assert g.items[i].unit == unit;
    }
  }

  /** For a formatter's walk: the smallest unit is written exactly when it
      is in range and the larger units leave anything, as all that is left. */
  lemma DecomposeLast(scale: Scale, larger: seq<TimeUnit>, last: TimeUnit, amount: nat,
                      min: TimeUnit, max: TimeUnit)
    requires Sized(scale, larger)
    requires forall i :: 0 <= i < |larger| ==> Value(larger[i]) > Value(last)
    ensures var left, items := Greedy(scale, larger, amount, min, max).left,
                               Decompose(scale, larger, last, amount, min, max).items;
      && (HasUnit(items, last) <==> IsInRange(last, min, max) && left > 0)
      && (IsInRange(last, min, max) && left > 0 ==> items[|items| - 1] == Item(left, last))
  {
    GreedyBetween(scale, larger, amount, min, max, Value(last), 6);
    var g := Greedy(scale, larger, amount, min, max);
    var items := Decompose(scale, larger, last, amount, min, max).items;
    assert forall i :: 0 <= i < |g.items| ==> g.items[i].unit != last;
    if IsInRange(last, min, max) && g.left > 0 {
      assert items[|items| - 1] == Item(g.left, last);
    } else {
      assert items == g.items;
    }
  }

  /** Nothing is written for a zero amount. */
  lemma {:induction false} GreedyZero(scale: Scale, units: seq<TimeUnit>, min: TimeUnit, max: TimeUnit)
    requires Sized(scale, units)
    ensures Greedy(scale, units, 0, min, max) == Decomposition([], 0)
    decreases |units|
  {
    if |units| > 0 {
      GreedyZero(scale, units[1..], min, max);
    }
  }

}
