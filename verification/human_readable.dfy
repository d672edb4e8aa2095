/** `ToHumanReadableString` and `ToRelativeHumanReadableString` of
    `src/KingUtils/HumanReadableDateAndTimeExtensions.cs`: a span written
    as counts of years, months, days, hours, minutes and seconds. The
    joining of the phrases (`ToJoinedString`) is not part of this model; it
    is the parameter `join`. */
module HumanReadableDateAndTimeExtensions {
  import opened Wrappers
  import opened TimeUnits
  import opened Division
  import opened Durations

  /** The units above a second, largest first, as the walk tries them. */
  const Larger: seq<TimeUnit> := [Year, Month, Day, Hour, Minute]

  lemma LargerOrdered()
    ensures Sized(Seconds, Larger) && Descending(Larger) && Size(Seconds, Second) == 1
    ensures forall i :: 0 <= i < |Larger| ==> Value(Larger[i]) > Value(Second)
  {
  }

  /** `(int)value.TotalSeconds` fits an `int` whose magnitude `Math.Abs`
      can take. */
  predicate Representable(value: TimeSpan)
  {
    -0x8000_0000 < WholeSeconds(value) < 0x8000_0000
  }

  /** The walk of lines 150-188 over a magnitude in whole seconds. */
  function Walk(seconds: nat, minUnit: TimeUnit, maxUnit: TimeUnit): (d: Decomposition)
  {
    LargerOrdered();
    Decompose(Seconds, Larger, Second, seconds, minUnit, maxUnit)
  }

  /** Every item the walk writes for `value` in the unit range, before
      `Take(precision)`. They add up to the magnitude of the span in whole
      seconds: exactly when seconds are in range, and otherwise with what
      is left out smaller than the amount. */
  function AllItems(value: TimeSpan, minUnit: TimeUnit, maxUnit: TimeUnit): (items: seq<Item>)
    requires Representable(value)
    ensures Sum(Seconds, items) <= Abs(WholeSeconds(value))
    ensures IsInRange(Second, minUnit, maxUnit) ==> Sum(Seconds, items) == Abs(WholeSeconds(value))
    ensures WholeSeconds(value) == 0 ==> items == []
  {
    var seconds := Abs(WholeSeconds(value));
    LargerOrdered();
    DecomposeSum(Seconds, Larger, Second, seconds, minUnit, maxUnit);
    GreedyZero(Seconds, Larger, minUnit, maxUnit);
    Walk(seconds, minUnit, maxUnit).items
  }

  /** The items come largest first, each at least one of a unit in range. */
  lemma AllItemsOrdered(value: TimeSpan, minUnit: TimeUnit, maxUnit: TimeUnit)
    requires Representable(value)
    ensures ItemsDescending(AllItems(value, minUnit, maxUnit))
    ensures Counted(AllItems(value, minUnit, maxUnit))
    ensures UnitsInRange(AllItems(value, minUnit, maxUnit), minUnit, maxUnit)
  {
    LargerOrdered();
    DecomposeItems(Seconds, Larger, Second, Abs(WholeSeconds(value)), minUnit, maxUnit);
  }

  /** Every unit above a second was written because more than one of it
      remained, and leaves less than one of it behind. */
  lemma AllItemsTight(value: TimeSpan, minUnit: TimeUnit, maxUnit: TimeUnit)
    requires Representable(value)
    ensures Tight(Seconds, AllItems(value, minUnit, maxUnit),
      Abs(WholeSeconds(value)) - Sum(Seconds, AllItems(value, minUnit, maxUnit)), Second)
  {
    var seconds := Abs(WholeSeconds(value));
    LargerOrdered();
    DecomposeSum(Seconds, Larger, Second, seconds, minUnit, maxUnit);
    DecomposeTight(Seconds, Larger, Second, seconds, minUnit, maxUnit);
  }

  /** What the items leave out is at most one of any unit in range: a unit
      is skipped only while no more than one of it remains. */
  lemma AllItemsLeaveLittle(value: TimeSpan, minUnit: TimeUnit, maxUnit: TimeUnit)
    requires Representable(value)
    ensures LeftWithin(Seconds, Larger, Abs(WholeSeconds(value)) - Sum(Seconds, AllItems(value, minUnit, maxUnit)), minUnit, maxUnit)
  {
    var seconds := Abs(WholeSeconds(value));
    LargerOrdered();
    DecomposeSum(Seconds, Larger, Second, seconds, minUnit, maxUnit);
    GreedyLeft(Seconds, Larger, seconds, minUnit, maxUnit);
  }

  /** What the walk over the units before `Larger[k]` leaves of `seconds`. */
  function Reach(seconds: nat, minUnit: TimeUnit, maxUnit: TimeUnit, k: nat): nat
    requires k <= |Larger|
  {
    LargerOrdered();
    SizedSlices(Seconds, Larger, k);
    Greedy(Seconds, Larger[..k], seconds, minUnit, maxUnit).left
  }

  /** One of `Larger[k]`, in seconds. */
  function UnitSize(k: nat): (n: nat)
    requires k < |Larger|
    ensures n > 0
  {
    LargerOrdered();
    Size(Seconds, Larger[k])
  }

  /** How many whole `Larger[k]` fit in `amount` seconds. */
  function Fits(amount: nat, k: nat): (n: nat)
    requires k < |Larger|
    ensures n * UnitSize(k) <= amount < (n + 1) * UnitSize(k)
  {
    amount / UnitSize(k)
  }

  /** Unit `Larger[k]` is written exactly when it is in range and what the
      larger units leave of the span strictly exceeds one of it, and then
      as the whole number of it that fits. */
  lemma AllItemsComplete(value: TimeSpan, minUnit: TimeUnit, maxUnit: TimeUnit, k: nat)
    requires Representable(value) && k < |Larger|
    ensures var reach := Reach(Abs(WholeSeconds(value)), minUnit, maxUnit, k);
      var size, items := UnitSize(k), AllItems(value, minUnit, maxUnit);
      && (HasUnit(items, Larger[k]) <==>
            IsInRange(Larger[k], minUnit, maxUnit) && reach > size)
      && (IsInRange(Larger[k], minUnit, maxUnit) && reach > size ==> Item(Fits(reach, k), Larger[k]) in items)
  {
    LargerOrdered();
    DecomposeComplete(Seconds, Larger, Second, Abs(WholeSeconds(value)), minUnit, maxUnit, k);
  }

  /** Seconds are written exactly when they are in range and the larger
      units leave anything of the span, and then as all that is left. */
  lemma AllItemsSeconds(value: TimeSpan, minUnit: TimeUnit, maxUnit: TimeUnit)
    requires Representable(value)
    ensures var left := Reach(Abs(WholeSeconds(value)), minUnit, maxUnit, |Larger|);
      var items := AllItems(value, minUnit, maxUnit);
      && (HasUnit(items, Second) <==>
            IsInRange(Second, minUnit, maxUnit) && left > 0)
      && (IsInRange(Second, minUnit, maxUnit) && left > 0 ==> items[|items| - 1] == Item(left, Second))
  {
    LargerOrdered();
    assert Larger[..|Larger|] == Larger;
    DecomposeLast(Seconds, Larger, Second, Abs(WholeSeconds(value)), minUnit, maxUnit);
  }

  /** 5,000,000 seconds, about 58 days, with every unit in range. */
  lemma AllItemsExample()
    ensures AllItems(TimeSpan(5_000_000 * TicksPerSecond), Second, Year) ==
      [Item(1, Month), Item(27, Day), Item(10, Hour), Item(53, Minute), Item(20, Second)]
  {
    LargerOrdered();
    assert WholeSeconds(TimeSpan(5_000_000 * TicksPerSecond)) == 5_000_000;
    assert Greedy(Seconds, [Minute], 3_200, Second, Year) == Decomposition([Item(53, Minute)], 20);
    assert Greedy(Seconds, [Hour, Minute], 39_200, Second, Year).items == [Item(10, Hour), Item(53, Minute)];
    assert Greedy(Seconds, [Day, Hour, Minute], 2_372_000, Second, Year).items ==
      [Item(27, Day), Item(10, Hour), Item(53, Minute)];
    assert Larger[1..] == [Month, Day, Hour, Minute];
  }

  /** The items `value.ToHumanReadableString(precision, minUnit, maxUnit)`
      joins, or `None` for its null: a zero precision and a reversed unit
      range give null before anything is computed, and so does a span with
      nothing to write. */
  function Items(value: TimeSpan, precision: int, minUnit: TimeUnit, maxUnit: TimeUnit): (r: Option<seq<Item>>)
    requires Representable(value)
    ensures r.None? <==> precision == 0 || Value(maxUnit) < Value(minUnit) || AllItems(value, minUnit, maxUnit) == []
    ensures r.Some? ==> r.value == Take(AllItems(value, minUnit, maxUnit), precision)
    ensures r.Some? ==> WholeSeconds(value) != 0
  {
    if precision == 0 then None
    else if Value(maxUnit) < Value(minUnit) then None
    else
      var items := AllItems(value, minUnit, maxUnit);
      if |items| == 0 then None else Some(Take(items, precision))
  }

  /** `value.ToHumanReadableString(precision, minUnit, maxUnit)`. */
  function ToHumanReadableString(value: TimeSpan, precision: int, minUnit: TimeUnit, maxUnit: TimeUnit,
                                 join: seq<string> -> string): (r: Option<string>)
    requires Representable(value)
    ensures r.None? <==> Items(value, precision, minUnit, maxUnit).None?
    ensures r.Some? ==> r.value == join(Phrases(Items(value, precision, minUnit, maxUnit).value))
  {
    match Items(value, precision, minUnit, maxUnit)
    case None => None
    case Some(items) => Some(join(Phrases(items)))
  }

  /** `value.ToRelativeHumanReadableString(precision, minUnit, maxUnit)`
      with `DateTimeOffset.UtcNow` passed as `now`: null when the span has
      nothing to write, else the text followed by " ago" for a past value
      and " from now" for a future one. */
  function ToRelativeHumanReadableString(value: DateTimeOffset, now: DateTimeOffset, precision: int,
                                         minUnit: TimeUnit, maxUnit: TimeUnit,
                                         join: seq<string> -> string): (r: Option<string>)
    requires Representable(Subtract(value, now))
    ensures var span := Subtract(value, now);
      var text := ToHumanReadableString(span, precision, minUnit, maxUnit, join);
      && (r.None? <==> text.None?)
      && (r.Some? && value.utcTicks < now.utcTicks ==> r.value == text.value + " ago")
      && (r.Some? && value.utcTicks > now.utcTicks ==> r.value == text.value + " from now")
      && (r.Some? ==> value.utcTicks != now.utcTicks)
  {
    var span := Subtract(value, now);
    match ToHumanReadableString(span, precision, minUnit, maxUnit, join)
    case None => None
    case Some(text) =>
      if span.ticks < 0 then Some(text + " ago")
      else if span.ticks == 0 then Some("now")
      else Some(text + " from now")
  }

  /** The "now" answer is never given: a span of zero has nothing to write
      and comes back null. */
  lemma NeverNow(value: DateTimeOffset, now: DateTimeOffset, precision: int,
                 minUnit: TimeUnit, maxUnit: TimeUnit, join: seq<string> -> string)
    requires Representable(Subtract(value, now))
    ensures ToRelativeHumanReadableString(value, now, precision, minUnit, maxUnit, join) != Some("now")
  {
    var r := ToRelativeHumanReadableString(value, now, precision, minUnit, maxUnit, join);
    if r.Some? {
      assert |r.value| >= 4;
    }
  }

  /** The sign of the span is ignored: a span and its negation are written
      alike. */
  lemma SignIgnored(ticks: int, precision: int, minUnit: TimeUnit, maxUnit: TimeUnit)
    requires Representable(TimeSpan(ticks))
    ensures Representable(TimeSpan(-ticks))
    ensures Items(TimeSpan(-ticks), precision, minUnit, maxUnit) == Items(TimeSpan(ticks), precision, minUnit, maxUnit)
  {
    TruncatedQuotientNegate(ticks, TicksPerSecond);
    assert Abs(WholeSeconds(TimeSpan(-ticks))) == Abs(WholeSeconds(TimeSpan(ticks)));
  }

  /** The thresholds are strict: exactly one minute is written as
      "60 seconds", and exactly one hour as "60 minutes". */
  lemma WholeUnitsStepDown()
    ensures AllItems(TimeSpan(60 * TicksPerSecond), Second, Year) == [Item(60, Second)]
    ensures AllItems(TimeSpan(3_600 * TicksPerSecond), Second, Year) == [Item(60, Minute)]
  {
    LargerOrdered();
  }
}
