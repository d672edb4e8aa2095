/** `ToHumanReadableString(timespan, maxGranularity)` of
    `src/KingUtils/TimeSpanExtensions.cs`: a span written as counts of
    years, months, days, hours and minutes, then " from now" or " ago". The
    joining of the phrases (`ToJoinedString`) is the parameter `join`. */
module TimeSpanExtensions {
  import opened TimeUnits
  import opened Division
  import opened Durations

  /** The units above a minute, largest first. This formatter has no unit
      range: every unit is tried, which is the walk over the range from a
      minute to a year. */
  const Larger: seq<TimeUnit> := [Year, Month, Day, Hour]

  lemma LargerOrdered()
    ensures Sized(Minutes, Larger) && Descending(Larger) && Size(Minutes, Minute) == 1
    ensures forall i :: 0 <= i < |Larger| ==> Value(Larger[i]) > Value(Minute)
  {
  }

  /** `(int)timespan.TotalMinutes` fits an `int` whose magnitude
      `Math.Abs` can take. */
  predicate Representable(timespan: TimeSpan)
  {
    -0x8000_0000 < WholeMinutes(timespan) < 0x8000_0000
  }

  /** The walk of lines 25-52 over a magnitude in whole minutes. */
  function Walk(minutes: nat): (d: Decomposition)
  {
    LargerOrdered();
    Decompose(Minutes, Larger, Minute, minutes, Minute, Year)
  }

  /** Every item written for `timespan`, before `Take(maxGranularity)`:
      they add up to the magnitude of the span in whole minutes exactly. */
  function AllItems(timespan: TimeSpan): (items: seq<Item>)
    requires Representable(timespan)
    ensures Sum(Minutes, items) == Abs(WholeMinutes(timespan))
    ensures items == [] <==> WholeMinutes(timespan) == 0
  {
    var minutes := Abs(WholeMinutes(timespan));
    LargerOrdered();
    DecomposeSum(Minutes, Larger, Minute, minutes, Minute, Year);
    GreedyZero(Minutes, Larger, Minute, Year);
    Walk(minutes).items
  }

  /** The items come largest first and each counts at least one; every unit
      above a minute was written because more than one of it remained and
      leaves less than one of it behind. */
  lemma AllItemsOrdered(timespan: TimeSpan)
    requires Representable(timespan)
    ensures ItemsDescending(AllItems(timespan)) && Counted(AllItems(timespan))
    ensures Tight(Minutes, AllItems(timespan), 0, Minute)
  {
    var minutes := Abs(WholeMinutes(timespan));
    LargerOrdered();
    DecomposeItems(Minutes, Larger, Minute, minutes, Minute, Year);
    DecomposeSum(Minutes, Larger, Minute, minutes, Minute, Year);
    DecomposeTight(Minutes, Larger, Minute, minutes, Minute, Year);
  }

  /** What the walk over the units before `Larger[k]` leaves of `minutes`. */
  function Reach(minutes: nat, k: nat): nat
    requires k <= |Larger|
  {
    LargerOrdered();
    SizedSlices(Minutes, Larger, k);
    Greedy(Minutes, Larger[..k], minutes, Minute, Year).left
  }

  /** One of `Larger[k]`, in minutes. */
  function UnitSize(k: nat): (n: nat)
    requires k < |Larger|
    ensures n > 0
  {
    LargerOrdered();
    Size(Minutes, Larger[k])
  }

  /** How many whole `Larger[k]` fit in `amount` minutes. */
  function Fits(amount: nat, k: nat): (n: nat)
    requires k < |Larger|
    ensures n * UnitSize(k) <= amount < (n + 1) * UnitSize(k)
  {
    amount / UnitSize(k)
  }

  /** Unit `Larger[k]` is written exactly when what the larger units leave
      of the span strictly exceeds one of it, and then as the whole number
      of it that fits; minutes are written exactly when anything is left
      after the hours, and then as all that is left. */
  lemma AllItemsComplete(timespan: TimeSpan, k: nat)
    requires Representable(timespan) && k < |Larger|
    ensures var reach := Reach(Abs(WholeMinutes(timespan)), k);
      var size, items := UnitSize(k), AllItems(timespan);
      && (HasUnit(items, Larger[k]) <==> reach > size)
      && (reach > size ==> Item(Fits(reach, k), Larger[k]) in items)
    ensures var left := Reach(Abs(WholeMinutes(timespan)), |Larger|);
      var items := AllItems(timespan);
      && (HasUnit(items, Minute) <==> left > 0)
      && (left > 0 ==> items[|items| - 1] == Item(left, Minute))
  {
    var minutes := Abs(WholeMinutes(timespan));
    LargerOrdered();
    assert IsInRange(Larger[k], Minute, Year) && IsInRange(Minute, Minute, Year);
    assert AllItems(timespan) == Decompose(Minutes, Larger, Minute, minutes, Minute, Year).items;
    assert Larger[..|Larger|] == Larger;
    DecomposeComplete(Minutes, Larger, Minute, minutes, Minute, Year, k);
    DecomposeLast(Minutes, Larger, Minute, minutes, Minute, Year);
  }

  /** The items that are joined: at most `maxGranularity` of them, from the
      largest unit down. */
  function Items(timespan: TimeSpan, maxGranularity: int): (items: seq<Item>)
    requires Representable(timespan)
    ensures items == Take(AllItems(timespan), maxGranularity)
    ensures |items| <= |AllItems(timespan)| && items == AllItems(timespan)[..|items|]
    ensures |items| <= if maxGranularity <= 0 then 0 else maxGranularity
    ensures maxGranularity >= |AllItems(timespan)| ==> items == AllItems(timespan)
  {
    Take(AllItems(timespan), maxGranularity)
  }

  /** `TimeSpanExtensions.ToHumanReadableString(timespan, maxGranularity)`:
      the joined phrases, then " from now" exactly when the span is
      positive and " ago" otherwise, a span of zero included. */
  function ToHumanReadableString(timespan: TimeSpan, maxGranularity: int, join: seq<string> -> string): (s: string)
    requires Representable(timespan)
    ensures var text := join(Phrases(Items(timespan, maxGranularity)));
      && |text| <= |s| && s[..|text|] == text
      && (timespan.ticks > 0 <==> s[|text|..] == " from now")
      && (timespan.ticks <= 0 <==> s[|text|..] == " ago")
  {
    var isInFuture := timespan.ticks > 0;
    var text := join(Phrases(Items(timespan, maxGranularity)));
    var s := text + if isInFuture then " from now" else " ago";
    assert s[..|text|] == text;
    s
  }

  /** The thresholds are strict: exactly one hour is written as
      "60 minutes" and exactly one day as "24 hours". */
  lemma WholeUnitsStepDown()
    ensures AllItems(TimeSpan(60 * TicksPerMinute)) == [Item(60, Minute)]
    ensures AllItems(TimeSpan(1_440 * TicksPerMinute)) == [Item(24, Hour)]
  {
    LargerOrdered();
  }

  /** The sign of the span only decides the suffix: a span and its negation
      have the same items. */
  lemma SignIgnored(ticks: int)
    requires Representable(TimeSpan(ticks))
    ensures Representable(TimeSpan(-ticks))
    ensures AllItems(TimeSpan(-ticks)) == AllItems(TimeSpan(ticks))
  {
    TruncatedQuotientNegate(ticks, TicksPerMinute);
    assert Abs(WholeMinutes(TimeSpan(-ticks))) == Abs(WholeMinutes(TimeSpan(ticks)));
  }
}
