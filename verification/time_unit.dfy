/** `TimeUnit` of `src/KingUtils/TimeUnit.cs`: the units a duration is
    written in, smallest first. */
module TimeUnits {
  datatype TimeUnit = Second | Minute | Hour | Day | Month | Year

  /** The enum's integer value, which orders the units. */
  function Value(u: TimeUnit): (n: nat)
    ensures n <= 5
  {
    match u
    case Second => 0
    case Minute => 1
    case Hour => 2
    case Day => 3
    case Month => 4
    case Year => 5
  }

  /** `IsInRange(unit, min, max)` of
      `src/KingUtils/HumanReadableDateAndTimeExtensions.cs`. */
  predicate IsInRange(unit: TimeUnit, min: TimeUnit, max: TimeUnit)
  {
    Value(min) <= Value(unit) <= Value(max)
  }

  /** A range whose bounds are the wrong way round holds no unit, and the
      range from `Second` to `Year` holds every unit. */
  lemma RangeBounds(unit: TimeUnit, min: TimeUnit, max: TimeUnit)
    ensures Value(max) < Value(min) ==> !IsInRange(unit, min, max)
    ensures IsInRange(unit, Second, Year)
    ensures IsInRange(unit, min, max) ==> IsInRange(min, min, max) && IsInRange(max, min, max)
  {
  }

  /** The word for one unit, as both formatters write it: singular, so
      the plural `s` is never part of it. */
  function Name(u: TimeUnit): (s: string)
    ensures |s| > 0 && s[|s| - 1] != 's'
    ensures ' ' !in s
  {
    match u
    case Second => "second"
    case Minute => "minute"
    case Hour => "hour"
    case Day => "day"
    case Month => "month"
    case Year => "year"
  }

  /** Each unit has its own word, so a written name tells the unit. */
  lemma NamesDistinct(u: TimeUnit, v: TimeUnit)
    ensures Name(u) == Name(v) <==> u == v
  {
  }
}
