/** Timestamps are whole seconds since the epoch (UTC); dates are day numbers. */
module Calendar {

  const SecondsPerDay: int := 86400

  /** `DATE(t)`: the day a timestamp falls on. */
  function DayOf(t: int): (d: int)
    ensures d * SecondsPerDay <= t < d * SecondsPerDay + SecondsPerDay
  {
    t / SecondsPerDay
  }

  /** Carbon `startOfDay()`: the first second of day `d`. */
  function StartOfDay(d: int): int { d * SecondsPerDay }

  /** Carbon `endOfDay()`: the last whole second of day `d`. */
  function EndOfDay(d: int): int { d * SecondsPerDay + SecondsPerDay - 1 }

  /** Comparing a timestamp against the start and end of days is comparing its day. */
  lemma WithinDays(t: int, a: int, b: int)
    ensures StartOfDay(a) <= t <==> a <= DayOf(t)
    ensures t <= EndOfDay(b) <==> DayOf(t) <= b
  {
    var q := DayOf(t);
    if a > q { assert a * SecondsPerDay >= q * SecondsPerDay + SecondsPerDay; }
    if a <= q { assert a * SecondsPerDay <= q * SecondsPerDay; }
    if b < q { assert b * SecondsPerDay + SecondsPerDay <= q * SecondsPerDay; }
    if b >= q { assert b * SecondsPerDay >= q * SecondsPerDay; }
  }
}
