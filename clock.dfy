/** The two age cutoffs of a run: `datetime.now() - timedelta(days, hours,
    minutes)`, with times as whole seconds since the epoch. A clock reading
    is a parameter; `datetime` and `timedelta` raise `OverflowError` outside
    their ranges, and `fromtimestamp` raises `ValueError` for a modification
    time outside the years 1 to 9999. */
module Clock {

  /** 0001-01-01 00:00:00 and 9999-12-31 23:59:59, the range of `datetime`. */
  const MinTime: int := -62135596800
  const MaxTime: int := 253402300799

  /** The largest number of days a `timedelta` may hold, either sign. */
  const MaxDeltaDays: int := 999999999

  /** One `{ "days": .., "hours": .., "minutes": .. }` object of the configuration. */
  datatype Offset = Offset(days: int, hours: int, minutes: int)

  function Seconds(o: Offset): int {
    o.days * 86400 + o.hours * 3600 + o.minutes * 60
  }

  /** A time that `datetime` can represent, so that `fromtimestamp` accepts it. */
  predicate Representable(t: int) {
    MinTime <= t <= MaxTime
  }

  datatype Overflow = DeltaTooLarge | DateOutOfRange

  datatype Cutoff = Time(t: int) | OverflowError(reason: Overflow)

  /** `now - timedelta(days=.., hours=.., minutes=..)`. The timedelta is
      normalised to whole days (floor division) and a day count beyond
      `MaxDeltaDays` overflows; so does a difference outside `datetime`'s
      range. */
  function Threshold(now: int, o: Offset): (c: Cutoff)
    ensures c.Time? ==> Representable(c.t) && now - c.t == Seconds(o)
    ensures c == OverflowError(DeltaTooLarge) <==> Seconds(o) / 86400 > MaxDeltaDays || Seconds(o) / 86400 < -MaxDeltaDays
    ensures c.Time? <==> -MaxDeltaDays <= Seconds(o) / 86400 <= MaxDeltaDays && Representable(now - Seconds(o))
  {
    var s := Seconds(o);
    if s / 86400 > MaxDeltaDays || s / 86400 < -MaxDeltaDays then OverflowError(DeltaTooLarge)
    else if !Representable(now - s) then OverflowError(DateOutOfRange)
    else Time(now - s)
  }
}
