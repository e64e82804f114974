/**
 * Wall-clock times and the datetime arithmetic the calculators use:
 * datetime.combine(fecha, t) and timedelta.total_seconds().
 */
module Clock {
  import opened Calendar

  const SecondsPerDay := 86400

  /** A datetime.time, as whole seconds since midnight. */
  type Time = s: int | 0 <= s < SecondsPerDay

  /** time(h, m, s). */
  function TimeOf(h: int, m: int, s: int): (t: Time)
    requires 0 <= h < 24 && 0 <= m < 60 && 0 <= s < 60
    ensures t / 3600 == h && t % 3600 / 60 == m && t % 60 == s
  {
    3600 * h + 60 * m + s
  }

  /** datetime.combine(fecha, t), as seconds since the start of the ordinal calendar. */
  function Combine(fecha: Date, t: Time): int
    requires Valid(fecha)
  {
    ToOrdinal(fecha) * 86400 + t
  }

  /** (later - earlier).total_seconds() for two datetimes. */
  function TotalSeconds(earlier: int, later: int): int {
    later - earlier
  }

  /** Two times combined with the same date are as far apart as the times themselves. */
  lemma CombineSameDate(fecha: Date, entrada: Time, salida: Time)
    requires Valid(fecha)
    ensures TotalSeconds(Combine(fecha, entrada), Combine(fecha, salida)) == salida - entrada
  {
  }
}
