/** Instants as a calendar day number and a time of day. Adding days moves the day
    and keeps the time of day, which is what `Date.setDate(getDate() + n)` does
    when no daylight-saving change intervenes. */
module Time {

  const MsPerDay: int := 86_400_000

  /** Milliseconds since midnight. */
  type TimeOfDay = t: int | 0 <= t < MsPerDay

  datatype Instant = Instant(day: int, time: TimeOfDay)

  /** `a <= b` on instants, as the database compares timestamps. */
  predicate AtOrBefore(a: Instant, b: Instant) {
    a.day < b.day || (a.day == b.day && a.time <= b.time)
  }

  /** Milliseconds since the day-0 epoch: the rank used for ordering by a timestamp. */
  function Millis(i: Instant): int {
    i.day * MsPerDay + i.time
  }

  /** The rank orders instants exactly as AtOrBefore does. */
  lemma MillisOrder(a: Instant, b: Instant)
    ensures AtOrBefore(a, b) <==> Millis(a) <= Millis(b)
  {
  }

  /** `now` moved forward by `n` calendar days, keeping the time of day. */
  function AddDays(now: Instant, n: int): (r: Instant)
    ensures r.time == now.time
    ensures Millis(r) == Millis(now) + n * MsPerDay
    ensures n > 0 ==> AtOrBefore(now, r) && !AtOrBefore(r, now)
  {
    Instant(now.day + n, now.time)
  }
}
