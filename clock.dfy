/** Wall-clock time as Go's `time` package presents it to the lifecycle code:
    an instant is an integer count of nanoseconds since Go's zero Time
    (January 1, year 1, UTC), so the zero Time is 0; Time.Sub saturates at
    the bounds of the int64 Duration. */
module Clock {

  type Time = int

  const ZeroTime: Time := 0

  const Second := 1_000_000_000
  const Hour := 3600 * Second

  const MaxDuration := 0x7FFF_FFFF_FFFF_FFFF
  const MinDuration := -0x8000_0000_0000_0000

  /** t.Sub(u), clamped to the Duration range as Go clamps it: the result
      is a Duration, has the sign of the true difference and is never
      farther from zero than it. */
  function Sub(t: Time, u: Time): (d: int)
    ensures MinDuration <= d <= MaxDuration
    ensures (d > 0 <==> t > u) && (d < 0 <==> t < u)
    ensures t >= u ==> d <= t - u
    ensures t <= u ==> d >= t - u
  {
    if t - u > MaxDuration then MaxDuration
    else if t - u < MinDuration then MinDuration
    else t - u
  }

  /** The age past which a database is refreshed: 30 * 24 * time.Hour. */
  const StaleAge := 30 * 24 * Hour

  /** The staleness test of updateDatabasesIfNeeded: time.Since(last) >= 30 days. */
  predicate IsStale(now: Time, last: Time) {
    Sub(now, last) >= StaleAge
  }

  /** Saturation never changes the staleness verdict: an entry is stale
      exactly when at least 30 days separate it from now, the boundary
      included. */
  lemma StaleIff(now: Time, last: Time)
    ensures IsStale(now, last) <==> now - last >= StaleAge
  {
  }

  /** A zero lastUpdate is stale at every instant at least 30 days after
      Go's zero Time, that is, at any real clock reading. */
  lemma ZeroIsStale(now: Time)
    requires now >= StaleAge
    ensures IsStale(now, ZeroTime)
  {
  }

  /** A stale timestamp lies strictly in the past. */
  lemma StaleIsPast(now: Time, last: Time)
    requires IsStale(now, last)
    ensures last < now
  {
  }
}
