/**
 * Elapsed time as the idle reaper measures it. The clock is an integer count
 * of microseconds (the resolution of `datetime.utcnow()`); the difference of
 * two moments is a `timedelta`, which Python normalises to whole days, seconds
 * in the day and microseconds, and the reaper keeps only
 * `days * 86400 + seconds`.
 */
module Clock {
  /** A moment in time, in microseconds. */
  type Instant = int

  const MicrosPerSecond: int := 1_000_000
  const SecondsPerDay: int := 86_400
  const MicrosPerDay: int := 86_400_000_000

  /**
   * `delta.days * 86400 + delta.seconds` for `delta = timedelta(microseconds=d)`:
   * the days are floored (negative for a negative delta), the seconds and
   * microseconds are the non-negative rest. The result is the largest whole
   * number of seconds not above `d`.
   */
  function WholeSeconds(d: int): (r: int)
    ensures r * MicrosPerSecond <= d < (r + 1) * MicrosPerSecond
  {
    var days := d / MicrosPerDay;
    var seconds := (d % MicrosPerDay) / MicrosPerSecond;
    days * SecondsPerDay + seconds
  }

  /**
   * The reaper's test `delta > timeout` holds exactly when at least
   * `timeout + 1` full seconds have passed: the sub-second part never counts.
   */
  lemma ExceedsIff(d: int, timeout: int)
    ensures WholeSeconds(d) > timeout <==> d >= (timeout + 1) * MicrosPerSecond
  {
    var r := WholeSeconds(d);
    if r > timeout {
      assert (timeout + 1) * MicrosPerSecond <= r * MicrosPerSecond;
    } else {
      assert (r + 1) * MicrosPerSecond <= (timeout + 1) * MicrosPerSecond;
    }
  }
}
