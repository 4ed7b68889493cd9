/** `java.time.Duration` and `Instant`, reduced to what the queue services
    use. A duration is a whole number of nanoseconds and an instant a number
    of nanoseconds since the epoch. `getSeconds` and `toEpochMilli` round
    toward negative infinity; `toMillis` (since Java 9) rounds toward zero. */
module JavaTime {
  import opened Wrappers

  datatype Duration = Duration(nanos: int)

  const NanosPerMilli: int := 1_000_000
  const NanosPerSecond: int := 1_000_000_000

  /** `Duration.ofSeconds`. */
  function OfSeconds(s: int): (d: Duration)
    ensures GetSeconds(d) == s && ToMillis(d) == s * 1000
  {
    Duration(s * NanosPerSecond)
  }

  predicate IsZero(d: Duration) {
    d.nanos == 0
  }

  predicate IsNegative(d: Duration) {
    d.nanos < 0
  }

  /** Not null, not zero and not negative: the guard the setters and the
      store calls apply to a `Duration` reference. */
  predicate IsPositive(d: Option<Duration>) {
    d.Some? && !IsZero(d.value) && !IsNegative(d.value)
  }

  /** `Duration.toMillis`: the whole milliseconds, rounded toward zero. */
  function ToMillis(d: Duration): (ms: int)
    ensures d.nanos >= 0 ==> ms * NanosPerMilli <= d.nanos < (ms + 1) * NanosPerMilli
    ensures d.nanos < 0 ==> (ms - 1) * NanosPerMilli < d.nanos <= ms * NanosPerMilli
    ensures (ms < 0 <==> d.nanos <= -NanosPerMilli) && (ms > 0 <==> d.nanos >= NanosPerMilli)
  {
    if d.nanos >= 0 then d.nanos / NanosPerMilli else -((-d.nanos) / NanosPerMilli)
  }

  /** Less than a millisecond either side of zero is no milliseconds at all;
      one nanosecond before zero is where rounding down would disagree. */
  lemma ToMillisTruncates()
    ensures ToMillis(Duration(-1)) == 0 && ToMillis(Duration(-NanosPerMilli - 1)) == -1
    ensures ToMillis(Duration(NanosPerMilli - 1)) == 0
  {
  }

  /** `Duration.getSeconds`: the whole seconds, rounded down. */
  function GetSeconds(d: Duration): (s: int)
    ensures s * NanosPerSecond <= d.nanos < (s + 1) * NanosPerSecond
  {
    d.nanos / NanosPerSecond
  }

  /** `Instant.toEpochMilli` of an instant given in epoch nanoseconds. */
  function EpochMilli(instantNanos: int): (ms: int)
    ensures ms * NanosPerMilli <= instantNanos < (ms + 1) * NanosPerMilli
  {
    instantNanos / NanosPerMilli
  }

  /** A positive duration may still be shorter than a millisecond or a
      second; its whole milliseconds and seconds are never negative. */
  lemma PositiveDurationParts(d: Duration)
    requires IsPositive(Some(d))
    ensures ToMillis(d) >= 0 && GetSeconds(d) >= 0
    ensures ToMillis(d) > 0 <==> d.nanos >= NanosPerMilli
    ensures GetSeconds(d) > 0 <==> d.nanos >= NanosPerSecond
  {
  }
}
