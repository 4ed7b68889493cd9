/** The queue API's one setting
    (queue/queue-api/.../config/QueueApiProperties.java): how long a waiting
    user's meta data lives without a status poll. */
module ApiProperties {
  import opened Wrappers
  import opened JavaTime

  datatype Properties = Properties(waitingMetaTtl: Duration)

  const Defaults := Properties(OfSeconds(30))

  function SetWaitingMetaTtl(p: Properties, d: Option<Duration>): (q: Properties)
    ensures IsPositive(d) ==> q.waitingMetaTtl == d.value
    ensures !IsPositive(d) ==> q == p
  {
    if d.Some? && !IsZero(d.value) && !IsNegative(d.value) then Properties(d.value) else p
  }

  function SetAll(p: Properties, calls: seq<Option<Duration>>): Properties
    decreases |calls|
  {
    if |calls| == 0 then p else SetAll(SetWaitingMetaTtl(p, calls[0]), calls[1..])
  }

  /** The time to live starts at 30 seconds and stays positive, whatever is
      passed to the setter. */
  lemma {:induction false} TtlStaysPositive(p: Properties, calls: seq<Option<Duration>>)
    requires IsPositive(Some(p.waitingMetaTtl))
    ensures IsPositive(Some(SetAll(p, calls).waitingMetaTtl))
    decreases |calls|
  {
    if |calls| > 0 {
      TtlStaysPositive(SetWaitingMetaTtl(p, calls[0]), calls[1..]);
    }
  }

  lemma ConfiguredTtlIsPositive(calls: seq<Option<Duration>>)
    ensures GetSeconds(Defaults.waitingMetaTtl) == 30
    ensures IsPositive(Some(SetAll(Defaults, calls).waitingMetaTtl))
  {
    TtlStaysPositive(Defaults, calls);
  }
}
