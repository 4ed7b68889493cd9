/** The queue manager's settings
    (queue/queue-manager/.../config/QueueManagerProperties.java): five
    values with positive defaults, each set through a setter that ignores a
    null, zero or negative argument. */
module ManagerProperties {
  import opened Wrappers
  import opened JavaTime

  datatype Properties = Properties(
    scheduleInterval: Duration,
    ticketTtl: Duration,
    batchLimit: int,
    defaultSoftCap: int,
    inactivityGrace: Duration)

  const Defaults := Properties(OfSeconds(1), OfSeconds(60), 100, 1000, OfSeconds(30))

  /** Every value is positive. */
  predicate AllPositive(p: Properties) {
    && IsPositive(Some(p.scheduleInterval))
    && IsPositive(Some(p.ticketTtl))
    && p.batchLimit > 0
    && p.defaultSoftCap > 0
    && IsPositive(Some(p.inactivityGrace))
  }

  lemma DefaultsArePositive()
    ensures AllPositive(Defaults)
    ensures ToMillis(Defaults.scheduleInterval) == 1000
    ensures GetSeconds(Defaults.ticketTtl) == 60
    ensures ToMillis(Defaults.inactivityGrace) == 30_000
  {
  }

  /** scheduleIntervalMillis: the interval in milliseconds, or one second
      when it has no whole millisecond. */
  function ScheduleIntervalMillis(p: Properties): (ms: int)
    ensures ms > 0
    ensures ToMillis(p.scheduleInterval) > 0 ==> ms == ToMillis(p.scheduleInterval)
    ensures ToMillis(p.scheduleInterval) <= 0 ==> ms == 1000
  {
    var millis := ToMillis(p.scheduleInterval);
    if millis > 0 then millis else ToMillis(OfSeconds(1))
  }

  /** A positive interval shorter than a millisecond is accepted by its
      setter, and the schedule then runs every second. */
  lemma SubMillisecondIntervalRunsEverySecond(p: Properties)
    requires 0 < p.scheduleInterval.nanos < NanosPerMilli
    ensures IsPositive(Some(p.scheduleInterval))
    ensures ScheduleIntervalMillis(p) == 1000
  {
  }

  // ---------------------------------------------------------------------
  // Setters

  function SetScheduleInterval(p: Properties, d: Option<Duration>): (q: Properties)
    ensures IsPositive(d) ==> q == p.(scheduleInterval := d.value)
    ensures !IsPositive(d) ==> q == p
  {
    if d.Some? && !IsZero(d.value) && !IsNegative(d.value) then p.(scheduleInterval := d.value) else p
  }

  function SetTicketTtl(p: Properties, d: Option<Duration>): (q: Properties)
    ensures IsPositive(d) ==> q == p.(ticketTtl := d.value)
    ensures !IsPositive(d) ==> q == p
  {
    if d.Some? && !IsZero(d.value) && !IsNegative(d.value) then p.(ticketTtl := d.value) else p
  }

  function SetBatchLimit(p: Properties, n: int): (q: Properties)
    ensures n > 0 ==> q == p.(batchLimit := n)
    ensures n <= 0 ==> q == p
  {
    if n > 0 then p.(batchLimit := n) else p
  }

  function SetDefaultSoftCap(p: Properties, n: int): (q: Properties)
    ensures n > 0 ==> q == p.(defaultSoftCap := n)
    ensures n <= 0 ==> q == p
  {
    if n > 0 then p.(defaultSoftCap := n) else p
  }

  function SetInactivityGrace(p: Properties, d: Option<Duration>): (q: Properties)
    ensures IsPositive(d) ==> q == p.(inactivityGrace := d.value)
    ensures !IsPositive(d) ==> q == p
  {
    if d.Some? && !IsNegative(d.value) && !IsZero(d.value) then p.(inactivityGrace := d.value) else p
  }

  /** One setter call, as configuration binding makes it. */
  datatype SetterCall =
    | ScheduleInterval(d: Option<Duration>)
    | TicketTtl(d: Option<Duration>)
    | BatchLimit(n: int)
    | DefaultSoftCap(n: int)
    | InactivityGrace(d: Option<Duration>)

  function Apply(p: Properties, call: SetterCall): Properties {
    match call
    case ScheduleInterval(d) => SetScheduleInterval(p, d)
    case TicketTtl(d) => SetTicketTtl(p, d)
    case BatchLimit(n) => SetBatchLimit(p, n)
    case DefaultSoftCap(n) => SetDefaultSoftCap(p, n)
    case InactivityGrace(d) => SetInactivityGrace(p, d)
  }

  function ApplyAll(p: Properties, calls: seq<SetterCall>): Properties
    decreases |calls|
  {
    if |calls| == 0 then p else ApplyAll(Apply(p, calls[0]), calls[1..])
  }

  /** Whatever setters are called, in whatever order, every value stays
      positive. */
  lemma {:induction false} SettersKeepPositive(p: Properties, calls: seq<SetterCall>)
    requires AllPositive(p)
    ensures AllPositive(ApplyAll(p, calls))
    decreases |calls|
  {
    if |calls| > 0 {
      SettersKeepPositive(Apply(p, calls[0]), calls[1..]);
    }
  }

  /** In particular, the properties a running manager holds are positive. */
  lemma ConfiguredArePositive(calls: seq<SetterCall>)
    ensures AllPositive(ApplyAll(Defaults, calls))
  {
    DefaultsArePositive();
    SettersKeepPositive(Defaults, calls);
  }
}
