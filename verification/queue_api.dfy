/** The queue API's service (queue/queue-api/.../service/QueueService.java):
    registering a new waiting user, and answering a user's status poll with
    their rank, their ticket, or an error. */
module QueueApi {
  import opened Wrappers
  import opened Text
  import opened KvStore
  import opened JavaTime
  import opened QueueKeys
  import opened ApiProperties
  import opened WaitingRepository

  datatype QueueStatus = Waiting | Promoted

  datatype EntryResponse = EntryResponse(status: QueueStatus, rank: int, userId: string)

  datatype StatusResponse = StatusResponse(status: QueueStatus, rank: int, ticketId: Option<string>)

  /** A `ResponseStatusException`: the HTTP status and the reason. */
  datatype HttpError = HttpError(code: int, reason: string)

  /** The store after a request, and the response or the error. */
  datatype Reply<T> = Reply(store: Store, outcome: Result<T, HttpError>)

  const InternalServerError := 500
  const NotFound := 404
  const Gone := 410

  const RegisterFailed := HttpError(InternalServerError, "Failed to register queue entry")
  const UserNotFound := HttpError(NotFound, "User not found in queue")
  const NoLongerWaiting := HttpError(Gone, "User is no longer waiting")

  /** enqueue, for the user id it draws and the clock it reads (as epoch
      milliseconds and as ISO-8601 text). */
  function Enqueue(st: Store, p: Properties, nickname: string, userId: string,
                   nowMillis: int, nowText: string): (r: Reply<EntryResponse>)
    requires ValidStore(st)
    ensures ValidStore(r.store)
    ensures r.outcome.Ok? ==> r.outcome.value.status == Waiting && r.outcome.value.userId == userId
    ensures r.outcome.Err? ==> r.outcome.error == RegisterFailed
  {
    var added := AddToWaitingQueue(st, userId, nowMillis);
    if !added.1 then Reply(added.0, Err(RegisterFailed))
    else
      var s2 := UpsertWaitingMeta(added.0, userId, nickname, Some(p.waitingMetaTtl), nowText);
      var rank := GetWaitingRank(s2, userId);
      Reply(s2, Ok(EntryResponse(Waiting, rank.GetOr(0), userId)))
  }

  /** An id already in the queue is refused with a server error, but its
      score has been reset to now all the same. */
  lemma EnqueueRefusesKnownId(st: Store, p: Properties, nickname: string, userId: string, nowMillis: int, nowText: string)
    requires ValidStore(st)
    ensures var r := Enqueue(st, p, nickname, userId, nowMillis, nowText);
      && (r.outcome.Err? <==> ZScore(st, WaitingQueue, userId).Some?)
      && (r.outcome.Err? ==>
            && ZScore(r.store, WaitingQueue, userId) == Some(nowMillis)
            && AgreeOutside(st, r.store, {WaitingQueue}))
  {
  }

  /** A new id joins the queue at now's score, ranked behind everyone who
      is ahead of that entry, with fresh meta data holding the nickname and
      no ticket; only the waiting set and the user's meta hash change. */
  lemma EnqueueRegisters(st: Store, p: Properties, nickname: string, userId: string, nowMillis: int, nowText: string)
    requires ValidStore(st) && ZScore(st, WaitingQueue, userId).None?
    requires p.waitingMetaTtl.nanos >= NanosPerMilli
    ensures var r := Enqueue(st, p, nickname, userId, nowMillis, nowText);
      var mk := MetaKey(userId);
      && r.outcome.Ok?
      && ZScore(r.store, WaitingQueue, userId) == Some(nowMillis)
      && (forall x :: x != userId ==> ZScore(r.store, WaitingQueue, x) == ZScore(st, WaitingQueue, x))
      && r.outcome.value.rank == CountBefore(ZEntries(r.store, WaitingQueue), Entry(userId, nowMillis))
      && HGetAll(r.store, mk) == HGetAll(st, mk) + InitialMeta(userId, nickname, nowText)
      && TtlOf(r.store, mk) == Some(ToMillis(p.waitingMetaTtl))
      && AgreeOutside(st, r.store, {WaitingQueue, mk})
  {
    var mk := MetaKey(userId);
    var added := AddToWaitingQueue(st, userId, nowMillis);
    var s2 := UpsertWaitingMeta(added.0, userId, nickname, Some(p.waitingMetaTtl), nowText);
    MetaKeysApart(userId, userId);
    AgreeOutsideReads(added.0, s2, {mk}, WaitingQueue);
    AgreeOutsideReads(st, added.0, {WaitingQueue}, mk);
    AgreeOutsideChain(st, added.0, s2, {WaitingQueue}, {mk});
    RankIsUsersAhead(s2, userId);
  }

  /** getStatus: 404 without meta data; otherwise the poll is recorded, and
      the answer is the ticket if the meta data holds one, else the user's
      rank, or 410 when the user has left the queue. */
  function GetStatus(st: Store, p: Properties, userId: string, nowText: string): (r: Reply<StatusResponse>)
    requires ValidStore(st)
    ensures ValidStore(r.store)
    ensures AgreeOutside(st, r.store, {MetaKey(userId)})
  {
    match FindWaitingMeta(st, userId)
    case None => Reply(st, Err(UserNotFound))
    case Some(meta) =>
      var s1 := TouchWaitingMeta(st, userId, Some(p.waitingMetaTtl), nowText);
      if "ticketId" in meta && !IsBlank(meta["ticketId"]) then
        Reply(s1, Ok(StatusResponse(Promoted, 0, Some(meta["ticketId"]))))
      else match GetWaitingRank(s1, userId)
        case None => Reply(s1, Err(NoLongerWaiting))
        case Some(rank) => Reply(s1, Ok(StatusResponse(Waiting, rank, None)))
  }

  /** A user holds a ticket: the meta data names a non-blank ticket id. */
  predicate HoldsTicket(meta: map<string, string>) {
    "ticketId" in meta && !IsBlank(meta["ticketId"])
  }

  /** The four answers of a status poll and when each is given. */
  lemma StatusOutcomes(st: Store, p: Properties, userId: string, nowText: string)
    requires ValidStore(st)
    ensures var r := GetStatus(st, p, userId, nowText);
      var meta := HGetAll(st, MetaKey(userId));
      var score := ZScore(st, WaitingQueue, userId);
      && (|meta| == 0 <==> r.outcome == Err(UserNotFound))
      && (|meta| == 0 ==> r.store == st)
      && (|meta| > 0 && HoldsTicket(meta) ==>
            r.outcome == Ok(StatusResponse(Promoted, 0, Some(meta["ticketId"]))))
      && (|meta| > 0 && !HoldsTicket(meta) && score.Some? ==>
            r.outcome == Ok(StatusResponse(Waiting, CountBefore(ZEntries(st, WaitingQueue), Entry(userId, score.value)), None)))
      && (|meta| > 0 && !HoldsTicket(meta) && score.None? ==> r.outcome == Err(NoLongerWaiting))
  {
    var meta := HGetAll(st, MetaKey(userId));
    if |meta| > 0 && !HoldsTicket(meta) {
      var s1 := TouchWaitingMeta(st, userId, Some(p.waitingMetaTtl), nowText);
      MetaKeysApart(userId, userId);
      AgreeOutsideReads(st, s1, {MetaKey(userId)}, WaitingQueue);
      if ZScore(st, WaitingQueue, userId).Some? {
        RankIsUsersAhead(s1, userId);
      }
    }
  }

  /** A poll of a known user records the poll time in the meta data and
      refreshes its expiry. */
  lemma StatusPollIsRecorded(st: Store, p: Properties, userId: string, nowText: string)
    requires ValidStore(st) && |HGetAll(st, MetaKey(userId))| > 0
    requires p.waitingMetaTtl.nanos >= NanosPerMilli
    ensures var r := GetStatus(st, p, userId, nowText);
      && HGetAll(r.store, MetaKey(userId)) == HGetAll(st, MetaKey(userId))["lastSeenAt" := nowText]
      && TtlOf(r.store, MetaKey(userId)) == Some(ToMillis(p.waitingMetaTtl))
  {
  }

  /** The status of a user just registered is the rank the registration
      answered. */
  lemma EnqueuedUserIsWaiting(st: Store, p: Properties, nickname: string, userId: string,
                              nowMillis: int, nowText: string, pollText: string)
    requires ValidStore(st) && ZScore(st, WaitingQueue, userId).None?
    requires p.waitingMetaTtl.nanos >= NanosPerMilli
    ensures var e := Enqueue(st, p, nickname, userId, nowMillis, nowText);
      var s := GetStatus(e.store, p, userId, pollText);
      s.outcome == Ok(StatusResponse(Waiting, e.outcome.value.rank, None))
  {
    var e := Enqueue(st, p, nickname, userId, nowMillis, nowText);
    EnqueueRegisters(st, p, nickname, userId, nowMillis, nowText);
    StatusOutcomes(e.store, p, userId, pollText);
    var meta := HGetAll(e.store, MetaKey(userId));
    assert meta["ticketId"] == "";
    assert "userId" in meta;
  }

  /** With a meta TTL shorter than a millisecond, which the settings
      accept, a registration succeeds but leaves no meta data, so the
      user's first poll is answered 404. */
  lemma SubMillisecondTtlLosesEntry(st: Store, p: Properties, nickname: string, userId: string,
                                    nowMillis: int, nowText: string, pollText: string)
    requires ValidStore(st) && ZScore(st, WaitingQueue, userId).None?
    requires 0 < p.waitingMetaTtl.nanos < NanosPerMilli
    ensures var e := Enqueue(st, p, nickname, userId, nowMillis, nowText);
      && e.outcome.Ok?
      && GetStatus(e.store, p, userId, pollText).outcome == Err(UserNotFound)
  {
  }
}
