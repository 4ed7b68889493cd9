/** The queue manager's scheduling cycle
    (queue/queue-manager/.../QueueScheduler.java): drop the expired joining
    tickets, work out how many users the chat server can still take, and
    promote that many from the head of the waiting queue, skipping the users
    that have gone away. */
module Scheduler {
  import opened Wrappers
  import opened Text
  import opened KvStore
  import opened JavaTime
  import opened QueueKeys
  import opened ServerStatusModel
  import opened ManagerProperties
  import opened ManagerRepository

  /** What a cycle takes from outside: the random ticket id and the clock
      reading (an instant in epoch nanoseconds) taken for the i-th candidate
      of the batch, and `Instant.parse` (in epoch nanoseconds; `None` when it
      throws). */
  datatype Environment = Environment(
    ticketFor: nat -> string,
    clockAt: nat -> int,
    parseInstant: string -> Option<int>)

  // ---------------------------------------------------------------------
  // Candidates

  /** isInactive: the user was last seen more than the grace period ago. A
      non-positive grace, a blank or missing timestamp and one that does not
      parse all count as active. */
  function IsInactive(p: Properties, meta: map<string, string>, now: int, parseInstant: string -> Option<int>): (inactive: bool)
    ensures inactive <==>
      && IsPositive(Some(p.inactivityGrace))
      && "lastSeenAt" in meta && !IsBlank(meta["lastSeenAt"])
      && parseInstant(meta["lastSeenAt"]).Some?
      && now - EpochMilli(parseInstant(meta["lastSeenAt"]).value) > ToMillis(p.inactivityGrace)
  {
    if IsZero(p.inactivityGrace) || IsNegative(p.inactivityGrace) then false
    else if "lastSeenAt" !in meta || IsBlank(meta["lastSeenAt"]) then false
    else match parseInstant(meta["lastSeenAt"])
      case None => false
      case Some(lastSeen) => now - EpochMilli(lastSeen) > ToMillis(p.inactivityGrace)
  }

  /** The comparison is strict: a user last seen exactly the grace period
      ago is still active, one millisecond later they are not. */
  lemma InactivityIsStrict(p: Properties, lastSeenAt: string, lastSeenMillis: int, parseInstant: string -> Option<int>)
    requires IsPositive(Some(p.inactivityGrace)) && !IsBlank(lastSeenAt)
    requires parseInstant(lastSeenAt) == Some(lastSeenMillis * NanosPerMilli)
    ensures var meta := map["lastSeenAt" := lastSeenAt];
      var at := lastSeenMillis + ToMillis(p.inactivityGrace);
      && !IsInactive(p, meta, at, parseInstant)
      && IsInactive(p, meta, at + 1, parseInstant)
  {
  }

  /** The candidate is dropped without a promotion attempt: no meta data,
      inactive, or no usable nickname. */
  predicate Droppable(p: Properties, meta: map<string, string>, now: int, parseInstant: string -> Option<int>) {
    || |meta| == 0
    || IsInactive(p, meta, now, parseInstant)
    || "nickname" !in meta
    || IsBlank(meta["nickname"])
  }

  /** dropWaitingUser: out of the waiting set, meta data deleted. */
  function DropWaitingUser(st: Store, userId: string): (r: Store)
    requires ValidStore(st)
    ensures ValidStore(r)
    ensures ZScore(r, WaitingQueue, userId).None? && !Exists(r, MetaKey(userId))
    ensures AgreeOutside(st, r, {WaitingQueue, MetaKey(userId)})
  {
    var s1 := RemoveFromWaiting(st, userId);
    var s2 := DeleteWaitingMeta(s1, userId);
    MetaKeysApart(userId, userId);
    AgreeOutsideReads(s1, s2, {MetaKey(userId)}, WaitingQueue);
    AgreeOutsideChain(st, s1, s2, {WaitingQueue}, {MetaKey(userId)});
    s2
  }

  /** `Instant.now().plus(ticketTtl).toEpochMilli()`. */
  function ExpireAt(clock: int, ttl: Duration): int {
    EpochMilli(clock + ttl.nanos)
  }

  datatype Disposition = Dropped | Attempted(promoted: bool)

  /** One turn of the candidate loop, for the i-th candidate. */
  function ConsiderCandidate(st: Store, p: Properties, jk: JoiningKeys, now: int, env: Environment,
                             i: nat, userId: string): (r: (Store, Disposition))
    requires ValidStore(st) && IsPositive(Some(p.ticketTtl))
    ensures ValidStore(r.0)
  {
    var meta := FetchUserMeta(st, userId);
    if |meta| == 0 then (DropWaitingUser(st, userId), Dropped)
    else if IsInactive(p, meta, now, env.parseInstant) then (DropWaitingUser(st, userId), Dropped)
    else if "nickname" !in meta || IsBlank(meta["nickname"]) then (DropWaitingUser(st, userId), Dropped)
    else
      var promotion := PromoteToJoining(st, jk, userId, env.ticketFor(i),
                                        Some(ExpireAt(env.clockAt(i), p.ticketTtl)), Some(p.ticketTtl));
      (promotion.value.store, Attempted(promotion.value.promoted))
  }

  /** A candidate is dropped exactly when its meta data says so, and then
      leaves the queue with its meta data and nothing else changes. */
  lemma DroppedCandidateLeaves(st: Store, p: Properties, jk: JoiningKeys, now: int, env: Environment, i: nat, userId: string)
    requires ValidStore(st) && IsPositive(Some(p.ticketTtl))
    ensures var r := ConsiderCandidate(st, p, jk, now, env, i, userId);
      && (r.1 == Dropped <==> Droppable(p, FetchUserMeta(st, userId), now, env.parseInstant))
      && (r.1 == Dropped ==>
            && ZScore(r.0, WaitingQueue, userId).None?
            && !Exists(r.0, MetaKey(userId))
            && AgreeOutside(st, r.0, {WaitingQueue, MetaKey(userId)}))
  {
  }

  /** A candidate that is not dropped is promoted exactly when it is still
      waiting; it then holds the ticket drawn for it, which expires a ticket
      TTL after the clock reading. */
  lemma ActiveCandidateIsPromoted(st: Store, p: Properties, jk: JoiningKeys, now: int, env: Environment, i: nat, userId: string)
    requires ValidStore(st) && IsPositive(Some(p.ticketTtl))
    requires Apart(KeysFor(jk, userId, env.ticketFor(i)))
    requires !Droppable(p, FetchUserMeta(st, userId), now, env.parseInstant)
    ensures var r := ConsiderCandidate(st, p, jk, now, env, i, userId);
      var ticketId := env.ticketFor(i);
      && r.1.Attempted?
      && (r.1.promoted <==> ZScore(st, WaitingQueue, userId).Some?)
      && (r.1.promoted ==>
            && ZScore(r.0, WaitingQueue, userId).None?
            && HGet(r.0, MetaKey(userId), "ticketId") == Some(ticketId)
            && ZScore(r.0, jk.joiningTickets, ticketId) == Some(ExpireAt(env.clockAt(i), p.ticketTtl))
            && HGet(r.0, TicketKey(jk, ticketId), "nickname") == HGet(st, MetaKey(userId), "nickname"))
  {
    var k := KeysFor(jk, userId, env.ticketFor(i));
    var meta := FetchUserMeta(st, userId);
    assert Exists(st, k.meta) by { assert |HGetAll(st, k.meta)| > 0; }
    assert meta["nickname"] != "" by { assert !IsBlank(meta["nickname"]); }
    var ttlSeconds := TicketSeconds(p.ticketTtl);
    PromoteDeclines(st, k, userId, env.ticketFor(i), ExpireAt(env.clockAt(i), p.ticketTtl), ttlSeconds);
    if ZScore(st, WaitingQueue, userId).Some? {
      PromoteIssuesTicket(st, k, userId, env.ticketFor(i), ExpireAt(env.clockAt(i), p.ticketTtl), ttlSeconds);
    }
  }

  datatype Batch = Batch(store: Store, dispositions: seq<Disposition>)

  /** The number of promotions among the dispositions. */
  function Issued(ds: seq<Disposition>): (n: nat)
    ensures n <= |ds|
  {
    if |ds| == 0 then 0 else (if ds[0] == Attempted(true) then 1 else 0) + Issued(ds[1..])
  }

  /** The candidate loop; the i-th candidate is `candidates[0]`. */
  function PromoteCandidates(st: Store, p: Properties, jk: JoiningKeys, now: int, env: Environment,
                             candidates: seq<string>, i: nat): (r: Batch)
    requires ValidStore(st) && IsPositive(Some(p.ticketTtl))
    ensures ValidStore(r.store)
    ensures |r.dispositions| == |candidates|
    decreases |candidates|
  {
    if |candidates| == 0 then Batch(st, [])
    else
      var step := ConsiderCandidate(st, p, jk, now, env, i, candidates[0]);
      var rest := PromoteCandidates(step.0, p, jk, now, env, candidates[1..], i + 1);
      Batch(rest.store, [step.1] + rest.dispositions)
  }

  // ---------------------------------------------------------------------
  // Capacity

  /** The figures a cycle decides on: the chat server's user count, the
      live joining tickets, and the soft cap. */
  datatype Capacity = Capacity(currentUsers: int, joiningUsers: int, softCap: int)

  function CapacityOf(st: Store, p: Properties, jk: JoiningKeys, now: int): (c: Capacity)
    ensures p.defaultSoftCap > 0 ==> c.softCap > 0
    ensures c.joiningUsers >= 0
  {
    var status := FetchServerStatus(st);
    Capacity(status.currentUsers, CountJoiningTickets(st, jk, now), ResolveSoftCap(status, p.defaultSoftCap))
  }

  function AvailableSlots(c: Capacity): int {
    c.softCap - (c.currentUsers + c.joiningUsers)
  }

  /** `(int) Math.min(availableSlots, batchLimit)`. */
  function BatchSize(available: int, batchLimit: int): (n: int)
    ensures n <= available && n <= batchLimit
    ensures n == available || n == batchLimit
  {
    if available <= batchLimit then available else batchLimit
  }

  /** scheduleNextBatch. */
  function ScheduleNextBatch(st: Store, p: Properties, jk: JoiningKeys, now: int, env: Environment): (r: Batch)
    requires ValidStore(st)
    ensures ValidStore(r.store)
  {
    var available := AvailableSlots(CapacityOf(st, p, jk, now));
    if available <= 0 then Batch(st, [])
    else
      var batchSize := BatchSize(available, p.batchLimit);
      if batchSize <= 0 then Batch(st, [])
      else
        var candidates := FetchNextBatch(st, batchSize);
        if |candidates| == 0 then Batch(st, [])
        else if IsZero(p.ticketTtl) || IsNegative(p.ticketTtl) then Batch(st, [])
        else PromoteCandidates(st, p, jk, now, env, candidates, 0)
  }

  /** The promotions of a cycle fit in the room the snapshot showed: never
      more than the free slots, never more than the batch limit; with no
      room, or with a non-positive ticket TTL, nothing is written. */
  lemma IssuesWithinCapacity(st: Store, p: Properties, jk: JoiningKeys, now: int, env: Environment)
    requires ValidStore(st)
    ensures var r := ScheduleNextBatch(st, p, jk, now, env);
      var c := CapacityOf(st, p, jk, now);
      var issued := Issued(r.dispositions);
      && (issued > 0 ==> c.currentUsers + c.joiningUsers + issued <= c.softCap && issued <= p.batchLimit)
      && (|r.dispositions| > 0 ==> |r.dispositions| <= AvailableSlots(c) && |r.dispositions| <= p.batchLimit)
      && (AvailableSlots(c) <= 0 ==> r == Batch(st, []))
      && (!IsPositive(Some(p.ticketTtl)) ==> r == Batch(st, []))
  {
    var r := ScheduleNextBatch(st, p, jk, now, env);
    assert Issued(r.dispositions) <= |r.dispositions|;
  }

  /** With the batch limit and the soft cap both large enough, a cycle
      considers every waiting user. */
  lemma SmallQueueIsConsideredWhole(st: Store, p: Properties, jk: JoiningKeys, now: int, env: Environment)
    requires ValidStore(st) && IsPositive(Some(p.ticketTtl))
    requires |ZEntries(st, WaitingQueue)| <= p.batchLimit
    requires |ZEntries(st, WaitingQueue)| <= AvailableSlots(CapacityOf(st, p, jk, now))
    ensures |ScheduleNextBatch(st, p, jk, now, env).dispositions| == |ZEntries(st, WaitingQueue)|
  {
  }

  // ---------------------------------------------------------------------
  // Expired tickets and the whole cycle

  datatype Cleanup = Cleanup(store: Store, expiredIds: seq<string>)

  /** handleExpiredTickets: the expired tickets leave the joining set and
      their hashes are deleted; the expired counter grows by the number of
      ids returned. */
  function HandleExpiredTickets(st: Store, jk: JoiningKeys, now: int): (r: Cleanup)
    requires ValidStore(st)
    ensures ValidStore(r.store)
  {
    var removed := RemoveExpiredTickets(st, jk, now);
    if |removed.ids| == 0 then Cleanup(st, [])
    else Cleanup(DeleteTicketHashes(removed.store, jk, removed.ids), removed.ids)
  }

  /** After the cleanup no ticket expired by `now` is left, neither in the
      joining set nor as a hash, and the ids counted are exactly those
      tickets, each once. */
  lemma CleanupRemovesExpired(st: Store, jk: JoiningKeys, now: int)
    requires ValidStore(st)
    ensures var r := HandleExpiredTickets(st, jk, now);
      var z := ZEntries(st, jk.joiningTickets);
      && NoDuplicates(r.expiredIds)
      && (forall e :: e in z ==> (e.member in r.expiredIds <==> 0 <= e.score <= now))
      && (forall id :: id in r.expiredIds ==> ZScore(st, jk.joiningTickets, id).Some? && !Exists(r.store, TicketKey(jk, id)))
      && (forall e :: e in ZEntries(r.store, jk.joiningTickets) ==> e in z && !(0 <= e.score <= now))
      && (ExpiredHashesApart(jk, r.expiredIds) ==>
            forall e :: e in z && !(0 <= e.score <= now) ==> e in ZEntries(r.store, jk.joiningTickets))
      && AgreeOutside(st, r.store, {jk.joiningTickets} + set id | id in r.expiredIds :: TicketKey(jk, id))
  {
    var removed := RemoveExpiredTickets(st, jk, now);
    RemovesExactlyTheExpired(st, jk, now);
    var hashes := set id | id in removed.ids :: TicketKey(jk, id);
    if |removed.ids| > 0 {
      var r := DeleteTicketHashes(removed.store, jk, removed.ids);
      forall e | e in ZEntries(r, jk.joiningTickets) ensures e in ZEntries(removed.store, jk.joiningTickets) {
        assert Exists(r, jk.joiningTickets);
        AgreeAt(removed.store, r, hashes, jk.joiningTickets);
      }
      if ExpiredHashesApart(jk, removed.ids) {
        assert jk.joiningTickets !in hashes;
        AgreeOutsideReads(removed.store, r, hashes, jk.joiningTickets);
      }
      AgreeOutsideChain(st, removed.store, r, {jk.joiningTickets}, hashes);
    } else {
      assert hashes == {};
    }
  }

  /** No expired ticket's hash is stored under the joining set's own key. */
  predicate ExpiredHashesApart(jk: JoiningKeys, ids: seq<string>) {
    forall id :: id in ids ==> TicketKey(jk, id) != jk.joiningTickets
  }

  datatype Cycle = Cycle(store: Store, expiredIds: seq<string>, dispositions: seq<Disposition>)

  /** processQueue: the cleanup first, then the scheduling, both at the
      same `now`. */
  function ProcessQueue(st: Store, p: Properties, jk: JoiningKeys, now: int, env: Environment): (r: Cycle)
    requires ValidStore(st)
    ensures ValidStore(r.store)
  {
    var cleanup := HandleExpiredTickets(st, jk, now);
    var batch := ScheduleNextBatch(cleanup.store, p, jk, now, env);
    Cycle(batch.store, cleanup.expiredIds, batch.dispositions)
  }

  /** Because the cleanup runs first, the scheduling counts every joining
      ticket that is left as taking a seat (expiry instants are never
      negative). */
  lemma CycleCountsLiveTickets(st: Store, p: Properties, jk: JoiningKeys, now: int)
    requires ValidStore(st) && now >= 0
    requires forall e :: e in ZEntries(st, jk.joiningTickets) ==> e.score >= 0
    ensures var after := HandleExpiredTickets(st, jk, now).store;
      CapacityOf(after, p, jk, now).joiningUsers == |ZEntries(after, jk.joiningTickets)|
  {
    var after := HandleExpiredTickets(st, jk, now).store;
    CleanupRemovesExpired(st, jk, now);
    CountFromAll(ZEntries(after, jk.joiningTickets), now);
  }
}
