/** The queue API's store access
    (queue/queue-api/.../repository/QueueRepository.java): the waiting set
    and each waiting user's meta hash. */
module WaitingRepository {
  import opened Wrappers
  import opened KvStore
  import opened JavaTime
  import opened QueueKeys

  /** addToWaitingQueue: the user's score becomes `score`, and the answer
      says whether the user was new to the queue (a member already present
      gets the new score and `false`). */
  function AddToWaitingQueue(st: Store, userId: string, score: int): (r: (Store, bool))
    requires ValidStore(st)
    ensures ValidStore(r.0)
    ensures r.1 <==> ZScore(st, WaitingQueue, userId).None?
    ensures ZScore(r.0, WaitingQueue, userId) == Some(score)
    ensures forall x :: x != userId ==> ZScore(r.0, WaitingQueue, x) == ZScore(st, WaitingQueue, x)
    ensures AgreeOutside(st, r.0, {WaitingQueue})
  {
    ZAdd(st, WaitingQueue, userId, score)
  }

  /** The meta data a new waiting user starts with: no ticket yet. */
  function InitialMeta(userId: string, nickname: string, lastSeenAt: string): (m: map<string, string>)
    ensures m.Keys == {"userId", "nickname", "ticketId", "lastSeenAt"} && |m| > 0
    ensures m["userId"] == userId && m["nickname"] == nickname
    ensures m["ticketId"] == "" && m["lastSeenAt"] == lastSeenAt
  {
    var m := map["userId" := userId, "nickname" := nickname, "ticketId" := "", "lastSeenAt" := lastSeenAt];
    assert m.Keys == {"userId", "nickname", "ticketId", "lastSeenAt"};
    m
  }

  /** The expiry both writers apply: only for a positive TTL, in whole
      milliseconds, so that one shorter than a millisecond deletes the
      hash. */
  function ExpireMeta(st: Store, k: string, ttl: Option<Duration>): (r: Store)
    requires ValidStore(st)
    ensures ValidStore(r)
    ensures !IsPositive(ttl) ==> r == st
    ensures IsPositive(ttl) && ttl.value.nanos >= NanosPerMilli ==>
      r.data == st.data && (Exists(st, k) ==> TtlOf(r, k) == Some(ToMillis(ttl.value)))
    ensures IsPositive(ttl) && ttl.value.nanos < NanosPerMilli ==> !Exists(r, k)
    ensures AgreeOutside(st, r, {k})
    ensures forall k' :: k' != k ==> TtlOf(r, k') == TtlOf(st, k')
  {
    if ttl.Some? && !IsZero(ttl.value) && !IsNegative(ttl.value) then Expire(st, k, ToMillis(ttl.value)) else st
  }

  /** upsertWaitingMeta: writes the initial meta data over the user's hash,
      then refreshes its expiry. */
  function UpsertWaitingMeta(st: Store, userId: string, nickname: string, ttl: Option<Duration>,
                             nowText: string): (r: Store)
    requires ValidStore(st)
    ensures ValidStore(r)
    ensures AgreeOutside(st, r, {MetaKey(userId)})
    ensures !(IsPositive(ttl) && ttl.value.nanos < NanosPerMilli) ==>
      HGetAll(r, MetaKey(userId)) == HGetAll(st, MetaKey(userId)) + InitialMeta(userId, nickname, nowText)
    ensures IsPositive(ttl) && ttl.value.nanos >= NanosPerMilli ==>
      TtlOf(r, MetaKey(userId)) == Some(ToMillis(ttl.value))
    ensures IsPositive(ttl) && ttl.value.nanos < NanosPerMilli ==> !Exists(r, MetaKey(userId))
  {
    var k := MetaKey(userId);
    var s1 := HSet(st, k, InitialMeta(userId, nickname, nowText));
    assert Exists(s1, k) by { assert "userId" in HGetAll(s1, k); }
    assert AgreeOutside(st, s1, {k});
    var r := ExpireMeta(s1, k, ttl);
    AgreeOutsideChain(st, s1, r, {k}, {k});
    assert {k} + {k} == {k};
    assert !(IsPositive(ttl) && ttl.value.nanos < NanosPerMilli) ==> HGetAll(r, k) == HGetAll(s1, k) by {
      if !(IsPositive(ttl) && ttl.value.nanos < NanosPerMilli) { assert r.data == s1.data; }
    }
    r
  }

  /** findWaitingMeta: the user's meta data, or nothing when the hash is
      missing or empty. */
  function FindWaitingMeta(st: Store, userId: string): (r: Option<map<string, string>>)
    ensures r.None? <==> |HGetAll(st, MetaKey(userId))| == 0
    ensures r.Some? ==> r.value == HGetAll(st, MetaKey(userId))
  {
    var entries := HGetAll(st, MetaKey(userId));
    if |entries| == 0 then None else Some(entries)
  }

  /** touchWaitingMeta: records the poll time and refreshes the expiry. */
  function TouchWaitingMeta(st: Store, userId: string, ttl: Option<Duration>, nowText: string): (r: Store)
    requires ValidStore(st)
    ensures ValidStore(r)
    ensures AgreeOutside(st, r, {MetaKey(userId)})
    ensures !(IsPositive(ttl) && ttl.value.nanos < NanosPerMilli) ==>
      HGetAll(r, MetaKey(userId)) == HGetAll(st, MetaKey(userId))["lastSeenAt" := nowText]
    ensures IsPositive(ttl) && ttl.value.nanos >= NanosPerMilli ==>
      TtlOf(r, MetaKey(userId)) == Some(ToMillis(ttl.value))
    ensures IsPositive(ttl) && ttl.value.nanos < NanosPerMilli ==> !Exists(r, MetaKey(userId))
  {
    var k := MetaKey(userId);
    var s1 := HSetField(st, k, "lastSeenAt", nowText);
    assert Exists(s1, k) by { assert "lastSeenAt" in HGetAll(s1, k); }
    assert AgreeOutside(st, s1, {k});
    var r := ExpireMeta(s1, k, ttl);
    AgreeOutsideChain(st, s1, r, {k}, {k});
    assert {k} + {k} == {k};
    assert !(IsPositive(ttl) && ttl.value.nanos < NanosPerMilli) ==> HGetAll(r, k) == HGetAll(s1, k) by {
      if !(IsPositive(ttl) && ttl.value.nanos < NanosPerMilli) { assert r.data == s1.data; }
    }
    r
  }

  /** getWaitingRank: the user's zero-based place in the queue. */
  function GetWaitingRank(st: Store, userId: string): (r: Option<nat>)
    requires ValidStore(st)
    ensures r.Some? <==> ZScore(st, WaitingQueue, userId).Some?
  {
    ZRank(st, WaitingQueue, userId)
  }

  /** The rank counts the users ahead: those with a lower score, or the same
      score and a smaller id. */
  lemma RankIsUsersAhead(st: Store, userId: string)
    requires ValidStore(st)
    requires ZScore(st, WaitingQueue, userId).Some?
    ensures var z := ZEntries(st, WaitingQueue);
      GetWaitingRank(st, userId) == Some(CountBefore(z, Entry(userId, ZScore(st, WaitingQueue, userId).value)))
  {
    var z := ZEntries(st, WaitingQueue);
    assert ValidZSet(z);
    var i := RankOf(z, userId).value;
    UniqueScore(z, userId);
    assert z[i] == Entry(userId, z[i].score);
    RankCountsPredecessors(z, i);
  }
}
