/** The queue manager's store operations
    (queue/queue-manager/.../repository/QueueManagerRepository.java), among
    them the promote script: one atomic step that turns a waiting user into
    the holder of a joining ticket. */
module ManagerRepository {
  import opened Wrappers
  import opened Text
  import opened KvStore
  import opened JavaTime
  import opened QueueKeys
  import opened ServerStatusModel

  // ---------------------------------------------------------------------
  // The waiting queue and the users' meta data

  /** fetchNextBatch: the first `n` waiting users, earliest first. */
  function FetchNextBatch(st: Store, n: int): (batch: seq<string>)
    ensures n <= 0 ==> batch == []
    ensures |batch| <= |ZEntries(st, WaitingQueue)| && (n > 0 ==> |batch| <= n)
    ensures 0 < n && |batch| < n ==> |batch| == |ZEntries(st, WaitingQueue)|
    ensures forall i :: 0 <= i < |batch| ==> batch[i] == ZEntries(st, WaitingQueue)[i].member
  {
    if n <= 0 then [] else FirstMembers(ZEntries(st, WaitingQueue), n)
  }

  /** The batch is the head of the queue: its users are waiting, each once,
      and each has waited longer (or equally long with a smaller id) than
      every waiting user it leaves out. */
  lemma BatchIsHeadOfQueue(st: Store, n: int)
    requires ValidStore(st)
    ensures var batch := FetchNextBatch(st, n);
      var z := ZEntries(st, WaitingQueue);
      && (forall i :: 0 <= i < |batch| ==> ZScore(st, WaitingQueue, batch[i]).Some?)
      && NoDuplicates(batch)
      && (forall i, j :: 0 <= i < |batch| <= j < |z| ==> Before(z[i], z[j]))
  {
    var batch := FetchNextBatch(st, n);
    var z := ZEntries(st, WaitingQueue);
    forall i | 0 <= i < |batch| ensures ZScore(st, WaitingQueue, batch[i]).Some? {
      assert Members(z)[i] == batch[i];
    }
  }

  /** removeFromWaiting. */
  function RemoveFromWaiting(st: Store, userId: string): (r: Store)
    requires ValidStore(st)
    ensures ValidStore(r)
    ensures ZScore(r, WaitingQueue, userId).None?
    ensures forall x :: x != userId ==> ZScore(r, WaitingQueue, x) == ZScore(st, WaitingQueue, x)
    ensures AgreeOutside(st, r, {WaitingQueue})
  {
    var r := ZRem(st, WaitingQueue, [userId]);
    forall x | x != userId ensures ZScore(r, WaitingQueue, x) == ZScore(st, WaitingQueue, x) {
      UniqueScore(ZEntries(r, WaitingQueue), x);
      UniqueScore(ZEntries(st, WaitingQueue), x);
    }
    r
  }

  /** fetchUserMeta: the user's meta hash, empty when there is none. */
  function FetchUserMeta(st: Store, userId: string): map<string, string> {
    HGetAll(st, MetaKey(userId))
  }

  /** deleteWaitingMeta. */
  function DeleteWaitingMeta(st: Store, userId: string): (r: Store)
    ensures !Exists(r, MetaKey(userId)) && |FetchUserMeta(r, userId)| == 0
    ensures AgreeOutside(st, r, {MetaKey(userId)})
    ensures ValidStore(st) ==> ValidStore(r)
  {
    var k := MetaKey(userId);
    var r := Del(st, k);
    assert HGetAll(r, k) == map[];
    assert AgreeOutside(st, r, {k});
    r
  }

  // ---------------------------------------------------------------------
  // The chat server's status

  /** parseLong with a default: null and text that is not a `long` give the
      default. */
  function ParseLongOr(v: Option<string>, default: int): (n: int)
    ensures v.Some? && ParseLong(v.value).Some? ==> n == ParseLong(v.value).value
    ensures v.None? || ParseLong(v.value).None? ==> n == default
  {
    if v.None? then default
    else match ParseLong(v.value)
      case Some(n) => n
      case None => default
  }

  /** parseNullableLong: null and text that is not a `long` give null. */
  function ParseNullableLong(v: Option<string>): (n: Option<int>)
    ensures n.Some? <==> v.Some? && ParseLong(v.value).Some?
    ensures n.Some? ==> n == ParseLong(v.value)
  {
    if v.None? then None else ParseLong(v.value)
  }

  function Field(h: map<string, string>, f: string): (v: Option<string>)
    ensures v.Some? <==> f in h
    ensures v.Some? ==> v.value == h[f]
  {
    if f in h then Some(h[f]) else None
  }

  /** fetchServerStatus: the status hash read into a record; a missing hash
      reads as no users and no caps. */
  function FetchServerStatus(st: Store): (s: ServerStatus)
    ensures |HGetAll(st, ServerStatusKey)| == 0 ==> s == ServerStatus(0, None, None)
    ensures InLongRange(s.currentUsers)
    ensures s.softCap.Some? ==> InLongRange(s.softCap.value)
    ensures s.maxCap.Some? ==> InLongRange(s.maxCap.value)
  {
    var fields := HGetAll(st, ServerStatusKey);
    if |fields| == 0 then ServerStatus(0, None, None)
    else
      ServerStatus(
        ParseLongOr(Field(fields, "current_users"), 0),
        ParseNullableLong(Field(fields, "soft_cap")),
        ParseNullableLong(Field(fields, "max_cap")))
  }

  /** A status hash written as decimal text reads back as the numbers
      written; a field that is missing or not a number reads as 0 users or
      as no cap. */
  lemma StatusReadsBack(st: Store, users: int, soft: Option<int>, max: Option<int>)
    requires InLongRange(users)
    requires soft.Some? ==> InLongRange(soft.value)
    requires max.Some? ==> InLongRange(max.value)
    requires HGet(st, ServerStatusKey, "current_users") == Some(IntToString(users))
    requires soft.Some? ==> HGet(st, ServerStatusKey, "soft_cap") == Some(IntToString(soft.value))
    requires soft.None? ==> HGet(st, ServerStatusKey, "soft_cap").None?
    requires max.Some? ==> HGet(st, ServerStatusKey, "max_cap") == Some(IntToString(max.value))
    requires max.None? ==> HGet(st, ServerStatusKey, "max_cap").None?
    ensures FetchServerStatus(st) == ServerStatus(users, soft, max)
  {
    ParseLongOfIntToString(users);
    if soft.Some? { ParseLongOfIntToString(soft.value); }
    if max.Some? { ParseLongOfIntToString(max.value); }
    assert "current_users" in HGetAll(st, ServerStatusKey);
  }

  // ---------------------------------------------------------------------
  // Joining tickets

  /** countJoiningTickets: the tickets expiring at `from` or later. */
  function CountJoiningTickets(st: Store, jk: JoiningKeys, from: int): (n: nat)
    ensures n <= |ZEntries(st, jk.joiningTickets)|
    ensures (forall e :: e in ZEntries(st, jk.joiningTickets) ==> e.score >= from) ==>
      n == |ZEntries(st, jk.joiningTickets)|
    ensures ValidStore(st) ==> n == |ScoringFrom(ZEntries(st, jk.joiningTickets), from)|
  {
    var z := ZEntries(st, jk.joiningTickets);
    assert ValidStore(st) ==> CountFrom(z, from) == |ScoringFrom(z, from)| by {
      if ValidStore(st) { CountFromCountsEntries(z, from); }
    }
    assert (forall e :: e in z ==> e.score >= from) ==> CountFrom(z, from) == |z| by {
      if forall e :: e in z ==> e.score >= from { CountFromAll(z, from); }
    }
    CountFrom(ZEntries(st, jk.joiningTickets), from)
  }

  datatype Removed = Removed(store: Store, ids: seq<string>)

  /** removeExpiredTickets: removes and returns the tickets whose expiry
      lies in [0, now]. */
  function RemoveExpiredTickets(st: Store, jk: JoiningKeys, now: int): (r: Removed)
    requires ValidStore(st)
    ensures ValidStore(r.store)
    ensures |r.ids| == 0 ==> r.store == st
    ensures AgreeOutside(st, r.store, {jk.joiningTickets})
  {
    var expired := MembersInRange(ZEntries(st, jk.joiningTickets), 0, now);
    if |expired| == 0 then Removed(st, [])
    else Removed(ZRem(st, jk.joiningTickets, expired), expired)
  }

  /** Exactly the tickets expired by `now` are removed and reported, each
      once. */
  lemma RemovesExactlyTheExpired(st: Store, jk: JoiningKeys, now: int)
    requires ValidStore(st)
    ensures var r := RemoveExpiredTickets(st, jk, now);
      var z := ZEntries(st, jk.joiningTickets);
      && NoDuplicates(r.ids)
      && (forall id :: id in r.ids ==> ZScore(st, jk.joiningTickets, id).Some?)
      && (forall e :: e in z ==> (e.member in r.ids <==> 0 <= e.score <= now))
      && (forall e :: e in ZEntries(r.store, jk.joiningTickets) <==> e in z && !(0 <= e.score <= now))
  {
    var z := ZEntries(st, jk.joiningTickets);
    var expired := MembersInRange(z, 0, now);
    MembersInRangeDistinct(z, 0, now);
    forall e | e in z ensures e.member in expired <==> 0 <= e.score <= now {
      var i :| 0 <= i < |z| && z[i] == e;
    }
  }

  /** The store keys of a list of ticket ids. */
  function TicketKeys(jk: JoiningKeys, ids: seq<string>): (ks: seq<string>)
    ensures |ks| == |ids|
    ensures forall i :: 0 <= i < |ids| ==> ks[i] == TicketKey(jk, ids[i])
  {
    seq(|ids|, i requires 0 <= i < |ids| => TicketKey(jk, ids[i]))
  }

  /** deleteTicketHashes: deletes the hash of every listed ticket in one
      command; an empty list sends nothing. */
  function DeleteTicketHashes(st: Store, jk: JoiningKeys, ids: seq<string>): (r: Store)
    ensures forall id :: id in ids ==> !Exists(r, TicketKey(jk, id))
    ensures AgreeOutside(st, r, set id | id in ids :: TicketKey(jk, id))
    ensures ValidStore(st) ==> ValidStore(r)
  {
    var ks := TicketKeys(jk, ids);
    assert forall id :: id in ids ==> TicketKey(jk, id) in ks by {
      forall id | id in ids ensures TicketKey(jk, id) in ks {
        var i :| 0 <= i < |ids| && ids[i] == id;
        assert ks[i] == TicketKey(jk, id);
      }
    }
    if |ks| == 0 then st else DelAll(st, ks)
  }

  // ---------------------------------------------------------------------
  // The promote script

  /** KEYS[1..4] of the script. */
  datatype ScriptKeys = ScriptKeys(waiting: string, meta: string, joining: string, ticket: string)

  /** The keys promoteToJoining passes for a user and a new ticket. */
  function KeysFor(jk: JoiningKeys, userId: string, ticketId: string): ScriptKeys {
    ScriptKeys(WaitingQueue, MetaKey(userId), jk.joiningTickets, TicketKey(jk, ticketId))
  }

  /** The four keys name four different entries of the store. */
  predicate Apart(k: ScriptKeys) {
    && k.waiting != k.meta && k.waiting != k.joining && k.waiting != k.ticket
    && k.meta != k.joining && k.meta != k.ticket && k.joining != k.ticket
  }

  function TicketFields(ticketId: string, userId: string, nickname: string): (m: map<string, string>)
    ensures m.Keys == {"ticketId", "userId", "nickname"} && |m| > 0
    ensures m["ticketId"] == ticketId && m["userId"] == userId && m["nickname"] == nickname
  {
    var m := map["ticketId" := ticketId, "userId" := userId, "nickname" := nickname];
    assert m.Keys == {"ticketId", "userId", "nickname"};
    m
  }

  /** The user id the ticket records: the one in the meta hash, or the
      script's argument when that is missing or empty. */
  function StoredUserId(meta: Option<string>, userId: string): string {
    if meta.None? || meta.value == "" then userId else meta.value
  }

  /** The script promotes only a waiting user with a meta hash whose
      nickname is present and not empty. */
  predicate Promotable(st: Store, k: ScriptKeys, userId: string) {
    && ZScore(st, k.waiting, userId).Some?
    && Exists(st, k.meta)
    && HGet(st, k.meta, "nickname").Some?
    && HGet(st, k.meta, "nickname").value != ""
  }

  datatype ScriptResult = ScriptResult(store: Store, updated: int)

  // The four writes of a promotion, each confined to one key.

  /** HSET of the ticket hash, then EXPIRE of it. */
  function WriteTicket(st: Store, ticket: string, fields: map<string, string>, ttlSeconds: int): (r: Store)
    requires ValidStore(st) && |fields| > 0 && ttlSeconds > 0
    ensures ValidStore(r)
    ensures HGetAll(r, ticket) == HGetAll(st, ticket) + fields
    ensures TtlOf(r, ticket) == Some(ttlSeconds * 1000)
    ensures AgreeOutside(st, r, {ticket})
  {
    Expire(HSet(st, ticket, fields), ticket, ttlSeconds * 1000)
  }

  /** ZREM of the user from the waiting set. */
  function LeaveWaiting(st: Store, waiting: string, userId: string): (r: Store)
    requires ValidStore(st)
    ensures ValidStore(r)
    ensures ZScore(r, waiting, userId).None?
    ensures forall key :: key != waiting ==> TtlOf(r, key) == TtlOf(st, key)
    ensures AgreeOutside(st, r, {waiting})
  {
    var r := ZRem(st, waiting, [userId]);
    TtlOutside(r, st, waiting);
    r
  }

  /** HSET of the meta hash's ticket id. */
  function RecordTicket(st: Store, meta: string, ticketId: string): (r: Store)
    requires ValidStore(st)
    ensures ValidStore(r)
    ensures HGetAll(r, meta) == HGetAll(st, meta)["ticketId" := ticketId]
    ensures forall key :: TtlOf(r, key) == TtlOf(st, key)
    ensures AgreeOutside(st, r, {meta})
  {
    HSetField(st, meta, "ticketId", ticketId)
  }

  /** ZADD of the ticket to the joining set. */
  function JoinJoining(st: Store, joining: string, ticketId: string, expireAt: int): (r: Store)
    requires ValidStore(st)
    ensures ValidStore(r)
    ensures ZScore(r, joining, ticketId) == Some(expireAt)
    ensures forall key :: key != joining ==> TtlOf(r, key) == TtlOf(st, key)
    ensures AgreeOutside(st, r, {joining})
  {
    var r := ZAdd(st, joining, ticketId, expireAt).0;
    TtlOutside(r, st, joining);
    r
  }

  /** PROMOTE_SCRIPT, run atomically; `ttlSeconds` is the ticket's time to
      live in seconds, at least one. */
  function PromoteScript(st: Store, k: ScriptKeys, userId: string, ticketId: string,
                         expireAt: int, ttlSeconds: int): (r: ScriptResult)
    requires ValidStore(st) && ttlSeconds > 0
    ensures ValidStore(r.store)
    ensures r.updated == 0 || r.updated == 1
  {
    if ZScore(st, k.waiting, userId).None? then ScriptResult(st, 0)
    else if !Exists(st, k.meta) then ScriptResult(ZRem(st, k.waiting, [userId]), 0)
    else
      var nickname := HGet(st, k.meta, "nickname");
      if nickname.None? || nickname.value == "" then
        ScriptResult(ZRem(Del(st, k.meta), k.waiting, [userId]), 0)
      else
        var storedUserId := StoredUserId(HGet(st, k.meta, "userId"), userId);
        var s1 := WriteTicket(st, k.ticket, TicketFields(ticketId, storedUserId, nickname.value), ttlSeconds);
        var s2 := LeaveWaiting(s1, k.waiting, userId);
        var s3 := RecordTicket(s2, k.meta, ticketId);
        var s4 := JoinJoining(s3, k.joining, ticketId, expireAt);
        ScriptResult(s4, 1)
  }

  /** The script reports 1 exactly for a promotable user; when it declines,
      the user is no longer waiting (or never was) and nothing but the
      waiting set and the meta hash changes. */
  lemma PromoteDeclines(st: Store, k: ScriptKeys, userId: string, ticketId: string, expireAt: int, ttlSeconds: int)
    requires ValidStore(st) && ttlSeconds > 0
    ensures var r := PromoteScript(st, k, userId, ticketId, expireAt, ttlSeconds);
      && (r.updated == 1 <==> Promotable(st, k, userId))
      && (ZScore(st, k.waiting, userId).None? ==> r == ScriptResult(st, 0))
      && (r.updated == 0 ==> ZScore(r.store, k.waiting, userId).None?)
      && (r.updated == 0 ==> AgreeOutside(st, r.store, {k.waiting, k.meta}))
  {
  }

  /** A waiting user whose meta hash has no usable nickname loses both the
      place in the queue and the meta hash. */
  lemma NoNicknameDropsMeta(st: Store, k: ScriptKeys, userId: string, ticketId: string, expireAt: int, ttlSeconds: int)
    requires ValidStore(st) && ttlSeconds > 0 && k.meta != k.waiting
    requires ZScore(st, k.waiting, userId).Some? && Exists(st, k.meta) && !Promotable(st, k, userId)
    ensures var r := PromoteScript(st, k, userId, ticketId, expireAt, ttlSeconds);
      r.updated == 0 && !Exists(r.store, k.meta)
  {
    var s1 := Del(st, k.meta);
    assert !Exists(ZRem(s1, k.waiting, [userId]), k.meta);
  }

  /** The store after a promotion, written out step by step. */
  function Promoted(st: Store, k: ScriptKeys, userId: string, ticketId: string, expireAt: int, ttlSeconds: int): (r: Store)
    requires ValidStore(st) && ttlSeconds > 0 && Promotable(st, k, userId)
    ensures PromoteScript(st, k, userId, ticketId, expireAt, ttlSeconds) == ScriptResult(r, 1)
  {
    var nickname := HGet(st, k.meta, "nickname");
    var storedUserId := StoredUserId(HGet(st, k.meta, "userId"), userId);
    var s1 := WriteTicket(st, k.ticket, TicketFields(ticketId, storedUserId, nickname.value), ttlSeconds);
    var s2 := LeaveWaiting(s1, k.waiting, userId);
    var s3 := RecordTicket(s2, k.meta, ticketId);
    JoinJoining(s3, k.joining, ticketId, expireAt)
  }

  /** The ticket hash holds the ticket id, the user id and the nickname, and
      lives `ttlSeconds`. */
  lemma PromoteWritesTicket(st: Store, k: ScriptKeys, userId: string, ticketId: string, expireAt: int, ttlSeconds: int)
    requires ValidStore(st) && Apart(k) && Promotable(st, k, userId) && ttlSeconds > 0
    ensures var r := Promoted(st, k, userId, ticketId, expireAt, ttlSeconds);
      && HGetAll(r, k.ticket)
         == HGetAll(st, k.ticket) + TicketFields(ticketId, StoredUserId(HGet(st, k.meta, "userId"), userId),
                                                 HGet(st, k.meta, "nickname").value)
      && TtlOf(r, k.ticket) == Some(ttlSeconds * 1000)
  {
    var s1 := WriteTicket(st, k.ticket, TicketFields(ticketId, StoredUserId(HGet(st, k.meta, "userId"), userId),
                                                     HGet(st, k.meta, "nickname").value), ttlSeconds);
    var s2 := LeaveWaiting(s1, k.waiting, userId);
    var s3 := RecordTicket(s2, k.meta, ticketId);
    var s4 := JoinJoining(s3, k.joining, ticketId, expireAt);
    assert Promoted(st, k, userId, ticketId, expireAt, ttlSeconds) == s4;
    AgreeOutsideReads(s1, s2, {k.waiting}, k.ticket);
    AgreeOutsideReads(s2, s3, {k.meta}, k.ticket);
    AgreeOutsideReads(s3, s4, {k.joining}, k.ticket);
    assert TtlOf(s4, k.ticket) == TtlOf(s1, k.ticket);
  }

  /** The user leaves the waiting set, the meta hash records the ticket, and
      the ticket joins the joining set scored by its expiry. */
  lemma PromoteMovesUser(st: Store, k: ScriptKeys, userId: string, ticketId: string, expireAt: int, ttlSeconds: int)
    requires ValidStore(st) && Apart(k) && Promotable(st, k, userId) && ttlSeconds > 0
    ensures var r := Promoted(st, k, userId, ticketId, expireAt, ttlSeconds);
      && ZScore(r, k.waiting, userId).None?
      && HGetAll(r, k.meta) == HGetAll(st, k.meta)["ticketId" := ticketId]
      && ZScore(r, k.joining, ticketId) == Some(expireAt)
  {
    var s1 := WriteTicket(st, k.ticket, TicketFields(ticketId, StoredUserId(HGet(st, k.meta, "userId"), userId),
                                                     HGet(st, k.meta, "nickname").value), ttlSeconds);
    var s2 := LeaveWaiting(s1, k.waiting, userId);
    var s3 := RecordTicket(s2, k.meta, ticketId);
    var s4 := JoinJoining(s3, k.joining, ticketId, expireAt);
    assert Promoted(st, k, userId, ticketId, expireAt, ttlSeconds) == s4;
    AgreeOutsideReads(s2, s3, {k.meta}, k.waiting);
    AgreeOutsideReads(s3, s4, {k.joining}, k.waiting);
    AgreeOutsideReads(st, s1, {k.ticket}, k.meta);
    AgreeOutsideReads(s1, s2, {k.waiting}, k.meta);
    AgreeOutsideReads(s3, s4, {k.joining}, k.meta);
  }

  /** A promotion writes no key but its four. */
  lemma PromoteTouchesOnlyItsKeys(st: Store, k: ScriptKeys, userId: string, ticketId: string, expireAt: int, ttlSeconds: int)
    requires ValidStore(st) && Promotable(st, k, userId) && ttlSeconds > 0
    ensures AgreeOutside(st, Promoted(st, k, userId, ticketId, expireAt, ttlSeconds), {k.waiting, k.meta, k.joining, k.ticket})
  {
    var s1 := WriteTicket(st, k.ticket, TicketFields(ticketId, StoredUserId(HGet(st, k.meta, "userId"), userId),
                                                     HGet(st, k.meta, "nickname").value), ttlSeconds);
    var s2 := LeaveWaiting(s1, k.waiting, userId);
    var s3 := RecordTicket(s2, k.meta, ticketId);
    var s4 := JoinJoining(s3, k.joining, ticketId, expireAt);
    var ks := {k.waiting, k.meta, k.joining, k.ticket};
    forall key | key !in ks
      ensures (key in st.data <==> key in s4.data) && (key in st.data ==> st.data[key] == s4.data[key])
    {
      AgreeAt(st, s1, {k.ticket}, key);
      AgreeAt(s1, s2, {k.waiting}, key);
      AgreeAt(s2, s3, {k.meta}, key);
      AgreeAt(s3, s4, {k.joining}, key);
    }
  }

  /** A promotable user gets a ticket: the ticket hash holds the ticket id,
      the user id and the nickname and lives `ttlSeconds`; the user leaves
      the waiting set; the meta hash records the ticket; the ticket joins the
      joining set scored by its expiry; nothing else changes. */
  lemma PromoteIssuesTicket(st: Store, k: ScriptKeys, userId: string, ticketId: string, expireAt: int, ttlSeconds: int)
    requires ValidStore(st) && Apart(k)
    requires Promotable(st, k, userId)
    requires ttlSeconds > 0
    ensures var r := PromoteScript(st, k, userId, ticketId, expireAt, ttlSeconds);
      var nickname := HGet(st, k.meta, "nickname").value;
      && r.updated == 1
      && HGetAll(r.store, k.ticket)
         == HGetAll(st, k.ticket) + TicketFields(ticketId, StoredUserId(HGet(st, k.meta, "userId"), userId), nickname)
      && TtlOf(r.store, k.ticket) == Some(ttlSeconds * 1000)
      && ZScore(r.store, k.waiting, userId).None?
      && HGetAll(r.store, k.meta) == HGetAll(st, k.meta)["ticketId" := ticketId]
      && ZScore(r.store, k.joining, ticketId) == Some(expireAt)
      && AgreeOutside(st, r.store, {k.waiting, k.meta, k.joining, k.ticket})
  {
    PromoteWritesTicket(st, k, userId, ticketId, expireAt, ttlSeconds);
    PromoteMovesUser(st, k, userId, ticketId, expireAt, ttlSeconds);
    PromoteTouchesOnlyItsKeys(st, k, userId, ticketId, expireAt, ttlSeconds);
  }

  // ---------------------------------------------------------------------
  // promoteToJoining

  datatype PromoteError = IllegalArgument(message: string)

  datatype Promotion = Promotion(store: Store, promoted: bool)

  /** The seconds the ticket lives: its TTL's whole seconds, at least one. */
  function TicketSeconds(ttl: Duration): (s: int)
    ensures s >= 1 && (GetSeconds(ttl) >= 1 ==> s == GetSeconds(ttl))
  {
    if GetSeconds(ttl) > 1 then GetSeconds(ttl) else 1
  }

  /** promoteToJoining: checks its arguments, then runs the script for the
      user and the new ticket; `expireAt` is in epoch milliseconds. */
  function PromoteToJoining(st: Store, jk: JoiningKeys, userId: string, ticketId: string,
                            expireAt: Option<int>, ttl: Option<Duration>): (r: Result<Promotion, PromoteError>)
    requires ValidStore(st)
    ensures !IsPositive(ttl) ==> r == Err(IllegalArgument("Ticket TTL must be positive"))
    ensures IsPositive(ttl) && expireAt.None? ==> r == Err(IllegalArgument("Expire timestamp is required"))
    ensures IsPositive(ttl) && expireAt.Some? ==> r.Ok? && ValidStore(r.value.store)
  {
    if ttl.None? || IsZero(ttl.value) || IsNegative(ttl.value) then
      Err(IllegalArgument("Ticket TTL must be positive"))
    else if expireAt.None? then
      Err(IllegalArgument("Expire timestamp is required"))
    else
      var s := PromoteScript(st, KeysFor(jk, userId, ticketId), userId, ticketId, expireAt.value, TicketSeconds(ttl.value));
      Ok(Promotion(s.store, s.updated > 0))
  }

  /** promoteToJoining reports a promotion exactly when the script made one;
      the ticket then lives at least a second, however short the TTL. */
  lemma PromotionLivesAtLeastASecond(st: Store, jk: JoiningKeys, userId: string, ticketId: string,
                                     expireAt: int, ttl: Duration)
    requires ValidStore(st) && IsPositive(Some(ttl))
    requires Apart(KeysFor(jk, userId, ticketId))
    ensures var r := PromoteToJoining(st, jk, userId, ticketId, Some(expireAt), Some(ttl));
      var tk := TicketKey(jk, ticketId);
      && (r.value.promoted <==> Promotable(st, KeysFor(jk, userId, ticketId), userId))
      && (r.value.promoted ==> TtlOf(r.value.store, tk) == Some(TicketSeconds(ttl) * 1000))
      && TicketSeconds(ttl) >= 1
      && (ttl.nanos >= NanosPerSecond ==> TicketSeconds(ttl) == GetSeconds(ttl))
  {
    var k := KeysFor(jk, userId, ticketId);
    PromoteDeclines(st, k, userId, ticketId, expireAt, TicketSeconds(ttl));
    if Promotable(st, k, userId) {
      PromoteIssuesTicket(st, k, userId, ticketId, expireAt, TicketSeconds(ttl));
    }
  }
}
