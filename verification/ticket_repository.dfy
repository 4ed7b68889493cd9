/** The chat server's view of admission tickets in the shared store
    (chat-server/Repositories/TicketRepository.cs): a ticket is the hash at
    "queue:joining:<ticketId>" holding `userId` and `nickname`; consuming it
    deletes that hash, drops the id from the joining set and deletes the
    user's waiting entry. */
module TicketRepository {
  import opened Wrappers
  import opened Text
  import opened KvStore
  import opened Protocol

  /** The key layout, kept as a parameter: the queue services do not agree
      with every one of these names. */
  datatype TicketKeys = TicketKeys(joiningTicketPrefix: string, joiningTickets: string, waitingUserPrefix: string)

  const Keys := TicketKeys("queue:joining:", "queue:joining:tickets", "queue:waiting:user:")

  function TicketKey(keys: TicketKeys, ticketId: string): string {
    keys.joiningTicketPrefix + ticketId
  }

  // ---------------------------------------------------------------------
  // Reading a ticket

  /** The value of the first entry named `name`. */
  function FirstValue(entries: seq<(string, string)>, name: string): (r: Option<string>)
    ensures r.Some? ==> (name, r.value) in entries
    ensures r.None? ==> forall i :: 0 <= i < |entries| ==> entries[i].0 != name
  {
    if |entries| == 0 then None
    else if entries[0].0 == name then Some(entries[0].1)
    else FirstValue(entries[1..], name)
  }

  /** The loop over the hash's entries: it keeps the first `userId` and the
      first `nickname` it meets. */
  function ScanEntries(entries: seq<(string, string)>, userId: Option<string>, nickname: Option<string>)
    : (Option<string>, Option<string>)
  {
    if |entries| == 0 then (userId, nickname)
    else
      var (name, value) := entries[0];
      if userId.None? && name == "userId" then ScanEntries(entries[1..], Some(value), nickname)
      else if nickname.None? && name == "nickname" then ScanEntries(entries[1..], userId, Some(value))
      else ScanEntries(entries[1..], userId, nickname)
  }

  /** The loop finds the first value of each field, whatever else the hash holds. */
  lemma {:induction false} ScanFindsFirstValues(entries: seq<(string, string)>, u: Option<string>, n: Option<string>)
    ensures ScanEntries(entries, u, n)
         == (if u.Some? then u else FirstValue(entries, "userId"),
             if n.Some? then n else FirstValue(entries, "nickname"))
  {
    if |entries| > 0 {
      var (name, value) := entries[0];
      if u.None? && name == "userId" {
        ScanFindsFirstValues(entries[1..], Some(value), n);
      } else if n.None? && name == "nickname" {
        ScanFindsFirstValues(entries[1..], u, Some(value));
      } else {
        ScanFindsFirstValues(entries[1..], u, n);
      }
    }
  }

  /** `entries` lists the fields of hash `h`, each exactly once, in some order. */
  predicate Enumerates(entries: seq<(string, string)>, h: map<string, string>) {
    && (forall i :: 0 <= i < |entries| ==> entries[i].0 in h && h[entries[i].0] == entries[i].1)
    && (forall f :: f in h ==> (f, h[f]) in entries)
  }

  /** On a listing of a hash, "first value of a field" is the field's value. */
  lemma FirstValueOfEnumeration(entries: seq<(string, string)>, h: map<string, string>, name: string)
    requires Enumerates(entries, h)
    ensures FirstValue(entries, name) == if name in h then Some(h[name]) else None
  {
    if name in h {
      assert (name, h[name]) in entries;
    }
  }

  /** A user built from the two fields, or null when either is blank. */
  function UserFromFields(userId: Option<string>, nickname: Option<string>): (r: Option<User>)
    ensures r.Some? <==> !IsNullOrWhiteSpace(userId) && !IsNullOrWhiteSpace(nickname)
    ensures r.Some? ==> r.value == User(userId.value, nickname.value)
  {
    if IsNullOrWhiteSpace(userId) || IsNullOrWhiteSpace(nickname) then None
    else Some(User(userId.value, nickname.value))
  }

  /** The user named by a listing of the ticket hash: the loop, then the blank check. */
  function UserFromEntries(entries: seq<(string, string)>): Option<User> {
    var (u, n) := ScanEntries(entries, None, None);
    UserFromFields(u, n)
  }

  function Field(h: map<string, string>, f: string): Option<string> {
    if f in h then Some(h[f]) else None
  }

  /** GetUserByTicketAsync. */
  function GetUserByTicket(keys: TicketKeys, st: Store, ticketId: string): (r: Option<User>)
    ensures IsWhiteSpaceOnly(ticketId) ==> r.None?
    ensures |HGetAll(st, TicketKey(keys, ticketId))| == 0 ==> r.None?
    ensures r.Some? ==>
      var h := HGetAll(st, TicketKey(keys, ticketId));
      && "userId" in h && "nickname" in h
      && r.value == User(h["userId"], h["nickname"])
      && !IsWhiteSpaceOnly(h["userId"]) && !IsWhiteSpaceOnly(h["nickname"])
  {
    if IsWhiteSpaceOnly(ticketId) then None
    else
      var h := HGetAll(st, TicketKey(keys, ticketId));
      if |h| == 0 then None
      else UserFromFields(Field(h, "userId"), Field(h, "nickname"))
  }

  /** Whatever order the store lists the hash in, the repository's loop reads
      the same user as the field lookup above. */
  lemma LookupAgreesWithEntryLoop(keys: TicketKeys, st: Store, ticketId: string, entries: seq<(string, string)>)
    requires !IsWhiteSpaceOnly(ticketId)
    requires Enumerates(entries, HGetAll(st, TicketKey(keys, ticketId)))
    requires |entries| > 0
    ensures GetUserByTicket(keys, st, ticketId) == UserFromEntries(entries)
  {
    var h := HGetAll(st, TicketKey(keys, ticketId));
    ScanFindsFirstValues(entries, None, None);
    FirstValueOfEnumeration(entries, h, "userId");
    FirstValueOfEnumeration(entries, h, "nickname");
    assert |h| > 0 by { assert entries[0].0 in h; }
  }

  // ---------------------------------------------------------------------
  // Consuming a ticket

  datatype ConsumeError = OperationCanceled

  /** When the caller's token fires: not at all, before the batch is sent
      (the explicit check), or while the call awaits the batch's replies
      (the wait rethrows, but the batch has already gone out). */
  datatype Cancellation = NotCancelled | CancelledBefore | CancelledWhileWaiting

  /** The store after the call, and the exception it ends with, if any. */
  datatype Consumed = Consumed(store: Store, error: Option<ConsumeError>)

  /** The three keys a consumption deletes from. */
  function ConsumedKeys(keys: TicketKeys, ticketId: string, userId: string): set<string> {
    {TicketKey(keys, ticketId), keys.joiningTickets, keys.waitingUserPrefix + userId}
  }

  /** ConsumeTicketAsync. `reachable` says whether the store applies the
      batch (a store failure or time-out is logged and swallowed, and then
      nothing is written). */
  function ConsumeTicket(keys: TicketKeys, st: Store, ticketId: string, userId: string,
                         cancel: Cancellation, reachable: bool): (r: Consumed)
    requires ValidStore(st)
    ensures ValidStore(r.store)
    ensures AgreeOutside(st, r.store, ConsumedKeys(keys, ticketId, userId))
    ensures IsWhiteSpaceOnly(ticketId) || IsWhiteSpaceOnly(userId) ==> r == Consumed(st, None)
    ensures r.error.Some? <==> !cancel.NotCancelled? && !IsWhiteSpaceOnly(ticketId) && !IsWhiteSpaceOnly(userId)
    ensures cancel.CancelledBefore? || !reachable ==> r.store == st
    ensures !IsWhiteSpaceOnly(ticketId) && !IsWhiteSpaceOnly(userId) && !cancel.CancelledBefore? && reachable ==>
      && !Exists(r.store, TicketKey(keys, ticketId))
      && !Exists(r.store, keys.waitingUserPrefix + userId)
      && (JoiningSetApart(keys, ticketId, userId) ==>
            forall e :: e in ZEntries(r.store, keys.joiningTickets) <==>
              e in ZEntries(st, keys.joiningTickets) && e.member != ticketId)
  {
    if IsWhiteSpaceOnly(ticketId) || IsWhiteSpaceOnly(userId) then Consumed(st, None)
    else if cancel.CancelledBefore? then Consumed(st, Some(OperationCanceled))
    else
      var error := if cancel.CancelledWhileWaiting? then Some(OperationCanceled) else None;
      if !reachable then Consumed(st, error)
      else Consumed(Delete(keys, st, ticketId, userId), error)
  }

  /** The batch: DEL of the ticket hash, ZREM from the joining set, DEL of
      the waiting user's hash. */
  function Delete(keys: TicketKeys, st: Store, ticketId: string, userId: string): (r: Store)
    requires ValidStore(st)
    ensures ValidStore(r)
    ensures AgreeOutside(st, r, ConsumedKeys(keys, ticketId, userId))
    ensures !Exists(r, TicketKey(keys, ticketId)) && !Exists(r, keys.waitingUserPrefix + userId)
    ensures JoiningSetApart(keys, ticketId, userId) ==>
      forall e :: e in ZEntries(r, keys.joiningTickets) <==>
        e in ZEntries(st, keys.joiningTickets) && e.member != ticketId
  {
    var ticketKey := TicketKey(keys, ticketId);
    var metaKey := keys.waitingUserPrefix + userId;
    var s1 := Del(st, ticketKey);
    var s2 := ZRem(s1, keys.joiningTickets, [ticketId]);
    var s3 := Del(s2, metaKey);
    assert AgreeOutside(st, s3, ConsumedKeys(keys, ticketId, userId));
    assert JoiningSetApart(keys, ticketId, userId) ==>
      ZEntries(s1, keys.joiningTickets) == ZEntries(st, keys.joiningTickets)
      && ZEntries(s3, keys.joiningTickets) == ZEntries(s2, keys.joiningTickets);
    s3
  }

  /** The joining set is neither the ticket hash nor the user's hash (with
      the default names they meet only for the ticket id "tickets"). */
  predicate JoiningSetApart(keys: TicketKeys, ticketId: string, userId: string) {
    keys.joiningTickets != TicketKey(keys, ticketId) && keys.joiningTickets != keys.waitingUserPrefix + userId
  }

  /** Single use: once the batch has gone out, the ticket no longer
      resolves, even when the call then fails on a cancellation. */
  lemma ConsumedTicketIsInvalid(keys: TicketKeys, st: Store, ticketId: string, userId: string, cancel: Cancellation)
    requires ValidStore(st)
    requires !IsWhiteSpaceOnly(userId) && !cancel.CancelledBefore?
    ensures var r := ConsumeTicket(keys, st, ticketId, userId, cancel, true);
      && GetUserByTicket(keys, r.store, ticketId).None?
      && (r.error.Some? <==> cancel.CancelledWhileWaiting? && !IsWhiteSpaceOnly(ticketId))
  {
  }
}
