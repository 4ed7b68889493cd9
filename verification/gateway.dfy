/** The chat server's HTTP entry points (chat-server/Program.cs): the
    `/gameserver/` accept decision in front of the hub, and `/gameserver/clients`.
    This server runs the legacy hub. */
module Gateway {
  import opened Wrappers
  import opened Text
  import opened KvStore
  import opened Protocol
  import opened TicketRepository
  import opened Auth
  import opened Registry
  import opened Hub

  /** What the request gets: 400 with no body, a JSON error body with its
      status, or an accepted socket handed to the hub for `user`. */
  datatype Response = BadRequest | JsonError(status: int, body: ErrorResponse) | Accepted(user: User)

  const DuplicateConnection := ErrorResponse("DuplicateConnection", "User already has an active session.")

  /** The accept decision; `ticketQuery` is the query value as a string (empty
      when absent). */
  function Accept(isWebSocket: bool, ticketQuery: string, keys: TicketKeys, st: Store, reg: Registry): (resp: Response)
    ensures !isWebSocket ==> resp == BadRequest
    ensures resp.Accepted? <==>
      && isWebSocket
      && Authenticate(keys, st, Some(ticketQuery)).result.isAuthenticated
      && !IsConnected(reg, Authenticate(keys, st, Some(ticketQuery)).result.user.value.userId)
    ensures resp.Accepted? ==> Some(resp.user) == GetUserByTicket(keys, st, ticketQuery)
    ensures isWebSocket && !Authenticate(keys, st, Some(ticketQuery)).result.isAuthenticated ==>
      var r := Authenticate(keys, st, Some(ticketQuery)).result;
      resp == JsonError(r.statusCode, r.error.value)
    ensures resp.JsonError? && resp.status == Status409Conflict ==>
      resp.body == DuplicateConnection && IsConnected(reg, GetUserByTicket(keys, st, ticketQuery).value.userId)
  {
    if !isWebSocket then BadRequest
    else
      var auth := Authenticate(keys, st, Some(ticketQuery)).result;
      if !auth.isAuthenticated then JsonError(auth.statusCode, auth.error.value)
      else if IsConnected(reg, auth.user.value.userId) then JsonError(Status409Conflict, DuplicateConnection)
      else Accepted(auth.user.value)
  }

  /** `/gameserver/clients`: the number of registered sessions. */
  function ClientCount(reg: Registry): (n: nat)
    requires Valid(reg)
    ensures n == |UserSet(reg)|
  {
    DistinctUsers(reg);
    |reg|
  }

  /** The users with a registered session. */
  function UserSet(r: Registry): (s: set<string>)
    ensures forall u :: u in s <==> IsConnected(r, u)
  {
    if |r| == 0 then {}
    else
      var s := {r[0].user.userId} + UserSet(r[1..]);
      assert forall u :: IsConnected(r, u) <==> u == r[0].user.userId || IsConnected(r[1..], u) by {
        assert UserIds(r) == [r[0].user.userId] + UserIds(r[1..]);
      }
      s
  }

  /** With at most one session per user, the count of sessions is the count
      of connected users. */
  lemma {:induction false} DistinctUsers(r: Registry)
    requires Valid(r)
    ensures |UserSet(r)| == |r|
  {
    if |r| > 0 {
      ValidCons(r);
      DistinctUsers(r[1..]);
      assert r[0].user.userId !in UserSet(r[1..]);
    }
  }

  /** An accepted request is admitted by the hub: it is never refused as a
      duplicate, and it joins unless the request is cancelled. */
  lemma AcceptedRequestJoins(ticketQuery: string, keys: TicketKeys, st: Store, reg: Registry,
                             id: ConnId, cancelled: bool, now: int)
    requires Valid(reg)
    requires Accept(true, ticketQuery, keys, st, reg).Accepted?
    ensures var c := Conn(id, Accept(true, ticketQuery, keys, st, reg).user, now, Open);
      Admit(Legacy, reg, c, ticketQuery, cancelled, now).outcome == if cancelled then Interrupted else Joined
  {
  }

  /** As written, a request cancelled during admission leaves a registration
      behind, so the same user's next request is refused with 409 although
      the user has no live session. */
  lemma ZombieRefusesReconnect(ticketQuery: string, keys: TicketKeys, st: Store, reg: Registry,
                               id: ConnId, now: int, nextTicket: string)
    requires Valid(reg)
    requires Accept(true, ticketQuery, keys, st, reg).Accepted?
    requires GetUserByTicket(keys, st, nextTicket) == GetUserByTicket(keys, st, ticketQuery)
    ensures var c := Conn(id, Accept(true, ticketQuery, keys, st, reg).user, now, Open);
      var after := AdmitAsWritten(Legacy, reg, c, ticketQuery, true, now).step.reg;
      Accept(true, nextTicket, keys, st, after) == JsonError(Status409Conflict, DuplicateConnection)
  {
    var c := Conn(id, Accept(true, ticketQuery, keys, st, reg).user, now, Open);
    CancelledAdmissionLeavesZombie(Legacy, reg, c, ticketQuery, now);
  }

  /** With the teardown widened over the whole admission, the same user's next
      request is accepted. */
  lemma CorrectedAdmissionAllowsReconnect(ticketQuery: string, keys: TicketKeys, st: Store, reg: Registry,
                                          id: ConnId, now: int, nextTicket: string)
    requires Valid(reg)
    requires Accept(true, ticketQuery, keys, st, reg).Accepted?
    requires GetUserByTicket(keys, st, nextTicket) == GetUserByTicket(keys, st, ticketQuery)
    ensures var c := Conn(id, Accept(true, ticketQuery, keys, st, reg).user, now, Open);
      var after := Admit(Legacy, reg, c, ticketQuery, true, now).step.reg;
      Accept(true, nextTicket, keys, st, after).Accepted?
  {
    var c := Conn(id, Accept(true, ticketQuery, keys, st, reg).user, now, Open);
    AdmitInterrupted(Legacy, reg, c, ticketQuery, now);
  }
}
