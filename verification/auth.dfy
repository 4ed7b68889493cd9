/** Authentication of a chat connection by its admission ticket
    (chat-server/Services/AuthService.cs): a typed result carrying either the
    user or an HTTP status and an error body, and a count of the
    authentication failures recorded. */
module Auth {
  import opened Wrappers
  import opened Text
  import opened KvStore
  import opened Protocol
  import opened TicketRepository

  const Status200OK := 200
  const Status400BadRequest := 400
  const Status401Unauthorized := 401
  const Status409Conflict := 409

  datatype ErrorResponse = ErrorResponse(code: string, message: string)

  datatype AuthenticationResult = AuthenticationResult(
    isAuthenticated: bool,
    user: Option<User>,
    statusCode: int,
    error: Option<ErrorResponse>)

  /** The shape every result of this service has: authenticated exactly when
      a user is present, and an error body exactly when it is not. */
  predicate WellFormed(r: AuthenticationResult) {
    && (r.isAuthenticated <==> r.user.Some?)
    && (r.isAuthenticated <==> r.error.None?)
  }

  function Success(user: User): (r: AuthenticationResult)
    ensures WellFormed(r) && r.isAuthenticated
    ensures r.user == Some(user) && r.statusCode == Status200OK
  {
    AuthenticationResult(true, Some(user), Status200OK, None)
  }

  function Fail(statusCode: int, code: string, message: string): (r: AuthenticationResult)
    ensures WellFormed(r) && !r.isAuthenticated
    ensures r.statusCode == statusCode && r.error == Some(ErrorResponse(code, message))
  {
    AuthenticationResult(false, None, statusCode, Some(ErrorResponse(code, message)))
  }

  const MissingTicketId := Fail(Status401Unauthorized, "MissingTicketId", "ticketId query parameter is required.")
  const InvalidTicket := Fail(Status401Unauthorized, "InvalidTicket", "ticketId is invalid or expired.")

  /** The result and the number of authentication failures recorded. */
  datatype Authenticated = Authenticated(result: AuthenticationResult, failuresRecorded: nat)

  /** AuthenticateAsync: `ticketId` is null when absent. */
  function Authenticate(keys: TicketKeys, st: Store, ticketId: Option<string>): (a: Authenticated)
    ensures WellFormed(a.result)
    ensures IsNullOrWhiteSpace(ticketId) ==> a.result == MissingTicketId
    ensures !IsNullOrWhiteSpace(ticketId) ==>
      a.result == match GetUserByTicket(keys, st, ticketId.value)
                  case Some(u) => Success(u)
                  case None => InvalidTicket
    ensures a.failuresRecorded == if a.result.isAuthenticated then 0 else 1
  {
    if IsNullOrWhiteSpace(ticketId) then Authenticated(MissingTicketId, 1)
    else
      match GetUserByTicket(keys, st, ticketId.value)
      case None => Authenticated(InvalidTicket, 1)
      case Some(u) => Authenticated(Success(u), 0)
  }

  /** A ticket authenticates exactly when it names a hash whose `userId` and
      `nickname` are both present and not blank; the user is read from them. */
  lemma AuthenticatesExactlyValidTickets(keys: TicketKeys, st: Store, ticketId: string)
    ensures var a := Authenticate(keys, st, Some(ticketId));
      var h := HGetAll(st, TicketKey(keys, ticketId));
      a.result.isAuthenticated <==>
        && !IsWhiteSpaceOnly(ticketId)
        && "userId" in h && "nickname" in h
        && !IsWhiteSpaceOnly(h["userId"]) && !IsWhiteSpaceOnly(h["nickname"])
    ensures var a := Authenticate(keys, st, Some(ticketId));
      var h := HGetAll(st, TicketKey(keys, ticketId));
      a.result.isAuthenticated ==> a.result.user == Some(User(h["userId"], h["nickname"]))
  {
  }

  /** Single use: a consumed ticket no longer authenticates; it is rejected as
      invalid, with one failure recorded. */
  lemma ConsumedTicketIsRejected(keys: TicketKeys, st: Store, ticketId: string, userId: string)
    requires ValidStore(st)
    requires !IsWhiteSpaceOnly(ticketId) && !IsWhiteSpaceOnly(userId)
    ensures var c := ConsumeTicket(keys, st, ticketId, userId, NotCancelled, true);
      && c.error.None?
      && Authenticate(keys, c.store, Some(ticketId)) == Authenticated(InvalidTicket, 1)
  {
    ConsumedTicketIsInvalid(keys, st, ticketId, userId, NotCancelled);
  }
}
