/** The chat hub (ChatService): admitting a socket, the per-session receive
    loop, broadcast with per-recipient failure, close-and-remove, the status
    reply and the idle sweep.

    Two versions of the hub exist and both are modelled, told apart by
    `Variant`: `Current` (chat/LikeLionChat.Server) consumes the admission
    ticket, publishes the user count and records metrics; `Legacy`
    (chat-server/Services) does none of these and puts the user count into
    its leave notice.

    Every operation is a pure transition from a registry to a `Step`: the new
    registry and the calls the hub makes on its collaborators, in order. */
module Hub {
  import opened Wrappers
  import opened Text
  import opened Protocol
  import opened Registry

  datatype Variant = Current | Legacy

  /** Why the hub closes a socket. The first three close with status 1011
      (internal error), the others with 1000 (normal closure). */
  datatype CloseReason = RegisterFailed | SendFailure | BroadcastFailure | Disconnected | IdleTimeout

  datatype Metric = Connection | Disconnection | MessageArrived | IdleDisconnect | BroadcastSent(recipients: nat)

  datatype Effect =
    | Send(to: ConnId, envelope: OutEnvelope)
    | CloseSocket(conn: ConnId, reason: CloseReason)
      /** The socket is disposed and the session is logged as disconnected:
          the end of session (conn, userId). */
    | Ended(conn: ConnId, userId: string)
    | ConsumeTicket(ticketId: string, userId: string)
    | PublishStatus(currentUsers: nat)
    | Record(metric: Metric)

  datatype Step = Step(reg: Registry, effects: seq<Effect>)

  /** Two minutes of silence make a session idle. Times are in milliseconds. */
  const IdleTimeoutMillis := 120_000

  // ---------------------------------------------------------------------
  // Accounting for sessions

  /** The sessions the effects end, in order. */
  function EndedSessions(effects: seq<Effect>): seq<(ConnId, string)> {
    if |effects| == 0 then []
    else
      (if effects[0].Ended? then [(effects[0].conn, effects[0].userId)] else [])
      + EndedSessions(effects[1..])
  }

  lemma {:induction false} EndedSessionsAppend(a: seq<Effect>, b: seq<Effect>)
    ensures EndedSessions(a + b) == EndedSessions(a) + EndedSessions(b)
  {
    if |a| == 0 {
      assert a + b == b;
    } else {
      assert (a + b)[0] == a[0];
      assert (a + b)[1..] == a[1..] + b;
      EndedSessionsAppend(a[1..], b);
    }
  }

  /** Every session that the step drops from `before` is ended by it, once,
      and no other session is. */
  predicate Accounts(before: Registry, s: Step) {
    multiset(EndedSessions(s.effects)) + multiset(Tags(s.reg)) == multiset(Tags(before))
  }

  /** Effects that end no session, followed by a step that accounts for
      `before`, still account for it. */
  lemma AccountsAfter(before: Registry, e: seq<Effect>, s: Step)
    requires EndedSessions(e) == []
    requires Accounts(before, s)
    ensures Accounts(before, Step(s.reg, e + s.effects))
  {
    EndedSessionsAppend(e, s.effects);
  }

  /** A step that accounts for `before`, followed by one that accounts for
      its result, accounts for `before`. */
  lemma AccountsChain(before: Registry, s: Step, t: Step)
    requires Accounts(before, s)
    requires Accounts(s.reg, t)
    ensures Accounts(before, Step(t.reg, s.effects + t.effects))
  {
    EndedSessionsAppend(s.effects, t.effects);
  }

  // ---------------------------------------------------------------------
  // Broadcast and close-and-remove

  /** Some session of `pending` reads Failing in `r`. */
  predicate AnyFailing(r: Registry, pending: seq<Conn>) {
    |pending| > 0 && (CurrentSocket(r, pending[0]) == Failing || AnyFailing(r, pending[1..]))
  }

  /** Ids of the sessions of `pending` that read Open in `r`. */
  function OpenIds(r: Registry, pending: seq<Conn>): seq<ConnId> {
    if |pending| == 0 then []
    else (if CurrentSocket(r, pending[0]) == Open then [pending[0].id] else []) + OpenIds(r, pending[1..])
  }

  /** Ids of the entries whose socket is Open, in registry order. */
  function OpenEntries(r: Registry): (ids: seq<ConnId>)
    ensures forall x :: x in r && x.socket == Open ==> x.id in ids
  {
    if |r| == 0 then []
    else
      var ids := (if r[0].socket == Open then [r[0].id] else []) + OpenEntries(r[1..]);
      assert forall x :: x in r ==> x == r[0] || x in r[1..];
      ids
  }

  /** Evicting the failing entries changes no one's Open reading. */
  lemma {:induction false} OpenIdsHealthy(r: Registry, p: seq<Conn>)
    requires Valid(r)
    ensures OpenIds(Healthy(r), p) == OpenIds(r, p)
  {
    if |p| > 0 {
      CurrentSocketHealthy(r, p[0]);
      OpenIdsHealthy(r, p[1..]);
    }
  }

  /** On the registry's own entries, the registry reads their own state. */
  lemma {:induction false} OpenIdsOfEntries(r: Registry, p: seq<Conn>)
    requires Valid(r)
    requires forall x :: x in p ==> x in r
    ensures OpenIds(r, p) == OpenEntries(p)
  {
    if |p| > 0 {
      FindUnique(r, p[0]);
      assert forall x :: x in p[1..] ==> x in p;
      OpenIdsOfEntries(r, p[1..]);
    }
  }

  /** When none of the registry's own entries reads Failing, none is failing. */
  lemma {:induction false} NoneFailingOfEntries(r: Registry, p: seq<Conn>)
    requires Valid(r)
    requires forall x :: x in p ==> x in r
    requires !AnyFailing(r, p)
    ensures forall x :: x in p ==> x.socket != Failing
  {
    if |p| > 0 {
      FindUnique(r, p[0]);
      assert forall x :: x in p[1..] ==> x in p;
      NoneFailingOfEntries(r, p[1..]);
      assert forall x :: x in p ==> x == p[0] || x in p[1..];
    }
  }

  /** A session that reads Failing is registered, and evicting it by user id
      and then every failing entry is evicting every failing entry. */
  lemma FailingEviction(r: Registry, c: Conn)
    requires Valid(r) && CurrentSocket(r, c) == Failing
    ensures IsConnected(r, c.user.userId)
    ensures Healthy(Remove(r, c.user.userId)) == Healthy(r)
    ensures Healthy(Healthy(r)) == Healthy(r)
  {
    var x := Find(r, c.user.userId).value;
    HealthyAfterRemovingFailing(r, x);
    HealthyIdempotent(r);
  }

  /** The leave notice of each variant; `remaining` is the count after removal. */
  function LeaveText(v: Variant, nickname: string, remaining: nat): string {
    match v
    case Current => LeaveNotice(nickname)
    case Legacy => LeaveNoticeWithCount(nickname, remaining)
  }

  datatype Broadcasted = Broadcasted(step: Step, delivered: seq<ConnId>)

  /** The metric the current hub records after a broadcast. */
  function BroadcastMetric(v: Variant, delivered: nat): (e: seq<Effect>)
    ensures EndedSessions(e) == []
  {
    if v.Current? then [Record(BroadcastSent(delivered))] else []
  }

  /** BroadcastAsync: `env` goes to every entry whose socket is Open; an entry
      whose send fails is closed and removed (which broadcasts its leave
      notice) and delivery goes on. The current hub then records how many
      sends succeeded. What is left is the registry without its failing
      entries. This is the corrected loop; `BroadcastAsWritten` below is the
      one in which the first failed send ends the broadcast. */
  function Broadcast(v: Variant, r: Registry, env: OutEnvelope, now: int): (res: Broadcasted)
    requires Valid(r)
    ensures Valid(res.step.reg) && |res.step.reg| <= |r|
    decreases |r|, 2, 0
  {
    var b := BroadcastLoop(v, r, env, now, r);
    Broadcasted(Step(b.step.reg, b.step.effects + BroadcastMetric(v, |b.delivered|)), b.delivered)
  }

  /** The loop of BroadcastAsync over the entries still `pending`. */
  function BroadcastLoop(v: Variant, r: Registry, env: OutEnvelope, now: int, pending: seq<Conn>)
    : (res: Broadcasted)
    requires Valid(r)
    ensures Valid(res.step.reg) && |res.step.reg| <= |r|
    decreases |r|, 1, |pending|
  {
    if |pending| == 0 then Broadcasted(Step(r, []), [])
    else
      var c := pending[0];
      var s := CurrentSocket(r, c);
      if s == Open then
        var rest := BroadcastLoop(v, r, env, now, pending[1..]);
        Broadcasted(Step(rest.step.reg, [Send(c.id, env)] + rest.step.effects), [c.id] + rest.delivered)
      else if s == Failing then
        var t := CloseAndRemove(v, r, c.user.userId, BroadcastFailure, now);
        var rest := BroadcastLoop(v, t.reg, env, now, pending[1..]);
        Broadcasted(Step(rest.step.reg, t.effects + rest.step.effects), rest.delivered)
      else
        BroadcastLoop(v, r, env, now, pending[1..])
  }

  /** CloseAndRemoveAsync: when `u` is registered, its entry is removed, its
      socket closed unless already closed, the session ended and (current
      hub) counted and the new size published; then the leave notice is
      broadcast to the rest. An absent `u` is left alone: nothing happens. */
  function CloseAndRemove(v: Variant, r: Registry, u: string, reason: CloseReason, now: int): (res: Step)
    requires Valid(r)
    ensures Valid(res.reg) && |res.reg| <= |r|
    ensures !IsConnected(r, u) ==> res == Step(r, [])
    decreases |r|, 0, 0
  {
    match Find(r, u)
    case None => Step(r, [])
    case Some(x) =>
      var r1 := Remove(r, u);
      var b := Broadcast(v, r1, SystemMessage(now, LeaveText(v, x.user.nickname, |r1|)), now);
      Step(b.step.reg, Teardown(v, x, reason, |r1|) + b.step.effects)
  }

  /** The calls of CloseAndRemoveAsync before the leave notice, for entry `x`
      leaving `remaining` users: close unless already closed, end the session
      and, in the current hub, count it and publish the new size. */
  function Teardown(v: Variant, x: Conn, reason: CloseReason, remaining: nat): (e: seq<Effect>)
    ensures EndedSessions(e) == [Tag(x)]
    ensures Ended(x.id, x.user.userId) in e
    ensures (CloseSocket(x.id, reason) in e) <==> x.socket != Closed
  {
    var closing := if x.socket == Closed then [] else [CloseSocket(x.id, reason)];
    var status := if v.Current? then [Record(Disconnection), PublishStatus(remaining)] else [];
    NoEndedSessions(closing);
    NoEndedSessions(status);
    assert EndedSessions([Ended(x.id, x.user.userId)]) == [Tag(x)];
    EndedSessionsAppend(closing, [Ended(x.id, x.user.userId)]);
    EndedSessionsAppend(closing + [Ended(x.id, x.user.userId)], status);
    closing + [Ended(x.id, x.user.userId)] + status
  }

  // ---------------------------------------------------------------------
  // What broadcast and close-and-remove account for and deliver

  /** What broadcast leaves is the registry without its failing entries;
      close-and-remove also drops the entry of the user it removes. */
  lemma {:induction false} BroadcastEvicts(v: Variant, r: Registry, env: OutEnvelope, now: int)
    requires Valid(r)
    ensures Broadcast(v, r, env, now).step.reg == Healthy(r)
    decreases |r|, 2, 0, 0
  {
    LoopEvicts(v, r, env, now, r);
    if !AnyFailing(r, r) {
      NoneFailingOfEntries(r, r);
    }
  }

  /** The loop drops the failing entries as soon as it meets one of them. */
  lemma {:induction false} LoopEvicts(v: Variant, r: Registry, env: OutEnvelope, now: int, pending: seq<Conn>)
    requires Valid(r)
    ensures BroadcastLoop(v, r, env, now, pending).step.reg == if AnyFailing(r, pending) then Healthy(r) else r
    decreases |r|, 1, |pending|, 1
  {
    if |pending| > 0 {
      var c := pending[0];
      var s := CurrentSocket(r, c);
      if s == Failing {
        LoopEvictsFailing(v, r, env, now, pending);
      } else {
        LoopEvicts(v, r, env, now, pending[1..]);
      }
    }
  }

  /** The step of the loop that meets a failing entry. */
  lemma {:induction false} LoopEvictsFailing(v: Variant, r: Registry, env: OutEnvelope, now: int, pending: seq<Conn>)
    requires Valid(r) && |pending| > 0 && CurrentSocket(r, pending[0]) == Failing
    ensures BroadcastLoop(v, r, env, now, pending).step.reg == Healthy(r)
    decreases |r|, 1, |pending|, 0
  {
    var c := pending[0];
    FailingEviction(r, c);
    CloseEvicts(v, r, c.user.userId, BroadcastFailure, now);
    var t := CloseAndRemove(v, r, c.user.userId, BroadcastFailure, now);
    assert t.reg == Healthy(r);
    LoopEvicts(v, t.reg, env, now, pending[1..]);
    assert BroadcastLoop(v, r, env, now, pending).step.reg == BroadcastLoop(v, t.reg, env, now, pending[1..]).step.reg;
  }

  lemma {:induction false} CloseEvicts(v: Variant, r: Registry, u: string, reason: CloseReason, now: int)
    requires Valid(r)
    ensures CloseAndRemove(v, r, u, reason, now).reg == if IsConnected(r, u) then Healthy(Remove(r, u)) else r
    decreases |r|, 0, 0, 0
  {
    match Find(r, u)
    case None =>
    case Some(x) =>
      var r1 := Remove(r, u);
      BroadcastEvicts(v, r1, SystemMessage(now, LeaveText(v, x.user.nickname, |r1|)), now);
  }

  /** Broadcast and close-and-remove end exactly the sessions they drop. */
  lemma {:induction false} BroadcastAccounts(v: Variant, r: Registry, env: OutEnvelope, now: int)
    requires Valid(r)
    ensures Accounts(r, Broadcast(v, r, env, now).step)
    decreases |r|, 2, 0, 0
  {
    var b := BroadcastLoop(v, r, env, now, r);
    LoopAccounts(v, r, env, now, r);
    EndedSessionsAppend(b.step.effects, BroadcastMetric(v, |b.delivered|));
  }

  lemma {:induction false} LoopAccounts(v: Variant, r: Registry, env: OutEnvelope, now: int, pending: seq<Conn>)
    requires Valid(r)
    ensures Accounts(r, BroadcastLoop(v, r, env, now, pending).step)
    decreases |r|, 1, |pending|, 1
  {
    if |pending| > 0 {
      var c := pending[0];
      var s := CurrentSocket(r, c);
      if s == Open {
        var rest := BroadcastLoop(v, r, env, now, pending[1..]);
        LoopAccounts(v, r, env, now, pending[1..]);
        assert EndedSessions([Send(c.id, env)]) == [];
        AccountsAfter(r, [Send(c.id, env)], rest.step);
        assert BroadcastLoop(v, r, env, now, pending).step == Step(rest.step.reg, [Send(c.id, env)] + rest.step.effects);
      } else if s == Failing {
        LoopAccountsFailing(v, r, env, now, pending);
      } else {
        LoopAccounts(v, r, env, now, pending[1..]);
      }
    }
  }

  /** The step of the loop that meets a failing entry. */
  lemma {:induction false} LoopAccountsFailing(v: Variant, r: Registry, env: OutEnvelope, now: int, pending: seq<Conn>)
    requires Valid(r) && |pending| > 0 && CurrentSocket(r, pending[0]) == Failing
    ensures Accounts(r, BroadcastLoop(v, r, env, now, pending).step)
    decreases |r|, 1, |pending|, 0
  {
    var c := pending[0];
    FailingEviction(r, c);
    var t := CloseAndRemove(v, r, c.user.userId, BroadcastFailure, now);
    CloseAccounts(v, r, c.user.userId, BroadcastFailure, now);
    var rest := BroadcastLoop(v, t.reg, env, now, pending[1..]);
    LoopAccounts(v, t.reg, env, now, pending[1..]);
    AccountsChain(r, t, rest.step);
    assert BroadcastLoop(v, r, env, now, pending).step == Step(rest.step.reg, t.effects + rest.step.effects);
  }

  lemma {:induction false} CloseAccounts(v: Variant, r: Registry, u: string, reason: CloseReason, now: int)
    requires Valid(r)
    ensures Accounts(r, CloseAndRemove(v, r, u, reason, now))
    decreases |r|, 0, 0, 0
  {
    match Find(r, u)
    case None =>
    case Some(x) =>
      var r1 := Remove(r, u);
      var env := SystemMessage(now, LeaveText(v, x.user.nickname, |r1|));
      RemoveTags(r, x);
      BroadcastAccounts(v, r1, env, now);
      EndedSessionsAppend(Teardown(v, x, reason, |r1|), Broadcast(v, r1, env, now).step.effects);
  }

  /** The loop delivers to exactly the sessions of `pending` that read Open,
      in order. */
  lemma {:induction false} LoopDelivers(v: Variant, r: Registry, env: OutEnvelope, now: int, pending: seq<Conn>)
    requires Valid(r)
    ensures BroadcastLoop(v, r, env, now, pending).delivered == OpenIds(r, pending)
    decreases |pending|, 1
  {
    if |pending| > 0 {
      var c := pending[0];
      var s := CurrentSocket(r, c);
      if s == Failing {
        LoopDeliversFailing(v, r, env, now, pending);
      } else {
        LoopDelivers(v, r, env, now, pending[1..]);
      }
    }
  }

  /** The step of the loop that meets a failing entry: it delivers nothing
      to it, and the rest sees the same sockets. */
  lemma {:induction false} LoopDeliversFailing(v: Variant, r: Registry, env: OutEnvelope, now: int, pending: seq<Conn>)
    requires Valid(r) && |pending| > 0 && CurrentSocket(r, pending[0]) == Failing
    ensures BroadcastLoop(v, r, env, now, pending).delivered == OpenIds(r, pending[1..])
    decreases |pending|, 0
  {
    var c := pending[0];
    FailingEviction(r, c);
    CloseEvicts(v, r, c.user.userId, BroadcastFailure, now);
    var t := CloseAndRemove(v, r, c.user.userId, BroadcastFailure, now);
    LoopDelivers(v, t.reg, env, now, pending[1..]);
    OpenIdsHealthy(r, pending[1..]);
  }

  /** Every delivery of the loop is a send of `env`. */
  lemma {:induction false} LoopSends(v: Variant, r: Registry, env: OutEnvelope, now: int, pending: seq<Conn>)
    requires Valid(r)
    ensures var b := BroadcastLoop(v, r, env, now, pending);
      forall id :: id in b.delivered ==> Send(id, env) in b.step.effects
    decreases |pending|
  {
    if |pending| > 0 {
      var c := pending[0];
      var s := CurrentSocket(r, c);
      if s == Failing {
        var t := CloseAndRemove(v, r, c.user.userId, BroadcastFailure, now);
        LoopSends(v, t.reg, env, now, pending[1..]);
      } else {
        LoopSends(v, r, env, now, pending[1..]);
      }
    }
  }

  /** Broadcast delivers to every entry whose socket is Open, and the current
      hub's last call records how many deliveries there were. */
  lemma BroadcastDelivers(v: Variant, r: Registry, env: OutEnvelope, now: int)
    requires Valid(r)
    ensures var b := Broadcast(v, r, env, now);
      && b.delivered == OpenEntries(r)
      && (forall x :: x in r && x.socket == Open ==> Send(x.id, env) in b.step.effects)
      && (v.Current? ==>
            |b.step.effects| > 0 && b.step.effects[|b.step.effects| - 1] == Record(BroadcastSent(|b.delivered|)))
  {
    LoopDelivers(v, r, env, now, r);
    LoopSends(v, r, env, now, r);
    OpenIdsOfEntries(r, r);
  }

  /** After close-and-remove the user is no longer connected. */
  lemma CloseDisconnects(v: Variant, r: Registry, u: string, reason: CloseReason, now: int)
    requires Valid(r)
    ensures !IsConnected(CloseAndRemove(v, r, u, reason, now).reg, u)
  {
    CloseEvicts(v, r, u, reason, now);
    if IsConnected(r, u) {
      var r1 := Remove(r, u);
      SubUsers(r1, Healthy(r1), u);
    }
  }

  /** After close-and-remove, the session has ended, its socket has been closed
      unless it already was, and the leave notice reaches every entry left
      whose socket is Open; the legacy notice states the number of users left. */
  lemma LeaveNoticeReachesTheRest(v: Variant, r: Registry, x: Conn, reason: CloseReason, now: int)
    requires Valid(r) && x in r
    ensures var r1 := Remove(r, x.user.userId);
      var notice := SystemMessage(now, LeaveText(v, x.user.nickname, |r1|));
      var res := CloseAndRemove(v, r, x.user.userId, reason, now);
      && |r1| == |r| - 1
      && Ended(x.id, x.user.userId) in res.effects
      && (CloseSocket(x.id, reason) in res.effects <== x.socket != Closed)
      && forall y :: y in r1 && y.socket == Open ==> Send(y.id, notice) in res.effects
  {
    var u := x.user.userId;
    FindUnique(r, x);
    RemoveCount(r, x);
    var r1 := Remove(r, u);
    var notice := SystemMessage(now, LeaveText(v, x.user.nickname, |r1|));
    BroadcastDelivers(v, r1, notice, now);
    var b := Broadcast(v, r1, notice, now);
    assert CloseAndRemove(v, r, u, reason, now) == Step(b.step.reg, Teardown(v, x, reason, |r1|) + b.step.effects);
  }

  // ---------------------------------------------------------------------
  // Broadcast as written: the first failed send ends it

  /** A broadcast or a send as the hub runs it: the step taken, the sessions
      the envelope reached, and whether an exception escaped. */
  datatype Attempted = Attempted(step: Step, delivered: seq<ConnId>, aborted: bool)

  /** BroadcastAsync as written. The first entry whose send fails is closed
      and removed, which disposes its send lock; the `finally` then releases
      that disposed lock, which throws. The loop ends there: no later entry
      is sent to and no metric is recorded. `Broadcast` above is the
      corrected loop, in which delivery goes on. */
  function BroadcastAsWritten(v: Variant, r: Registry, env: OutEnvelope, now: int): (res: Attempted)
    requires Valid(r)
    ensures Valid(res.step.reg) && |res.step.reg| <= |r|
    ensures res.aborted <==> AnyFailing(r, r)
    decreases |r|, 2, 0
  {
    var b := LoopAsWritten(v, r, env, now, r);
    if b.aborted then b
    else Attempted(Step(b.step.reg, b.step.effects + BroadcastMetric(v, |b.delivered|)), b.delivered, false)
  }

  /** The loop of BroadcastAsync as written, over the entries still `pending`. */
  function LoopAsWritten(v: Variant, r: Registry, env: OutEnvelope, now: int, pending: seq<Conn>)
    : (res: Attempted)
    requires Valid(r)
    ensures Valid(res.step.reg) && |res.step.reg| <= |r|
    ensures res.aborted <==> AnyFailing(r, pending)
    decreases |r|, 1, |pending|
  {
    if |pending| == 0 then Attempted(Step(r, []), [], false)
    else
      var c := pending[0];
      var s := CurrentSocket(r, c);
      if s == Open then
        var rest := LoopAsWritten(v, r, env, now, pending[1..]);
        Attempted(Step(rest.step.reg, [Send(c.id, env)] + rest.step.effects), [c.id] + rest.delivered, rest.aborted)
      else if s == Failing then
        var t := CloseAndRemoveAsWritten(v, r, c.user.userId, BroadcastFailure, now);
        Attempted(t.step, [], true)
      else
        LoopAsWritten(v, r, env, now, pending[1..])
  }

  /** CloseAndRemoveAsync with the broadcast as written: the leave notice
      may itself end in the exception, which then escapes. */
  function CloseAndRemoveAsWritten(v: Variant, r: Registry, u: string, reason: CloseReason, now: int)
    : (res: Attempted)
    requires Valid(r)
    ensures Valid(res.step.reg) && |res.step.reg| <= |r|
    ensures !IsConnected(r, u) ==> res == Attempted(Step(r, []), [], false)
    decreases |r|, 0, 0
  {
    match Find(r, u)
    case None => Attempted(Step(r, []), [], false)
    case Some(x) =>
      var r1 := Remove(r, u);
      var b := BroadcastAsWritten(v, r1, SystemMessage(now, LeaveText(v, x.user.nickname, |r1|)), now);
      Attempted(Step(b.step.reg, Teardown(v, x, reason, |r1|) + b.step.effects), b.delivered, b.aborted)
  }

  /** Even as written, what is left is the registry without its failing
      entries: each leave notice that meets a failing entry closes and
      removes it before the exception. */
  lemma {:induction false} BroadcastAsWrittenEvicts(v: Variant, r: Registry, env: OutEnvelope, now: int)
    requires Valid(r)
    ensures BroadcastAsWritten(v, r, env, now).step.reg == Healthy(r)
    decreases |r|, 2, 0, 0
  {
    LoopAsWrittenEvicts(v, r, env, now, r);
    if !AnyFailing(r, r) {
      NoneFailingOfEntries(r, r);
    }
  }

  lemma {:induction false} LoopAsWrittenEvicts(v: Variant, r: Registry, env: OutEnvelope, now: int, pending: seq<Conn>)
    requires Valid(r)
    ensures LoopAsWritten(v, r, env, now, pending).step.reg == if AnyFailing(r, pending) then Healthy(r) else r
    decreases |r|, 1, |pending|, 1
  {
    if |pending| > 0 {
      var c := pending[0];
      if CurrentSocket(r, c) == Failing {
        CloseFailingAsWritten(v, r, c, BroadcastFailure, now);
        assert LoopAsWritten(v, r, env, now, pending).step
          == CloseAndRemoveAsWritten(v, r, c.user.userId, BroadcastFailure, now).step;
      } else {
        LoopAsWrittenEvicts(v, r, env, now, pending[1..]);
      }
    }
  }

  lemma {:induction false} CloseAsWrittenEvicts(v: Variant, r: Registry, u: string, reason: CloseReason, now: int)
    requires Valid(r)
    ensures CloseAndRemoveAsWritten(v, r, u, reason, now).step.reg == if IsConnected(r, u) then Healthy(Remove(r, u)) else r
    decreases |r|, 0, 0, 0
  {
    match Find(r, u)
    case None =>
    case Some(x) =>
      var r1 := Remove(r, u);
      BroadcastAsWrittenEvicts(v, r1, SystemMessage(now, LeaveText(v, x.user.nickname, |r1|)), now);
  }

  /** Tearing down a session whose socket reads Failing leaves the healthy
      rest, without that user. */
  lemma {:induction false} CloseFailingAsWritten(v: Variant, r: Registry, c: Conn, reason: CloseReason, now: int)
    requires Valid(r) && CurrentSocket(r, c) == Failing
    ensures CloseAndRemoveAsWritten(v, r, c.user.userId, reason, now).step.reg == Healthy(r)
    ensures !IsConnected(Healthy(r), c.user.userId)
    decreases |r|, 0, 0, 1
  {
    FailingEviction(r, c);
    CloseAsWrittenEvicts(v, r, c.user.userId, reason, now);
    var r1 := Remove(r, c.user.userId);
    assert forall y :: y in Healthy(r) ==> y in Healthy(r1);
    SubUsers(r1, Healthy(r), c.user.userId);
  }

  /** No entry of `p` fails, so none reads Failing. */
  lemma {:induction false} NoFailingEntriesReadNone(r: Registry, p: seq<Conn>)
    requires Valid(r)
    requires forall x :: x in p ==> x in r && x.socket != Failing
    ensures !AnyFailing(r, p)
  {
    if |p| > 0 {
      FindUnique(r, p[0]);
      assert forall x :: x in p[1..] ==> x in p;
      NoFailingEntriesReadNone(r, p[1..]);
    }
  }

  lemma {:induction false} LoopAsWrittenAgrees(v: Variant, r: Registry, env: OutEnvelope, now: int, pending: seq<Conn>)
    requires Valid(r) && !AnyFailing(r, pending)
    ensures var b := BroadcastLoop(v, r, env, now, pending);
      LoopAsWritten(v, r, env, now, pending) == Attempted(b.step, b.delivered, false)
    decreases |pending|
  {
    if |pending| > 0 {
      LoopAsWrittenAgrees(v, r, env, now, pending[1..]);
    }
  }

  /** When no send fails, the broadcast as written and the corrected one do
      the same. */
  lemma AsWrittenAgreesWithoutFailure(v: Variant, r: Registry, env: OutEnvelope, now: int)
    requires Valid(r)
    requires forall x :: x in r ==> x.socket != Failing
    ensures var b := Broadcast(v, r, env, now);
      BroadcastAsWritten(v, r, env, now) == Attempted(b.step, b.delivered, false)
  {
    NoFailingEntriesReadNone(r, r);
    LoopAsWrittenAgrees(v, r, env, now, r);
  }

  /** Sessions a (open), b (failing) and c (open), in that order. */
  function Trio(now: int): (r: Registry)
    ensures Valid(r)
  {
    [Conn(0, User("a", "a"), now, Open), Conn(1, User("b", "b"), now, Failing), Conn(2, User("c", "c"), now, Open)]
  }

  /** The trio: as written, the broadcast throws after tearing b down, and c
      never gets the envelope (only b's leave notice); the corrected
      broadcast reaches c. */
  lemma BroadcastAbortsAtFailure(v: Variant, env: OutEnvelope, now: int)
    requires !env.SystemMessage?
    ensures var asWritten := BroadcastAsWritten(v, Trio(now), env, now);
      var corrected := Broadcast(v, Trio(now), env, now);
      && asWritten.aborted
      && asWritten.delivered == [0]
      && Send(2, env) !in asWritten.step.effects
      && asWritten.step.reg == [Trio(now)[0], Trio(now)[2]]
      && corrected.delivered == [0, 2]
      && Send(2, env) in corrected.step.effects
  {
    TrioAsWritten(v, env, now);
    TrioCorrected(v, env, now);
  }

  lemma TrioCorrected(v: Variant, env: OutEnvelope, now: int)
    ensures var corrected := Broadcast(v, Trio(now), env, now);
      corrected.delivered == [0, 2] && Send(2, env) in corrected.step.effects
  {
    var r := Trio(now);
    BroadcastDelivers(v, r, env, now);
    assert OpenEntries(r) == [0] + OpenEntries(r[1..]);
    assert OpenEntries(r[1..]) == OpenEntries(r[2..]);
    assert r[2] in r;
  }

  /** Removing b leaves a and c. */
  lemma TrioWithoutB(now: int)
    ensures Remove(Trio(now), "b") == [Trio(now)[0], Trio(now)[2]]
    ensures Find(Trio(now), "b") == Some(Trio(now)[1])
    ensures CurrentSocket(Trio(now), Trio(now)[0]) == Open
    ensures CurrentSocket(Trio(now), Trio(now)[1]) == Failing
  {
    var r := Trio(now);
    FindUnique(r, r[0]);
    FindUnique(r, r[1]);
    assert Remove(r, "b") == [r[0], r[2]];
  }

  /** b's leave notice, over a and c, reaches both and sends nothing else. */
  lemma TrioLeaveNotice(v: Variant, now: int)
    ensures var rest := [Trio(now)[0], Trio(now)[2]];
      var notice := SystemMessage(now, LeaveText(v, "b", 2));
      var inner := BroadcastAsWritten(v, rest, notice, now);
      && !inner.aborted
      && inner.step.reg == rest
      && forall e :: e in inner.step.effects && e.Send? ==> e.envelope == notice
  {
    var rest := [Trio(now)[0], Trio(now)[2]];
    assert Valid(rest);
    var notice := SystemMessage(now, LeaveText(v, "b", 2));
    assert forall x :: x in rest ==> x.socket != Failing;
    AsWrittenAgreesWithoutFailure(v, rest, notice, now);
    BroadcastEvicts(v, rest, notice, now);
    NoFailingEntriesReadNone(rest, rest);
    LoopAsWrittenSendsOnly(v, rest, notice, now, rest);
  }

  lemma TrioAsWritten(v: Variant, env: OutEnvelope, now: int)
    requires !env.SystemMessage?
    ensures var asWritten := BroadcastAsWritten(v, Trio(now), env, now);
      && asWritten.aborted
      && asWritten.delivered == [0]
      && Send(2, env) !in asWritten.step.effects
      && asWritten.step.reg == [Trio(now)[0], Trio(now)[2]]
  {
    var r := Trio(now);
    TrioWithoutB(now);
    TrioLeaveNotice(v, now);
    var rest := [r[0], r[2]];
    var notice := SystemMessage(now, LeaveText(v, "b", 2));
    var inner := BroadcastAsWritten(v, rest, notice, now);
    var t := CloseAndRemoveAsWritten(v, r, "b", BroadcastFailure, now);
    assert t.step == Step(inner.step.reg, Teardown(v, r[1], BroadcastFailure, 2) + inner.step.effects);
    TeardownSendsNothing(v, r[1], BroadcastFailure, 2);
    assert LoopAsWritten(v, r, env, now, r[1..]) == Attempted(t.step, [], true);
    assert LoopAsWritten(v, r, env, now, r) == Attempted(Step(t.step.reg, [Send(0, env)] + t.step.effects), [0], true);
  }

  /** Teardown writes no envelope. */
  lemma TeardownSendsNothing(v: Variant, x: Conn, reason: CloseReason, remaining: nat)
    ensures forall e :: e in Teardown(v, x, reason, remaining) ==> !e.Send?
  {
  }

  /** Every envelope the loop sends is `env`. */
  lemma {:induction false} LoopAsWrittenSendsOnly(v: Variant, r: Registry, env: OutEnvelope, now: int, pending: seq<Conn>)
    requires Valid(r) && !AnyFailing(r, pending)
    ensures forall e :: e in BroadcastLoop(v, r, env, now, pending).step.effects && e.Send? ==> e.envelope == env
    decreases |pending|
  {
    if |pending| > 0 {
      LoopAsWrittenSendsOnly(v, r, env, now, pending[1..]);
    }
  }

  /** SendAsync as written: a failed write closes and removes the session,
      and the release of its disposed send lock then throws. */
  function SendToAsWritten(v: Variant, r: Registry, c: Conn, env: OutEnvelope, now: int): (res: Attempted)
    requires Valid(r)
    ensures Valid(res.step.reg)
    ensures res.aborted <==> CurrentSocket(r, c) == Failing
    ensures CurrentSocket(r, c) == Open ==> res == Attempted(Step(r, [Send(c.id, env)]), [c.id], false)
    ensures CurrentSocket(r, c) == Failing ==> res.step.reg == Healthy(r)
    ensures CurrentSocket(r, c) == Failing ==> !IsConnected(res.step.reg, c.user.userId)
  {
    var s := CurrentSocket(r, c);
    if s == Open then Attempted(Step(r, [Send(c.id, env)]), [c.id], false)
    else if s == Failing then
      CloseFailingAsWritten(v, r, c, SendFailure, now);
      Attempted(CloseAndRemoveAsWritten(v, r, c.user.userId, SendFailure, now).step, [], true)
    else Attempted(Step(r, []), [], false)
  }

  /** SendAsync: one envelope to one session, if its socket reads Open; a
      failed write closes and removes the session. */
  function SendTo(v: Variant, r: Registry, c: Conn, env: OutEnvelope, now: int): (res: Step)
    requires Valid(r)
    ensures Valid(res.reg)
    ensures Accounts(r, res)
    ensures CurrentSocket(r, c) == Open ==> res == Step(r, [Send(c.id, env)])
    ensures !ReportsOpen(CurrentSocket(r, c)) ==> res == Step(r, [])
    ensures CurrentSocket(r, c) == Failing ==> !IsConnected(res.reg, c.user.userId)
  {
    var s := CurrentSocket(r, c);
    if s == Open then Step(r, [Send(c.id, env)])
    else if s == Failing then
      CloseAccounts(v, r, c.user.userId, SendFailure, now);
      CloseDisconnects(v, r, c.user.userId, SendFailure, now);
      CloseAndRemove(v, r, c.user.userId, SendFailure, now)
    else Step(r, [])
  }

  // ---------------------------------------------------------------------
  // Handling one client message

  /** The type a message is dispatched on, trimmed. `None` when reading it
      throws: the current hub trims the type without a null check, the
      legacy hub reads a null type as the empty string. */
  function DispatchType(v: Variant, kind: Option<string>): (t: Option<string>)
    ensures kind.Some? ==> t == Some(Trim(kind.value))
    ensures kind.None? ==> (t.None? <==> v.Current?)
    ensures kind.None? && t.Some? ==> t.value == ""
  {
    match kind
    case Some(k) => Some(Trim(k))
    case None => if v.Current? then None else Some("")
  }

  /** HandleMessageSendAsync. */
  function HandleMessageSend(v: Variant, r: Registry, c: Conn, payload: Option<MessageSendPayload>, now: int)
    : (res: Step)
    requires Valid(r)
    ensures Valid(res.reg)
    ensures Accounts(r, res)
  {
    if payload.None? || IsNullOrWhiteSpace(payload.value.message) then Step(r, [])
    else
      var env := MessageReceived(now, c.user.nickname, Trim(payload.value.message.value));
      BroadcastAccounts(v, r, env, now);
      Broadcast(v, r, env, now).step
  }

  datatype Handled = Handled(step: Step, crashed: bool)

  /** HandleClientMessageAsync; `crashed` when it throws. */
  function HandleClientMessage(v: Variant, r: Registry, c: Conn, msg: ClientMessage, now: int): (res: Handled)
    requires Valid(r)
    ensures Valid(res.step.reg)
    ensures Accounts(r, res.step)
    ensures res.crashed <==>
      || (v.Current? && msg.kind.None?)
      || (msg.kind.Some? && Trim(msg.kind.value) == MessageSend && msg.payload.Absent?)
    ensures res.crashed ==> res.step == Step(r, [])
  {
    match DispatchType(v, msg.kind)
    case None => Handled(Step(r, []), true)
    case Some(t) =>
      if t == MessageSend then
        match msg.payload
        case Absent => Handled(Step(r, []), true)
        case Undecodable => Handled(HandleMessageSend(v, r, c, None, now), false)
        case Decoded(p) => Handled(HandleMessageSend(v, r, c, Some(p), now), false)
      else if t == ServerStatusRequest then Handled(SendTo(v, r, c, StatusResponse(|r|), now), false)
      else Handled(Step(r, []), false)
  }

  /** MESSAGE_SEND: a missing, empty or white-space message produces nothing;
      any other is trimmed and broadcast under the sender's nickname to every
      Open entry, and only failing entries are evicted. */
  lemma ChatMessageIsRelayed(v: Variant, r: Registry, c: Conn, k: string, text: Option<string>, now: int)
    requires Valid(r)
    requires Trim(k) == MessageSend
    ensures var h := HandleClientMessage(v, r, c, ClientMessage(Some(k), Decoded(MessageSendPayload(text))), now);
      && !h.crashed
      && (IsNullOrWhiteSpace(text) ==> h.step == Step(r, []))
      && (!IsNullOrWhiteSpace(text) ==>
            var out := MessageReceived(now, c.user.nickname, Trim(text.value));
            && |out.message| > 0
            && !IsDotnetWhiteSpace(out.message[0]) && !IsDotnetWhiteSpace(out.message[|out.message| - 1])
            && h.step.reg == Healthy(r)
            && forall x :: x in r && x.socket == Open ==> Send(x.id, out) in h.step.effects)
  {
    var msg := ClientMessage(Some(k), Decoded(MessageSendPayload(text)));
    var h := HandleClientMessage(v, r, c, msg, now);
    assert h == Handled(HandleMessageSend(v, r, c, Some(MessageSendPayload(text)), now), false);
    if !IsNullOrWhiteSpace(text) {
      MessageSendBroadcasts(v, r, c, text.value, now);
    }
  }

  /** A message that is not white space is broadcast trimmed, and the
      broadcast reaches every Open entry and evicts the failing ones. */
  lemma MessageSendBroadcasts(v: Variant, r: Registry, c: Conn, text: string, now: int)
    requires Valid(r) && !IsNullOrWhiteSpace(Some(text))
    ensures var out := MessageReceived(now, c.user.nickname, Trim(text));
      var res := HandleMessageSend(v, r, c, Some(MessageSendPayload(Some(text))), now);
      && |out.message| > 0
      && !IsDotnetWhiteSpace(out.message[0]) && !IsDotnetWhiteSpace(out.message[|out.message| - 1])
      && res.reg == Healthy(r)
      && forall x :: x in r && x.socket == Open ==> Send(x.id, out) in res.effects
  {
    var out := MessageReceived(now, c.user.nickname, Trim(text));
    assert HandleMessageSend(v, r, c, Some(MessageSendPayload(Some(text))), now) == Broadcast(v, r, out, now).step;
    BroadcastEvicts(v, r, out, now);
    BroadcastDelivers(v, r, out, now);
  }

  /** A MESSAGE_SEND whose payload is null or does not decode produces
      nothing. */
  lemma UndecodablePayloadIsIgnored(v: Variant, r: Registry, c: Conn, k: string, now: int)
    requires Valid(r)
    requires Trim(k) == MessageSend
    ensures HandleClientMessage(v, r, c, ClientMessage(Some(k), Undecodable), now) == Handled(Step(r, []), false)
  {
  }

  /** A MESSAGE_SEND without a payload throws, in both hubs. */
  lemma AbsentPayloadCrashes(v: Variant, r: Registry, c: Conn, k: string, now: int)
    requires Valid(r)
    requires Trim(k) == MessageSend
    ensures HandleClientMessage(v, r, c, ClientMessage(Some(k), Absent), now) == Handled(Step(r, []), true)
  {
  }

  /** SERVERSTATUS_REQUEST: exactly one reply, to the requester only, carrying
      the number of connected users. */
  lemma StatusRequestAnswersRequester(v: Variant, r: Registry, c: Conn, k: string, p: Payload, now: int)
    requires Valid(r) && c in r && c.socket == Open
    requires Trim(k) == ServerStatusRequest
    ensures HandleClientMessage(v, r, c, ClientMessage(Some(k), p), now)
         == Handled(Step(r, [Send(c.id, StatusResponse(|r|))]), false)
  {
    FindUnique(r, c);
  }

  /** Any other type produces nothing; so does a null type in the legacy hub,
      while the current hub throws on it. */
  lemma OtherTypesAreIgnored(v: Variant, r: Registry, c: Conn, msg: ClientMessage, now: int)
    requires Valid(r)
    requires msg.kind.Some? ==> Trim(msg.kind.value) != MessageSend && Trim(msg.kind.value) != ServerStatusRequest
    ensures var h := HandleClientMessage(v, r, c, msg, now);
      h.step == Step(r, []) && (h.crashed <==> msg.kind.None? && v.Current?)
  {
  }

  // ---------------------------------------------------------------------
  // The receive loop

  /** One received item, already reassembled from its frames; `Aborted` is a
      read that throws (the peer vanished or the request was cancelled). */
  datatype Frame = TextFrame(decoded: Option<ClientMessage>) | BinaryFrame | CloseFrame | Aborted

  datatype Incoming = Incoming(at: int, frame: Frame)

  datatype Received = Received(step: Step, goOn: bool)

  /** One iteration of ReceiveLoopAsync for session `c`. */
  function ReceiveStep(v: Variant, r: Registry, c: Conn, item: Incoming): (res: Received)
    requires Valid(r)
    ensures Valid(res.step.reg)
    ensures Accounts(r, res.step)
    ensures item.frame.BinaryFrame? ==> res == Received(Step(r, []), true)
    ensures item.frame.CloseFrame? || item.frame.Aborted? ==> !res.goOn && res.step.effects == []
    ensures item.frame.TextFrame? && item.frame.decoded.None? ==>
      && res.goOn
      && res.step.effects == (if v.Current? then [Record(MessageArrived)] else [])
      && (CurrentSocket(r, c) != Closed ==>
            exists x :: x in res.step.reg && Tag(x) == Tag(c) && x.lastSeen == item.at)
  {
    match item.frame
    case CloseFrame =>
      var r1 := SetSocket(r, c, CloseReceived);
      SameTagsAccount(r, r1);
      Received(Step(r1, []), false)
    case Aborted =>
      var r1 := SetSocket(r, c, Closed);
      SameTagsAccount(r, r1);
      Received(Step(r1, []), false)
    case BinaryFrame =>
      SameTagsAccount(r, r);
      Received(Step(r, []), true)
    case TextFrame(decoded) =>
      var r1 := Touch(r, c, item.at);
      var counted := if v.Current? then [Record(MessageArrived)] else [];
      NoEndedSessions(counted);
      SameTagsAccount(r, r1);
      AccountsAfter(r, counted, Step(r1, []));
      assert counted + [] == counted;
      match decoded
      case None => Received(Step(r1, counted), true)
      case Some(msg) =>
        var h := HandleClientMessage(v, r1, c, msg, item.at);
        AccountsChain(r, Step(r1, counted), h.step);
        Received(Step(h.step.reg, counted + h.step.effects), !h.crashed)
  }

  /** A step that ends no session and keeps every entry's tag accounts for
      its registry. */
  lemma SameTagsAccount(r: Registry, r1: Registry)
    requires Tags(r1) == Tags(r)
    ensures Accounts(r, Step(r1, []))
  {
    assert EndedSessions([]) == [];
  }

  /** ReceiveLoopAsync followed by the teardown in HandleClientAsync's
      finally block. The loop runs while the session's socket reads Open; the
      items are everything the socket will deliver, and running out of them
      is a read that throws. `now` is the time of the last item. */
  function SessionLoop(v: Variant, r: Registry, c: Conn, items: seq<Incoming>, now: int): (res: Step)
    requires Valid(r)
    ensures Valid(res.reg)
    ensures Accounts(r, res)
    ensures !IsConnected(res.reg, c.user.userId)
    decreases |items|
  {
    if |items| == 0 || !ReportsOpen(CurrentSocket(r, c)) then
      CloseAccounts(v, r, c.user.userId, Disconnected, now);
      CloseDisconnects(v, r, c.user.userId, Disconnected, now);
      CloseAndRemove(v, r, c.user.userId, Disconnected, now)
    else
      var s := ReceiveStep(v, r, c, items[0]);
      if s.goOn then
        var rest := SessionLoop(v, s.step.reg, c, items[1..], items[0].at);
        AccountsChain(r, s.step, rest);
        Step(rest.reg, s.step.effects + rest.effects)
      else
        var t := CloseAndRemove(v, s.step.reg, c.user.userId, Disconnected, items[0].at);
        CloseAccounts(v, s.step.reg, c.user.userId, Disconnected, items[0].at);
        CloseDisconnects(v, s.step.reg, c.user.userId, Disconnected, items[0].at);
        AccountsChain(r, s.step, t);
        Step(t.reg, s.step.effects + t.effects)
  }

  /** A MESSAGE_SEND without a payload ends the session: the receive loop
      stops on the exception, the frame is counted, and the teardown runs;
      nothing after that frame is read. */
  lemma AbsentPayloadEndsSession(v: Variant, r: Registry, c: Conn, k: string, items: seq<Incoming>, now: int)
    requires Valid(r) && ReportsOpen(CurrentSocket(r, c))
    requires |items| > 0 && items[0].frame == TextFrame(Some(ClientMessage(Some(k), Absent)))
    requires Trim(k) == MessageSend
    ensures var at := items[0].at;
      var t := CloseAndRemove(v, Touch(r, c, at), c.user.userId, Disconnected, at);
      SessionLoop(v, r, c, items, now)
      == Step(t.reg, (if v.Current? then [Record(MessageArrived)] else []) + t.effects)
  {
    var at := items[0].at;
    var r1 := Touch(r, c, at);
    var counted := if v.Current? then [Record(MessageArrived)] else [];
    AbsentPayloadCrashes(v, r1, c, k, at);
    assert counted + [] == counted;
    assert ReceiveStep(v, r, c, items[0]) == Received(Step(r1, counted), false);
  }

  // ---------------------------------------------------------------------
  // Admission

  datatype Admission = Rejected | Joined | Interrupted

  datatype Admitted = Admitted(step: Step, outcome: Admission)

  /** The calls of the current hub between registration and the join notice. */
  function JoinPrelude(v: Variant, ticketId: string, u: string, size: nat): seq<Effect> {
    if v.Current? then [Record(Connection), ConsumeTicket(ticketId, u), PublishStatus(size)] else []
  }

  /** What runs of the prelude when the request is already cancelled: the
      first call that looks at the token throws. The ticket store looks at it
      only when both ids are non-blank; the status publisher always does; the
      legacy hub's first such call is the join broadcast. */
  function CancelledPrelude(v: Variant, ticketId: string, u: string, size: nat): (e: seq<Effect>)
    ensures e <= JoinPrelude(v, ticketId, u, size)
    ensures forall i :: 0 <= i < |e| ==> !e[i].Ended?
  {
    var full := JoinPrelude(v, ticketId, u, size);
    if v.Legacy? then []
    else if IsWhiteSpaceOnly(ticketId) || IsWhiteSpaceOnly(u) then full
    else full[..2]
  }

  lemma NoEndedSessions(e: seq<Effect>)
    requires forall i :: 0 <= i < |e| ==> !e[i].Ended?
    ensures EndedSessions(e) == []
  {
    if |e| > 0 {
      NoEndedSessions(e[1..]);
    }
  }

  /** The entry of a session whose request was aborted: its socket is gone. */
  function Aborted(c: Conn): Conn {
    Conn(c.id, c.user, c.lastSeen, Closed)
  }

  /** The registry after `c` registered and its request was then aborted:
      the entry stays, with its socket gone. */
  function Zombie(r: Registry, c: Conn): (z: Registry)
    requires Valid(r) && !IsConnected(r, c.user.userId)
    ensures Valid(z)
    ensures Tags(z) == Tags(r + [c])
    ensures IsConnected(z, c.user.userId)
  {
    var added := TryAdd(r, c);
    var z := r + [Aborted(c)];
    assert UserIds(z) == UserIds(added.0);
    assert Tags(z) == Tags(added.0);
    assert UserIds(z)[|r|] == c.user.userId;
    z
  }

  /** HandleClientAsync up to the receive loop, as written. A duplicate user
      is refused and the new socket closed. Otherwise the session is
      registered and, if the request is cancelled before the receive loop
      starts, the exception escapes before the try/finally that would remove
      the entry again. */
  function AdmitAsWritten(v: Variant, r: Registry, c: Conn, ticketId: string, cancelled: bool, now: int)
    : (res: Admitted)
    requires Valid(r)
    ensures Valid(res.step.reg)
    ensures IsConnected(r, c.user.userId) ==>
      res == Admitted(Step(r, [CloseSocket(c.id, RegisterFailed)]), Rejected)
    ensures !IsConnected(r, c.user.userId) ==> res.outcome == if cancelled then Interrupted else Joined
  {
    var u := c.user.userId;
    var (r1, added) := TryAdd(r, c);
    if !added then Admitted(Step(r, [CloseSocket(c.id, RegisterFailed)]), Rejected)
    else if cancelled then
      Admitted(Step(Zombie(r, c), CancelledPrelude(v, ticketId, u, |r1|)), Interrupted)
    else
      var b := Broadcast(v, r1, SystemMessage(now, JoinNotice(c.user.nickname)), now);
      Admitted(Step(b.step.reg, JoinPrelude(v, ticketId, u, |r1|) + b.step.effects), Joined)
  }

  /** HandleClientAsync up to the receive loop, with the try/finally widened
      to everything after registration, so that an interrupted admission is
      torn down like any other session. */
  function Admit(v: Variant, r: Registry, c: Conn, ticketId: string, cancelled: bool, now: int)
    : (res: Admitted)
    requires Valid(r)
    ensures Valid(res.step.reg)
    ensures IsConnected(r, c.user.userId) ==>
      res == Admitted(Step(r, [CloseSocket(c.id, RegisterFailed)]), Rejected)
    ensures !IsConnected(r, c.user.userId) ==> res.outcome == if cancelled then Interrupted else Joined
  {
    var u := c.user.userId;
    var (r1, added) := TryAdd(r, c);
    if !added then Admitted(Step(r, [CloseSocket(c.id, RegisterFailed)]), Rejected)
    else if cancelled then
      var t := CloseAndRemove(v, Zombie(r, c), u, Disconnected, now);
      Admitted(Step(t.reg, CancelledPrelude(v, ticketId, u, |r1|) + t.effects), Interrupted)
    else
      var b := Broadcast(v, r1, SystemMessage(now, JoinNotice(c.user.nickname)), now);
      Admitted(Step(b.step.reg, JoinPrelude(v, ticketId, u, |r1|) + b.step.effects), Joined)
  }

  /** An admitted session is accounted for from the registry it joined; a
      refused one from the registry as it was. */
  lemma AdmitAccounts(v: Variant, r: Registry, c: Conn, ticketId: string, cancelled: bool, now: int)
    requires Valid(r)
    ensures var a := Admit(v, r, c, ticketId, cancelled, now);
      Accounts(if a.outcome.Rejected? then r else r + [c], a.step)
  {
    if !IsConnected(r, c.user.userId) {
      if cancelled {
        InterruptedAccounts(v, r, c, ticketId, now);
      } else {
        JoinedAccounts(v, r, c, ticketId, now);
      }
    }
  }

  lemma InterruptedAccounts(v: Variant, r: Registry, c: Conn, ticketId: string, now: int)
    requires Valid(r) && !IsConnected(r, c.user.userId)
    ensures Accounts(r + [c], Admit(v, r, c, ticketId, true, now).step)
  {
    var u := c.user.userId;
    var z := Zombie(r, c);
    var t := CloseAndRemove(v, z, u, Disconnected, now);
    var e := CancelledPrelude(v, ticketId, u, |r| + 1);
    assert Admit(v, r, c, ticketId, true, now).step == Step(t.reg, e + t.effects);
    CloseAccounts(v, z, u, Disconnected, now);
    NoEndedSessions(e);
    AccountsAfter(z, e, t);
  }

  lemma JoinedAccounts(v: Variant, r: Registry, c: Conn, ticketId: string, now: int)
    requires Valid(r) && !IsConnected(r, c.user.userId)
    ensures Accounts(r + [c], Admit(v, r, c, ticketId, false, now).step)
  {
    var u := c.user.userId;
    var r1 := TryAdd(r, c).0;
    assert r1 == r + [c];
    var notice := SystemMessage(now, JoinNotice(c.user.nickname));
    var b := Broadcast(v, r1, notice, now);
    var pre := JoinPrelude(v, ticketId, u, |r1|);
    assert Admit(v, r, c, ticketId, false, now).step == Step(b.step.reg, pre + b.step.effects);
    BroadcastAccounts(v, r1, notice, now);
    NoEndedSessions(pre);
    AccountsAfter(r1, pre, b.step);
  }

  /** An interrupted admission leaves its user unregistered. */
  lemma AdmitInterrupted(v: Variant, r: Registry, c: Conn, ticketId: string, now: int)
    requires Valid(r) && !IsConnected(r, c.user.userId)
    ensures !IsConnected(Admit(v, r, c, ticketId, true, now).step.reg, c.user.userId)
  {
    CloseDisconnects(v, Zombie(r, c), c.user.userId, Disconnected, now);
  }

  /** A joined session: the current hub's prelude comes first (count, consume
      the ticket, publish the new size), then the join notice reaches every
      Open entry, the newcomer included, and only failing entries are lost. */
  lemma AdmitJoins(v: Variant, r: Registry, c: Conn, ticketId: string, now: int)
    requires Valid(r) && !IsConnected(r, c.user.userId)
    ensures var a := Admit(v, r, c, ticketId, false, now);
      var pre := JoinPrelude(v, ticketId, c.user.userId, |r| + 1);
      && |a.step.effects| >= |pre|
      && a.step.effects[..|pre|] == pre
      && a.step.reg == Healthy(r + [c])
      && (forall x :: x in r + [c] && x.socket == Open ==>
            Send(x.id, SystemMessage(now, JoinNotice(c.user.nickname))) in a.step.effects)
  {
    var r1 := r + [c];
    var notice := SystemMessage(now, JoinNotice(c.user.nickname));
    var pre := JoinPrelude(v, ticketId, c.user.userId, |r1|);
    var b := Broadcast(v, r1, notice, now);
    assert TryAdd(r, c).0 == r1;
    assert Admit(v, r, c, ticketId, false, now).step == Step(b.step.reg, pre + b.step.effects);
    BroadcastEvicts(v, r1, notice, now);
    BroadcastDelivers(v, r1, notice, now);
    assert (pre + b.step.effects)[..|pre|] == pre;
    assert forall e :: e in b.step.effects ==> e in pre + b.step.effects;
  }

  /** HandleClientAsync: admission, then the receive loop and its teardown. */
  function RunSession(v: Variant, r: Registry, c: Conn, ticketId: string, cancelled: bool,
                      items: seq<Incoming>, now: int): (res: Step)
    requires Valid(r)
    ensures Valid(res.reg)
    ensures !IsConnected(res.reg, c.user.userId) || IsConnected(r, c.user.userId)
  {
    var a := Admit(v, r, c, ticketId, cancelled, now);
    if a.outcome.Joined? then
      var s := SessionLoop(v, a.step.reg, c, items, now);
      Step(s.reg, a.step.effects + s.effects)
    else
      assert !IsConnected(a.step.reg, c.user.userId) || IsConnected(r, c.user.userId) by {
        if !IsConnected(r, c.user.userId) {
          AdmitInterrupted(v, r, c, ticketId, now);
        }
      }
      a.step
  }

  /** A step that accounts for a registry holding session `c` once, and
      holding no other session of `c`'s user, ends `c` exactly once if its
      result no longer holds `c`'s user. */
  lemma EndsOnce(r: Registry, c: Conn, s: Step)
    requires !IsConnected(r, c.user.userId) && !IsConnected(s.reg, c.user.userId)
    requires Accounts(r + [c], s)
    ensures multiset(EndedSessions(s.effects))[Tag(c)] == 1
  {
    AbsentUserHasNoTag(r, c.user.userId, c.id);
    AbsentUserHasNoTag(s.reg, c.user.userId, c.id);
    var m := multiset(EndedSessions(s.effects));
    assert Tags(r + [c]) == Tags(r) + [Tag(c)];
    assert multiset(Tags(r + [c])) == multiset(Tags(r)) + multiset{Tag(c)};
    assert multiset(Tags(r))[Tag(c)] == 0;
    assert multiset(Tags(s.reg))[Tag(c)] == 0;
    assert (m + multiset(Tags(s.reg)))[Tag(c)] == m[Tag(c)];
  }

  /** Every admitted session ends exactly once, however it ends, and its user
      is no longer connected afterwards: one teardown, one leave notice. */
  lemma SessionEndsExactlyOnce(v: Variant, r: Registry, c: Conn, ticketId: string, cancelled: bool,
                               items: seq<Incoming>, now: int)
    requires Valid(r)
    requires !IsConnected(r, c.user.userId)
    ensures var res := RunSession(v, r, c, ticketId, cancelled, items, now);
      && multiset(EndedSessions(res.effects))[Tag(c)] == 1
      && !IsConnected(res.reg, c.user.userId)
  {
    var a := Admit(v, r, c, ticketId, cancelled, now);
    AdmitAccounts(v, r, c, ticketId, cancelled, now);
    var res := RunSession(v, r, c, ticketId, cancelled, items, now);
    if a.outcome.Joined? {
      var s := SessionLoop(v, a.step.reg, c, items, now);
      AccountsChain(r + [c], a.step, s);
    }
    EndsOnce(r, c, res);
  }

  /** A session that is refused ends no session at all: the registered one
      keeps running. */
  lemma DuplicateIsRefused(v: Variant, r: Registry, c: Conn, ticketId: string, cancelled: bool,
                           items: seq<Incoming>, now: int)
    requires Valid(r)
    requires IsConnected(r, c.user.userId)
    ensures RunSession(v, r, c, ticketId, cancelled, items, now) == Step(r, [CloseSocket(c.id, RegisterFailed)])
  {
  }

  /** As written, a cancelled admission leaves its user registered with no
      session end: the user stays "connected" until the idle sweep. */
  lemma CancelledAdmissionLeavesZombie(v: Variant, r: Registry, c: Conn, ticketId: string, now: int)
    requires Valid(r)
    requires !IsConnected(r, c.user.userId)
    ensures var a := AdmitAsWritten(v, r, c, ticketId, true, now);
      && IsConnected(a.step.reg, c.user.userId)
      && multiset(EndedSessions(a.step.effects))[Tag(c)] == 0
  {
    var e := CancelledPrelude(v, ticketId, c.user.userId, |r| + 1);
    NoEndedSessions(e);
  }

  // ---------------------------------------------------------------------
  // The idle sweep

  predicate IsIdle(x: Conn, now: int) {
    now - x.lastSeen >= IdleTimeoutMillis
  }

  /** CheckIdleClientsAsync over the entries still `pending`: an entry that is
      still registered and idle is closed and removed. */
  function SweepLoop(v: Variant, r: Registry, now: int, pending: seq<Conn>): (res: Step)
    requires Valid(r)
    ensures Valid(res.reg) && |res.reg| <= |r|
    decreases |pending|
  {
    if |pending| == 0 then Step(r, [])
    else
      var c := pending[0];
      if c in r && IsIdle(c, now) then
        var t := CloseAndRemove(v, r, c.user.userId, IdleTimeout, now);
        var rest := SweepLoop(v, t.reg, now, pending[1..]);
        Step(rest.reg, IdleCounted(v) + (t.effects + rest.effects))
      else
        SweepLoop(v, r, now, pending[1..])
  }

  /** The metric the current hub records for an idle disconnect. */
  function IdleCounted(v: Variant): (e: seq<Effect>)
    ensures EndedSessions(e) == []
  {
    if v.Current? then [Record(IdleDisconnect)] else []
  }

  /** Close-and-remove of a registered entry `c`: what is left is the
      registry without `c` and without the failing entries. */
  lemma CloseEntry(v: Variant, r: Registry, c: Conn, reason: CloseReason, now: int)
    requires Valid(r) && c in r
    ensures var t := CloseAndRemove(v, r, c.user.userId, reason, now).reg;
      forall x :: x in t <==> x in r && x != c && x.socket != Failing
  {
    FindUnique(r, c);
    CloseEvicts(v, r, c.user.userId, reason, now);
    forall x | x in r && x.user.userId == c.user.userId ensures x == c {
      FindUnique(r, x);
    }
  }

  lemma {:induction false} SweepAccounts(v: Variant, r: Registry, now: int, pending: seq<Conn>)
    requires Valid(r)
    ensures Accounts(r, SweepLoop(v, r, now, pending))
    decreases |pending|
  {
    if |pending| > 0 {
      var c := pending[0];
      if c in r && IsIdle(c, now) {
        var t := CloseAndRemove(v, r, c.user.userId, IdleTimeout, now);
        var rest := SweepLoop(v, t.reg, now, pending[1..]);
        CloseAccounts(v, r, c.user.userId, IdleTimeout, now);
        SweepAccounts(v, t.reg, now, pending[1..]);
        AccountsChain(r, t, rest);
        AccountsAfter(r, IdleCounted(v), Step(rest.reg, t.effects + rest.effects));
      } else {
        SweepAccounts(v, r, now, pending[1..]);
      }
    }
  }

  /** The sweep only ever drops entries. */
  lemma {:induction false} SweepDrops(v: Variant, r: Registry, now: int, pending: seq<Conn>)
    requires Valid(r)
    ensures forall x :: x in SweepLoop(v, r, now, pending).reg ==> x in r
    decreases |pending|
  {
    if |pending| > 0 {
      var c := pending[0];
      if c in r && IsIdle(c, now) {
        CloseEntry(v, r, c, IdleTimeout, now);
        SweepDrops(v, CloseAndRemove(v, r, c.user.userId, IdleTimeout, now).reg, now, pending[1..]);
      } else {
        SweepDrops(v, r, now, pending[1..]);
      }
    }
  }

  /** Every idle entry of `pending` loses its user's registration. */
  lemma {:induction false} SweepRemovesIdle(v: Variant, r: Registry, now: int, pending: seq<Conn>)
    requires Valid(r)
    ensures forall x :: x in r && x in pending && IsIdle(x, now) ==>
      !IsConnected(SweepLoop(v, r, now, pending).reg, x.user.userId)
    decreases |pending|
  {
    if |pending| > 0 {
      var c := pending[0];
      assert forall x :: x in pending ==> x == c || x in pending[1..];
      if c in r && IsIdle(c, now) {
        var t := CloseAndRemove(v, r, c.user.userId, IdleTimeout, now);
        var rest := SweepLoop(v, t.reg, now, pending[1..]);
        CloseEntry(v, r, c, IdleTimeout, now);
        SweepRemovesIdle(v, t.reg, now, pending[1..]);
        SweepDrops(v, t.reg, now, pending[1..]);
        forall x | x in r && x in pending && IsIdle(x, now) ensures !IsConnected(rest.reg, x.user.userId) {
          if x !in t.reg {
            GoneUser(r, t.reg, x);
            SubUsers(t.reg, rest.reg, x.user.userId);
          }
        }
      } else {
        SweepRemovesIdle(v, r, now, pending[1..]);
      }
    }
  }

  /** Entries that are not idle and whose socket does not fail are kept. */
  lemma {:induction false} SweepKeepsActive(v: Variant, r: Registry, now: int, pending: seq<Conn>)
    requires Valid(r)
    ensures forall x :: x in r && !IsIdle(x, now) && x.socket != Failing ==> x in SweepLoop(v, r, now, pending).reg
    decreases |pending|
  {
    if |pending| > 0 {
      var c := pending[0];
      if c in r && IsIdle(c, now) {
        CloseEntry(v, r, c, IdleTimeout, now);
        SweepKeepsActive(v, CloseAndRemove(v, r, c.user.userId, IdleTimeout, now).reg, now, pending[1..]);
      } else {
        SweepKeepsActive(v, r, now, pending[1..]);
      }
    }
  }

  /** With no idle entry pending, the sweep does nothing at all. */
  lemma {:induction false} SweepQuiet(v: Variant, r: Registry, now: int, pending: seq<Conn>)
    requires Valid(r)
    requires forall x :: x in r && x in pending ==> !IsIdle(x, now)
    ensures SweepLoop(v, r, now, pending) == Step(r, [])
    decreases |pending|
  {
    if |pending| > 0 {
      assert forall x :: x in pending[1..] ==> x in pending;
      SweepQuiet(v, r, now, pending[1..]);
    }
  }

  /** The idle sweep at time `now`: CheckIdleClientsAsync over a snapshot of
      the registry. */
  function Sweep(v: Variant, r: Registry, now: int): (res: Step)
    requires Valid(r)
    ensures Valid(res.reg)
  {
    SweepLoop(v, r, now, r)
  }

  /** Exactly the entries silent for at least two minutes are removed, along
      with any entry whose socket fails while the leave notices go out; every
      other entry stays as it was, every removed session is ended once, and a
      sweep that finds no idle entry does nothing. */
  lemma SweepRemovesExactlyTheIdle(v: Variant, r: Registry, now: int)
    requires Valid(r)
    ensures var res := Sweep(v, r, now);
      && Accounts(r, res)
      && (forall x :: x in r && IsIdle(x, now) ==> !IsConnected(res.reg, x.user.userId))
      && (forall x :: x in r && !IsIdle(x, now) && x.socket != Failing ==> x in res.reg)
      && (forall x :: x in res.reg ==> x in r && !IsIdle(x, now))
      && ((forall x :: x in r ==> !IsIdle(x, now)) ==> res == Step(r, []))
  {
    var res := Sweep(v, r, now);
    SweepAccounts(v, r, now, r);
    SweepDrops(v, r, now, r);
    SweepRemovesIdle(v, r, now, r);
    SweepKeepsActive(v, r, now, r);
    if forall x :: x in r ==> !IsIdle(x, now) {
      SweepQuiet(v, r, now, r);
    }
    forall x | x in res.reg ensures !IsIdle(x, now) {
      var j :| 0 <= j < |res.reg| && res.reg[j] == x;
      assert UserIds(res.reg)[j] == x.user.userId;
    }
  }
}
