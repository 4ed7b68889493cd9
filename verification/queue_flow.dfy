/** How the components meet in the shared store: the status the chat server
    publishes bounds what the queue manager admits, a user the manager
    promotes sees the ticket on the next status poll and can present it to
    the chat server, and a user the manager drops is no longer known to the
    queue API. */
module QueueFlow {
  import opened Wrappers
  import opened Text
  import opened KvStore
  import opened JavaTime
  import opened QueueKeys
  import Protocol
  import ServerStatusModel
  import ManagerProperties
  import ManagerRepository
  import Scheduler
  import ApiProperties
  import QueueApi
  import StatusPublisher
  import TicketRepository
  import Auth

  // ---------------------------------------------------------------------
  // Chat server status -> queue manager

  /** Once a publish succeeds, the manager reads back the user count and the
      caps the chat server published, and works with its effective soft
      cap. */
  lemma PublishedCapsReachTheManager(p: StatusPublisher.Publisher, o: StatusPublisher.ChatServerOptions,
                                     st: Store, users: int, fallback: int)
    requires StatusPublisher.Consistent(p, st)
    requires InLongRange(users) && InLongRange(o.softCap) && InLongRange(o.maxCap)
    ensures var pub := StatusPublisher.Publish(p, o, st, users, false, true);
      var caps := StatusPublisher.EffectiveCaps(o);
      var status := ManagerRepository.FetchServerStatus(pub.store);
      && status == ServerStatusModel.ServerStatus(users, Some(caps.softCap), Some(caps.maxCap))
      && ServerStatusModel.ResolveSoftCap(status, fallback) == caps.softCap
  {
    StatusPublisher.PublishKeepsConsistent(p, o, st, users, false, true);
    var pub := StatusPublisher.Publish(p, o, st, users, false, true);
    var caps := StatusPublisher.EffectiveCaps(o);
    ManagerRepository.StatusReadsBack(pub.store, users, Some(caps.softCap), Some(caps.maxCap));
  }

  /** After the chat server has published, a scheduling cycle never admits
      more users than its soft cap leaves room for, counting the users
      connected and the tickets still live. */
  lemma CycleRespectsPublishedSoftCap(pp: StatusPublisher.Publisher, o: StatusPublisher.ChatServerOptions,
                                      st: Store, users: int, mp: ManagerProperties.Properties,
                                      jk: JoiningKeys, now: int, env: Scheduler.Environment)
    requires ValidStore(st) && StatusPublisher.Consistent(pp, st)
    requires InLongRange(users) && InLongRange(o.softCap) && InLongRange(o.maxCap)
    ensures var pub := StatusPublisher.Publish(pp, o, st, users, false, true);
      var batch := Scheduler.ScheduleNextBatch(pub.store, mp, jk, now, env);
      var issued := Scheduler.Issued(batch.dispositions);
      var joining := ManagerRepository.CountJoiningTickets(pub.store, jk, now);
      issued > 0 ==> users + joining + issued <= StatusPublisher.EffectiveCaps(o).softCap
  {
    var pub := StatusPublisher.Publish(pp, o, st, users, false, true);
    PublishedCapsReachTheManager(pp, o, st, users, mp.defaultSoftCap);
    Scheduler.IssuesWithinCapacity(pub.store, mp, jk, now, env);
  }

  // ---------------------------------------------------------------------
  // Queue manager -> queue API

  /** A candidate the scheduler promotes finds the ticket drawn for it on
      its next status poll. */
  lemma PromotedCandidateSeesTicket(st: Store, mp: ManagerProperties.Properties, jk: JoiningKeys, now: int,
                                    env: Scheduler.Environment, i: nat, userId: string,
                                    api: ApiProperties.Properties, pollText: string)
    requires ValidStore(st) && IsPositive(Some(mp.ticketTtl))
    requires ManagerRepository.Apart(ManagerRepository.KeysFor(jk, userId, env.ticketFor(i)))
    requires !IsBlank(env.ticketFor(i))
    ensures var r := Scheduler.ConsiderCandidate(st, mp, jk, now, env, i, userId);
      r.1 == Scheduler.Attempted(true) ==>
        QueueApi.GetStatus(r.0, api, userId, pollText).outcome
        == Ok(QueueApi.StatusResponse(QueueApi.Promoted, 0, Some(env.ticketFor(i))))
  {
    var r := Scheduler.ConsiderCandidate(st, mp, jk, now, env, i, userId);
    Scheduler.DroppedCandidateLeaves(st, mp, jk, now, env, i, userId);
    if r.1 == Scheduler.Attempted(true) {
      Scheduler.ActiveCandidateIsPromoted(st, mp, jk, now, env, i, userId);
      assert "ticketId" in HGetAll(r.0, MetaKey(userId));
      QueueApi.StatusOutcomes(r.0, api, userId, pollText);
    }
  }

  /** A candidate the scheduler drops is unknown to the queue API. */
  lemma DroppedCandidateIsNotFound(st: Store, mp: ManagerProperties.Properties, jk: JoiningKeys, now: int,
                                   env: Scheduler.Environment, i: nat, userId: string,
                                   api: ApiProperties.Properties, pollText: string)
    requires ValidStore(st) && IsPositive(Some(mp.ticketTtl))
    ensures var r := Scheduler.ConsiderCandidate(st, mp, jk, now, env, i, userId);
      r.1 == Scheduler.Dropped ==>
        QueueApi.GetStatus(r.0, api, userId, pollText) == QueueApi.Reply(r.0, Err(QueueApi.UserNotFound))
  {
    Scheduler.DroppedCandidateLeaves(st, mp, jk, now, env, i, userId);
    QueueApi.StatusOutcomes(Scheduler.ConsiderCandidate(st, mp, jk, now, env, i, userId).0, api, userId, pollText);
  }

  // ---------------------------------------------------------------------
  // Queue manager -> chat server

  /** The joining keys of the manager, named as the chat server names
      them. */
  function SharedJoiningKeys(keys: TicketRepository.TicketKeys): (jk: JoiningKeys)
    ensures jk.joiningTickets == keys.joiningTickets
    ensures forall id :: TicketKey(jk, id) == TicketRepository.TicketKey(keys, id)
  {
    JoiningKeys(keys.joiningTickets, keys.joiningTicketPrefix)
  }

  /** A fresh ticket the manager issues lets its holder into the chat
      exactly when the nickname and the recorded user id are not white
      space by .NET's rules; the chat server then sees that user. */
  lemma PromotedTicketAuthenticates(st: Store, keys: TicketRepository.TicketKeys, userId: string,
                                    ticketId: string, expireAt: int, ttl: Duration)
    requires ValidStore(st) && IsPositive(Some(ttl))
    requires ManagerRepository.Apart(ManagerRepository.KeysFor(SharedJoiningKeys(keys), userId, ticketId))
    requires ManagerRepository.Promotable(st, ManagerRepository.KeysFor(SharedJoiningKeys(keys), userId, ticketId), userId)
    requires |HGetAll(st, TicketRepository.TicketKey(keys, ticketId))| == 0
    requires !IsWhiteSpaceOnly(ticketId)
    ensures var pr := ManagerRepository.PromoteToJoining(st, SharedJoiningKeys(keys), userId, ticketId, Some(expireAt), Some(ttl));
      var nickname := HGet(st, MetaKey(userId), "nickname").value;
      var holder := ManagerRepository.StoredUserId(HGet(st, MetaKey(userId), "userId"), userId);
      var a := Auth.Authenticate(keys, pr.value.store, Some(ticketId));
      && pr.value.promoted
      && (a.result.isAuthenticated <==> !IsWhiteSpaceOnly(nickname) && !IsWhiteSpaceOnly(holder))
      && (a.result.isAuthenticated ==> a.result.user == Some(Protocol.User(holder, nickname)))
  {
    var jk := SharedJoiningKeys(keys);
    var k := ManagerRepository.KeysFor(jk, userId, ticketId);
    var ttlSeconds := ManagerRepository.TicketSeconds(ttl);
    ManagerRepository.PromotionLivesAtLeastASecond(st, jk, userId, ticketId, expireAt, ttl);
    ManagerRepository.PromoteIssuesTicket(st, k, userId, ticketId, expireAt, ttlSeconds);
    var pr := ManagerRepository.PromoteToJoining(st, jk, userId, ticketId, Some(expireAt), Some(ttl));
    assert pr.value.store == ManagerRepository.PromoteScript(st, k, userId, ticketId, expireAt, ttlSeconds).store;
    Auth.AuthenticatesExactlyValidTickets(keys, pr.value.store, ticketId);
  }

  /** The no-break space: white space to .NET but not to Java. */
  const NoBreakSpace: string := [0xA0 as char]

  /** The services disagree on what a blank nickname is: a waiting user
      whose nickname is a no-break space passes the scheduler's check and is
      promoted, but the chat server refuses the ticket. */
  lemma NoBreakSpaceNicknameIsRefused(st: Store, keys: TicketRepository.TicketKeys, userId: string,
                                      ticketId: string, expireAt: int, ttl: Duration)
    requires ValidStore(st) && IsPositive(Some(ttl))
    requires ManagerRepository.Apart(ManagerRepository.KeysFor(SharedJoiningKeys(keys), userId, ticketId))
    requires ZScore(st, WaitingQueue, userId).Some?
    requires HGet(st, MetaKey(userId), "nickname") == Some(NoBreakSpace)
    requires |HGetAll(st, TicketRepository.TicketKey(keys, ticketId))| == 0
    requires !IsWhiteSpaceOnly(ticketId)
    ensures !IsBlank(NoBreakSpace) && IsWhiteSpaceOnly(NoBreakSpace)
    ensures var pr := ManagerRepository.PromoteToJoining(st, SharedJoiningKeys(keys), userId, ticketId, Some(expireAt), Some(ttl));
      && pr.value.promoted
      && !Auth.Authenticate(keys, pr.value.store, Some(ticketId)).result.isAuthenticated
  {
    NoBreakSpaceIsDotnetOnly();
    var k := ManagerRepository.KeysFor(SharedJoiningKeys(keys), userId, ticketId);
    assert ManagerRepository.Promotable(st, k, userId) by {
      assert Exists(st, MetaKey(userId));
    }
    PromotedTicketAuthenticates(st, keys, userId, ticketId, expireAt, ttl);
  }

  /** Java's blank test lets the no-break space through; .NET's does not. */
  lemma NoBreakSpaceIsDotnetOnly()
    ensures !IsBlank(NoBreakSpace) && IsWhiteSpaceOnly(NoBreakSpace)
  {
    assert !IsJavaWhitespace(NoBreakSpace[0]);
  }
}
