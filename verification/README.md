# LikeLion chat and waiting queue, modelled in Dafny

The system is a chat service with a waiting room in front of it.

1. A user registers with the **queue API** and gets a place in the waiting set.
2. The user then polls their status.
3. On every tick, the **queue manager** does two things:
   - it removes the tickets that have expired;
   - it promotes as many waiting users as the chat server's published soft cap leaves room for.
4. Promotion happens in one atomic script. It writes a ticket hash, moves the user from the waiting set to the joining set, and records the ticket in the user's meta hash.
5. The user presents the ticket to the **chat server**. The chat server authenticates it, refuses a second session for the same user, and hands the socket to the **hub**.
6. The hub registers the session, relays chat messages, answers status requests, evicts sockets that fail, and drops sessions that stay idle for two minutes.
7. A **status publisher** writes the user count and the caps into the hash `server:status`. The queue manager reads them back from there.
8. The terminal client formats what it receives into lines of text.

Two versions of the hub exist, and both are modelled:

- `Current`: the hub under `chat/LikeLionChat.Server`. It consumes the ticket, publishes the user count and records metrics.
- `Legacy`: the hub under `chat-server`. It does none of that, and puts the user count into its leave notice.

The model is functional.

- **The store.** The Redis-like store is an immutable value (`KvStore.Store`) of hashes and sorted sets, with a time to live per key. A sorted set is a sequence ordered by score, then by member.
- **Operations.** Every operation is a pure transition from one store to the next. The store commands appear in the same order as the services issue them.
- **The hub.** The hub's registry is a sequence of connections. Each hub operation returns the new registry together with the list of calls it makes on its collaborators: sends, closes, ticket consumption, status publication and metrics.
- **Admission and end of session.** The theorem about admission is `Hub.SessionEndsExactlyOnce`. It holds for the corrected admission of Findings row 2, whose teardown covers the whole admission. There, every admitted session is ended exactly once, however it ends, and its user is no longer registered afterwards. The admission as written can leave a registered user behind (`Hub.CancelledAdmissionLeavesZombie`).

Clocks, random ticket ids, `Instant.parse` and whether the store answers are all parameters. Cancellation is a parameter in three places: the ticket consumption (`TicketRepository.ConsumeTicket`), the status publisher (`StatusPublisher.PublishAsWritten` and `Publish`) and the admission (`Hub.AdmitAsWritten` and `Admit`). The hub's broadcasts do not model it; see "## Left out".

Two behaviours that cross service boundaries are proved rather than assumed:

- The services disagree on what counts as white space. .NET treats the no-break space U+00A0 as white space; Java's `isBlank` does not.
  - As a result, a user whose nickname is a single no-break space is promoted by the queue manager but refused by the chat server (`QueueFlow.NoBreakSpaceNicknameIsRefused`).
- The queue API's settings accept a time to live shorter than a millisecond. Such a time to live expires the meta hash at once.
  - As a result, a registration succeeds and the user's first poll is answered 404 (`QueueApi.SubMillisecondTtlLosesEntry`).

## Model

| member | source | states |
|---|---|---|
| KvStore.ZAdd | queue/queue-api/src/main/java/com/likelion/queueapi/repository/QueueRepository.java:32-37 | adding a member keeps the set ordered and duplicate-free, gives it the new score, reports whether it was new, and leaves every other member's score alone |
| KvStore.RankCountsPredecessors | queue/queue-api/src/main/java/com/likelion/queueapi/repository/QueueRepository.java:68-71 | the index of an entry in a sorted set is the number of entries ordered before it |
| KvStore.FirstMembersPrecedeTheRest | queue/queue-manager/src/main/java/com/likelion/queuemanager/repository/QueueManagerRepository.java:78-87 | the first n members of a sorted set come before every member left out |
| KvStore.MembersInRangeDistinct | queue/queue-manager/src/main/java/com/likelion/queuemanager/repository/QueueManagerRepository.java:121-128 | the members whose score lies in a range are listed once each |
| Text.Trim | chat/LikeLionChat.Server/Services/ChatService.cs:170 | the trimmed text is the part of the input between its leading and trailing white space; it is empty exactly when the input is all white space, and otherwise neither starts nor ends with white space |
| Text.TrimIdempotent | chat/LikeLionChat.Server/Services/ChatService.cs:170 | trimming twice is trimming once |
| Text.UpperMatchesIgnoringCase | chat-client/src/messages.ts:28-30 | upper-casing, then comparing with an upper-case constant, is a case-insensitive comparison, in both directions |
| Text.ParseLong | queue/queue-manager/src/main/java/com/likelion/queuemanager/repository/QueueManagerRepository.java:168-180 | a parsed number is within the range of `long` |
| Text.ParseLongOfSignedDigits | queue/queue-manager/src/main/java/com/likelion/queuemanager/repository/QueueManagerRepository.java:168-180 | an optional sign followed by at least one ASCII digit parses to its signed value exactly when that value fits in a `long`, and is rejected otherwise |
| Text.ParseLongAcceptsOnlySignedDigits | queue/queue-manager/src/main/java/com/likelion/queuemanager/repository/QueueManagerRepository.java:168-180 | any text that parses is an optional sign followed by at least one digit, and its value is the signed value of those digits |
| Text.ParseLongOfIntToString | queue/queue-manager/src/main/java/com/likelion/queuemanager/repository/QueueManagerRepository.java:168-180 | every `long` parses back from its decimal text |
| JavaTime.ToMillis | queue/queue-api/src/main/java/com/likelion/queueapi/repository/QueueRepository.java:47-49 | the whole milliseconds of a duration, rounded toward zero as `toMillis` does since Java 9: negative exactly when the duration reaches a millisecond below zero, positive exactly when it reaches one above |
| JavaTime.GetSeconds | queue/queue-manager/src/main/java/com/likelion/queuemanager/repository/QueueManagerRepository.java:150 | the whole seconds of a duration, rounded toward negative infinity |
| JavaTime.PositiveDurationParts | queue/queue-manager/src/main/java/com/likelion/queuemanager/repository/QueueManagerRepository.java:150 | a positive duration has non-negative whole milliseconds and seconds, which are positive exactly when the duration reaches a millisecond or a second |
| Registry.TryAdd | chat/LikeLionChat.Server/Services/ChatService.cs:62-67 | a session is registered exactly when its user has none, and the registry keeps at most one session per user |
| Registry.Remove | chat/LikeLionChat.Server/Services/ChatService.cs:347-350 | removal drops exactly the entries of that user and keeps every other entry |
| Registry.Find | chat/LikeLionChat.Server/Services/ChatService.cs:98-101 | a user's entry is found exactly when the user is registered |
| Registry.FindUnique | chat/LikeLionChat.Server/Services/ChatService.cs:98-101 | in a registry with one session per user, the entry found for a user is that user's entry |
| Registry.RemoveTags | chat/LikeLionChat.Server/Services/ChatService.cs:347-350 | removing a registered user removes exactly that session |
| Registry.Touch | chat/LikeLionChat.Server/Services/ChatService.cs:416 | the session's entry records the new last-seen time, and the other entries are kept |
| Registry.Healthy | chat/LikeLionChat.Server/Services/ChatService.cs:326-331 | the registry without its failing entries keeps every other entry and at most one session per user |
| Registry.HealthyIdempotent | chat/LikeLionChat.Server/Services/ChatService.cs:326-331 | evicting the failing entries twice is evicting them once |
| Hub.Broadcast | chat/LikeLionChat.Server/Services/ChatService.cs:304-342 | a broadcast keeps at most one session per user and never adds an entry |
| Hub.BroadcastDelivers | chat/LikeLionChat.Server/Services/ChatService.cs:304-342 | corrected (Findings row 3): the envelope goes to exactly the entries whose socket is open, and the current hub records how many were reached |
| Hub.BroadcastAsWritten | chat/LikeLionChat.Server/Services/ChatService.cs:304-342 | as written (Findings row 3): the broadcast ends in an exception exactly when some recipient's socket fails at its turn, and it never adds an entry |
| Hub.BroadcastAsWrittenEvicts | chat/LikeLionChat.Server/Services/ChatService.cs:318-338 | as written, the registry left behind is still the original one without its failing entries, because each failure closes and removes its session before the exception |
| Hub.AsWrittenAgreesWithoutFailure | chat/LikeLionChat.Server/Services/ChatService.cs:304-342 | when no socket fails, the broadcast as written is the corrected one and raises nothing |
| Hub.BroadcastAbortsAtFailure | chat/LikeLionChat.Server/Services/ChatService.cs:318-341 | sessions a (open), b (failing), c (open): as written, the broadcast throws after removing b, and c never gets the envelope; the corrected broadcast reaches a and c |
| Hub.CloseFailingAsWritten | chat/LikeLionChat.Server/Services/ChatService.cs:344-386 | closing a session whose socket fails leaves the registry without its failing entries and without that user, even when the leave notice throws |
| Hub.SendToAsWritten | chat/LikeLionChat.Server/Services/ChatService.cs:253-287 | as written, a send throws exactly when the socket fails, after the session was closed and removed; an open socket gets the envelope |
| Hub.BroadcastEvicts | chat/LikeLionChat.Server/Services/ChatService.cs:326-331 | after a broadcast, the registry is the old one without its failing entries |
| Hub.BroadcastAccounts | chat/LikeLionChat.Server/Services/ChatService.cs:326-331 | every session a broadcast drops is ended by it, once |
| Hub.CloseAndRemove | chat/LikeLionChat.Server/Services/ChatService.cs:344-386 | closing a user who is not registered does nothing |
| Hub.CloseEvicts | chat/LikeLionChat.Server/Services/ChatService.cs:344-386 | the registry left is the old one without the user and without the sockets that failed during the leave notice |
| Hub.CloseDisconnects | chat/LikeLionChat.Server/Services/ChatService.cs:344-386 | after close-and-remove, the user is no longer connected |
| Hub.CloseAccounts | chat/LikeLionChat.Server/Services/ChatService.cs:344-386 | close-and-remove ends exactly the sessions it drops |
| Hub.LeaveNoticeReachesTheRest | chat-server/Services/ChatService.cs:301-328 | corrected (Findings row 3): after close-and-remove, the session has ended, its socket was closed unless already closed, and the leave notice was broadcast to the sessions left |
| Hub.Teardown | chat/LikeLionChat.Server/Services/ChatService.cs:354-382 | tearing one entry down ends that session alone, and closes its socket exactly when it is not already closed |
| Hub.SendTo | chat/LikeLionChat.Server/Services/ChatService.cs:253-287 | a send reaches an open socket; a socket that is not open gets nothing; a socket that fails costs its user the registration |
| Hub.DispatchType | chat/LikeLionChat.Server/Services/ChatService.cs:170 | the type is trimmed before dispatch; a null type throws in the current hub and reads as empty in the legacy one |
| Hub.HandleClientMessage | chat/LikeLionChat.Server/Services/ChatService.cs:167-212 | a message throws exactly when the current hub reads a null type, or when a message send carries no payload at all (deserialising an absent element throws an exception the handler does not catch); after a throw nothing has been done |
| Hub.ChatMessageIsRelayed | chat/LikeLionChat.Server/Services/ChatService.cs:186-200 | corrected (Findings row 3): a blank message produces nothing; any other is trimmed and broadcast under the sender's nickname to every open session, and only failing sessions are evicted |
| Hub.UndecodablePayloadIsIgnored | chat/LikeLionChat.Server/Services/ChatService.cs:188-212 | a message payload that is present but null or not decodable produces nothing, and the session goes on |
| Hub.AbsentPayloadCrashes | chat/LikeLionChat.Server/Services/ChatService.cs:186-212 | a message send without a payload throws and does nothing else |
| Hub.AbsentPayloadEndsSession | chat/LikeLionChat.Server/Services/ChatService.cs:79-95 | when a session's next frame is a message send without a payload, the loop stops and the session is closed and removed, as a disconnect |
| Hub.StatusRequestAnswersRequester | chat/LikeLionChat.Server/Services/ChatService.cs:239-244 | a status request is answered once, to the requester only, with the number of registered sessions |
| Hub.OtherTypesAreIgnored | chat/LikeLionChat.Server/Services/ChatService.cs:180-183 | any other type, and a null type in the legacy hub, produces nothing |
| Hub.ReceiveStep | chat/LikeLionChat.Server/Services/ChatService.cs:104-165 | binary frames are skipped; a close frame or an aborted read stops the loop; an undecodable text frame only refreshes the last-seen time |
| Hub.SessionLoop | chat/LikeLionChat.Server/Services/ChatService.cs:79-95 | whatever arrives, the loop and its teardown leave the user unregistered and end exactly the sessions they drop |
| Hub.AdmitAsWritten | chat/LikeLionChat.Server/Services/ChatService.cs:55-81 | a duplicate user is refused; any other user joins, or is interrupted when the request is cancelled |
| Hub.Admit | chat/LikeLionChat.Server/Services/ChatService.cs:55-96 | corrected (Findings rows 2 and 3): the same outcomes, with the teardown covering the whole admission |
| Hub.AdmitJoins | chat/LikeLionChat.Server/Services/ChatService.cs:62-77 | corrected (Findings row 3): a joined session is registered; in the current hub the connection metric, the ticket consumption and the status update come first; then the join notice is broadcast |
| Hub.AdmitInterrupted | chat/LikeLionChat.Server/Services/ChatService.cs:79-95 | corrected (Findings row 2): with the widened teardown, an interrupted admission leaves its user unregistered |
| Hub.RunSession | chat/LikeLionChat.Server/Services/ChatService.cs:55-96 | corrected (Findings row 2): a session never leaves behind a registration its user did not already have |
| Hub.SessionEndsExactlyOnce | chat/LikeLionChat.Server/Services/ChatService.cs:55-96 | corrected (Findings row 2): every admitted session ends exactly once, however it ends, and its user is then unregistered |
| Hub.DuplicateIsRefused | chat/LikeLionChat.Server/Services/ChatService.cs:62-67 | a second session for a registered user only closes the new socket, and the registry is unchanged |
| Hub.CancelledAdmissionLeavesZombie | chat/LikeLionChat.Server/Services/ChatService.cs:62-81 | as written, a cancelled admission leaves its user registered with a dead socket, and no session end is recorded |
| Hub.Sweep | chat/LikeLionChat.Server/Services/ChatService.cs:289-302 | the idle sweep keeps at most one session per user |
| Hub.SweepRemovesExactlyTheIdle | chat/LikeLionChat.Server/Services/ChatService.cs:289-302 | corrected (Findings row 3): exactly the sessions silent for at least two minutes are removed, along with sockets that failed; each removed session is ended once |
| Auth.Success | chat-server/Services/AuthService.cs:35-38 | a success is authenticated, carries the user and has status 200 |
| Auth.Fail | chat-server/Services/AuthService.cs:40-43 | a failure is not authenticated and carries its status and error |
| Auth.Authenticate | chat-server/Services/AuthService.cs:10-26 | a missing or blank ticket gives MissingTicketId; otherwise the result is the user of the ticket or InvalidTicket; one failure is recorded per refusal |
| Auth.AuthenticatesExactlyValidTickets | chat-server/Services/AuthService.cs:10-26 | a ticket authenticates exactly when its hash has a non-blank userId and nickname, and the user is read from them |
| Auth.ConsumedTicketIsRejected | chat-server/Repositories/TicketRepository.cs:69-97 | once consumed, a ticket is rejected as invalid |
| TicketRepository.FirstValue | chat-server/Repositories/TicketRepository.cs:45-57 | the value found belongs to an entry of that name, and none is found only when no entry has that name |
| TicketRepository.ScanFindsFirstValues | chat-server/Repositories/TicketRepository.cs:45-57 | the loop over the hash keeps the first userId and the first nickname it meets |
| TicketRepository.FirstValueOfEnumeration | chat-server/Repositories/TicketRepository.cs:45-57 | on any listing of a hash, the first value of a field is that field's value |
| TicketRepository.UserFromFields | chat-server/Repositories/TicketRepository.cs:59-66 | a user is built exactly when both fields are present and not blank |
| TicketRepository.GetUserByTicket | chat-server/Repositories/TicketRepository.cs:24-67 | a blank ticket or an empty hash gives no user; a user found comes from the hash's non-blank userId and nickname |
| TicketRepository.LookupAgreesWithEntryLoop | chat-server/Repositories/TicketRepository.cs:43-66 | whatever order the store lists the hash in, the loop reads the same user as a field lookup |
| TicketRepository.ConsumeTicket | chat-server/Repositories/TicketRepository.cs:69-97 | blank ids do nothing; a call cancelled before the batch fails and writes nothing; a call cancelled while it awaits the batch fails, but the batch has been applied; an unreachable store is ignored; otherwise the ticket hash and the waiting user's hash are gone and the joining set loses exactly the ticket; no key besides those three changes |
| TicketRepository.ConsumedTicketIsInvalid | chat-server/Repositories/TicketRepository.cs:69-97 | once the batch has been applied, the ticket no longer resolves to a user, even when the call then fails on a cancellation |
| StatusPublisher.EffectiveCaps | chat-server/Services/ServerStatusService.cs:31-32 | published caps are at least 1; a non-positive soft cap falls back to the max cap, and a non-positive max cap to the soft cap |
| StatusPublisher.DefaultCaps | chat-server/Services/ServerStatusService.cs:31-32 | the default options publish a soft cap of 100 and a max cap of 150 |
| StatusPublisher.PublishAsWritten | chat-server/Services/ServerStatusService.cs:24-58 | a publish records the current caps as published whether or not the write succeeds; a successful one writes the user count, writes the caps exactly when they differ from the recorded pair, and leaves other fields and keys alone |
| StatusPublisher.AsWrittenAgreesOnSuccess | chat-server/Services/ServerStatusService.cs:24-58 | when the store accepts the writes, the publisher as written and the corrected one give the same result |
| StatusPublisher.Publish | chat-server/Services/ServerStatusService.cs:24-58 | corrected (Findings row 1): a successful publish writes the user count and records the caps; a cancelled or failed one changes nothing; no other key is touched |
| StatusPublisher.PublishKeepsConsistent | chat-server/Services/ServerStatusService.cs:39-49 | corrected (Findings row 1): the pair the publisher believes published is the pair the store shows, whatever fails |
| StatusPublisher.RepeatWritesOnlyUsers | chat-server/Services/ServerStatusService.cs:39-49 | a repeat publish with unchanged caps writes only the user count |
| StatusPublisher.AsWrittenLosesCaps | chat-server/Services/ServerStatusService.cs:39-57 | as written, a failed first publish followed by a successful one leaves the caps unpublished |
| StatusPublisher.CorrectedPublishesCaps | chat-server/Services/ServerStatusService.cs:39-57 | with the pair recorded only on success, the same two calls publish the caps |
| Gateway.Accept | chat-server/Program.cs:37-74 | a request that is not a WebSocket gets 400; an authentication failure gets its own status and error; a connected user gets 409; everyone else is accepted as the user of the ticket |
| Gateway.ClientCount | chat-server/Program.cs:77-78 | the count of sessions is the number of connected users |
| Gateway.UserSet | chat-server/Services/ChatService.cs:81-84 | the set of users connected |
| Gateway.AcceptedRequestJoins | chat-server/Services/ChatService.cs:42-79 | corrected (Findings row 3): an accepted request is never refused as a duplicate by the hub, and joins unless it is cancelled |
| Gateway.ZombieRefusesReconnect | chat-server/Services/ChatService.cs:49-64 | as written, after a cancelled admission the same user's next request gets 409 |
| Gateway.CorrectedAdmissionAllowsReconnect | chat-server/Services/ChatService.cs:49-78 | with the widened teardown, the same user's next request is accepted |
| ClientMessages.BuildMessageSend | chat-client/src/messages.ts:9-14 | the envelope has exactly a type MESSAGE_SEND and a payload holding the message |
| ClientMessages.BuildMessageSendInjective | chat-client/src/messages.ts:9-14 | different messages give different envelopes |
| ClientMessages.BuildServerStatusRequest | chat-client/src/messages.ts:16-21 | the envelope has type SERVERSTATUS_REQUEST and an empty payload |
| ClientMessages.ToUpperJsOfPlain | chat-client/src/messages.ts:28 | on text without special characters, toUpperCase is the ASCII upper case |
| ClientMessages.ChatLine | chat-client/src/messages.ts:30-36 | a chat line is the author (or "unknown"), then "@" and the timestamp when it is a non-empty string, then the message |
| ClientMessages.StatusLine | chat-client/src/messages.ts:39-44 | a status response whose count is a number is shown as the fixed Korean words around the count, whatever else the payload holds |
| ClientMessages.SystemLine | chat-client/src/messages.ts:46-52 | a system message whose text is a string is shown as "[system", "@" and the timestamp when it is a non-empty string, "] ", then the text |
| ClientMessages.NonObjectPayloadIsJson | chat-client/src/messages.ts:23-55 | an object whose payload is not an object is shown as its JSON, whatever its type |
| ClientMessages.UnknownTypeIsJson | chat-client/src/messages.ts:23-55 | an object of any type other than the three known ones is shown as its JSON |
| ClientMessages.TypeIsCaseInsensitive | chat-client/src/messages.ts:28 | types match whatever the case of their ASCII letters |
| ClientMessages.WrongFieldFallsThrough | chat-client/src/messages.ts:30-54 | a recognised type whose field has the wrong type is shown as JSON |
| ClientMessages.NonObjectsAreStringified | chat-client/src/messages.ts:24-26 | anything that is not an object is shown with String() |
| QueueKeys.MetaKey | queue/queue-common/src/main/java/com/likelion/queue/common/QueueRedisKeys.java:5-9 | a meta key is the meta prefix followed by the user id |
| QueueKeys.MetaKeysApart | queue/queue-common/src/main/java/com/likelion/queue/common/QueueRedisKeys.java:5-9 | meta keys never name the waiting set or the status hash, and each user has their own |
| ServerStatusModel.ResolveSoftCap | queue/queue-manager/src/main/java/com/likelion/queuemanager/model/ServerStatus.java:5-13 | the soft cap when positive, else the max cap when positive, else the fallback; positive whenever the fallback is |
| ServerStatusModel.ResolveIsFirstPositive | queue/queue-manager/src/main/java/com/likelion/queuemanager/model/ServerStatus.java:5-13 | the soft cap used is the first positive one of the published soft cap and max cap |
| ManagerProperties.DefaultsArePositive | queue/queue-manager/src/main/java/com/likelion/queuemanager/config/QueueManagerProperties.java:17-30 | the defaults are positive: a 1 s interval, a 60 s ticket, a 30 s grace period |
| ManagerProperties.ScheduleIntervalMillis | queue/queue-manager/src/main/java/com/likelion/queuemanager/config/QueueManagerProperties.java:32-35 | the interval is always positive: the whole milliseconds, or one second when there are none |
| ManagerProperties.SubMillisecondIntervalRunsEverySecond | queue/queue-manager/src/main/java/com/likelion/queuemanager/config/QueueManagerProperties.java:32-45 | a positive interval under a millisecond is accepted, and the schedule then runs every second |
| ManagerProperties.SetScheduleInterval | queue/queue-manager/src/main/java/com/likelion/queuemanager/config/QueueManagerProperties.java:41-45 | a null, zero or negative interval is ignored; otherwise only the interval changes |
| ManagerProperties.SetTicketTtl | queue/queue-manager/src/main/java/com/likelion/queuemanager/config/QueueManagerProperties.java:51-55 | a null, zero or negative TTL is ignored; otherwise only the TTL changes |
| ManagerProperties.SetBatchLimit | queue/queue-manager/src/main/java/com/likelion/queuemanager/config/QueueManagerProperties.java:61-65 | a non-positive limit is ignored; otherwise only the limit changes |
| ManagerProperties.SetDefaultSoftCap | queue/queue-manager/src/main/java/com/likelion/queuemanager/config/QueueManagerProperties.java:71-75 | a non-positive cap is ignored; otherwise only the cap changes |
| ManagerProperties.SetInactivityGrace | queue/queue-manager/src/main/java/com/likelion/queuemanager/config/QueueManagerProperties.java:81-85 | a null, zero or negative grace period is ignored; otherwise only the grace period changes |
| ManagerProperties.SettersKeepPositive | queue/queue-manager/src/main/java/com/likelion/queuemanager/config/QueueManagerProperties.java:41-85 | whatever setters are called, in any order, every value stays positive |
| ManagerProperties.ConfiguredArePositive | queue/queue-manager/src/main/java/com/likelion/queuemanager/config/QueueManagerProperties.java:17-85 | the properties of a running manager are positive |
| ApiProperties.SetWaitingMetaTtl | queue/queue-api/src/main/java/com/likelion/queueapi/config/QueueApiProperties.java:23-27 | a null, zero or negative TTL is ignored |
| ApiProperties.TtlStaysPositive | queue/queue-api/src/main/java/com/likelion/queueapi/config/QueueApiProperties.java:23-27 | whatever is passed to the setter, the TTL stays positive |
| ApiProperties.ConfiguredTtlIsPositive | queue/queue-api/src/main/java/com/likelion/queueapi/config/QueueApiProperties.java:17-27 | the TTL starts at 30 seconds and stays positive |
| ManagerRepository.FetchNextBatch | queue/queue-manager/src/main/java/com/likelion/queuemanager/repository/QueueManagerRepository.java:78-87 | a non-positive count gives nothing; otherwise at most that many waiting users |
| ManagerRepository.BatchIsHeadOfQueue | queue/queue-manager/src/main/java/com/likelion/queuemanager/repository/QueueManagerRepository.java:78-87 | the batch is the head of the queue: waiting users, each once, earliest first, ahead of everyone left out |
| ManagerRepository.RemoveFromWaiting | queue/queue-manager/src/main/java/com/likelion/queuemanager/repository/QueueManagerRepository.java:93-95 | the user leaves the waiting set, and only the waiting set changes |
| ManagerRepository.DeleteWaitingMeta | queue/queue-manager/src/main/java/com/likelion/queuemanager/repository/QueueManagerRepository.java:101-103 | the user's meta hash is gone, and nothing else changes |
| ManagerRepository.ParseLongOr | queue/queue-manager/src/main/java/com/likelion/queuemanager/repository/QueueManagerRepository.java:168-180 | null and text that is not a `long` give the default; any other text gives its number |
| ManagerRepository.ParseNullableLong | queue/queue-manager/src/main/java/com/likelion/queuemanager/repository/QueueManagerRepository.java:182-194 | null and text that is not a `long` give null; any other text gives its number |
| ManagerRepository.FetchServerStatus | queue/queue-manager/src/main/java/com/likelion/queuemanager/repository/QueueManagerRepository.java:105-114 | a missing status hash reads as no users and no caps |
| ManagerRepository.StatusReadsBack | queue/queue-manager/src/main/java/com/likelion/queuemanager/repository/QueueManagerRepository.java:105-114 | a status hash written as decimal text reads back as the numbers written, and a missing cap reads as no cap |
| ManagerRepository.CountJoiningTickets | queue/queue-manager/src/main/java/com/likelion/queuemanager/repository/QueueManagerRepository.java:116-119 | the count is exactly the number of joining tickets that expire at the given time or later |
| ManagerRepository.RemoveExpiredTickets | queue/queue-manager/src/main/java/com/likelion/queuemanager/repository/QueueManagerRepository.java:121-128 | only the joining set changes |
| ManagerRepository.RemovesExactlyTheExpired | queue/queue-manager/src/main/java/com/likelion/queuemanager/repository/QueueManagerRepository.java:121-128 | exactly the tickets whose expiry lies in [0, now] are removed and reported, each once; the rest stay |
| ManagerRepository.DeleteTicketHashes | queue/queue-manager/src/main/java/com/likelion/queuemanager/repository/QueueManagerRepository.java:130-141 | the hash of every listed ticket is gone, and no other key changes; an empty list does nothing |
| ManagerRepository.PromoteScript | queue/queue-manager/src/main/java/com/likelion/queuemanager/repository/QueueManagerRepository.java:29-64 | the script keeps the store well formed and reports 1 or 0 |
| ManagerRepository.PromoteDeclines | queue/queue-manager/src/main/java/com/likelion/queuemanager/repository/QueueManagerRepository.java:39-55 | the script reports 1 exactly for a waiting user whose meta hash has a non-empty nickname; when it declines, at most the waiting set and the meta hash change |
| ManagerRepository.NoNicknameDropsMeta | queue/queue-manager/src/main/java/com/likelion/queuemanager/repository/QueueManagerRepository.java:46-51 | a waiting user with a meta hash but no usable nickname loses both the place in the queue and the meta hash |
| ManagerRepository.PromoteWritesTicket | queue/queue-manager/src/main/java/com/likelion/queuemanager/repository/QueueManagerRepository.java:52-58 | the ticket hash holds the ticket id, the stored user id and the nickname, and lives the given seconds |
| ManagerRepository.PromoteMovesUser | queue/queue-manager/src/main/java/com/likelion/queuemanager/repository/QueueManagerRepository.java:59-63 | the user leaves the waiting set, the meta hash records the ticket, and the ticket joins the joining set scored by its expiry |
| ManagerRepository.PromoteTouchesOnlyItsKeys | queue/queue-manager/src/main/java/com/likelion/queuemanager/repository/QueueManagerRepository.java:29-64 | a promotion writes no key but its four |
| ManagerRepository.PromoteIssuesTicket | queue/queue-manager/src/main/java/com/likelion/queuemanager/repository/QueueManagerRepository.java:29-64 | a promotable user gets a ticket; all four writes land and nothing else changes |
| ManagerRepository.TicketSeconds | queue/queue-manager/src/main/java/com/likelion/queuemanager/repository/QueueManagerRepository.java:150 | the ticket lives its TTL's whole seconds, and at least one |
| ManagerRepository.PromoteToJoining | queue/queue-manager/src/main/java/com/likelion/queuemanager/repository/QueueManagerRepository.java:143-166 | a null, zero or negative TTL and a missing expiry are refused with their IllegalArgument messages; otherwise the script runs and the store stays well formed |
| ManagerRepository.PromotionLivesAtLeastASecond | queue/queue-manager/src/main/java/com/likelion/queuemanager/repository/QueueManagerRepository.java:143-166 | a promotion is reported exactly when the script makes one, and the ticket then lives at least a second, however short the TTL |
| Scheduler.IsInactive | queue/queue-manager/src/main/java/com/likelion/queuemanager/QueueScheduler.java:134-153 | a user is inactive exactly when a parsable last-seen time lies more than the grace period before now; a missing, blank or unparsable time counts as active |
| Scheduler.InactivityIsStrict | queue/queue-manager/src/main/java/com/likelion/queuemanager/QueueScheduler.java:144-146 | a user seen exactly the grace period ago is still active, and one millisecond later is not |
| Scheduler.DropWaitingUser | queue/queue-manager/src/main/java/com/likelion/queuemanager/QueueScheduler.java:129-132 | the user leaves the waiting set and loses the meta hash; nothing else changes |
| Scheduler.DroppedCandidateLeaves | queue/queue-manager/src/main/java/com/likelion/queuemanager/QueueScheduler.java:94-112 | a candidate is dropped exactly when it has no meta data, is inactive or has a blank nickname, and then only leaves the queue |
| Scheduler.ActiveCandidateIsPromoted | queue/queue-manager/src/main/java/com/likelion/queuemanager/QueueScheduler.java:114-119 | a candidate that is kept is promoted exactly when it is still waiting, with a ticket that expires one TTL after the clock reading |
| Scheduler.Issued | queue/queue-manager/src/main/java/com/likelion/queuemanager/QueueScheduler.java:116-119 | the number of promotions is at most the number of candidates |
| Scheduler.PromoteCandidates | queue/queue-manager/src/main/java/com/likelion/queuemanager/QueueScheduler.java:93-120 | the loop gives one disposition per candidate |
| Scheduler.BatchSize | queue/queue-manager/src/main/java/com/likelion/queuemanager/QueueScheduler.java:77-80 | the batch is no larger than the free slots or the batch limit, and equals one of them |
| Scheduler.ScheduleNextBatch | queue/queue-manager/src/main/java/com/likelion/queuemanager/QueueScheduler.java:63-127 | a cycle keeps the store well formed |
| Scheduler.IssuesWithinCapacity | queue/queue-manager/src/main/java/com/likelion/queuemanager/QueueScheduler.java:63-127 | a cycle never issues more tickets than the soft cap leaves room for, or than the batch limit; with no room, or with a non-positive TTL, nothing is written |
| Scheduler.SmallQueueIsConsideredWhole | queue/queue-manager/src/main/java/com/likelion/queuemanager/QueueScheduler.java:77-85 | with enough room and a large enough batch limit, every waiting user is considered |
| Scheduler.HandleExpiredTickets | queue/queue-manager/src/main/java/com/likelion/queuemanager/QueueScheduler.java:51-61 | the cleanup keeps the store well formed |
| Scheduler.CleanupRemovesExpired | queue/queue-manager/src/main/java/com/likelion/queuemanager/QueueScheduler.java:51-61 | after the cleanup, no ticket expired by now is left in the joining set or as a hash, and the ids returned are exactly those tickets, each once; every unexpired ticket stays in the joining set; no key changes besides the joining set and the removed tickets' hashes |
| Scheduler.ProcessQueue | queue/queue-manager/src/main/java/com/likelion/queuemanager/QueueScheduler.java:40-49 | a full cycle keeps the store well formed |
| Scheduler.CycleCountsLiveTickets | queue/queue-manager/src/main/java/com/likelion/queuemanager/QueueScheduler.java:40-49 | because the cleanup runs first, the scheduling counts every joining ticket that is left |
| WaitingRepository.AddToWaitingQueue | queue/queue-api/src/main/java/com/likelion/queueapi/repository/QueueRepository.java:32-37 | the user's score becomes the given one; the answer says whether the user was new; no other member or key changes |
| WaitingRepository.InitialMeta | queue/queue-api/src/main/java/com/likelion/queueapi/repository/QueueRepository.java:41-45 | the first meta data holds the user id, the nickname, an empty ticket id and the last-seen time |
| WaitingRepository.ExpireMeta | queue/queue-api/src/main/java/com/likelion/queueapi/repository/QueueRepository.java:47-49 | no expiry for a non-positive TTL; whole milliseconds otherwise; a TTL under a millisecond deletes the key |
| WaitingRepository.UpsertWaitingMeta | queue/queue-api/src/main/java/com/likelion/queueapi/repository/QueueRepository.java:39-50 | the meta hash gains the initial fields and the TTL, and no other key changes |
| WaitingRepository.FindWaitingMeta | queue/queue-api/src/main/java/com/likelion/queueapi/repository/QueueRepository.java:52-58 | no meta data exactly when the hash is missing or empty |
| WaitingRepository.TouchWaitingMeta | queue/queue-api/src/main/java/com/likelion/queueapi/repository/QueueRepository.java:60-66 | the poll time is recorded and the TTL refreshed, and no other key changes |
| WaitingRepository.GetWaitingRank | queue/queue-api/src/main/java/com/likelion/queueapi/repository/QueueRepository.java:68-71 | a rank exists exactly when the user is waiting |
| WaitingRepository.RankIsUsersAhead | queue/queue-api/src/main/java/com/likelion/queueapi/repository/QueueRepository.java:68-71 | the rank counts the users ahead: those with a lower score, or the same score and a smaller id |
| QueueApi.Enqueue | queue/queue-api/src/main/java/com/likelion/queueapi/service/QueueService.java:34-51 | a registration answers Waiting with the drawn user id, or the 500 error |
| QueueApi.EnqueueRefusesKnownId | queue/queue-api/src/main/java/com/likelion/queueapi/service/QueueService.java:37-44 | an id already waiting is refused with 500, but its score has been reset to now |
| QueueApi.EnqueueRegisters | queue/queue-api/src/main/java/com/likelion/queueapi/service/QueueService.java:34-51 | a new id joins at now's score, ranked behind everyone ahead of it, with fresh meta data and its TTL; only the waiting set and the meta hash change |
| QueueApi.GetStatus | queue/queue-api/src/main/java/com/likelion/queueapi/service/QueueService.java:53-72 | a poll changes no key but the user's meta hash |
| QueueApi.StatusOutcomes | queue/queue-api/src/main/java/com/likelion/queueapi/service/QueueService.java:53-72 | 404 exactly when there is no meta data; the ticket when one is recorded; else the rank while waiting, and 410 otherwise |
| QueueApi.StatusPollIsRecorded | queue/queue-api/src/main/java/com/likelion/queueapi/service/QueueService.java:59 | a poll of a known user records the poll time and refreshes the TTL |
| QueueApi.EnqueuedUserIsWaiting | queue/queue-api/src/main/java/com/likelion/queueapi/service/QueueService.java:34-72 | the status of a user just registered is the rank the registration answered |
| QueueApi.SubMillisecondTtlLosesEntry | queue/queue-api/src/main/java/com/likelion/queueapi/config/QueueApiProperties.java:23-27 | with a meta TTL under a millisecond, which the setter accepts, a registration succeeds and the first poll is answered 404 |
| QueueFlow.PublishedCapsReachTheManager | queue/queue-manager/src/main/java/com/likelion/queuemanager/repository/QueueManagerRepository.java:105-114 | after a successful publish, the manager reads back the published user count and caps, and works with the published soft cap |
| QueueFlow.CycleRespectsPublishedSoftCap | queue/queue-manager/src/main/java/com/likelion/queuemanager/QueueScheduler.java:63-127 | after the chat server publishes, a cycle never admits more users than its soft cap leaves room for |
| QueueFlow.PromotedCandidateSeesTicket | queue/queue-api/src/main/java/com/likelion/queueapi/service/QueueService.java:61-65 | a promoted candidate finds its ticket on the next status poll |
| QueueFlow.DroppedCandidateIsNotFound | queue/queue-api/src/main/java/com/likelion/queueapi/service/QueueService.java:56-57 | a dropped candidate's next poll is answered 404 |
| QueueFlow.SharedJoiningKeys | chat-server/Repositories/TicketRepository.cs:18-20 | the manager's joining keys name the same set and hashes as the chat server's |
| QueueFlow.PromotedTicketAuthenticates | chat-server/Repositories/TicketRepository.cs:59-66 | a fresh ticket lets its holder in exactly when the nickname and the recorded user id are not white space by .NET's rules, and the chat server then sees that user |
| QueueFlow.NoBreakSpaceNicknameIsRefused | queue/queue-manager/src/main/java/com/likelion/queuemanager/QueueScheduler.java:108-111 | a nickname made of a no-break space passes the manager's blank check and is promoted, but the chat server refuses the ticket |

## Left out

- Hub.Broadcast: a cancellation during a broadcast is not modelled. In the hub, every open recipient waits on its send lock and sends under the request's token (chat/LikeLionChat.Server/Services/ChatService.cs:321-323, and the same at chat-server/Services/ChatService.cs:281-283). The catch skips `OperationCanceledException`, so a token that fires part-way stops the broadcast after some recipients, and the exception escapes. The model always delivers to every open socket.
- Hub.HandleClientMessage: a relay cut short by that cancellation is not modelled. In the hub it ends the session after a partial relay; in the model the relay completes. The same holds for a relay that meets a failing recipient (Findings row 3): as written it throws and ends the sender's session.
- Hub.AdmitAsWritten: a cancellation that fires during the join notice, after registration, is not modelled, and neither is a join notice that throws at a failing recipient (Findings row 3). It would leave the same registered user behind as `Hub.CancelledAdmissionLeavesZombie`, after a partial notice. The model's `cancelled` flag interrupts the admission only before the notice.
- Hub.BroadcastDelivers: the hub model uses the corrected broadcast of Findings row 3. As written, the first failing recipient ends the broadcast with an exception, and the later recipients and the broadcast metric are skipped (`Hub.BroadcastAsWritten`).
- Hub.LeaveNoticeReachesTheRest: the leave notice is the corrected broadcast. As written, a failing recipient ends the notice early and the exception escapes from CloseAndRemoveAsync (`Hub.CloseAndRemoveAsWritten`).
- Hub.ChatMessageIsRelayed: the relay is the corrected broadcast. As written, a failing recipient makes the relay throw; the receive loop's catch (chat/LikeLionChat.Server/Services/ChatService.cs:87-95) then ends the sender's own session.
- Hub.SendTo: the send is the corrected one. As written, a failed send throws after the teardown (`Hub.SendToAsWritten`).
- Hub.Admit: the join notice is the corrected broadcast. As written, a failing recipient makes the notice throw before the `try`, which leaves the same registered user behind as a cancellation does (Findings row 2), with no cancellation involved.
- Hub.AdmitJoins: the join notice is the corrected broadcast, so a joined session is never left in the state the exception of Findings row 3 produces.
- Hub.SweepRemovesExactlyTheIdle: each leave notice is the corrected broadcast. As written, a leave notice that meets a failing recipient throws out of CheckIdleClientsAsync; the background loop (chat/LikeLionChat.Server/Services/ChatService.cs:34-41) logs it, and the idle sessions not yet closed wait for the next tick, 15 seconds later.
- Gateway.AcceptedRequestJoins: the join it promises is the corrected one of Findings rows 2 and 3. As written, the join notice can throw before the `try` and leave the user registered.
- Auth.Authenticate / TicketRepository.GetUserByTicket: a lookup that throws is not modelled. `ThrowIfCancellationRequested` (chat-server/Repositories/TicketRepository.cs:31) and a failing `HashGetAllAsync` (:35) throw. Neither `AuthenticateAsync` (chat-server/Services/AuthService.cs:18) nor its caller (chat-server/Program.cs:48) catches them, so the request fails with neither a 401 nor a failure metric. The model answers only with a user or an invalid ticket.
- TicketRepository.GetUserByTicket: a cancelled lookup and a store that fails during `HashGetAllAsync` are not modelled; the model's lookup always returns a user or none.
- Real concurrency is not modelled. This covers the concurrent dictionary, the per-socket send lock, and the interleaving of the receive loops with the idle sweep. Each hub operation is one atomic transition.
- WebSocket framing, buffer sizes and message reassembly are not modelled. A received item is a whole, already-decoded frame.
- JSON serialisation and naming policies are left out. Messages are datatypes, and the client's `JSON.stringify` and `String()` are parameters.
- Metrics are modelled only as the calls the hub makes. Counters, histograms and tracing are left out.
- The order in which the registry is enumerated is left out. The registry is a sequence in registration order; the C# dictionary gives no order.
- The 5-second time-out of the ticket consumption and the store's own errors are left out. Each is reduced to the `reachable` flag, which the repository's swallow-and-log makes equivalent.
- Store errors other than "unreachable" are left out: WRONGTYPE replies and partial failures of a multi-command write. The publisher's failure is all or nothing.
- JavaScript's `toUpperCase` is modelled on ASCII letters plus the listed special characters (ı, ſ, ß and the ligatures ﬀ to ﬆ). Other non-ASCII letters are left unchanged. `ToUpperJsOfPlain` states the ASCII case only.
- The wiring of `chat-server/RedisTicketRepository.cs` in `chat-server/Program.cs` is not modelled.
  - The ticket keys are a parameter (`TicketRepository.TicketKeys`), because the chat side and the queue side use different prefixes for the waiting user's hash.
  - The chat side uses `queue:waiting:user:`, while the queue side uses `queue:waiting:meta:`.
- The integers are unbounded, so Java `long` overflow is not modelled. This covers the scheduler's capacity arithmetic, the `(int)` cast in the batch size, `Duration.toMillis` and `Instant.plus`. Only `Long.parseLong` is bounded, as in Java.
- `Long.parseLong` is modelled on ASCII digits only, and the `Number` branch of `parseLong` is left out, because the store hands back strings.
- `Scheduler.ProcessQueue` does not model an exception in the middle of a cycle. The source logs and swallows such an exception, and a later tick starts afresh.
- Sorted-set scores are integers in the model, where the store keeps them as doubles. Every score the services write is an epoch millisecond.
- Spring's `expire(key, Duration)` is taken to send whole milliseconds, so a positive TTL under a millisecond deletes the key.
- Random UUIDs, the system clock, `Instant.parse` and `Instant.now` are parameters of the operations that use them (`Scheduler.Environment`).
- QueueRedisRepository, QueueManagerRedisRepository, QueueController, the Spring applications, OpenTelemetry configuration and the client UIs (the TypeScript app and the WinForms client) are not part of this model.
- Nickname validation in the queue controller is not part of this model. `QueueApi.Enqueue` accepts any nickname it is given.

## Findings

| source | as written | input that shows it | evidently intended | confidence | as-written member | corrected member |
|---|---|---|---|---|---|---|
| chat-server/Services/ServerStatusService.cs:39-49 | the last published soft and max caps are recorded before the write is issued, so a write that fails still counts as published | first publish fails because the store is down; the second publish, with the same options, succeeds but writes only `current_users`, and the caps never reach the store | record the caps as published only after the write succeeds | not executed | StatusPublisher.AsWrittenLosesCaps | StatusPublisher.CorrectedPublishesCaps |
| chat/LikeLionChat.Server/Services/ChatService.cs:62-81 | the session is registered before the `try`, and the calls between (ticket consumption, status update, join notice) can throw on cancellation; the `finally` that removes the entry is never reached (the same holds for chat-server/Services/ChatService.cs:49-64) | a request cancelled right after registration leaves its user registered with a dead socket (so does, with no cancellation at all, a join notice that meets a failing recipient: the ObjectDisposedException of Findings row 3 escapes before the `try`), so the user's later requests are refused with 409 until the idle sweep removes the dead session, about two minutes later | start the try/finally right after the registration succeeds | not executed | Hub.CancelledAdmissionLeavesZombie | Hub.SessionEndsExactlyOnce |
| chat/LikeLionChat.Server/Services/ChatService.cs:318-338 | when a send fails, the catch calls CloseAndRemoveAsync, which disposes that session's send lock (:371); the `finally` then releases the disposed lock, which throws ObjectDisposedException, so the broadcast stops there and `RecordBroadcast` (:341) is skipped (the same holds for SendAsync at :274-286 and for chat-server/Services/ChatService.cs:285-297 and :236-248, with the dispose at :321) | three sessions a (open), b (failing), c (open): a gets the envelope, b is removed, c never gets it, and the exception escapes to the caller | release the lock only while the session still owns it (or do not dispose it in CloseAndRemoveAsync), so delivery goes on | not executed | Hub.BroadcastAbortsAtFailure | Hub.BroadcastDelivers |
