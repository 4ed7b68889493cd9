/** The store keys the two queue services share
    (queue/queue-common/.../QueueRedisKeys.java).

    The manager also uses a joining set and a ticket-hash prefix that the
    shared class does not define; they are kept as a parameter. */
module QueueKeys {

  const WaitingQueue := "queue:waiting"
  const WaitingMetaPrefix := "queue:waiting:meta:"
  const UserStatusPrefix := "queue:user-status:"
  const GrantedTicketPrefix := "queue:granted:"
  const ServerStatusKey := "server:status"

  /** JOINING_TICKETS (the sorted set of issued ticket ids, scored by expiry)
      and JOINING_TICKET_PREFIX (the prefix of each ticket's hash). */
  datatype JoiningKeys = JoiningKeys(joiningTickets: string, joiningTicketPrefix: string)

  /** The hash holding a waiting user's meta data. */
  function MetaKey(userId: string): (k: string)
    ensures |k| == |WaitingMetaPrefix| + |userId|
    ensures k[..|WaitingMetaPrefix|] == WaitingMetaPrefix && k[|WaitingMetaPrefix|..] == userId
  {
    WaitingMetaPrefix + userId
  }

  function TicketKey(jk: JoiningKeys, ticketId: string): string {
    jk.joiningTicketPrefix + ticketId
  }

  /** Meta keys never name the waiting set or the status hash, and each user
      has a meta key of their own. */
  lemma MetaKeysApart(u: string, v: string)
    ensures MetaKey(u) != WaitingQueue && MetaKey(u) != ServerStatusKey
    ensures MetaKey(u) == MetaKey(v) <==> u == v
  {
    assert |MetaKey(u)| > |WaitingQueue|;
    if MetaKey(u) == MetaKey(v) {
      assert u == MetaKey(u)[|WaitingMetaPrefix|..];
    }
  }
}
