/** The chat server's status publisher (chat-server/Services/ServerStatusService.cs):
    it writes the user count and the capacity caps into the hash
    "server:status", rewriting the caps only when they differ from the pair it
    last published. */
module StatusPublisher {
  import opened Wrappers
  import opened Text
  import opened KvStore

  /** ChatServerOptions: the configured caps. */
  datatype ChatServerOptions = ChatServerOptions(softCap: int, maxCap: int)

  const DefaultOptions := ChatServerOptions(100, 150)

  const ServerStatusKey := "server:status"

  datatype Caps = Caps(softCap: int, maxCap: int)

  /** The caps published for the options: a non-positive soft cap falls back
      to the max cap (at least 1), a non-positive max cap to the soft cap. */
  function EffectiveCaps(o: ChatServerOptions): (c: Caps)
    ensures c.softCap >= 1 && c.maxCap >= 1
    ensures o.softCap > 0 ==> c.softCap == o.softCap
    ensures o.softCap <= 0 && o.maxCap > 0 ==> c.softCap == o.maxCap
    ensures o.maxCap > 0 ==> c.maxCap == o.maxCap
    ensures o.maxCap <= 0 ==> c.maxCap == c.softCap
    ensures o.softCap <= 0 && o.maxCap <= 0 ==> c == Caps(1, 1)
  {
    var soft := if o.softCap > 0 then o.softCap else if o.maxCap > 1 then o.maxCap else 1;
    var max := if o.maxCap > 0 then o.maxCap else soft;
    Caps(soft, max)
  }

  lemma DefaultCaps()
    ensures EffectiveCaps(DefaultOptions) == Caps(100, 150)
  {
  }

  /** The pair the publisher last treated as published; null before the
      first publish. */
  datatype Publisher = Publisher(lastSoftCap: Option<int>, lastMaxCap: Option<int>)

  const Fresh := Publisher(None, None)

  datatype Outcome = Done | Cancelled | StoreFailed

  datatype Published = Published(publisher: Publisher, store: Store, outcome: Outcome)

  function UsersField(currentUsers: int): (m: map<string, string>)
    ensures |m| > 0 && m.Keys == {"current_users"}
  {
    var m := map["current_users" := IntToString(currentUsers)];
    assert m.Keys == {"current_users"};
    m
  }

  function CapFields(c: Caps): (m: map<string, string>)
    ensures |m| > 0 && m.Keys == {"soft_cap", "max_cap"}
  {
    var m := map["soft_cap" := IntToString(c.softCap), "max_cap" := IntToString(c.maxCap)];
    assert m.Keys == {"soft_cap", "max_cap"};
    m
  }

  /** The caps differ from the last published pair. */
  predicate Changed(p: Publisher, c: Caps) {
    p.lastSoftCap != Some(c.softCap) || p.lastMaxCap != Some(c.maxCap)
  }

  /** The writes of one publish that reaches the store: the user count, and
      the caps when they changed. */
  function Writes(st: Store, currentUsers: int, c: Caps, changed: bool): Store {
    var st1 := HSet(st, ServerStatusKey, UsersField(currentUsers));
    if changed then HSet(st1, ServerStatusKey, CapFields(c)) else st1
  }

  /** PublishAsync as written: the last-published pair is updated as soon as
      the cap write is issued, before it is known to have succeeded.
      `storeUp` says whether the writes succeed (when they fail, none lands
      and the exception is rethrown). */
  function PublishAsWritten(p: Publisher, o: ChatServerOptions, st: Store, currentUsers: int,
                            cancelled: bool, storeUp: bool): (res: Published)
    ensures cancelled ==> res == Published(p, st, Cancelled)
    ensures !cancelled && !storeUp ==> res.store == st && res.outcome == StoreFailed
    ensures !cancelled ==>
      res.publisher == Publisher(Some(EffectiveCaps(o).softCap), Some(EffectiveCaps(o).maxCap))
    ensures !cancelled && storeUp ==>
      && res.outcome == Done
      && HGet(res.store, ServerStatusKey, "current_users") == Some(IntToString(currentUsers))
    ensures !cancelled && storeUp && Changed(p, EffectiveCaps(o)) ==>
      && HGet(res.store, ServerStatusKey, "soft_cap") == Some(IntToString(EffectiveCaps(o).softCap))
      && HGet(res.store, ServerStatusKey, "max_cap") == Some(IntToString(EffectiveCaps(o).maxCap))
    ensures !cancelled && storeUp && !Changed(p, EffectiveCaps(o)) ==>
      forall f :: f != "current_users" ==> HGet(res.store, ServerStatusKey, f) == HGet(st, ServerStatusKey, f)
    ensures forall k :: k != ServerStatusKey ==> (k in res.store.data <==> k in st.data)
    ensures forall k :: k != ServerStatusKey && k in st.data ==> res.store.data[k] == st.data[k]
  {
    if cancelled then Published(p, st, Cancelled)
    else
      var c := EffectiveCaps(o);
      var changed := Changed(p, c);
      var p' := if changed then Publisher(Some(c.softCap), Some(c.maxCap)) else p;
      if !storeUp then Published(p', st, StoreFailed)
      else Published(p', Writes(st, currentUsers, c, changed), Done)
  }

  /** PublishAsync with the last-published pair updated only once the write
      has succeeded. */
  function Publish(p: Publisher, o: ChatServerOptions, st: Store, currentUsers: int,
                   cancelled: bool, storeUp: bool): (res: Published)
    ensures cancelled ==> res == Published(p, st, Cancelled)
    ensures !cancelled && !storeUp ==> res == Published(p, st, StoreFailed)
    ensures !cancelled && storeUp ==>
      && res.outcome == Done
      && HGet(res.store, ServerStatusKey, "current_users") == Some(IntToString(currentUsers))
      && res.publisher == Publisher(Some(EffectiveCaps(o).softCap), Some(EffectiveCaps(o).maxCap))
    ensures ValidStore(st) ==> ValidStore(res.store)
    ensures forall k :: k != ServerStatusKey ==> (k in res.store.data <==> k in st.data)
    ensures forall k :: k != ServerStatusKey && k in st.data ==> res.store.data[k] == st.data[k]
  {
    if cancelled then Published(p, st, Cancelled)
    else
      var c := EffectiveCaps(o);
      if !storeUp then Published(p, st, StoreFailed)
      else
        var changed := Changed(p, c);
        var p' := if changed then Publisher(Some(c.softCap), Some(c.maxCap)) else p;
        Published(p', Writes(st, currentUsers, c, changed), Done)
  }

  /** The two versions differ only when the store fails: a publish that
      reaches the store does the same under both. */
  lemma AsWrittenAgreesOnSuccess(p: Publisher, o: ChatServerOptions, st: Store, currentUsers: int,
                                 cancelled: bool)
    ensures PublishAsWritten(p, o, st, currentUsers, cancelled, true) == Publish(p, o, st, currentUsers, cancelled, true)
  {
  }

  /** The store shows the pair the publisher believes it published. */
  predicate Consistent(p: Publisher, st: Store) {
    && (p.lastSoftCap.Some? <==> p.lastMaxCap.Some?)
    && (p.lastSoftCap.Some? ==>
          && HGet(st, ServerStatusKey, "soft_cap") == Some(IntToString(p.lastSoftCap.value))
          && HGet(st, ServerStatusKey, "max_cap") == Some(IntToString(p.lastMaxCap.value)))
  }

  /** Publishing keeps the publisher's belief true of the store, whatever
      fails; after a publish that succeeds the store shows the current caps. */
  lemma PublishKeepsConsistent(p: Publisher, o: ChatServerOptions, st: Store, currentUsers: int,
                               cancelled: bool, storeUp: bool)
    requires Consistent(p, st)
    ensures var res := Publish(p, o, st, currentUsers, cancelled, storeUp);
      && Consistent(res.publisher, res.store)
      && (res.outcome == Done ==>
            && HGet(res.store, ServerStatusKey, "soft_cap") == Some(IntToString(EffectiveCaps(o).softCap))
            && HGet(res.store, ServerStatusKey, "max_cap") == Some(IntToString(EffectiveCaps(o).maxCap)))
  {
  }

  /** A repeat publish with unchanged options writes only the user count. */
  lemma RepeatWritesOnlyUsers(p: Publisher, o: ChatServerOptions, st: Store, n: int, m: int)
    ensures var first := Publish(p, o, st, n, false, true);
      var second := Publish(first.publisher, o, first.store, m, false, true);
      && second.publisher == first.publisher
      && HGetAll(second.store, ServerStatusKey)
         == HGetAll(first.store, ServerStatusKey)["current_users" := IntToString(m)]
  {
    var first := Publish(p, o, st, n, false, true);
    var c := EffectiveCaps(o);
    assert !Changed(first.publisher, c);
    var second := Publish(first.publisher, o, first.store, m, false, true);
    assert second.store == HSet(first.store, ServerStatusKey, UsersField(m));
    MergeOneField(HGetAll(first.store, ServerStatusKey), "current_users", IntToString(m));
  }

  /** Merging a one-field map is updating that field. */
  lemma MergeOneField(h: map<string, string>, f: string, v: string)
    ensures h + map[f := v] == h[f := v]
  {
  }

  /** As written, a failed first publish followed by a successful one leaves
      the caps unpublished: the second call believes they already are. */
  lemma AsWrittenLosesCaps(o: ChatServerOptions, n: int)
    ensures var first := PublishAsWritten(Fresh, o, Empty, n, false, false);
      var second := PublishAsWritten(first.publisher, o, first.store, n, false, true);
      && first.outcome == StoreFailed
      && second.outcome == Done
      && HGet(second.store, ServerStatusKey, "soft_cap").None?
      && !Consistent(second.publisher, second.store)
  {
    var first := PublishAsWritten(Fresh, o, Empty, n, false, false);
    var second := PublishAsWritten(first.publisher, o, first.store, n, false, true);
    assert !Changed(first.publisher, EffectiveCaps(o));
    assert HGetAll(second.store, ServerStatusKey) == map[] + UsersField(n);
  }

  /** With the pair recorded only on success, the same two calls publish the
      caps. */
  lemma CorrectedPublishesCaps(o: ChatServerOptions, n: int)
    ensures var first := Publish(Fresh, o, Empty, n, false, false);
      var second := Publish(first.publisher, o, first.store, n, false, true);
      && first.outcome == StoreFailed
      && second.outcome == Done
      && HGet(second.store, ServerStatusKey, "soft_cap") == Some(IntToString(EffectiveCaps(o).softCap))
  {
    PublishKeepsConsistent(Fresh, o, Empty, n, false, false);
    PublishKeepsConsistent(Fresh, o, Empty, n, false, true);
  }
}
