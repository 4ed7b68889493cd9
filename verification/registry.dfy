/** The hub's client dictionary: one entry per connected user, keyed by user
    id (ordinal comparison), each holding the connection's id, its user, the
    time of its last text frame and the state of its socket.

    The dictionary is a sequence in enumeration order. Its invariant `Valid`
    is the hub's central promise: at most one session per user. */
module Registry {
  import opened Wrappers
  import opened Protocol

  type ConnId = nat

  /** The socket as the hub sees it. `Failing` reports the Open state, but a
      write to it throws; `Closed` also stands for Aborted and disposed. */
  datatype Socket = Open | Failing | CloseReceived | Closed

  /** True of the states the .NET socket reports as Open. */
  predicate ReportsOpen(s: Socket) {
    s == Open || s == Failing
  }

  datatype Conn = Conn(id: ConnId, user: User, lastSeen: int, socket: Socket)

  type Registry = seq<Conn>

  /** (connection id, user id) of an entry: what identifies one session. */
  function Tag(c: Conn): (ConnId, string) {
    (c.id, c.user.userId)
  }

  function UserIds(r: Registry): (us: seq<string>)
    ensures |us| == |r|
    ensures forall i :: 0 <= i < |r| ==> us[i] == r[i].user.userId
  {
    if |r| == 0 then [] else [r[0].user.userId] + UserIds(r[1..])
  }

  function Tags(r: Registry): (ts: seq<(ConnId, string)>)
    ensures |ts| == |r|
    ensures forall i :: 0 <= i < |r| ==> ts[i] == Tag(r[i])
  {
    if |r| == 0 then [] else [Tag(r[0])] + Tags(r[1..])
  }

  /** At most one session per user. */
  predicate Valid(r: Registry) {
    forall i, j :: 0 <= i < j < |r| ==> r[i].user.userId != r[j].user.userId
  }

  /** A registry is valid exactly when its tail is and its head's user does
      not occur in the tail. */
  lemma ValidCons(r: Registry)
    requires |r| > 0
    ensures Valid(r) <==> Valid(r[1..]) && r[0].user.userId !in UserIds(r[1..])
  {
    if Valid(r[1..]) && r[0].user.userId !in UserIds(r[1..]) {
      forall i, j | 0 <= i < j < |r| ensures r[i].user.userId != r[j].user.userId {
        if i > 0 {
          assert r[i] == r[1..][i - 1] && r[j] == r[1..][j - 1];
        } else {
          assert UserIds(r[1..])[j - 1] == r[j].user.userId;
        }
      }
    }
    if Valid(r) {
      assert forall i, j :: 0 <= i < j < |r| - 1 ==> r[1..][i] == r[i + 1] && r[1..][j] == r[j + 1];
    }
  }

  /** A user with no entry has no session tag either. */
  lemma AbsentUserHasNoTag(r: Registry, u: string, id: ConnId)
    requires u !in UserIds(r)
    ensures (id, u) !in Tags(r)
  {
    forall i | 0 <= i < |r| ensures Tags(r)[i].1 != u {
      assert Tags(r)[i].1 == UserIds(r)[i];
    }
  }

  /** Keeping the head of a valid registry in front of entries drawn from
      its tail keeps the registry valid. */
  lemma KeepHead(r: Registry, t: Registry)
    requires |r| > 0
    requires forall x :: x in t ==> x in r[1..]
    requires Valid(r[1..]) ==> Valid(t)
    ensures Valid(r) ==> Valid(t) && Valid([r[0]] + t)
  {
    if Valid(r) {
      ValidCons(r);
      forall j | 0 <= j < |t| ensures UserIds(t)[j] != r[0].user.userId {
        assert t[j] in t;
        var k :| 0 <= k < |r[1..]| && r[1..][k] == t[j];
        assert r[k + 1] == t[j];
      }
      assert ([r[0]] + t)[1..] == t;
      ValidCons([r[0]] + t);
    }
  }

  /** IsUserConnected / ContainsKey. */
  predicate IsConnected(r: Registry, u: string) {
    u in UserIds(r)
  }

  /** The entry registered for `u`. */
  function Find(r: Registry, u: string): (c: Option<Conn>)
    ensures c.Some? <==> u in UserIds(r)
    ensures c.Some? ==> c.value in r && c.value.user.userId == u
  {
    if |r| == 0 then None
    else if r[0].user.userId == u then Some(r[0])
    else Find(r[1..], u)
  }

  /** In a valid registry, the entry of a user is the one `Find` returns. */
  lemma {:induction false} FindUnique(r: Registry, x: Conn)
    requires Valid(r) && x in r
    ensures Find(r, x.user.userId) == Some(x)
  {
    ValidCons(r);
    if r[0] != x {
      var i :| 0 <= i < |r| && r[i] == x;
      assert r[1..][i - 1] == x;
      FindUnique(r[1..], x);
    }
  }

  /** The socket state of connection `c` as the hub would read it: its entry's
      state while `c` is the registered session of its user, and Closed once
      it has been removed (a removed socket has been disposed). */
  function CurrentSocket(r: Registry, c: Conn): Socket {
    match Find(r, c.user.userId)
    case Some(x) => if x.id == c.id then x.socket else Closed
    case None => Closed
  }

  /** TryAdd: the new entry joins only when its user has none. */
  function TryAdd(r: Registry, c: Conn): (res: (Registry, bool))
    requires Valid(r)
    ensures Valid(res.0)
    ensures res.1 <==> !IsConnected(r, c.user.userId)
    ensures res.1 ==> res.0 == r + [c]
    ensures !res.1 ==> res.0 == r
  {
    if IsConnected(r, c.user.userId) then (r, false)
    else
      assert Valid(r + [c]) by {
        forall i, j | 0 <= i < j < |r + [c]| ensures (r + [c])[i].user.userId != (r + [c])[j].user.userId {
          if j == |r| {
            assert UserIds(r)[i] == r[i].user.userId;
          }
        }
      }
      (r + [c], true)
  }

  // ---------------------------------------------------------------------
  // Removal

  /** TryRemove: the registry without the entry of `u`. */
  function Remove(r: Registry, u: string): (res: Registry)
    ensures forall x :: x in res <==> x in r && x.user.userId != u
    ensures u !in UserIds(res)
    ensures |res| <= |r|
    ensures u in UserIds(r) ==> |res| < |r|
    ensures u !in UserIds(r) ==> res == r
    ensures Valid(r) ==> Valid(res)
  {
    if |r| == 0 then []
    else
      var t := Remove(r[1..], u);
      KeepHead(r, t);
      if r[0].user.userId == u then t else [r[0]] + t
  }

  /** Removing a user's entry removes exactly that entry's session tag. */
  lemma RemoveTags(r: Registry, x: Conn)
    requires Valid(r) && x in r
    ensures multiset(Tags(r)) == multiset(Tags(Remove(r, x.user.userId))) + multiset{Tag(x)}
  {
    ValidIsDistinct(r);
    DistinctRemoveTags(r, x);
  }

  /** At most one session per user, stated entry by entry. */
  predicate Distinct(r: Registry) {
    |r| == 0 || (r[0].user.userId !in UserIds(r[1..]) && Distinct(r[1..]))
  }

  lemma {:induction false} ValidIsDistinct(r: Registry)
    ensures Valid(r) <==> Distinct(r)
  {
    if |r| > 0 {
      ValidCons(r);
      ValidIsDistinct(r[1..]);
    }
  }

  lemma {:induction false} DistinctRemoveTags(r: Registry, x: Conn)
    requires Distinct(r) && x in r
    ensures multiset(Tags(r)) == multiset(Tags(Remove(r, x.user.userId))) + multiset{Tag(x)}
  {
    if r[0] == x {
      RemoveTagsOfHead(r);
    } else {
      var i :| 0 <= i < |r| && r[i] == x;
      assert r[1..][i - 1] == x;
      DistinctRemoveTags(r[1..], x);
      RemoveTagsOfLater(r, x, i);
      TagsUnfold(r);
      AddInFront(multiset{Tag(r[0])}, multiset(Tags(r[1..])),
                 multiset(Tags(Remove(r[1..], x.user.userId))), multiset{Tag(x)});
    }
  }

  lemma RemoveTagsOfHead(r: Registry)
    requires Distinct(r) && |r| > 0
    ensures multiset(Tags(r)) == multiset(Tags(Remove(r, r[0].user.userId))) + multiset{Tag(r[0])}
  {
    TagsUnfold(r);
    assert Remove(r, r[0].user.userId) == r[1..];
  }

  lemma RemoveTagsOfLater(r: Registry, x: Conn, i: nat)
    requires Distinct(r) && 0 < i < |r| && r[i] == x
    ensures multiset(Tags(Remove(r, x.user.userId))) == multiset{Tag(r[0])} + multiset(Tags(Remove(r[1..], x.user.userId)))
  {
    var t := Remove(r[1..], x.user.userId);
    assert UserIds(r[1..])[i - 1] == x.user.userId;
    assert Remove(r, x.user.userId) == [r[0]] + t;
    TagsCons(r[0], t);
  }

  lemma AddInFront<T>(m: multiset<T>, a: multiset<T>, b: multiset<T>, y: multiset<T>)
    requires a == b + y
    ensures m + a == (m + b) + y
  {
  }

  lemma TagsUnfold(r: Registry)
    requires |r| > 0
    ensures multiset(Tags(r)) == multiset{Tag(r[0])} + multiset(Tags(r[1..]))
  {
    assert Tags(r) == [Tag(r[0])] + Tags(r[1..]);
  }

  /** Removing the head's user of a valid registry leaves its tail. */
  lemma RemoveHead(r: Registry)
    requires |r| > 0 && Valid(r)
    ensures Remove(r, r[0].user.userId) == r[1..]
  {
    ValidCons(r);
  }

  /** Removing the user of a later entry keeps the head. */
  lemma RemoveLater(r: Registry, x: Conn, i: nat)
    requires Valid(r) && 0 < i < |r| && r[i] == x
    ensures Remove(r, x.user.userId) == [r[0]] + Remove(r[1..], x.user.userId)
  {
    assert r[0].user.userId != r[i].user.userId;
  }

  /** Removing a registered user removes one entry. */
  lemma RemoveCount(r: Registry, x: Conn)
    requires Valid(r) && x in r
    ensures |Remove(r, x.user.userId)| == |r| - 1
  {
    RemoveTags(r, x);
    assert |multiset(Tags(r))| == |r|;
    assert |multiset(Tags(Remove(r, x.user.userId)))| == |Remove(r, x.user.userId)|;
  }

  lemma TagsCons(y: Conn, t: Registry)
    ensures multiset(Tags([y] + t)) == multiset{Tag(y)} + multiset(Tags(t))
  {
    assert ([y] + t)[1..] == t;
  }

  /** Every tag left after a removal was there before. */
  lemma {:induction false} RemoveTagsSub(r: Registry, u: string)
    ensures multiset(Tags(Remove(r, u))) <= multiset(Tags(r))
  {
    if |r| > 0 {
      RemoveTagsSub(r[1..], u);
      assert Tags(r) == [Tag(r[0])] + Tags(r[1..]);
      if r[0].user.userId != u {
        assert Tags([r[0]] + Remove(r[1..], u)) == [Tag(r[0])] + Tags(Remove(r[1..], u));
      }
    }
  }

  // ---------------------------------------------------------------------
  // Entries whose socket fails

  /** The registry without its failing entries: what is left after every
      failing entry has been evicted. */
  function Healthy(r: Registry): (res: Registry)
    ensures forall x :: x in res <==> x in r && x.socket != Failing
    ensures |res| <= |r|
    ensures Valid(r) ==> Valid(res)
    ensures multiset(Tags(res)) <= multiset(Tags(r))
    ensures (forall x :: x in r ==> x.socket != Failing) ==> res == r
  {
    if |r| == 0 then []
    else
      var t := Healthy(r[1..]);
      KeepHead(r, t);
      HeadTail(r);
      ConsIn(r[0], t);
      TagsUnfold(r);
      TagsCons(r[0], t);
      SubInFront(multiset{Tag(r[0])}, multiset(Tags(t)), multiset(Tags(r[1..])));
      if r[0].socket == Failing then t else [r[0]] + t
  }

  /** A non-empty registry is its head followed by its tail. */
  lemma HeadTail(r: Registry)
    requires |r| > 0
    ensures r == [r[0]] + r[1..]
    ensures forall x :: x in r <==> x == r[0] || x in r[1..]
  {
    assert r == [r[0]] + r[1..];
  }

  lemma ConsIn(y: Conn, t: Registry)
    ensures forall x :: x in [y] + t <==> x == y || x in t
  {
  }

  lemma SubInFront<T>(m: multiset<T>, a: multiset<T>, b: multiset<T>)
    requires a <= b
    ensures m + a <= m + b && a <= m + b
  {
  }

  lemma {:induction false} HealthyIdempotent(r: Registry)
    ensures Healthy(Healthy(r)) == Healthy(r)
  {
    if |r| > 0 {
      HealthyIdempotent(r[1..]);
      if r[0].socket != Failing {
        assert ([r[0]] + Healthy(r[1..]))[1..] == Healthy(r[1..]);
      }
    }
  }

  /** Evicting a failing entry by user id, then the rest of the failing
      entries, is evicting the failing entries. */
  lemma {:induction false} HealthyAfterRemovingFailing(r: Registry, x: Conn)
    requires Valid(r) && x in r && x.socket == Failing
    ensures Healthy(Remove(r, x.user.userId)) == Healthy(r)
  {
    ValidCons(r);
    var u := x.user.userId;
    var i :| 0 <= i < |r| && r[i] == x;
    if i == 0 {
      assert u !in UserIds(r[1..]);
      assert Remove(r, u) == Remove(r[1..], u) == r[1..];
      assert Healthy(r) == Healthy(r[1..]);
    } else {
      assert r[1..][i - 1] == x;
      assert UserIds(r[1..])[i - 1] == u;
      assert r[0].user.userId != u;
      HealthyAfterRemovingFailing(r[1..], x);
      var t := Remove(r[1..], u);
      assert Remove(r, u) == [r[0]] + t;
      assert ([r[0]] + t)[1..] == t;
      assert Healthy([r[0]] + t) == if r[0].socket == Failing then Healthy(t) else [r[0]] + Healthy(t);
      assert Healthy(r) == if r[0].socket == Failing then Healthy(r[1..]) else [r[0]] + Healthy(r[1..]);
    }
  }

  /** Connections that are not failing read the same state once the failing
      ones are gone; failing ones read Closed. */
  lemma CurrentSocketHealthy(r: Registry, c: Conn)
    requires Valid(r)
    ensures CurrentSocket(Healthy(r), c)
         == (if CurrentSocket(r, c) == Failing then Closed else CurrentSocket(r, c))
  {
    var u := c.user.userId;
    match Find(r, u)
    case None =>
      SubUsers(r, Healthy(r), u);
    case Some(x) =>
      if x.socket == Failing {
        GoneUser(r, Healthy(r), x);
      } else {
        FindUnique(Healthy(r), x);
      }
  }

  /** Entries drawn from a valid registry whose entry `x` is not among them
      do not hold `x`'s user. */
  lemma GoneUser(r: Registry, s: Registry, x: Conn)
    requires Valid(r) && x in r && x !in s
    requires forall y :: y in s ==> y in r
    ensures !IsConnected(s, x.user.userId)
  {
    forall j | 0 <= j < |s| ensures UserIds(s)[j] != x.user.userId {
      FindUnique(r, s[j]);
      FindUnique(r, x);
    }
  }

  /** Users absent from a registry are absent from entries drawn from it. */
  lemma SubUsers(r: Registry, s: Registry, u: string)
    requires !IsConnected(r, u)
    requires forall y :: y in s ==> y in r
    ensures !IsConnected(s, u)
  {
    forall j | 0 <= j < |s| ensures UserIds(s)[j] != u {
      assert s[j] in s;
      var i :| 0 <= i < |r| && r[i] == s[j];
      assert UserIds(r)[i] == s[j].user.userId;
    }
  }

  /** After removing user `u`, `u`'s connections read Closed and everyone
      else's state is unchanged. */
  lemma CurrentSocketRemove(r: Registry, u: string, c: Conn)
    requires Valid(r)
    ensures CurrentSocket(Remove(r, u), c)
         == (if c.user.userId == u then Closed else CurrentSocket(r, c))
  {
    var v := c.user.userId;
    var t := Remove(r, u);
    if v != u {
      match Find(r, v)
      case None =>
        SubUsers(r, t, v);
      case Some(x) =>
        assert x in t;
        FindUnique(t, x);
    }
  }

  // ---------------------------------------------------------------------
  // Updating one entry in place

  /** The registry with the entry of `x`'s session replaced by `x`. */
  function Replace(r: Registry, x: Conn): (res: Registry)
    ensures |res| == |r|
    ensures forall i :: 0 <= i < |r| ==> res[i] == if Tag(r[i]) == Tag(x) then x else r[i]
    ensures Tags(res) == Tags(r)
    ensures UserIds(res) == UserIds(r)
    ensures Valid(r) ==> Valid(res)
  {
    var res := seq(|r|, i requires 0 <= i < |r| => if Tag(r[i]) == Tag(x) then x else r[i]);
    assert Tags(res) == Tags(r);
    assert UserIds(res) == UserIds(r);
    res
  }

  /** Touch: the session's entry records a new last-seen time. */
  function Touch(r: Registry, c: Conn, now: int): (res: Registry)
    requires Valid(r)
    ensures Valid(res)
    ensures Tags(res) == Tags(r)
    ensures forall x :: x in r && Tag(x) != Tag(c) ==> x in res
    ensures CurrentSocket(r, c) != Closed ==>
      exists x :: x in res && Tag(x) == Tag(c) && x.lastSeen == now
  {
    match Find(r, c.user.userId)
    case Some(x) =>
      if x.id == c.id then
        var y := Conn(x.id, x.user, now, x.socket);
        var res := Replace(r, y);
        assert y in res by {
          var i :| 0 <= i < |r| && r[i] == x;
        }
        assert forall z :: z in r && Tag(z) != Tag(c) ==> z in res by {
          forall z | z in r && Tag(z) != Tag(c) ensures z in res {
            var i :| 0 <= i < |r| && r[i] == z;
            assert res[i] == z;
          }
        }
        res
      else r
    case None => r
  }

  /** The session's socket moves to state `s` (a close frame arrived, or the
      read failed). */
  function SetSocket(r: Registry, c: Conn, s: Socket): (res: Registry)
    requires Valid(r)
    ensures Valid(res)
    ensures Tags(res) == Tags(r)
    ensures CurrentSocket(r, c) != Closed ==> CurrentSocket(res, c) == s
  {
    match Find(r, c.user.userId)
    case Some(x) =>
      if x.id == c.id then
        var y := Conn(x.id, x.user, x.lastSeen, s);
        var res := Replace(r, y);
        assert y in res by {
          var i :| 0 <= i < |r| && r[i] == x;
        }
        FindUnique(res, y);
        res
      else r
    case None => r
  }
}
