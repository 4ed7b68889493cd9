/** The shared key-value store both services talk to (Redis / Valkey),
    reduced to the two value types the core uses: hashes and sorted sets.

    A sorted set is kept as the sequence of its entries in the store's own
    order (ascending score, ties broken by the member's bytes), so that rank
    is an index and a range is a slice, and two sets with the same entries
    are the same value. Key expiry is kept as inert metadata: the model never
    lets time pass, it only records which relative TTL a key was given. */
module KvStore {
  import opened Wrappers
  import opened Text

  // ---------------------------------------------------------------------
  // Sorted-set entries and their order

  datatype Entry = Entry(member: string, score: int)

  /** The order of a sorted set: by score, then by member. */
  predicate Before(x: Entry, y: Entry) {
    x.score < y.score || (x.score == y.score && StrLess(x.member, y.member))
  }

  lemma BeforeIrreflexive(x: Entry)
    ensures !Before(x, x)
  {
    StrLessIrreflexive(x.member);
  }

  lemma BeforeTransitive(x: Entry, y: Entry, w: Entry)
    requires Before(x, y) && Before(y, w)
    ensures Before(x, w)
  {
    if x.score == y.score == w.score {
      StrLessTransitive(x.member, y.member, w.member);
    }
  }

  lemma BeforeAsymmetric(x: Entry, y: Entry)
    requires Before(x, y)
    ensures !Before(y, x)
  {
    if x.score == y.score {
      StrLessAsymmetric(x.member, y.member);
    }
  }

  lemma BeforeTotal(x: Entry, y: Entry)
    requires x.member != y.member
    ensures Before(x, y) || Before(y, x)
  {
    if x.score == y.score {
      StrLessTotal(x.member, y.member);
    }
  }

  predicate Sorted(z: seq<Entry>) {
    forall i, j :: 0 <= i < j < |z| ==> Before(z[i], z[j])
  }

  predicate UniqueMembers(z: seq<Entry>) {
    forall i, j :: 0 <= i < j < |z| ==> z[i].member != z[j].member
  }

  /** The shape every sorted set in the store has. */
  predicate ValidZSet(z: seq<Entry>) {
    Sorted(z) && UniqueMembers(z)
  }

  /** Prepending an entry that comes before every entry of a valid set, and
      names a different member, keeps the set valid. */
  lemma ConsValid(x: Entry, t: seq<Entry>)
    requires ValidZSet(t)
    requires forall e :: e in t ==> Before(x, e) && e.member != x.member
    ensures ValidZSet([x] + t)
  {
    var r := [x] + t;
    forall i, j | 0 <= i < j < |r| ensures Before(r[i], r[j]) && r[i].member != r[j].member {
      if i == 0 {
        assert r[j] in t;
      } else {
        assert r[i] == t[i - 1] && r[j] == t[j - 1];
      }
    }
  }

  /** The head of a valid set comes before, and differs from, every later entry. */
  lemma HeadBeforeTail(z: seq<Entry>)
    requires ValidZSet(z) && |z| > 0
    ensures ValidZSet(z[1..])
    ensures forall e :: e in z[1..] ==> Before(z[0], e) && e.member != z[0].member
  {
    forall e | e in z[1..] ensures Before(z[0], e) && e.member != z[0].member {
      var j :| 0 <= j < |z[1..]| && z[1..][j] == e;
      assert z[j + 1] == e;
    }
  }

  /** Keeping the head of a set in front of a sub-collection of its tail
      keeps a valid set valid. */
  lemma KeepHeadValid(z: seq<Entry>, rest: seq<Entry>)
    requires |z| > 0
    requires forall e :: e in rest ==> e in z[1..]
    requires ValidZSet(z[1..]) ==> ValidZSet(rest)
    ensures ValidZSet(z) ==> ValidZSet([z[0]] + rest)
  {
    if ValidZSet(z) {
      HeadBeforeTail(z);
      ConsValid(z[0], rest);
    }
  }

  lemma TailValid(z: seq<Entry>)
    requires |z| > 0
    ensures ValidZSet(z) ==> ValidZSet(z[1..])
  {
    if ValidZSet(z) {
      forall i, j | 0 <= i < j < |z| - 1
        ensures Before(z[1..][i], z[1..][j]) && z[1..][i].member != z[1..][j].member
      {
        assert z[1..][i] == z[i + 1] && z[1..][j] == z[j + 1];
      }
    }
  }

  function Members(z: seq<Entry>): (ms: seq<string>)
    ensures |ms| == |z|
    ensures forall i :: 0 <= i < |z| ==> ms[i] == z[i].member
  {
    seq(|z|, i requires 0 <= i < |z| => z[i].member)
  }

  // ---------------------------------------------------------------------
  // Operations on one sorted set

  /** ZSCORE: the score of `m`, if it is a member. */
  function ScoreOf(z: seq<Entry>, m: string): (r: Option<int>)
    ensures r.Some? <==> m in Members(z)
    ensures r.Some? ==> Entry(m, r.value) in z
  {
    if |z| == 0 then None
    else if z[0].member == m then Some(z[0].score)
    else
      assert Members(z) == [z[0].member] + Members(z[1..]);
      ScoreOf(z[1..], m)
  }

  /** ZRANK: the zero-based position of `m`, if it is a member. */
  function RankOf(z: seq<Entry>, m: string): (r: Option<nat>)
    ensures r.Some? <==> m in Members(z)
    ensures r.Some? ==> r.value < |z| && z[r.value].member == m
  {
    if |z| == 0 then None
    else if z[0].member == m then Some(0)
    else
      assert Members(z) == [z[0].member] + Members(z[1..]);
      match RankOf(z[1..], m)
      case None => None
      case Some(i) => Some(i + 1)
  }

  /** ZREM of one member. */
  function RemoveMember(z: seq<Entry>, m: string): (r: seq<Entry>)
    ensures forall e :: e in r <==> e in z && e.member != m
    ensures |r| <= |z|
    ensures (forall e :: e in z ==> e.member != m) ==> r == z
  {
    if |z| == 0 then []
    else
      var rest := RemoveMember(z[1..], m);
      assert z == [z[0]] + z[1..];
      if z[0].member == m then rest else [z[0]] + rest
  }

  /** ZREM keeps a sorted set valid. */
  lemma {:induction false} RemoveMemberValid(z: seq<Entry>, m: string)
    requires ValidZSet(z)
    ensures ValidZSet(RemoveMember(z, m))
  {
    if |z| > 0 {
      TailValid(z);
      RemoveMemberValid(z[1..], m);
      KeepHeadValid(z, RemoveMember(z[1..], m));
    }
  }

  /** Inserts an entry for a new member at its place in the order. */
  function Insert(z: seq<Entry>, e: Entry): (r: seq<Entry>)
    requires ValidZSet(z) && e.member !in Members(z)
    ensures ValidZSet(r)
    ensures forall x :: x in r <==> x in z || x == e
    ensures |r| == |z| + 1
  {
    if |z| == 0 then [e]
    else if Before(e, z[0]) then
      forall j | 0 <= j < |z| ensures Before(e, z[j]) {
        if j > 0 { BeforeTransitive(e, z[0], z[j]); }
      }
      [e] + z
    else
      assert z[0].member != e.member;
      BeforeTotal(e, z[0]);
      assert Members(z) == [z[0].member] + Members(z[1..]);
      HeadBeforeTail(z);
      var rest := Insert(z[1..], e);
      ConsValid(z[0], rest);
      [z[0]] + rest
  }

  /** Number of entries of `z` that come before `e` in the order. */
  function CountBefore(z: seq<Entry>, e: Entry): nat {
    if |z| == 0 then 0
    else (if Before(z[0], e) then 1 else 0) + CountBefore(z[1..], e)
  }

  /** ZRANGE 0 n-1: the first `n` members. */
  function FirstMembers(z: seq<Entry>, n: int): (r: seq<string>)
    ensures |r| == if n <= 0 then 0 else if n < |z| then n else |z|
    ensures forall i :: 0 <= i < |r| ==> r[i] == z[i].member
  {
    if n <= 0 then [] else if n < |z| then Members(z[..n]) else Members(z)
  }

  /** ZRANGEBYSCORE lo hi: the members scored in [lo, hi], in order. */
  function MembersInRange(z: seq<Entry>, lo: int, hi: int): (r: seq<string>)
    ensures forall m :: m in r ==> m in Members(z)
    ensures UniqueMembers(z) ==>
      forall i :: 0 <= i < |z| ==> (z[i].member in r <==> lo <= z[i].score <= hi)
    ensures |r| <= |z|
  {
    if |z| == 0 then []
    else
      var rest := MembersInRange(z[1..], lo, hi);
      assert Members(z) == [z[0].member] + Members(z[1..]);
      if lo <= z[0].score <= hi then [z[0].member] + rest else rest
  }

  /** A list of members in which none appears twice. */
  predicate NoDuplicates(ms: seq<string>) {
    forall i, j :: 0 <= i < j < |ms| ==> ms[i] != ms[j]
  }

  /** A range of a set lists each of its members once. */
  lemma {:induction false} MembersInRangeDistinct(z: seq<Entry>, lo: int, hi: int)
    requires UniqueMembers(z)
    ensures NoDuplicates(MembersInRange(z, lo, hi))
  {
    if |z| > 0 {
      MembersInRangeDistinct(z[1..], lo, hi);
      var rest := MembersInRange(z[1..], lo, hi);
      assert z[0].member !in Members(z[1..]) by {
        forall j | 0 <= j < |z| - 1 ensures Members(z[1..])[j] != z[0].member {
          assert z[1..][j] == z[j + 1];
        }
      }
      if lo <= z[0].score <= hi {
        var r := [z[0].member] + rest;
        forall i, j | 0 <= i < j < |r| ensures r[i] != r[j] {
          if i > 0 { assert r[i] == rest[i - 1] && r[j] == rest[j - 1]; }
          else { assert r[j] in rest; }
        }
      }
    }
  }

  /** ZCOUNT lo +inf: how many entries score at least `lo`. */
  function CountFrom(z: seq<Entry>, lo: int): (n: nat)
    ensures n <= |z|
  {
    if |z| == 0 then 0
    else (if z[0].score >= lo then 1 else 0) + CountFrom(z[1..], lo)
  }

  /** When every entry scores at least `lo`, ZCOUNT counts them all. */
  lemma {:induction false} CountFromAll(z: seq<Entry>, lo: int)
    requires forall e :: e in z ==> e.score >= lo
    ensures CountFrom(z, lo) == |z|
  {
    if |z| > 0 {
      assert z[0] in z;
      CountFromAll(z[1..], lo);
    }
  }

  /** The entries ZCOUNT lo +inf selects. */
  function ScoringFrom(z: seq<Entry>, lo: int): set<Entry> {
    set e | e in z && e.score >= lo
  }

  /** In a set whose members are distinct, ZCOUNT counts exactly the
      entries scoring at least `lo`. */
  lemma {:induction false} CountFromCountsEntries(z: seq<Entry>, lo: int)
    requires UniqueMembers(z)
    ensures CountFrom(z, lo) == |ScoringFrom(z, lo)|
  {
    if |z| == 0 {
      assert ScoringFrom(z, lo) == {};
    } else {
      var t := z[1..];
      TailUnique(z);
      CountFromCountsEntries(t, lo);
      ScoringFromCons(z, lo);
    }
  }

  lemma TailUnique(z: seq<Entry>)
    requires UniqueMembers(z) && |z| > 0
    ensures UniqueMembers(z[1..]) && z[0] !in z[1..]
  {
    var t := z[1..];
    forall i, j | 0 <= i < j < |t| ensures t[i].member != t[j].member {
      assert t[i] == z[i + 1] && t[j] == z[j + 1];
    }
    forall j | 0 <= j < |t| ensures t[j] != z[0] {
      assert t[j] == z[j + 1];
    }
  }

  lemma ScoringFromCons(z: seq<Entry>, lo: int)
    requires |z| > 0
    ensures ScoringFrom(z, lo) == (if z[0].score >= lo then {z[0]} else {}) + ScoringFrom(z[1..], lo)
  {
    assert z == [z[0]] + z[1..];
  }

  // ---------------------------------------------------------------------
  // Facts about one sorted set

  /** In a sorted set the rank of an entry is the number of entries before
      it in the store's order: ZRANK agrees with its definition. */
  lemma {:induction false} RankCountsPredecessors(z: seq<Entry>, i: nat)
    requires ValidZSet(z) && i < |z|
    ensures CountBefore(z, z[i]) == i
  {
    if i == 0 {
      BeforeIrreflexive(z[0]);
      NoneBefore(z[1..], z[0]);
    } else {
      assert z[1..][i - 1] == z[i];
      RankCountsPredecessors(z[1..], i - 1);
    }
  }

  lemma {:induction false} NoneBefore(t: seq<Entry>, e: Entry)
    requires forall j :: 0 <= j < |t| ==> Before(e, t[j])
    ensures CountBefore(t, e) == 0
  {
    if |t| > 0 {
      BeforeAsymmetric(e, t[0]);
      NoneBefore(t[1..], e);
    }
  }

  /** The first `n` members come before every member left out. */
  lemma FirstMembersPrecedeTheRest(z: seq<Entry>, n: int, i: int, j: int)
    requires ValidZSet(z)
    requires 0 <= i < |FirstMembers(z, n)| <= j < |z|
    ensures Before(z[i], z[j])
  {
  }

  // ---------------------------------------------------------------------
  // The store

  datatype Value = Hash(fields: map<string, string>) | ZSet(entries: seq<Entry>)

  /** Keys and values, plus the relative expiry (in milliseconds) last set
      on each key that has one. */
  datatype Store = Store(data: map<string, Value>, ttl: map<string, int>)

  const Empty := Store(map[], map[])

  /** The shape the store keeps: no empty hash or set exists (the store
      deletes them), sorted sets are in order, and only existing keys expire. */
  predicate ValidStore(st: Store) {
    && (forall k :: k in st.data && st.data[k].ZSet? ==>
          ValidZSet(st.data[k].entries) && |st.data[k].entries| > 0)
    && (forall k :: k in st.data && st.data[k].Hash? ==> |st.data[k].fields| > 0)
    && st.ttl.Keys <= st.data.Keys
  }

  /** The two stores hold the same keys with the same values, apart from
      the keys in `ks`. */
  ghost predicate AgreeOutside(a: Store, b: Store, ks: set<string>) {
    forall k :: k !in ks ==> (k in a.data <==> k in b.data) && (k in a.data ==> a.data[k] == b.data[k])
  }

  /** Stores that agree outside `ks` read the same at any other key. */
  lemma AgreeOutsideReads(a: Store, b: Store, ks: set<string>, k: string)
    requires AgreeOutside(a, b, ks) && k !in ks
    ensures HGetAll(a, k) == HGetAll(b, k) && ZEntries(a, k) == ZEntries(b, k)
    ensures k in a.data <==> k in b.data
  {
  }

  lemma AgreeAt(a: Store, b: Store, ks: set<string>, k: string)
    requires AgreeOutside(a, b, ks) && k !in ks
    ensures k in a.data <==> k in b.data
    ensures k in a.data ==> a.data[k] == b.data[k]
  {
  }

  /** The time to live recorded for `k`, if any. */
  function TtlOf(st: Store, k: string): Option<int> {
    if k in st.ttl then Some(st.ttl[k]) else None
  }

  /** Stores whose expiry maps differ at most at `k` give every other key
      the same time to live. */
  lemma TtlOutside(a: Store, b: Store, k: string)
    requires a.ttl - {k} == b.ttl - {k}
    ensures forall key :: key != k ==> TtlOf(a, key) == TtlOf(b, key)
  {
    forall key | key != k ensures TtlOf(a, key) == TtlOf(b, key) {
      assert key in a.ttl <==> key in (a.ttl - {k});
      assert key in b.ttl <==> key in (b.ttl - {k});
    }
  }

  lemma AgreeOutsideChain(a: Store, b: Store, c: Store, ks1: set<string>, ks2: set<string>)
    requires AgreeOutside(a, b, ks1) && AgreeOutside(b, c, ks2)
    ensures AgreeOutside(a, c, ks1 + ks2)
  {
  }

  predicate Exists(st: Store, k: string) {
    k in st.data
  }

  /** HGETALL: the fields of the hash at `k`; empty when there is none. */
  function HGetAll(st: Store, k: string): map<string, string> {
    if k in st.data && st.data[k].Hash? then st.data[k].fields else map[]
  }

  /** HGET. */
  function HGet(st: Store, k: string, f: string): (r: Option<string>)
    ensures r.Some? <==> f in HGetAll(st, k)
    ensures r.Some? ==> r.value == HGetAll(st, k)[f]
  {
    var h := HGetAll(st, k);
    if f in h then Some(h[f]) else None
  }

  /** The entries of the sorted set at `k`; empty when there is none. */
  function ZEntries(st: Store, k: string): seq<Entry> {
    if k in st.data && st.data[k].ZSet? then st.data[k].entries else []
  }

  /** DEL: the key and its expiry are gone. */
  function Del(st: Store, k: string): (r: Store)
    ensures !Exists(r, k)
    ensures forall k' :: k' != k ==> (k' in r.data <==> k' in st.data)
    ensures forall k' :: k' != k && k' in st.data ==> r.data[k'] == st.data[k']
    ensures ValidStore(st) ==> ValidStore(r)
  {
    Store(st.data - {k}, st.ttl - {k})
  }

  /** DEL of several keys at once. */
  function DelAll(st: Store, ks: seq<string>): (r: Store)
    ensures forall k :: k in ks ==> !Exists(r, k)
    ensures forall k :: k !in ks ==> (k in r.data <==> k in st.data)
    ensures forall k :: k !in ks && k in st.data ==> r.data[k] == st.data[k]
    ensures ValidStore(st) ==> ValidStore(r)
  {
    var gone := set k | k in ks;
    Store(st.data - gone, st.ttl - gone)
  }

  /** HSET with several fields: merged into the hash at `k` (created if
      absent); the key keeps its expiry. */
  function HSet(st: Store, k: string, fields: map<string, string>): (r: Store)
    requires |fields| > 0
    ensures HGetAll(r, k) == HGetAll(st, k) + fields
    ensures forall k' :: k' != k ==> (k' in r.data <==> k' in st.data)
    ensures forall k' :: k' != k && k' in st.data ==> r.data[k'] == st.data[k']
    ensures r.ttl == st.ttl
    ensures ValidStore(st) ==> ValidStore(r)
  {
    var merged := HGetAll(st, k) + fields;
    assert |merged| > 0 by {
      var f :| f in fields;
      assert f in merged.Keys;
    }
    Store(st.data[k := Hash(merged)], st.ttl)
  }

  /** HSET of one field. */
  function HSetField(st: Store, k: string, f: string, v: string): (r: Store)
    ensures HGetAll(r, k) == HGetAll(st, k)[f := v]
    ensures forall k' :: k' != k ==> (k' in r.data <==> k' in st.data)
    ensures forall k' :: k' != k && k' in st.data ==> r.data[k'] == st.data[k']
    ensures r.ttl == st.ttl
    ensures ValidStore(st) ==> ValidStore(r)
  {
    var m := map[f := v];
    assert f in m.Keys;
    HSet(st, k, m)
  }

  /** EXPIRE / PEXPIRE: records the key's new time to live; a key that does
      not exist is left alone, and a non-positive time deletes the key. */
  function Expire(st: Store, k: string, millis: int): (r: Store)
    ensures r.data == (if millis <= 0 then st.data - {k} else st.data)
    ensures Exists(st, k) && millis > 0 ==> r.ttl == st.ttl[k := millis]
    ensures !Exists(st, k) ==> r == st
    ensures ValidStore(st) ==> ValidStore(r)
  {
    if !Exists(st, k) then st
    else if millis <= 0 then Del(st, k)
    else Store(st.data, st.ttl[k := millis])
  }

  /** Stores a sorted set, deleting the key when the set is empty. */
  function PutZSet(st: Store, k: string, z: seq<Entry>): (r: Store)
    requires ValidZSet(z)
    ensures ZEntries(r, k) == z
    ensures r.ttl - {k} == st.ttl - {k}
    ensures forall k' :: k' != k ==> (k' in r.data <==> k' in st.data)
    ensures forall k' :: k' != k && k' in st.data ==> r.data[k'] == st.data[k']
    ensures ValidStore(st) ==> ValidStore(r)
  {
    if |z| == 0 then Del(st, k) else Store(st.data[k := ZSet(z)], st.ttl)
  }

  /** ZSCORE. */
  function ZScore(st: Store, k: string, m: string): Option<int> {
    ScoreOf(ZEntries(st, k), m)
  }

  /** ZADD of one member: sets its score and reports whether the member is
      new to the set. */
  function ZAdd(st: Store, k: string, m: string, score: int): (r: (Store, bool))
    requires ValidStore(st)
    ensures ValidStore(r.0)
    ensures r.1 <==> ZScore(st, k, m).None?
    ensures ZScore(r.0, k, m) == Some(score)
    ensures r.0.ttl - {k} == st.ttl - {k}
    ensures forall x :: x != m ==> ZScore(r.0, k, x) == ZScore(st, k, x)
    ensures forall k' :: k' != k ==> (k' in r.0.data <==> k' in st.data)
    ensures forall k' :: k' != k && k' in st.data ==> r.0.data[k'] == st.data[k']
  {
    var z := ZEntries(st, k);
    RemoveMemberValid(z, m);
    var z' := Insert(RemoveMember(z, m), Entry(m, score));
    var r := PutZSet(st, k, z');
    forall x | x != m ensures ZScore(r, k, x) == ZScore(st, k, x) {
      UniqueScore(z', x);
      UniqueScore(z, x);
    }
    UniqueScore(z', m);
    (r, ScoreOf(z, m).None?)
  }

  /** A member of a set with unique members has exactly one score. */
  lemma UniqueScore(z: seq<Entry>, m: string)
    requires UniqueMembers(z)
    ensures forall s :: Entry(m, s) in z ==> ScoreOf(z, m) == Some(s)
  {
    forall s | Entry(m, s) in z ensures ScoreOf(z, m) == Some(s) {
      var t := ScoreOf(z, m).value;
      var i :| 0 <= i < |z| && z[i] == Entry(m, s);
      var j :| 0 <= j < |z| && z[j] == Entry(m, t);
      assert i == j;
    }
  }

  /** ZREM of several members. */
  function ZRem(st: Store, k: string, ms: seq<string>): (r: Store)
    requires ValidStore(st)
    ensures ValidStore(r)
    ensures forall m :: m in ms ==> m !in Members(ZEntries(r, k))
    ensures forall e :: e in ZEntries(r, k) <==> e in ZEntries(st, k) && e.member !in ms
    ensures !Exists(st, k) ==> !Exists(r, k)
    ensures r.ttl - {k} == st.ttl - {k}
    ensures forall k' :: k' != k ==> (k' in r.data <==> k' in st.data)
    ensures forall k' :: k' != k && k' in st.data ==> r.data[k'] == st.data[k']
    decreases |ms|
  {
    if |ms| == 0 then st
    else
      RemoveMemberValid(ZEntries(st, k), ms[0]);
      var st1 := PutZSet(st, k, RemoveMember(ZEntries(st, k), ms[0]));
      ZRem(st1, k, ms[1..])
  }

  /** ZRANK. */
  function ZRank(st: Store, k: string, m: string): Option<nat> {
    RankOf(ZEntries(st, k), m)
  }
}
